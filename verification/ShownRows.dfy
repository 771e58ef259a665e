/** Rows as their canonical texts show them: lossy parts of a payload replaced, all else as it is. What the
    row log decides by texts and identifiers, it decides on these. */
module ShownRows {
  import opened Results
  import opened Ids
  import opened Digraph
  import opened Json
  import opened JsonTheory
  import opened CanonicalKeys
  import opened DistributedEvents
  import opened CausalGraphs

  // ----- values -----

  /** Values that canonicalising leaves alone; they may print like others. */
  ghost predicate CanonValid(v: Json) {
    IsCanon(v) && Valid(v)
  }

  /** A shown canonical value is canonical JSON with the same text. */
  lemma ShownIsJson(v: Json)
    requires CanonValid(v)
    ensures CanonicalJson(Printed(v)) && Stringify(Printed(v)) == Stringify(v)
    ensures Canon(v) == v && Canon(Printed(v)) == Printed(v) && Printed(Printed(v)) == Printed(v)
    ensures Printed(v) == Undefined <==> v == Undefined
  {
    PrintedText(v);
    PrintedKeepsProto(v);
    PrintedFixpoint(v);
    PrintedFixpoint(Printed(v));
    CanonFixpoint(v);
    CanonFixpoint(Printed(v));
  }

  /** Canonical values have one text exactly when they show the same. */
  lemma CanonTextShows(v: Json, w: Json)
    requires CanonValid(v) && CanonValid(w)
    ensures Stringify(v) == Stringify(w) <==> Printed(v) == Printed(w)
  {
    ShownIsJson(v);
    ShownIsJson(w);
    CanonicalTextInjective(Printed(v), Printed(w));
  }

  // ----- rows -----

  function ShownRow(r: Row): Row {
    r.(payload := Printed(r.payload))
  }

  /** Rows in canonical form, as validation admits them. */
  ghost predicate CanonValidRow(r: Row) {
    CanonicalRow(r) && CanonValid(r.payload)
  }

  lemma CanonicalizedIsValid(r: Row)
    requires Valid(r.payload) && CanonicalizeRow(r).Ok?
    ensures CanonValidRow(CanonicalizeRow(r).value)
  {
    CanonicalizeRowFacts(r);
    CanonIsCanon(r.payload);
  }

  /** A shown row is a row of canonical JSON with the same text and derived id. */
  lemma ShownRowFacts(digest: Digest, r: Row)
    requires CanonValid(r.payload)
    ensures CanonicalJson(ShownRow(r).payload) && (CanonicalRow(r) ==> CanonicalRow(ShownRow(r)))
    ensures RowText(ShownRow(r)) == RowText(r) && DerivedId(digest, ShownRow(r)) == DerivedId(digest, r)
  {
    ShownIsJson(r.payload);
    RowTextDecides(Some(r.id), r, Some(r.id), ShownRow(r));
    RowTextDecides(None, r, None, ShownRow(r));
  }

  /** Two rows have one text exactly when they show the same. */
  lemma TextShowsRow(r: Row, s: Row)
    requires CanonValidRow(r) && CanonValidRow(s)
    ensures RowText(r) == RowText(s) <==> ShownRow(r) == ShownRow(s)
  {
    ShownIsJson(r.payload);
    ShownIsJson(s.payload);
    RowTextDecides(Some(r.id), r, Some(s.id), s);
    assert ShownRow(r) == r.(id := 0, payload := Null).(id := r.id, payload := Printed(r.payload));
    assert ShownRow(s) == s.(id := 0, payload := Null).(id := s.id, payload := Printed(s.payload));
    assert r.(id := 0, payload := Null) == ShownRow(r).(id := 0, payload := Null);
    assert s.(id := 0, payload := Null) == ShownRow(s).(id := 0, payload := Null);
  }

  // ----- lists and tables of rows -----

  function ShownList(rows: seq<Row>): (shown: seq<Row>)
    ensures |shown| == |rows| && forall i :: 0 <= i < |shown| ==> shown[i] == ShownRow(rows[i])
  {
    seq(|rows|, i requires 0 <= i < |rows| => ShownRow(rows[i]))
  }

  lemma ShownListMembers(rows: seq<Row>, y: Row)
    ensures y in ShownList(rows) <==> exists x :: x in rows && y == ShownRow(x)
  {
    if y in ShownList(rows) {
      var i :| 0 <= i < |rows| && ShownList(rows)[i] == y;
      assert rows[i] in rows;
    }
    if x :| x in rows && y == ShownRow(x) {
      var i :| 0 <= i < |rows| && rows[i] == x;
      assert ShownList(rows)[i] == y;
    }
  }

  lemma ShownListAppend(rows: seq<Row>, more: seq<Row>)
    ensures ShownList(rows + more) == ShownList(rows) + ShownList(more)
  {
  }

  /** Rows without lossy payloads are shown as they are. */
  lemma LosslessShown(rows: seq<Row>)
    requires forall x :: x in rows ==> Lossless(x.payload)
    ensures ShownList(rows) == rows
  {
    forall i | 0 <= i < |rows|
      ensures ShownRow(rows[i]) == rows[i]
    {
      assert rows[i] in rows;
      PrintedFixpoint(rows[i].payload);
    }
  }

  /** S is the table E shows. */
  ghost predicate Shows(E: Rows, S: Rows) {
    E.Keys == S.Keys && forall id :: id in E ==> S[id] == ShownRow(E[id])
  }

  lemma {:induction false} ShownTable(rows: seq<Row>)
    ensures Shows(TableOf(rows), TableOf(ShownList(rows)))
  {
    if |rows| > 0 {
      var init, last := rows[..|rows| - 1], rows[|rows| - 1];
      ShownTable(init);
      assert ShownList(rows)[..|rows| - 1] == ShownList(init);
      ShowsNext(TableOf(init), TableOf(ShownList(init)), last);
    }
  }

  lemma ShowsNext(E: Rows, S: Rows, last: Row)
    requires Shows(E, S)
    ensures Shows(E[last.id := last], S[last.id := ShownRow(last)])
  {
  }

  lemma ShownDistinct(rows: seq<Row>)
    ensures DistinctRows(ShownList(rows)) <==> DistinctRows(rows)
  {
    assert forall i :: 0 <= i < |rows| ==> ShownList(rows)[i].id == rows[i].id;
  }

  lemma ShownEdges(E: Rows, S: Rows, a: Id, b: Id)
    requires Shows(E, S)
    ensures Edge(Causal(E), a, b) <==> Edge(Causal(S), a, b)
  {
    forall x, y
      ensures OnChain(E, x, y) <==> OnChain(S, x, y)
    {
    }
  }

  /** Payloads take no part in happens-before. */
  lemma ShownBefore(E: Rows, S: Rows, a: Id, b: Id)
    requires Shows(E, S)
    ensures Before(E, a, b) <==> Before(S, a, b)
  {
    forall x, y
      ensures Edge(Causal(E), x, y) <==> Edge(Causal(S), x, y)
    {
      ShownEdges(E, S, x, y);
    }
    if Before(E, a, b) {
      ReachMonotone(Causal(S), Causal(E), a, b);
    }
    if Before(S, a, b) {
      ReachMonotone(Causal(E), Causal(S), a, b);
    }
  }

  lemma ShownDescendants(E: Rows, S: Rows, desc: map<Id, set<Id>>)
    requires Shows(E, S)
    ensures DescendantTable(E, desc) <==> DescendantTable(S, desc)
  {
    forall a, b
      ensures Before(E, a, b) <==> Before(S, a, b)
    {
      ShownBefore(E, S, a, b);
    }
  }
}
