/** Merging the object payloads of a conflict set key by key (src/distributed/payload_domain.ts). */
module PayloadMerge {
  import opened Results
  import opened Json
  import opened JsonTheory
  import opened CanonicalKeys
  import opened DistributedEvents
  import opened CausalGraphs
  import opened ShownRows
  import opened ConflictSets
  import opened RowOrder

  predicate HoldsKey(r: Row, k: string) {
    r.payload.Obj? && k in Keys(r.payload)
  }

  /** The value stored under a key. */
  function Lookup(fields: seq<Field>, k: string): (v: Option<Json>)
    ensures v.Some? ==> exists i :: 0 <= i < |fields| && fields[i] == Field(k, v.value)
    ensures v.None? ==> forall i :: 0 <= i < |fields| ==> fields[i].key != k
  {
    if |fields| == 0 then None
    else if fields[0].key == k then
      assert fields[0] == Field(k, fields[0].value);
      Some(fields[0].value)
    else
      var v := Lookup(fields[1..], k);
      assert forall i :: 0 < i < |fields| ==> fields[i] == fields[1..][i - 1];
      v
  }

  lemma LookupField(fields: seq<Field>, f: Field)
    requires DistinctKeys(fields) && f in fields
    ensures Lookup(fields, f.key) == Some(f.value)
  {
    var i :| 0 <= i < |fields| && fields[i] == f;
    var v := Lookup(fields, f.key);
    assert v.Some?;
    var j :| 0 <= j < |fields| && fields[j] == Field(f.key, v.value);
    assert i == j;
  }

  function ValueOf(r: Row, k: string): Option<Json> {
    if HoldsKey(r, k) then Lookup(r.payload.fields, k) else None
  }

  /** The greatest row that holds the key. */
  ghost predicate TopHolder(members: seq<Row>, k: string, h: Row) {
    && h in members && HoldsKey(h, k)
    && forall x :: x in members && HoldsKey(x, k) ==> x == h || Less(x, h)
  }

  ghost predicate Held(members: seq<Row>, k: string) {
    exists x :: x in members && HoldsKey(x, k)
  }

  /** A canonical object over exactly the held keys; every key carries the value of its greatest holder. */
  ghost predicate GroupPayload(members: seq<Row>, v: Json) {
    && CanonicalJson(v) && v.Obj?
    && (forall k :: k in Keys(v) <==> Held(members, k))
    && (forall k, h :: TopHolder(members, k, h) ==> Lookup(v.fields, k) == Lookup(h.payload.fields, k))
  }

  function Holders(members: seq<Row>, k: string): (r: seq<Row>)
    ensures forall x :: x in r <==> x in members && HoldsKey(x, k)
  {
    if |members| == 0 then []
    else
      assert forall y :: y in members <==> y == members[0] || y in members[1..];
      var rest := Holders(members[1..], k);
      if HoldsKey(members[0], k) then [members[0]] + rest else rest
  }

  lemma {:induction false} HoldersDistinct(members: seq<Row>, k: string)
    requires DistinctRows(members)
    ensures DistinctRows(Holders(members, k))
  {
    if |members| > 0 {
      HoldersDistinct(members[1..], k);
      var rest := Holders(members[1..], k);
      forall i | 0 <= i < |rest|
        ensures rest[i].id != members[0].id
      {
        assert rest[i] in rest;
        var j :| 0 <= j < |members[1..]| && members[1..][j] == rest[i];
        assert members[j + 1].id != members[0].id;
      }
    }
  }

  ghost predicate Greatest(rows: seq<Row>, h: Row) {
    h in rows && forall x :: x in rows ==> x == h || Less(x, h)
  }

  /** The last row of the sorted list is the greatest. */
  lemma LastIsGreatest(rows: seq<Row>)
    requires DistinctRows(rows)
    ensures var sorted := SortBy(ByTime(), rows);
      |sorted| == |rows| && (|rows| > 0 ==> Greatest(rows, sorted[|sorted| - 1]))
  {
    ByTimeTotal(rows);
    SortByOrders(ByTime(), rows, rows);
    var sorted := SortBy(ByTime(), rows);
    if |rows| > 0 {
      var h := sorted[|sorted| - 1];
      assert h in sorted;
      forall x | x in rows
        ensures x == h || Less(x, h)
      {
        assert x in sorted;
        var i :| 0 <= i < |sorted| && sorted[i] == x;
        if i < |sorted| - 1 {
          assert ByTime()(sorted[i], sorted[|sorted| - 1]) < 0;
        }
      }
    }
  }

  lemma GreatestIsTop(members: seq<Row>, k: string, h: Row)
    requires Greatest(Holders(members, k), h)
    ensures TopHolder(members, k, h)
  {
  }

  /** The last of the sorted holders is the greatest. */
  lemma LastIsTop(members: seq<Row>, k: string)
    requires DistinctRows(members) && Held(members, k)
    ensures var sorted := SortBy(ByTime(), Holders(members, k));
      |sorted| > 0 && TopHolder(members, k, sorted[|sorted| - 1])
  {
    HoldersDistinct(members, k);
    HeldSomewhere(members, k);
    LastIsGreatest(Holders(members, k));
    GreatestIsTop(members, k, SortBy(ByTime(), Holders(members, k))[|Holders(members, k)| - 1]);
  }

  lemma HeldSomewhere(members: seq<Row>, k: string)
    requires Held(members, k)
    ensures |Holders(members, k)| > 0
  {
    var w :| w in members && HoldsKey(w, k);
    assert w in Holders(members, k);
  }

  lemma TopUnique(members: seq<Row>, k: string, h: Row, h': Row)
    requires TopHolder(members, k, h) && TopHolder(members, k, h')
    ensures h == h'
  {
    LessIsTotalOrder(h, h', h);
  }

  /** The merged payload is determined by the members, whatever order they come in. */
  lemma GroupPayloadUnique(members: seq<Row>, members': seq<Row>, v: Json, w: Json)
    requires DistinctRows(members) && forall x :: x in members <==> x in members'
    requires GroupPayload(members, v) && GroupPayload(members', w)
    ensures v == w
  {
    GroupPayloadIncluded(members, members', v, w);
    GroupPayloadIncluded(members, members', w, v);
    SortedFieldsUnique(v.fields, w.fields);
  }

  lemma GroupPayloadIncluded(members: seq<Row>, members': seq<Row>, v: Json, w: Json)
    requires DistinctRows(members) && forall x :: x in members <==> x in members'
    requires GroupPayload(members, v) || GroupPayload(members', v)
    requires GroupPayload(members, w) || GroupPayload(members', w)
    ensures forall f :: f in v.fields ==> f in w.fields
  {
    forall f | f in v.fields
      ensures f in w.fields
    {
      SortedDistinct(v.fields);
      LookupField(v.fields, f);
      assert f.key in Keys(v);
      assert forall k :: Held(members, k) <==> Held(members', k);
      var h := TopExists(members, members', f.key);
      SameLookup(members, members', v, f.key, h);
      SameLookup(members, members', w, f.key, h);
    }
  }

  lemma TopExists(members: seq<Row>, members': seq<Row>, k: string) returns (h: Row)
    requires DistinctRows(members) && (forall x :: x in members <==> x in members') && Held(members, k)
    ensures TopHolder(members, k, h) && TopHolder(members', k, h)
  {
    LastIsTop(members, k);
    var sorted := SortBy(ByTime(), Holders(members, k));
    h := sorted[|sorted| - 1];
  }

  lemma SameLookup(members: seq<Row>, members': seq<Row>, v: Json, k: string, h: Row)
    requires GroupPayload(members, v) || GroupPayload(members', v)
    requires TopHolder(members, k, h) && TopHolder(members', k, h)
    ensures Lookup(v.fields, k) == Lookup(h.payload.fields, k)
  {
  }

  // ----- what the texts of the payloads show -----

  function ShownFields(fields: seq<Field>): (shown: seq<Field>)
    ensures |shown| == |fields|
    ensures forall i :: 0 <= i < |shown| ==> shown[i] == Field(fields[i].key, Printed(fields[i].value))
  {
    seq(|fields|, i requires 0 <= i < |fields| => Field(fields[i].key, Printed(fields[i].value)))
  }

  lemma {:induction false} LookupShown(fields: seq<Field>, k: string)
    ensures Lookup(fields, k).None? <==> Lookup(ShownFields(fields), k).None?
    ensures Lookup(fields, k).Some? ==> Lookup(ShownFields(fields), k) == Some(Printed(Lookup(fields, k).value))
  {
    if |fields| > 0 {
      LookupShown(fields[1..], k);
      assert ShownFields(fields)[1..] == ShownFields(fields[1..]);
    }
  }

  lemma HoldsShown(r: Row, k: string)
    ensures HoldsKey(ShownRow(r), k) <==> HoldsKey(r, k)
  {
    if r.payload.Obj? {
      var fs, gs := r.payload.fields, ShownRow(r).payload.fields;
      assert forall i :: 0 <= i < |fs| ==> gs[i].key == fs[i].key;
      if HoldsKey(r, k) {
        var i :| 0 <= i < |fs| && fs[i].key == k;
        assert gs[i].key == k;
      }
    }
  }

  lemma HeldShown(members: seq<Row>, k: string)
    ensures Held(ShownList(members), k) <==> Held(members, k)
  {
    if x :| x in members && HoldsKey(x, k) {
      HoldsShown(x, k);
      ShownListMembers(members, ShownRow(x));
    }
    if y :| y in ShownList(members) && HoldsKey(y, k) {
      ShownListMembers(members, y);
      var x :| x in members && y == ShownRow(x);
      HoldsShown(x, k);
    }
  }

  /** The greatest holder among the shown rows is the one among the rows, shown. */
  lemma TopShown(members: seq<Row>, k: string, top: Row, h: Row)
    requires TopHolder(members, k, top) && TopHolder(ShownList(members), k, h)
    ensures h == ShownRow(top)
  {
    HoldsShown(top, k);
    ShownListMembers(members, ShownRow(top));
    forall y | y in ShownList(members) && HoldsKey(y, k)
      ensures y == ShownRow(top) || Less(y, ShownRow(top))
    {
      ShownListMembers(members, y);
      var x :| x in members && y == ShownRow(x);
      HoldsShown(x, k);
    }
    TopUnique(ShownList(members), k, h, ShownRow(top));
  }

  // ----- the merge -----

  /** A property that stays, with a canonical value. */
  ghost predicate KeptCanon(f: Field) {
    Kept(f) && CanonValid(f.value)
  }

  lemma HeldValue(r: Row, k: string)
    requires HoldsKey(r, k) && CanonValid(r.payload)
    ensures Lookup(r.payload.fields, k).Some?
    ensures KeptCanon(Field(k, Lookup(r.payload.fields, k).value))
  {
    var i :| 0 <= i < |r.payload.fields| && r.payload.fields[i].key == k;
    var v := Lookup(r.payload.fields, k);
    assert v.Some?;
    var j :| 0 <= j < |r.payload.fields| && r.payload.fields[j] == Field(k, v.value);
  }

  /** Values that print alike show the same, so agreement and disagreement both yield what the greatest
      holder's value shows. */
  method KeyValue(members: seq<Row>, k: string) returns (v: Json)
    requires DistinctRows(members) && Held(members, k)
    requires forall m :: m in members ==> CanonValid(m.payload)
    ensures KeptCanon(Field(k, v))
    ensures forall h :: TopHolder(ShownList(members), k, h) ==> Lookup(h.payload.fields, k) == Some(Printed(v))
  {
    var holders := Holders(members, k);
    LastIsTop(members, k);
    var sorted := SortBy(ByTime(), holders);
    var top := sorted[|sorted| - 1];
    assert |holders| > 0 && holders[0] in holders && top in holders;
    forall h | h in holders
      ensures ValueOf(h, k).Some? && KeptCanon(Field(k, ValueOf(h, k).value))
    {
      HeldValue(h, k);
    }
    var agreed := AgreedValue(holders, k);
    if agreed.Some? {
      CanonTextShows(agreed.value, ValueOf(top, k).value);
      v := agreed.value;
    } else {
      v := ValueOf(top, k).value;
    }
    TopValue(members, k, top, v);
  }

  lemma TopValue(members: seq<Row>, k: string, top: Row, v: Json)
    requires TopHolder(members, k, top) && ValueOf(top, k).Some? && Printed(v) == Printed(ValueOf(top, k).value)
    ensures forall h :: TopHolder(ShownList(members), k, h) ==> Lookup(h.payload.fields, k) == Some(Printed(v))
  {
    forall h | TopHolder(ShownList(members), k, h)
      ensures Lookup(h.payload.fields, k) == Some(Printed(v))
    {
      TopShown(members, k, top, h);
      LookupShown(top.payload.fields, k);
      assert h.payload.fields == ShownFields(top.payload.fields);
    }
  }

  /** The first holder's value when all holders' values print alike. */
  method AgreedValue(holders: seq<Row>, k: string) returns (v: Option<Json>)
    requires |holders| > 0 && forall h :: h in holders ==> ValueOf(h, k).Some?
    ensures v.Some? ==> v == ValueOf(holders[0], k)
    ensures v.Some? ==> forall h :: h in holders ==> Stringify(ValueOf(h, k).value) == Stringify(v.value)
  {
    assert holders[0] in holders;
    var text := Stringify(ValueOf(holders[0], k).value);
    for i := 1 to |holders|
      invariant forall j :: 0 <= j < i ==>
          ValueOf(holders[j], k).Some? && Stringify(ValueOf(holders[j], k).value) == text
    {
      assert holders[i] in holders;
      if Stringify(ValueOf(holders[i], k).value) != text {
        return None;
      }
    }
    v := ValueOf(holders[0], k);
  }

  ghost predicate Collected(members: seq<Row>, out: seq<Field>, todo: set<string>) {
    && DistinctKeys(out)
    && (forall f :: f in out ==> KeptJson(f) && f.key !in todo && Held(members, f.key))
    && (forall k :: Held(members, k) && k !in todo ==> exists f :: f in out && f.key == k)
    && (forall f, h :: f in out && TopHolder(members, f.key, h) ==> Lookup(h.payload.fields, f.key) == Some(f.value))
  }

  ghost predicate KeptJson(f: Field) {
    Kept(f) && CanonicalJson(f.value)
  }

  lemma OutIsJson(out: seq<Field>)
    requires DistinctKeys(out) && forall f :: f in out ==> KeptJson(f)
    ensures CanonicalJson(Canon(Obj(out))) && forall f :: f in Canon(Obj(out)).fields <==> f in out
  {
    var o := Obj(out);
    forall i | 0 <= i < |out|
      ensures Valid(out[i].value) && Lossless(out[i].value)
    {
      assert out[i] in out;
    }
    CanonIsCanon(o);
    SameFields(out);
  }

  lemma FinishPayload(members: seq<Row>, out: seq<Field>)
    requires Collected(members, out, {})
    ensures GroupPayload(members, Canon(Obj(out)))
  {
    OutIsJson(out);
    var fields := Canon(Obj(out)).fields;
    SortedDistinct(fields);
    forall k
      ensures k in Keys(Canon(Obj(out))) <==> Held(members, k)
    {
      FinishedKey(members, out, fields, k);
    }
    forall k, h | TopHolder(members, k, h)
      ensures Lookup(fields, k) == Lookup(h.payload.fields, k)
    {
      FinishedTop(members, out, fields, k, h);
    }
  }

  lemma FinishedKey(members: seq<Row>, out: seq<Field>, fields: seq<Field>, k: string)
    requires Collected(members, out, {}) && forall f :: f in fields <==> f in out
    ensures k in Keys(Obj(fields)) <==> Held(members, k)
  {
    if k in Keys(Obj(fields)) {
      var i :| 0 <= i < |fields| && fields[i].key == k;
      assert fields[i] in out;
    }
    if Held(members, k) {
      var f :| f in out && f.key == k;
      assert f in fields;
    }
  }

  lemma FinishedTop(members: seq<Row>, out: seq<Field>, fields: seq<Field>, k: string, h: Row)
    requires Collected(members, out, {}) && forall f :: f in fields <==> f in out
    requires DistinctKeys(fields) && TopHolder(members, k, h)
    ensures Lookup(fields, k) == Lookup(h.payload.fields, k)
  {
    assert Held(members, k);
    var f :| f in out && f.key == k;
    LookupField(fields, f);
  }

  lemma SameFields(out: seq<Field>)
    requires forall f :: f in out ==> KeptJson(f)
    ensures forall f :: f in Canon(Obj(out)).fields <==> f in out
  {
    var o := Obj(out);
    forall f | f in out
      ensures Kept(f) && Canon(f.value) == f.value
    {
      CanonFixpoint(f.value);
    }
    assert forall x :: x in CanonFields(o, out) <==> x in out;
  }

  /** mergeObjectPayloadsGroup; what is promised of the result is what its text shows. */
  method MergeObjectPayloadsGroup(members: seq<Row>) returns (v: Json)
    requires DistinctRows(members)
    requires forall m :: m in members ==> CanonValid(m.payload)
    ensures CanonValid(v) && GroupPayload(ShownList(members), Printed(v))
  {
    var todo := HeldKeys(members);
    ghost var shown := ShownList(members);
    NothingCollected(members, todo);
    var out: seq<Field> := [];
    while todo != {}
      invariant forall k :: k in todo ==> Held(members, k)
      invariant forall f :: f in out ==> KeptCanon(f)
      invariant Collected(shown, ShownFields(out), todo)
      decreases todo
    {
      var k :| k in todo;
      var value := KeyValue(members, k);
      CollectShown(members, out, todo, k, value);
      out := out + [Field(k, value)];
      todo := todo - {k};
    }
    FinishPayload(shown, ShownFields(out));
    FinishShown(out);
    v := Canon(Obj(out));
  }

  lemma NothingCollected(members: seq<Row>, keys: set<string>)
    requires forall k :: k in keys <==> Held(members, k)
    ensures Collected(ShownList(members), ShownFields([]), keys)
  {
    forall k
      ensures Held(ShownList(members), k) <==> k in keys
    {
      HeldShown(members, k);
    }
  }

  lemma CollectShown(members: seq<Row>, out: seq<Field>, todo: set<string>, k: string, v: Json)
    requires Collected(ShownList(members), ShownFields(out), todo) && k in todo && Held(members, k)
    requires KeptCanon(Field(k, v))
    requires forall h :: TopHolder(ShownList(members), k, h) ==> Lookup(h.payload.fields, k) == Some(Printed(v))
    ensures Collected(ShownList(members), ShownFields(out + [Field(k, v)]), todo - {k})
  {
    ShownIsJson(v);
    HeldShown(members, k);
    CollectKey(ShownList(members), ShownFields(out), todo, k, Printed(v));
    assert ShownFields(out + [Field(k, v)]) == ShownFields(out) + [Field(k, Printed(v))];
  }

  /** Canonicalising and showing commute on the collected object. */
  lemma FinishShown(out: seq<Field>)
    requires DistinctKeys(ShownFields(out)) && forall f :: f in out ==> KeptCanon(f)
    ensures CanonValid(Canon(Obj(out))) && Printed(Canon(Obj(out))) == Canon(Obj(ShownFields(out)))
  {
    var o := Obj(out);
    assert forall i :: 0 <= i < |out| ==> ShownFields(out)[i].key == out[i].key;
    assert forall i :: 0 <= i < |out| ==> out[i] in out;
    assert Valid(o) && NoProto(o);
    CanonIsCanon(o);
    CanonPlain(o);
    PrintedNormal(o);
    PrintedKeepsProto(o);
    assert Printed(o) == Obj(ShownFields(out));
    CanonPlain(Printed(o));
  }

  method HeldKeys(members: seq<Row>) returns (keys: set<string>)
    ensures forall k :: k in keys <==> Held(members, k)
  {
    keys := {};
    for i := 0 to |members|
      invariant forall k :: k in keys <==> Held(members[..i], k)
    {
      // A payload that is no object has no keys.
      KeysStep(members, i, keys);
      keys := keys + Keys(members[i].payload);
    }
    assert members[..|members|] == members;
  }

  lemma KeysStep(members: seq<Row>, i: nat, keys: set<string>)
    requires i < |members| && forall k :: k in keys <==> Held(members[..i], k)
    ensures forall k :: k in keys + Keys(members[i].payload) <==> Held(members[..i + 1], k)
  {
    assert forall x :: x in members[..i + 1] <==> x in members[..i] || x == members[i];
    forall k
      ensures k in keys + Keys(members[i].payload) <==> Held(members[..i + 1], k)
    {
      assert HoldsKey(members[i], k) <==> k in Keys(members[i].payload);
    }
  }

  lemma CollectKey(members: seq<Row>, out: seq<Field>, todo: set<string>, k: string, v: Json)
    requires Collected(members, out, todo) && k in todo && Held(members, k) && KeptJson(Field(k, v))
    requires forall h :: TopHolder(members, k, h) ==> Lookup(h.payload.fields, k) == Some(v)
    ensures Collected(members, out + [Field(k, v)], todo - {k})
  {
    var out' := out + [Field(k, v)];
    assert forall f :: f in out' <==> f in out || f == Field(k, v);
    forall k' | Held(members, k') && k' !in todo - {k}
      ensures exists f :: f in out' && f.key == k'
    {
      if k' == k {
        assert Field(k, v) in out';
      } else {
        var f :| f in out && f.key == k';
        assert f in out';
      }
    }
    forall i, j | 0 <= i < j < |out'|
      ensures out'[i].key != out'[j].key
    {
      assert out[i] in out;
    }
  }
}
