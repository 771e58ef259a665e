/** Deduplication of row lists by id and text (src/distributed/merge_algebra.ts, lines 174 to 186). */
module Deduplication {
  import opened Results
  import opened Ids
  import opened Json
  import opened DistributedEvents
  import opened CausalGraphs
  import opened ShownRows
  import opened RowOrder

  function FindRow(list: seq<Row>, id: Id): (r: Option<Row>)
    ensures r.None? <==> forall x :: x in list ==> x.id != id
    ensures r.Some? ==> r.value in list && r.value.id == id
  {
    if |list| == 0 then None
    else if list[0].id == id then Some(list[0])
    else
      assert forall x :: x in list <==> x == list[0] || x in list[1..];
      FindRow(list[1..], id)
  }

  /** One row of the deduplicating loop: a row may come back only with the same text. */
  function AddRow(r: Result<seq<Row>, InputError>, e: Row): Result<seq<Row>, InputError> {
    var list :- r;
    var c :- CanonicalizeRow(e);
    match FindRow(list, c.id)
    case None => Ok(list + [c])
    case Some(ex) => if RowText(ex) != RowText(c) then Err(MergeConflict(c.id)) else Ok(list)
  }

  /** Canonical rows in first-seen order. */
  function Dedupe(events: seq<Row>): Result<seq<Row>, InputError> {
    if |events| == 0 then Ok([]) else AddRow(Dedupe(events[..|events| - 1]), events[|events| - 1])
  }

  // ----- what it returns -----

  ghost predicate CanonicalOf(events: seq<Row>, x: Row) {
    exists e :: e in events && CanonicalizeRow(e) == Ok(x)
  }

  /** The canonical form of the first row with its id. */
  ghost predicate FirstWithId(events: seq<Row>, x: Row) {
    exists i :: 0 <= i < |events| && CanonicalizeRow(events[i]) == Ok(x)
                && forall k :: 0 <= k < i ==> events[k].id != x.id
  }

  /** Rows agree when canonical rows of one id always have one text. */
  ghost predicate Agreeing(events: seq<Row>) {
    && (forall e :: e in events ==> CanonicalizeRow(e).Ok?)
    && (forall x, y :: CanonicalOf(events, x) && CanonicalOf(events, y) && x.id == y.id ==> RowText(x) == RowText(y))
  }

  ghost predicate ListsText(list: seq<Row>, x: Row) {
    exists y :: y in list && y.id == x.id && RowText(y) == RowText(x)
  }

  /** What deduplication must return: it succeeds exactly on agreeing lists, and then lists for every id that
      occurs the canonical form of the first row with it, which has the text of all. */
  ghost predicate DedupeOk(events: seq<Row>, r: Result<seq<Row>, InputError>) {
    && (r.Ok? <==> Agreeing(events))
    && (r.Ok? ==>
          && DistinctRows(r.value)
          && (forall x :: x in r.value ==> FirstWithId(events, x))
          && (forall x :: CanonicalOf(events, x) ==> ListsText(r.value, x)))
  }

  lemma CanonicalOfStep(init: seq<Row>, last: Row, x: Row)
    ensures CanonicalOf(init + [last], x) <==> CanonicalOf(init, x) || CanonicalizeRow(last) == Ok(x)
  {
    assert forall e :: e in init + [last] <==> e in init || e == last;
  }

  lemma FirstIsCanonical(events: seq<Row>, x: Row)
    requires FirstWithId(events, x)
    ensures CanonicalOf(events, x)
  {
    var i :| 0 <= i < |events| && CanonicalizeRow(events[i]) == Ok(x);
    assert events[i] in events;
  }

  lemma FirstStays(init: seq<Row>, last: Row, x: Row)
    requires FirstWithId(init, x)
    ensures FirstWithId(init + [last], x)
  {
    var i :| 0 <= i < |init| && CanonicalizeRow(init[i]) == Ok(x) && forall k :: 0 <= k < i ==> init[k].id != x.id;
    assert (init + [last])[i] == init[i];
  }

  /** For every list of rows, lossy payloads included. */
  lemma {:induction false} DedupeExactly(events: seq<Row>)
    ensures DedupeOk(events, Dedupe(events))
  {
    if |events| > 0 {
      var init, last := events[..|events| - 1], events[|events| - 1];
      DedupeExactly(init);
      assert events == init + [last];
      DedupeStep(init, last, Dedupe(init));
    }
  }

  lemma DedupeStep(init: seq<Row>, last: Row, r: Result<seq<Row>, InputError>)
    requires DedupeOk(init, r)
    ensures DedupeOk(init + [last], AddRow(r, last))
  {
    var events := init + [last];
    assert forall e :: e in events <==> e in init || e == last;
    forall x
      ensures CanonicalOf(events, x) <==> CanonicalOf(init, x) || CanonicalizeRow(last) == Ok(x)
    {
      CanonicalOfStep(init, last, x);
    }
    if r.Ok? && CanonicalizeRow(last).Ok? {
      var c := CanonicalizeRow(last).value;
      match FindRow(r.value, c.id)
      case Some(found) => AddKnown(init, last, r.value, c, found);
      case None => AddNew(init, last, r.value, c);
    }
  }

  /** The canonical rows of the longer list. */
  ghost predicate Grows(init: seq<Row>, events: seq<Row>, c: Row) {
    && (forall e :: e in events ==> CanonicalizeRow(e).Ok?)
    && forall x :: CanonicalOf(events, x) <==> CanonicalOf(init, x) || x == c
  }

  lemma AddKnown(init: seq<Row>, last: Row, list: seq<Row>, c: Row, found: Row)
    requires DedupeOk(init, Ok(list)) && CanonicalizeRow(last) == Ok(c) && Grows(init, init + [last], c)
    requires found in list && found.id == c.id
    ensures Agreeing(init + [last]) <==> RowText(found) == RowText(c)
    ensures RowText(found) == RowText(c) ==> DedupeOk(init + [last], Ok(list))
  {
    var events := init + [last];
    FirstIsCanonical(init, found);
    assert CanonicalOf(events, c) && CanonicalOf(events, found);
    assert Agreeing(init);
    forall x | x in list
      ensures FirstWithId(events, x)
    {
      FirstStays(init, last, x);
    }
  }

  lemma AddNew(init: seq<Row>, last: Row, list: seq<Row>, c: Row)
    requires DedupeOk(init, Ok(list)) && CanonicalizeRow(last) == Ok(c) && Grows(init, init + [last], c)
    requires forall x :: x in list ==> x.id != c.id
    ensures DedupeOk(init + [last], Ok(list + [c]))
  {
    var events := init + [last];
    assert Agreeing(init);
    NewId(init, list, c);
    assert forall i :: 0 <= i < |list| ==> list[i] in list;
    FirstsStay(init, last, list, c);
    forall x | CanonicalOf(events, x)
      ensures ListsText(list + [c], x)
    {
      TextStays(init, list, c, x);
    }
  }

  lemma FirstsStay(init: seq<Row>, last: Row, list: seq<Row>, c: Row)
    requires (forall x :: x in list ==> FirstWithId(init, x)) && CanonicalizeRow(last) == Ok(c)
    requires forall k :: 0 <= k < |init| ==> init[k].id != c.id
    ensures forall x :: x in list + [c] ==> FirstWithId(init + [last], x)
  {
    forall x | x in list + [c]
      ensures FirstWithId(init + [last], x)
    {
      if x in list {
        FirstStays(init, last, x);
      } else {
        NewIsFirst(init, last, c);
      }
    }
  }

  lemma TextStays(init: seq<Row>, list: seq<Row>, c: Row, x: Row)
    requires DedupeOk(init, Ok(list)) && (CanonicalOf(init, x) || x == c)
    ensures ListsText(list + [c], x)
  {
    if CanonicalOf(init, x) {
      assert ListsText(list, x);
      var y :| y in list && y.id == x.id && RowText(y) == RowText(x);
      assert y in list + [c];
    } else {
      assert c in list + [c];
    }
  }

  /** An id that is not listed has not occurred. */
  lemma NewId(init: seq<Row>, list: seq<Row>, c: Row)
    requires DedupeOk(init, Ok(list)) && forall x :: x in list ==> x.id != c.id
    ensures forall x :: CanonicalOf(init, x) ==> x.id != c.id
    ensures forall k :: 0 <= k < |init| ==> init[k].id != c.id
  {
    forall x | CanonicalOf(init, x)
      ensures x.id != c.id
    {
      assert ListsText(list, x);
    }
    forall k | 0 <= k < |init|
      ensures init[k].id != c.id
    {
      assert init[k] in init;
      assert CanonicalOf(init, CanonicalizeRow(init[k]).value);
    }
  }

  lemma NewIsFirst(init: seq<Row>, last: Row, c: Row)
    requires CanonicalizeRow(last) == Ok(c) && forall k :: 0 <= k < |init| ==> init[k].id != c.id
    ensures FirstWithId(init + [last], c)
  {
    assert (init + [last])[|init|] == last;
  }

  // ----- independence of order and repetition -----

  /** Rows whose payloads are values the language can hold. */
  ghost predicate ValidRows(events: seq<Row>) {
    forall e :: e in events ==> Valid(e.payload)
  }

  lemma CanonicalOfValid(events: seq<Row>, x: Row)
    requires ValidRows(events) && CanonicalOf(events, x)
    ensures CanonValidRow(x)
  {
    var e :| e in events && CanonicalizeRow(e) == Ok(x);
    CanonicalizedIsValid(e);
  }

  /** Of the listed rows exactly those are shown that canonical forms of the input show. */
  lemma DedupeShows(events: seq<Row>, list: seq<Row>, y: Row)
    requires ValidRows(events) && DedupeOk(events, Ok(list))
    ensures y in ShownList(list) <==> exists x :: CanonicalOf(events, x) && y == ShownRow(x)
  {
    ShownListMembers(list, y);
    if z :| z in list && y == ShownRow(z) {
      FirstIsCanonical(events, z);
    }
    if x :| CanonicalOf(events, x) && y == ShownRow(x) {
      assert ListsText(list, x);
      var z :| z in list && z.id == x.id && RowText(z) == RowText(x);
      FirstIsCanonical(events, z);
      CanonicalOfValid(events, z);
      CanonicalOfValid(events, x);
      TextShowsRow(z, x);
    }
  }

  /** Deduplication is independent of order and repetition as far as texts go: lists of the same rows all fail,
      or all yield tables that show the same. */
  lemma DedupeOrder(events: seq<Row>, events': seq<Row>)
    requires ValidRows(events) && forall e :: e in events <==> e in events'
    ensures Dedupe(events).Ok? <==> Dedupe(events').Ok?
    ensures Dedupe(events).Ok? ==>
              TableOf(ShownList(Dedupe(events).value)) == TableOf(ShownList(Dedupe(events').value))
  {
    DedupeExactly(events);
    DedupeExactly(events');
    assert forall x :: CanonicalOf(events, x) <==> CanonicalOf(events', x);
    if Dedupe(events).Ok? {
      var list, list' := Dedupe(events).value, Dedupe(events').value;
      forall y
        ensures y in ShownList(list) <==> y in ShownList(list')
      {
        DedupeShows(events, list, y);
        DedupeShows(events', list', y);
      }
      ShownDistinct(list);
      ShownDistinct(list');
      SameTable(ShownList(list), ShownList(list'));
    }
  }

  // ----- the loop -----

  method DedupeRows(events: seq<Row>) returns (r: Result<seq<Row>, InputError>)
    ensures r == Dedupe(events)
  {
    var list: seq<Row> := [];
    for i := 0 to |events|
      invariant Dedupe(events[..i]) == Ok(list)
    {
      assert events[..i + 1][..i] == events[..i];
      var c := CanonicalizeRow(events[i]);
      if c.Err? {
        DedupeFails(events, i + 1);
        return Err(c.error);
      }
      var ex := FindRow(list, c.value.id);
      if ex.Some? {
        if RowText(ex.value) != RowText(c.value) {
          DedupeFails(events, i + 1);
          return Err(MergeConflict(c.value.id));
        }
      } else {
        list := list + [c.value];
      }
    }
    assert events[..|events|] == events;
    r := Ok(list);
  }

  lemma {:induction false} DedupeFails(events: seq<Row>, i: nat)
    requires i <= |events| && Dedupe(events[..i]).Err?
    ensures Dedupe(events) == Dedupe(events[..i])
  {
    if i < |events| {
      assert events[..|events| - 1][..i] == events[..i];
      DedupeFails(events[..|events| - 1], i);
    } else {
      assert events[..i] == events;
    }
  }
}
