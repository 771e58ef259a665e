/** Sorting rows by a comparator, the causal comparator and replay safety
    (src/distributed/event_ordering.ts, src/distributed/causality.ts). */
module RowOrder {
  import opened Results
  import opened Ids
  import opened Digraph
  import opened DistributedEvents
  import opened CausalGraphs

  type Comparator = (Row, Row) -> int

  // ----- Array.prototype.sort -----

  function InsertBy(cmp: Comparator, x: Row, s: seq<Row>): (r: seq<Row>)
    ensures |r| == |s| + 1 && forall y :: y in r <==> y == x || y in s
  {
    if |s| == 0 || cmp(x, s[0]) <= 0 then [x] + s
    else
      var rest := InsertBy(cmp, x, s[1..]);
      assert forall y :: y in s <==> y == s[0] || y in s[1..];
      [s[0]] + rest
  }

  /** A stable sort. Where the comparator is no order the result is still a rearrangement. */
  function SortBy(cmp: Comparator, s: seq<Row>): (r: seq<Row>)
    ensures |r| == |s| && forall y :: y in r <==> y in s
  {
    if |s| == 0 then []
    else
      assert forall y :: y in s <==> y == s[0] || y in s[1..];
      InsertBy(cmp, s[0], SortBy(cmp, s[1..]))
  }

  ghost predicate OrderAt(cmp: Comparator, x: Row, y: Row, z: Row) {
    && (x.id == y.id || cmp(x, y) < 0 || cmp(y, x) < 0)
    && (cmp(x, y) < 0 <==> cmp(y, x) > 0)
    && (cmp(x, y) < 0 && cmp(y, z) < 0 ==> cmp(x, z) < 0)
  }

  /** A strict total order on the listed rows. */
  ghost predicate TotalOrder(cmp: Comparator, s: seq<Row>) {
    forall x, y, z :: x in s && y in s && z in s ==> OrderAt(cmp, x, y, z)
  }

  ghost predicate OrderedBy(cmp: Comparator, s: seq<Row>) {
    forall i, j :: 0 <= i < j < |s| ==> cmp(s[i], s[j]) < 0
  }

  lemma {:induction false} InsertByOrdered(cmp: Comparator, x: Row, s: seq<Row>, all: seq<Row>)
    requires OrderedBy(cmp, s) && TotalOrder(cmp, all) && x in all
    requires forall y :: y in s ==> y in all && y.id != x.id
    ensures OrderedBy(cmp, InsertBy(cmp, x, s))
  {
    if |s| > 0 {
      assert s[0] in s;
      assert OrderAt(cmp, x, s[0], x);
      if cmp(x, s[0]) <= 0 {
        FirstBefore(cmp, x, s, all);
      } else {
        assert forall y :: y in s[1..] ==> y in s;
        InsertByOrdered(cmp, x, s[1..], all);
        ConsOrdered(cmp, s[0], InsertBy(cmp, x, s[1..]));
      }
    }
  }

  lemma FirstBefore(cmp: Comparator, x: Row, s: seq<Row>, all: seq<Row>)
    requires OrderedBy(cmp, s) && TotalOrder(cmp, all) && x in all && |s| > 0 && cmp(x, s[0]) < 0
    requires forall y :: y in s ==> y in all
    ensures OrderedBy(cmp, [x] + s)
  {
    forall j | 0 <= j < |s|
      ensures cmp(x, s[j]) < 0
    {
      assert s[0] in s && s[j] in s;
      assert OrderAt(cmp, x, s[0], s[j]);
    }
  }

  lemma ConsOrdered(cmp: Comparator, x: Row, s: seq<Row>)
    requires OrderedBy(cmp, s) && forall y :: y in s ==> cmp(x, y) < 0
    ensures OrderedBy(cmp, [x] + s)
  {
    assert forall j :: 0 <= j < |s| ==> s[j] in s;
  }

  lemma {:induction false} SortByOrders(cmp: Comparator, s: seq<Row>, all: seq<Row>)
    requires DistinctRows(s) && TotalOrder(cmp, all) && forall y :: y in s ==> y in all
    ensures OrderedBy(cmp, SortBy(cmp, s))
  {
    if |s| > 0 {
      assert forall y :: y in s[1..] ==> y in s;
      SortByOrders(cmp, s[1..], all);
      assert s[0] in s;
      InsertByOrdered(cmp, s[0], SortBy(cmp, s[1..]), all);
    }
  }

  /** compareDistributedEvents as a comparator. */
  function ByTime(): Comparator {
    (a: Row, b: Row) => CompareDistributed(a, b)
  }

  lemma ByTimeTotal(s: seq<Row>)
    ensures TotalOrder(ByTime(), s)
  {
    forall x, y, z | x in s && y in s && z in s
      ensures OrderAt(ByTime(), x, y, z)
    {
      LessIsTotalOrder(x, y, z);
    }
  }

  // ----- the causal comparator -----

  /** compareEventsCausally. */
  function CompareCausally(a: Row, b: Row, desc: map<Id, set<Id>>): int {
    if a.id == b.id then 0
    else if a.id in desc && b.id in desc[a.id] then -1
    else if b.id in desc && a.id in desc[b.id] then 1
    else CompareDistributed(a, b)
  }

  function Causally(desc: map<Id, set<Id>>): Comparator {
    (a: Row, b: Row) => CompareCausally(a, b, desc)
  }

  /** The clock condition: every causal edge leads from a present row to a greater one. */
  ghost predicate ClockConsistent(E: Rows) {
    forall a, b :: Edge(Causal(E), a, b) ==> a in E && Less(E[a], E[b])
  }

  lemma {:induction false} PathClimbs(E: Rows, p: seq<Id>)
    requires ClockConsistent(E) && IsPath(Causal(E), p) && |p| > 1
    ensures p[0] in E && p[|p| - 1] in E && Less(E[p[0]], E[p[|p| - 1]])
  {
    assert Edge(Causal(E), p[0], p[1]);
    if |p| > 2 {
      SubPath(Causal(E), p);
      PathClimbs(E, p[1..]);
      LessIsTotalOrder(E[p[0]], E[p[1]], E[p[|p| - 1]]);
    }
  }

  lemma BeforeIsLess(E: Rows, a: Id, b: Id)
    requires ClockConsistent(E) && Before(E, a, b)
    ensures a in E && b in E && Less(E[a], E[b])
  {
    var p :| PathBetween(Causal(E), p, a, b);
    PathClimbs(E, p);
  }

  /** Under the clock condition the causal comparator is compareDistributedEvents, hence a strict total
      order, and happens-before has no cycle. */
  lemma CausalIsTotal(E: Rows, desc: map<Id, set<Id>>, a: Id, b: Id)
    requires RowTable(E) && ClockConsistent(E) && DescendantTable(E, desc) && a in E && b in E
    ensures CompareCausally(E[a], E[b], desc) < 0 <==> Less(E[a], E[b])
    ensures CompareCausally(E[a], E[b], desc) > 0 <==> Less(E[b], E[a])
    ensures !Before(E, a, a)
  {
    LessIsTotalOrder(E[a], E[b], E[a]);
    if b in desc[a] {
      BeforeIsLess(E, a, b);
    }
    if a in desc[b] {
      BeforeIsLess(E, b, a);
    }
    if Before(E, a, a) {
      BeforeIsLess(E, a, a);
    }
  }

  lemma CausallyTotal(E: Rows, desc: map<Id, set<Id>>, s: seq<Row>)
    requires RowTable(E) && ClockConsistent(E) && DescendantTable(E, desc)
    requires forall x :: x in s ==> x.id in E && E[x.id] == x
    ensures TotalOrder(Causally(desc), s)
  {
    forall x, y | x in s && y in s
      ensures SameSign(Causally(desc), x, y)
    {
      CausalIsTotal(E, desc, x.id, y.id);
    }
    forall x, y, z | x in s && y in s && z in s
      ensures OrderAt(Causally(desc), x, y, z)
    {
      assert SameSign(Causally(desc), x, y) && SameSign(Causally(desc), y, x) && SameSign(Causally(desc), y, z)
          && SameSign(Causally(desc), x, z);
      OrderTransfers(Causally(desc), x, y, z);
    }
  }

  ghost predicate SameSign(cmp: Comparator, x: Row, y: Row) {
    (cmp(x, y) < 0 <==> Less(x, y)) && (cmp(x, y) > 0 <==> Less(y, x))
  }

  lemma OrderTransfers(cmp: Comparator, x: Row, y: Row, z: Row)
    requires SameSign(cmp, x, y) && SameSign(cmp, y, x) && SameSign(cmp, y, z) && SameSign(cmp, x, z)
    ensures OrderAt(cmp, x, y, z)
  {
    LessIsTotalOrder(x, y, z);
  }

  // ----- when the causal comparator is an order -----

  lemma CompareMeans(E: Rows, desc: map<Id, set<Id>>, a: Id, b: Id)
    requires RowTable(E) && DescendantTable(E, desc) && a in E && b in E && a != b
    ensures Before(E, a, b) ==> CompareCausally(E[a], E[b], desc) < 0
    ensures !Before(E, a, b) && Before(E, b, a) ==> CompareCausally(E[a], E[b], desc) > 0
    ensures !Before(E, a, b) && !Before(E, b, a) ==>
              CompareCausally(E[a], E[b], desc) == CompareDistributed(E[a], E[b])
  {
    assert b in desc[a] <==> Before(E, a, b);
    assert a in desc[b] <==> Before(E, b, a);
  }

  /** The comparator says less. */
  ghost predicate ComesFirst(E: Rows, a: Id, b: Id)
    requires a in E && b in E
  {
    a != b && (Before(E, a, b) || (!Before(E, b, a) && Less(E[a], E[b])))
  }

  lemma CompareIsFirst(E: Rows, desc: map<Id, set<Id>>, a: Id, b: Id)
    requires RowTable(E) && DescendantTable(E, desc) && !HasCycle(Causal(E)) && a in E && b in E
    ensures CompareCausally(E[a], E[b], desc) < 0 <==> ComesFirst(E, a, b)
    ensures CompareCausally(E[a], E[b], desc) > 0 <==> ComesFirst(E, b, a)
    ensures a == b || ComesFirst(E, a, b) || ComesFirst(E, b, a)
  {
    LessIsTotalOrder(E[a], E[b], E[a]);
    if a != b {
      CompareMeans(E, desc, a, b);
      NotBoth(E, a, b);
    }
  }

  lemma NotBoth(E: Rows, a: Id, b: Id)
    requires !HasCycle(Causal(E))
    ensures !(Before(E, a, b) && Before(E, b, a))
  {
    if Before(E, a, b) && Before(E, b, a) {
      ReachTransitive(Causal(E), a, b, a);
    }
  }

  /** a happens before b, yet by time b comes first, with c concurrent to both in between. */
  ghost predicate Circle(E: Rows, a: Id, b: Id, c: Id) {
    && a in E && b in E && c in E
    && Before(E, a, b) && Concurrent(E, a, c) && Concurrent(E, b, c)
    && Less(E[b], E[c]) && Less(E[c], E[a])
  }

  lemma FirstTransitive(E: Rows, x: Id, y: Id, z: Id)
    requires !HasCycle(Causal(E)) && x in E && y in E && z in E && RowTable(E)
    requires forall a, b, c :: !Circle(E, a, b, c)
    requires ComesFirst(E, x, y) && ComesFirst(E, y, z)
    ensures ComesFirst(E, x, z)
  {
    NotBoth(E, x, y);
    NotBoth(E, y, z);
    LessIsTotalOrder(E[x], E[y], E[z]);
    LessIsTotalOrder(E[x], E[z], E[x]);
    if Before(E, x, y) && Before(E, y, z) {
      ReachTransitive(Causal(E), x, y, z);
      NotBoth(E, x, z);
    } else if Before(E, x, y) {
      if Before(E, z, x) {
        ReachTransitive(Causal(E), z, x, y);
      }
      assert !Circle(E, x, y, z);
    } else if Before(E, y, z) {
      if Before(E, z, x) {
        ReachTransitive(Causal(E), y, z, x);
      }
      assert !Circle(E, y, z, x);
    } else {
      assert !Circle(E, z, x, y);
    }
  }

  ghost predicate Lists(rows: seq<Row>, E: Rows) {
    forall x :: x in rows <==> x.id in E && E[x.id] == x
  }

  /** compareEventsCausally orders the rows of an acyclic set if and only if no circle exists. */
  lemma CausalOrderExactly(E: Rows, desc: map<Id, set<Id>>, rows: seq<Row>)
    requires RowTable(E) && !HasCycle(Causal(E)) && DescendantTable(E, desc) && Lists(rows, E)
    ensures TotalOrder(Causally(desc), rows) <==> !exists a, b, c :: Circle(E, a, b, c)
  {
    if !exists a, b, c :: Circle(E, a, b, c) {
      forall x, y, z | x in rows && y in rows && z in rows
        ensures OrderAt(Causally(desc), x, y, z)
      {
        CircleFreeOrders(E, desc, x, y, z);
      }
    }
    if a, b, c :| Circle(E, a, b, c) {
      CompareIsFirst(E, desc, a, b);
      CompareIsFirst(E, desc, b, c);
      CompareIsFirst(E, desc, c, a);
      LessIsTotalOrder(E[a], E[b], E[a]);
      NotBoth(E, a, b);
      assert E[a] in rows && E[b] in rows && E[c] in rows;
      assert !OrderAt(Causally(desc), E[b], E[c], E[a]);
    }
  }

  lemma CircleFreeOrders(E: Rows, desc: map<Id, set<Id>>, x: Row, y: Row, z: Row)
    requires RowTable(E) && !HasCycle(Causal(E)) && DescendantTable(E, desc)
    requires forall a, b, c :: !Circle(E, a, b, c)
    requires x.id in E && E[x.id] == x && y.id in E && E[y.id] == y && z.id in E && E[z.id] == z
    ensures OrderAt(Causally(desc), x, y, z)
  {
    CompareIsFirst(E, desc, x.id, y.id);
    CompareIsFirst(E, desc, y.id, x.id);
    CompareIsFirst(E, desc, y.id, z.id);
    CompareIsFirst(E, desc, x.id, z.id);
    if ComesFirst(E, x.id, y.id) && ComesFirst(E, y.id, z.id) {
      FirstTransitive(E, x.id, y.id, z.id);
    }
  }

  /** A list in order makes the comparator a total order on its rows. */
  lemma OrderedIsTotal(cmp: Comparator, s: seq<Row>)
    requires OrderedBy(cmp, s)
    requires forall x, y :: x in s && y in s ==> (cmp(x, y) < 0 <==> cmp(y, x) > 0)
    ensures TotalOrder(cmp, s)
  {
    forall i, j | 0 <= i < |s| && 0 <= j < |s|
      ensures cmp(s[i], s[j]) < 0 <==> i < j
    {
      assert s[i] in s && s[j] in s;
    }
    forall x, y, z | x in s && y in s && z in s
      ensures OrderAt(cmp, x, y, z)
    {
      var i :| 0 <= i < |s| && s[i] == x;
      var j :| 0 <= j < |s| && s[j] == y;
      var k :| 0 <= k < |s| && s[k] == z;
    }
  }

  /** The rows of a set sorted by the causal comparator. */
  ghost predicate SortOf(E: Rows, desc: map<Id, set<Id>>, out: seq<Row>) {
    && DescendantTable(E, desc)
    && exists list :: DistinctRows(list) && Lists(list, E) && out == SortBy(Causally(desc), list)
  }

  /** Sorting yields a list in causal order, from whatever listing of an acyclic set, if and only if the
      set has no circle. */
  lemma CausalSortExactly(E: Rows, desc: map<Id, set<Id>>, out: seq<Row>)
    requires RowTable(E) && !HasCycle(Causal(E)) && SortOf(E, desc, out)
    ensures OrderedBy(Causally(desc), out) <==> !exists a, b, c :: Circle(E, a, b, c)
  {
    var list :| DistinctRows(list) && Lists(list, E) && out == SortBy(Causally(desc), list);
    CausalOrderExactly(E, desc, out);
    if TotalOrder(Causally(desc), out) {
      SortByOrders(Causally(desc), list, out);
    }
    if OrderedBy(Causally(desc), out) {
      forall x, y | x in out && y in out
        ensures Causally(desc)(x, y) < 0 <==> Causally(desc)(y, x) > 0
      {
        CompareIsFirst(E, desc, x.id, y.id);
        CompareIsFirst(E, desc, y.id, x.id);
      }
      OrderedIsTotal(Causally(desc), out);
    }
  }

  // ----- replay safety -----

  ghost predicate ReplaySafe(events: seq<Row>) {
    forall i, j :: 0 <= i < j < |events| ==> !Reaches(ListCausal(events), events[j].id, events[i].id)
  }

  /** assertCausalReplaySafe fails on repeated parents, and else passes exactly when no row stands before one
      that happened before it; the list may repeat ids. */
  method AssertCausalReplaySafe(events: seq<Row>) returns (r: Result<(), InputError>)
    ensures r.Ok? <==> AllParentsOk(events) && ReplaySafe(events)
    ensures r.Err? ==> (r.error.ReplayViolation? <==> AllParentsOk(events))
  {
    var desc :- ComputeDescendants(events);
    for i := 0 to |events|
      invariant forall k :: 0 <= k < i ==> LaterIsSafe(events, k, |events|)
    {
      var later := FirstUnsafe(events, desc, i);
      if later.Some? {
        assert !ReplaySafe(events);
        return Err(ReplayViolation(events[i].id, events[later.value].id));
      }
    }
    SafeEverywhere(events);
    r := Ok(());
  }

  /** No row from position i + 1 up to n happened before row i. */
  ghost predicate LaterIsSafe(events: seq<Row>, i: int, n: int)
    requires 0 <= i < |events| && n <= |events|
  {
    forall j :: i < j < n ==> !Reaches(ListCausal(events), events[j].id, events[i].id)
  }

  lemma SafeEverywhere(events: seq<Row>)
    requires forall k :: 0 <= k < |events| ==> LaterIsSafe(events, k, |events|)
    ensures ReplaySafe(events)
  {
    forall i, j | 0 <= i < j < |events|
      ensures !Reaches(ListCausal(events), events[j].id, events[i].id)
    {
      assert LaterIsSafe(events, i, |events|);
    }
  }

  method FirstUnsafe(events: seq<Row>, desc: map<Id, set<Id>>, i: nat) returns (later: Option<nat>)
    requires i < |events| && ClosureTable(events, desc)
    ensures later.None? ==> LaterIsSafe(events, i, |events|)
    ensures later.Some? ==> i < later.value < |events|
    ensures later.Some? ==> Reaches(ListCausal(events), events[later.value].id, events[i].id)
  {
    var j := i + 1;
    while j < |events|
      invariant i < j <= |events| && LaterIsSafe(events, i, j)
    {
      assert events[j].id in TableOf(events);
      if events[i].id in desc[events[j].id] {
        return Some(j);
      }
      j := j + 1;
    }
    later := None;
  }

  /** On distinct rows safety is about happens-before in their table. */
  lemma ReplaySafeTable(events: seq<Row>)
    requires DistinctRows(events)
    ensures ReplaySafe(events) <==>
              forall i, j :: 0 <= i < j < |events| ==> !Before(TableOf(events), events[j].id, events[i].id)
  {
    forall i, j | 0 <= i < j < |events|
      ensures Reaches(ListCausal(events), events[j].id, events[i].id) <==>
                Before(TableOf(events), events[j].id, events[i].id)
    {
      ListReaches(events, events[j].id, events[i].id);
    }
  }

  /** Sorting by the causal comparator passes the replay check, for every clock-consistent row list. */
  lemma SortedIsReplaySafe(events: seq<Row>, desc: map<Id, set<Id>>)
    requires DistinctRows(events) && ClockConsistent(TableOf(events)) && DescendantTable(TableOf(events), desc)
    ensures var sorted := SortBy(Causally(desc), events);
      DistinctRows(sorted) && TableOf(sorted) == TableOf(events) && OrderedBy(ByTime(), sorted) && ReplaySafe(sorted)
  {
    var E := TableOf(events);
    TableOfDistinct(events);
    forall x | x in events
      ensures x.id in E && E[x.id] == x
    {
      var i :| 0 <= i < |events| && events[i] == x;
    }
    CausallyTotal(E, desc, events);
    SortByOrders(Causally(desc), events, events);
    var sorted := SortBy(Causally(desc), events);
    forall i, j | 0 <= i < j < |sorted|
      ensures Less(sorted[i], sorted[j]) && sorted[i].id != sorted[j].id
    {
      assert sorted[i] in sorted && sorted[j] in sorted;
      CausalIsTotal(E, desc, sorted[i].id, sorted[j].id);
      LessIsTotalOrder(sorted[i], sorted[j], sorted[i]);
    }
    SameTable(events, sorted);
    AscendingIsSafe(sorted);
  }

  lemma AscendingIsSafe(rows: seq<Row>)
    requires DistinctRows(rows) && ClockConsistent(TableOf(rows)) && OrderedBy(ByTime(), rows)
    ensures ReplaySafe(rows)
  {
    var E := TableOf(rows);
    TableOfDistinct(rows);
    forall i, j | 0 <= i < j < |rows|
      ensures !Before(E, rows[j].id, rows[i].id)
    {
      LessIsTotalOrder(rows[i], rows[j], rows[i]);
      if Before(E, rows[j].id, rows[i].id) {
        BeforeIsLess(E, rows[j].id, rows[i].id);
      }
    }
    ReplaySafeTable(rows);
  }

  /** Lists of the same distinct rows have the same table. */
  lemma SameTable(s: seq<Row>, t: seq<Row>)
    requires DistinctRows(s) && DistinctRows(t) && forall x :: x in s <==> x in t
    ensures TableOf(s) == TableOf(t)
  {
    TableOfDistinct(s);
    TableOfDistinct(t);
    var E, F := TableOf(s), TableOf(t);
    forall id
      ensures id in E <==> id in F
      ensures id in E ==> E[id] == F[id]
    {
      if id in E {
        var i :| 0 <= i < |s| && s[i].id == id;
        assert s[i] in t;
        var j :| 0 <= j < |t| && t[j] == s[i];
      }
      if id in F {
        var j :| 0 <= j < |t| && t[j].id == id;
        assert t[j] in s;
        var i :| 0 <= i < |s| && s[i] == t[j];
      }
    }
  }

  /** A list in causal order is safe to replay. */
  lemma OrderedIsSafe(E: Rows, desc: map<Id, set<Id>>, out: seq<Row>)
    requires DistinctRows(out) && TableOf(out) == E && !HasCycle(Causal(E)) && DescendantTable(E, desc)
    requires OrderedBy(Causally(desc), out)
    ensures ReplaySafe(out)
  {
    TableOfDistinct(out);
    forall i, j | 0 <= i < j < |out|
      ensures !Before(E, out[j].id, out[i].id)
    {
      CompareIsFirst(E, desc, out[i].id, out[j].id);
      NotBoth(E, out[i].id, out[j].id);
    }
    ReplaySafeTable(out);
  }

  // ----- when a set can be replayed at all -----

  /** Some listing of the set is safe to replay. */
  ghost predicate Replayable(E: Rows) {
    exists rows :: DistinctRows(rows) && Lists(rows, E) && ReplaySafe(rows)
  }

  /** Two different rows that happen before each other. */
  ghost predicate Mutual(E: Rows, a: Id, b: Id) {
    a != b && Before(E, a, b) && Before(E, b, a)
  }

  lemma ListedTable(rows: seq<Row>, E: Rows)
    requires RowTable(E) && DistinctRows(rows) && Lists(rows, E)
    ensures TableOf(rows) == E
  {
    TableOfDistinct(rows);
    forall id
      ensures id in TableOf(rows) <==> id in E
      ensures id in E ==> TableOf(rows)[id] == E[id]
    {
      if id in E {
        assert E[id] in rows;
        var i :| 0 <= i < |rows| && rows[i] == E[id];
      }
      if id in TableOf(rows) {
        var i :| 0 <= i < |rows| && rows[i].id == id;
        assert rows[i] in rows;
      }
    }
  }

  lemma BeforeEndsInside(E: Rows, a: Id, b: Id)
    requires Before(E, a, b)
    ensures b in E
  {
    var m := ReachLast(Causal(E), a, b);
  }

  lemma MutualBlocks(E: Rows, rows: seq<Row>, a: Id, b: Id)
    requires RowTable(E) && DistinctRows(rows) && Lists(rows, E) && Mutual(E, a, b)
    ensures !ReplaySafe(rows)
  {
    ListedTable(rows, E);
    BeforeEndsInside(E, a, b);
    BeforeEndsInside(E, b, a);
    assert E[a] in rows && E[b] in rows;
    var i :| 0 <= i < |rows| && rows[i] == E[a];
    var j :| 0 <= j < |rows| && rows[j] == E[b];
    ReplaySafeTable(rows);
    assert i < j || j < i;
  }

  /** Where no two rows happen before each other, some row of any part has no other of that part before it. */
  lemma {:induction false} FirstOf(E: Rows, ids: set<Id>) returns (m: Id)
    requires ids != {} && forall a, b :: !Mutual(E, a, b)
    ensures m in ids && forall b :: b in ids && b != m ==> !Before(E, b, m)
    decreases ids
  {
    m :| m in ids;
    if ids != {m} {
      var n := FirstOf(E, ids - {m});
      if Before(E, m, n) {
        assert !Mutual(E, m, n);
        forall b | b in ids - {m}
          ensures !Before(E, b, m)
        {
          if Before(E, b, m) {
            ReachTransitive(Causal(E), b, m, n);
          }
        }
      } else {
        m := n;
      }
    }
  }

  lemma {:induction false} ListInOrder(E: Rows, ids: set<Id>) returns (rows: seq<Row>)
    requires RowTable(E) && ids <= E.Keys && forall a, b :: !Mutual(E, a, b)
    ensures DistinctRows(rows) && forall x :: x in rows <==> x.id in ids && E[x.id] == x
    ensures forall i, j :: 0 <= i < j < |rows| ==> !Before(E, rows[j].id, rows[i].id)
    decreases ids
  {
    if ids == {} {
      rows := [];
    } else {
      var m := FirstOf(E, ids);
      var rest := ListInOrder(E, ids - {m});
      assert forall j :: 0 <= j < |rest| ==> rest[j] in rest;
      rows := [E[m]] + rest;
      assert forall x :: x in rows <==> x == E[m] || x in rest;
    }
  }

  /** A set has a listing that is safe to replay, cyclic or not, if and only if no two of its rows happen
      before each other. */
  lemma ReplayableExactly(E: Rows)
    requires RowTable(E)
    ensures Replayable(E) <==> !exists a, b :: Mutual(E, a, b)
  {
    if rows :| DistinctRows(rows) && Lists(rows, E) && ReplaySafe(rows) {
      forall a, b
        ensures !Mutual(E, a, b)
      {
        if Mutual(E, a, b) {
          MutualBlocks(E, rows, a, b);
        }
      }
    }
    if !exists a, b :: Mutual(E, a, b) {
      var rows := ListInOrder(E, E.Keys);
      ListedTable(rows, E);
      ReplaySafeTable(rows);
    }
  }
}
