/** A merge result on which compareEventsCausally runs in a circle, on four concrete rows. */
module MergeCycle {
  import opened Ids
  import opened Digraph
  import opened CanonicalKeys
  import opened DistributedEvents
  import opened CausalGraphs
  import opened ConflictSets
  import opened RowOrder
  import opened PayloadMerge
  import opened EventSets
  import opened ExampleRows
  import opened GrownSets
  import opened MergeOrder

  /** Two rows of one node and one of each of two others. The first row of the shared node wins the only
      conflict, against b; c is timed between the two rows of that node. */
  ghost predicate Quad(a: Row, late: Row, b: Row, c: Row) {
    Shape(a, late, b, c) && Apart(a, late, b, c) && OnlyOverlap(a, late, b, c)
  }

  predicate Shape(a: Row, late: Row, b: Row, c: Row) {
    && Plain(a) && Plain(late) && Plain(b) && Plain(c)
    && a.node == late.node && a.node != b.node && a.node != c.node && b.node != c.node
    && 0 < a.sequence < late.sequence
    && Less(b, a) && CompareLogicalTime(a.time, c.time) < 0 && CompareLogicalTime(c.time, late.time) < 0
  }

  predicate Apart(a: Row, late: Row, b: Row, c: Row) {
    a.id != late.id && a.id != b.id && a.id != c.id && late.id != b.id && late.id != c.id && b.id != c.id
  }

  ghost predicate OnlyOverlap(a: Row, late: Row, b: Row, c: Row) {
    forall x, y :: x in {a, late, b, c} && y in {a, late, b, c} && x != y ==>
      (Overlap(x.payload, y.payload) <==> (x == a && y == b) || (x == b && y == a))
  }

  function Table4(a: Row, late: Row, b: Row, c: Row): Rows {
    map[a.id := a, late.id := late, b.id := b, c.id := c]
  }

  /** The only causal edge leads from a to late. */
  lemma QuadEdges(a: Row, late: Row, b: Row, c: Row, x: Id, y: Id)
    requires Quad(a, late, b, c)
    ensures Edge(Causal(Table4(a, late, b, c)), x, y) <==> x == a.id && y == late.id
  {
    var E := Table4(a, late, b, c);
    assert E.Keys == {a.id, late.id, b.id, c.id};
    assert CausalEdge(E, x, y) <==> Follows(E, x, y);
    assert OnChain(E, x, y) <==> x == a.id && y == late.id;
  }

  lemma QuadBefore(a: Row, late: Row, b: Row, c: Row, x: Id, y: Id)
    requires Quad(a, late, b, c)
    ensures Before(Table4(a, late, b, c), x, y) ==> x == a.id && y == late.id
  {
    var E := Table4(a, late, b, c);
    if Before(E, x, y) {
      var m := ReachFirst(Causal(E), x, y);
      QuadEdges(a, late, b, c, x, m);
      var n := ReachLast(Causal(E), x, y);
      QuadEdges(a, late, b, c, n, y);
    }
  }

  lemma QuadClock(a: Row, late: Row, b: Row, c: Row)
    requires Quad(a, late, b, c)
    ensures ClockConsistent(Table4(a, late, b, c)) && !HasCycle(Causal(Table4(a, late, b, c)))
    ensures RefClosed(Table4(a, late, b, c))
  {
    var E := Table4(a, late, b, c);
    forall x, y | Edge(Causal(E), x, y)
      ensures x in E && Less(E[x], E[y])
    {
      QuadEdges(a, late, b, c, x, y);
    }
    if x :| Reaches(Causal(E), x, x) {
      QuadBefore(a, late, b, c, x, x);
    }
  }

  lemma QuadConflicts(a: Row, late: Row, b: Row, c: Row, x: Id, y: Id)
    requires Quad(a, late, b, c)
    ensures Edge(Conflicts(Table4(a, late, b, c)), x, y) <==> IsPair(a, b, x, y)
  {
    var E := Table4(a, late, b, c);
    assert E.Keys == {a.id, late.id, b.id, c.id};
    QuadBefore(a, late, b, c, x, y);
    QuadBefore(a, late, b, c, y, x);
    if x in E && y in E {
      assert x != y ==> E[x] != E[y] && E[x] in {a, late, b, c} && E[y] in {a, late, b, c};
    }
  }

  lemma QuadUnresolved(a: Row, late: Row, b: Row, c: Row)
    requires Quad(a, late, b, c)
    ensures Unresolved(Table4(a, late, b, c), PairOf(a, b))
  {
    var E := Table4(a, late, b, c);
    forall x, y
      ensures Edge(Conflicts(E), x, y) <==> IsPair(a, b, x, y)
    {
      QuadConflicts(a, late, b, c, x, y);
    }
    PairIsComponent(Conflicts(E), a, b);
    assert forall id :: id in E ==> E[id].kind != MERGE_RESOLVED;
  }

  lemma QuadWinner(a: Row, late: Row, b: Row, c: Row, w: Id)
    requires Quad(a, late, b, c) && w in PairOf(a, b)
    requires Greatest([Table4(a, late, b, c)[PairOf(a, b)[0]], Table4(a, late, b, c)[PairOf(a, b)[1]]],
        Table4(a, late, b, c)[w])
    ensures w == a.id
  {
    var E, s := Table4(a, late, b, c), PairOf(a, b);
    var i := if s[0] == a.id then 0 else 1;
    assert [E[s[0]], E[s[1]]][i] == a;
    LessIsTotalOrder(a, E[w], a);
  }

  lemma QuadSequence(a: Row, late: Row, b: Row, c: Row, m: int)
    requires Quad(a, late, b, c) && MaxSequence(Table4(a, late, b, c), a.node, m)
    ensures m == late.sequence
  {
    var E := Table4(a, late, b, c);
    assert E[late.id].node == a.node && E[late.id].sequence <= m;
    assert E.Keys == {a.id, late.id, b.id, c.id};
  }

  /** The row derived for the conflict carries the clock of a and stands behind late. */
  lemma QuadRow(a: Row, late: Row, b: Row, c: Row, w: Id, row: Row)
    requires Quad(a, late, b, c) && w in PairOf(a, b) && Present(Table4(a, late, b, c), PairOf(a, b))
    requires Placed(Table4(a, late, b, c), PairOf(a, b), w, row)
    ensures row.node == a.node && row.time == a.time && row.sequence == late.sequence + 1
  {
    var E, s := Table4(a, late, b, c), PairOf(a, b);
    assert RowsOf(E, s) == [E[s[0]], E[s[1]]];
    QuadWinner(a, late, b, c, w);
    QuadSequence(a, late, b, c, row.sequence - 1);
  }

  /** On the node and with the clock of the winner, behind all rows there. */
  ghost predicate Placed(E: Rows, s: seq<Id>, w: Id, row: Row)
    requires Present(E, s)
  {
    && w in E && Greatest(RowsOf(E, s), E[w]) && row.node == E[w].node && row.time == E[w].time
    && MaxSequence(E, row.node, row.sequence - 1)
  }

  lemma DerivedPlaced(digest: Digest, E: Rows, F: Rows, s: seq<Id>) returns (r: Id, w: Id)
    requires MergeOf(digest, E, F) && Unresolved(E, s)
    ensures r in F && r !in E && w in s && Present(E, s) && Placed(E, s, w, F[r])
  {
    assert Covered(digest, E, F, s);
    r :| r in F && DerivedFor(digest, E, s, F[r]);
    w := DerivedTime(digest, E, s, F[r]);
    DerivedHasMax(digest, E, F[r]);
    DerivedIsListed(digest, E, F, F[r]);
  }

  /** c is no source of any derived row. */
  lemma QuadAside(digest: Digest, a: Row, late: Row, b: Row, c: Row, z: Row)
    requires Quad(a, late, b, c) && IsDerived(digest, Table4(a, late, b, c), z)
    ensures c.id !in z.resolvedFrom
  {
    var E := Table4(a, late, b, c);
    var s :| DerivedFor(digest, E, s, z);
    if c.id in s {
      var y := ComponentHasEdge(Conflicts(E), s, c.id);
      QuadConflicts(a, late, b, c, c.id, y);
    }
  }

  lemma QuadNotUnder(added: NewRows, a: Row, late: Row, b: Row, c: Row, y: Row)
    requires Quad(a, late, b, c) && y.node == a.node
    requires forall z :: added(z) ==> c.id !in z.resolvedFrom
    ensures !StandsUnder(added, Table4(a, late, b, c), c.id, y)
  {
    var E := Table4(a, late, b, c);
    if v :| Under(added, E, v, y) && UpTo(E, c.id, v) {
      QuadBefore(a, late, b, c, c.id, v);
    }
  }

  lemma QuadApart(added: NewRows, a: Row, late: Row, b: Row, c: Row, F: Rows, r: Id)
    requires Quad(a, late, b, c) && Grown(added, Table4(a, late, b, c), F)
    requires forall z :: added(z) ==> c.id !in z.resolvedFrom
    requires r in F && r !in Table4(a, late, b, c) && F[r].node == a.node
    ensures Concurrent(F, r, c.id)
  {
    var E := Table4(a, late, b, c);
    GrownBeforeExactly(added, E, F, r, c.id);
    GrownBeforeExactly(added, E, F, c.id, r);
    QuadNotUnder(added, a, late, b, c, F[r]);
  }

  lemma QuadOld(a: Row, late: Row, b: Row, c: Row, F: Rows)
    requires Quad(a, late, b, c) && OnTop(Table4(a, late, b, c), F)
    ensures Concurrent(F, late.id, c.id)
  {
    var E := Table4(a, late, b, c);
    QuadBefore(a, late, b, c, late.id, c.id);
    QuadBefore(a, late, b, c, c.id, late.id);
    NoNewPaths(E, F, late.id, c.id);
    NoNewPaths(E, F, c.id, late.id);
  }

  lemma QuadAbove(a: Row, late: Row, b: Row, c: Row, F: Rows, r: Id)
    requires Quad(a, late, b, c) && Extends(Table4(a, late, b, c), F) && r in F
    requires F[r].node == a.node && F[r].sequence == late.sequence + 1
    ensures Before(F, late.id, r)
  {
    assert Table4(a, late, b, c)[late.id] == late;
    assert OnChain(F, late.id, r);
    ChainIsBefore(F, late.id, r);
  }

  lemma QuadCircle(digest: Digest, a: Row, late: Row, b: Row, c: Row, F: Rows) returns (r: Id)
    requires Quad(a, late, b, c) && MergeOf(digest, Table4(a, late, b, c), F)
    ensures r !in Table4(a, late, b, c) && Circle(F, late.id, r, c.id) && F[late.id] == late && F[c.id] == c
  {
    var E, w := Table4(a, late, b, c), 0;
    QuadUnresolved(a, late, b, c);
    r, w := DerivedPlaced(digest, E, F, PairOf(a, b));
    QuadRow(a, late, b, c, w, F[r]);
    MergeIsGrown(digest, E, F);
    forall z | DerivedRows(digest, E)(z)
      ensures c.id !in z.resolvedFrom
    {
      QuadAside(digest, a, late, b, c, z);
    }
    QuadTimes(DerivedRows(digest, E), a, late, b, c, F, r);
  }

  lemma QuadTimes(added: NewRows, a: Row, late: Row, b: Row, c: Row, F: Rows, r: Id)
    requires Quad(a, late, b, c) && Grown(added, Table4(a, late, b, c), F)
    requires forall z :: added(z) ==> c.id !in z.resolvedFrom
    requires r in F && r !in Table4(a, late, b, c)
    requires F[r].node == a.node && F[r].time == a.time && F[r].sequence == late.sequence + 1
    ensures Circle(F, late.id, r, c.id) && F[late.id] == late && F[c.id] == c
  {
    QuadApart(added, a, late, b, c, F, r);
    QuadOld(a, late, b, c, F);
    QuadAbove(a, late, b, c, F, r);
    assert F[late.id] == late && F[c.id] == c;
  }

  lemma CircleMatters(F: Rows, desc: map<Id, set<Id>>, rows: seq<Row>, a: Id, b: Id, c: Id)
    requires RowTable(F) && !HasCycle(Causal(F)) && DescendantTable(F, desc) && Lists(rows, F) && Circle(F, a, b, c)
    ensures CompareCausally(F[b], F[c], desc) < 0 && CompareCausally(F[c], F[a], desc) < 0
    ensures CompareCausally(F[a], F[b], desc) < 0 && !TotalOrder(Causally(desc), rows)
  {
    CompareMeans(F, desc, b, c);
    CompareMeans(F, desc, c, a);
    CompareMeans(F, desc, a, b);
    LessIsTotalOrder(F[b], F[c], F[b]);
    CausalOrderExactly(F, desc, rows);
  }

  // ----- concrete rows -----

  lemma KeysOfOne(k: string)
    ensures forall x :: x in Keys(OneKey(k)) <==> x == k
  {
    assert OneKey(k).fields[0].key == k;
  }

  lemma KeysApart(j: string, k: string)
    ensures Overlap(OneKey(j), OneKey(k)) <==> j == k
  {
    KeysOfOne(j);
    KeysOfOne(k);
    assert j == k ==> j in Keys(OneKey(j)) * Keys(OneKey(k));
  }

  /** The rows: node 1 writes at clock 2 and again at clock 10, node 2 at clock 1 under the same key as the
      first, node 3 at clock 5. */
  datatype Example = Example(a: Row, late: Row, b: Row, c: Row) {
    function Rows(): Rows {
      Table4(a, late, b, c)
    }
  }

  function Writes(digest: Digest): Example {
    Example(
      PlainRow(digest, 1, 2, 1, OneKey("x")),
      PlainRow(digest, 1, 10, 2, OneKey("l")),
      PlainRow(digest, 2, 1, 1, OneKey("x")),
      PlainRow(digest, 3, 5, 1, OneKey("c")))
  }

  ghost predicate UnderOwnId(digest: Digest, r: Row) {
    CanonicalRow(r) && CanonicalJson(r.payload) && r.id == DerivedId(digest, r)
  }

  lemma ExampleRow(digest: Digest, node: Id, counter: nat, sequence: int, k: string)
    requires |k| == 1
    ensures UnderOwnId(digest, PlainRow(digest, node, counter, sequence, OneKey(k)))
  {
    OneKeyOk(k);
    PlainRowOk(digest, node, counter, sequence, OneKey(k));
  }

  lemma WritesStored(digest: Digest)
    ensures var e := Writes(digest);
      UnderOwnId(digest, e.a) && UnderOwnId(digest, e.late) && UnderOwnId(digest, e.b) && UnderOwnId(digest, e.c)
  {
    ExampleRow(digest, 1, 2, 1, "x");
    ExampleRow(digest, 1, 10, 2, "l");
    ExampleRow(digest, 2, 1, 1, "x");
    ExampleRow(digest, 3, 5, 1, "c");
  }

  lemma StoredApart(digest: Digest, a: Row, late: Row, b: Row, c: Row)
    requires EventModel.CollisionFree(digest)
    requires UnderOwnId(digest, a) && UnderOwnId(digest, late) && UnderOwnId(digest, b) && UnderOwnId(digest, c)
    requires Shape(a, late, b, c)
    ensures Apart(a, late, b, c)
  {
    PlainRowsApart(digest, a, late);
    PlainRowsApart(digest, a, b);
    PlainRowsApart(digest, a, c);
    PlainRowsApart(digest, late, b);
    PlainRowsApart(digest, late, c);
    PlainRowsApart(digest, b, c);
  }

  lemma StoredIdentified(digest: Digest, a: Row, late: Row, b: Row, c: Row)
    requires UnderOwnId(digest, a) && UnderOwnId(digest, late) && UnderOwnId(digest, b) && UnderOwnId(digest, c)
    ensures Identified(digest, Table4(a, late, b, c))
  {
    var E := Table4(a, late, b, c);
    forall id | id in E
      ensures UnderOwnId(digest, E[id]) && E[id].id == id
    {
      assert id in {a.id, late.id, b.id, c.id};
    }
  }

  lemma ExampleOverlap(a: Row, late: Row, b: Row, c: Row)
    requires a.payload == OneKey("x") && late.payload == OneKey("l") && b.payload == OneKey("x")
        && c.payload == OneKey("c")
    requires Apart(a, late, b, c)
    ensures OnlyOverlap(a, late, b, c)
  {
    KeysApart("x", "x");
    KeysApart("x", "l");
    KeysApart("x", "c");
    KeysApart("l", "x");
    KeysApart("l", "c");
    KeysApart("c", "x");
    KeysApart("c", "l");
  }

  lemma WritesShape(digest: Digest)
    ensures var e := Writes(digest); Shape(e.a, e.late, e.b, e.c)
  {
  }

  lemma WritesQuad(digest: Digest)
    requires EventModel.CollisionFree(digest)
    ensures var e := Writes(digest); Quad(e.a, e.late, e.b, e.c) && Identified(digest, e.Rows())
  {
    var e := Writes(digest);
    WritesStored(digest);
    WritesShape(digest);
    StoredApart(digest, e.a, e.late, e.b, e.c);
    StoredIdentified(digest, e.a, e.late, e.b, e.c);
    ExampleOverlap(e.a, e.late, e.b, e.c);
  }

  /** The causal comparator is no order on every merge result. The rows keep the clock condition; the
      derived row carries clock 2 but follows the row of clock 10, so it is less than the row of clock 5,
      that is less than the row of clock 10, and that is less than the derived row. */
  lemma ComparatorCycle(digest: Digest, F: Rows, desc: map<Id, set<Id>>, rows: seq<Row>) returns (r: Id)
    requires EventModel.CollisionFree(digest) && Absorbed(digest, Writes(digest).Rows(), F)
    requires DescendantTable(F, desc) && Lists(rows, F)
    ensures ClockConsistent(Writes(digest).Rows()) && r in F && r !in Writes(digest).Rows()
    ensures var e := Writes(digest);
      && CompareCausally(F[r], e.c, desc) < 0
      && CompareCausally(e.c, e.late, desc) < 0
      && CompareCausally(e.late, F[r], desc) < 0
    ensures !TotalOrder(Causally(desc), rows)
  {
    var e := Writes(digest);
    WritesQuad(digest);
    QuadClock(e.a, e.late, e.b, e.c);
    r := QuadCycle(digest, e.a, e.late, e.b, e.c, F, desc, rows);
  }

  lemma QuadCycle(digest: Digest, a: Row, late: Row, b: Row, c: Row, F: Rows, desc: map<Id, set<Id>>, rows: seq<Row>)
    returns (r: Id)
    requires Quad(a, late, b, c) && MergeOf(digest, Table4(a, late, b, c), F)
    requires DescendantTable(F, desc) && Lists(rows, F)
    ensures r in F && r !in Table4(a, late, b, c)
    ensures CompareCausally(F[r], c, desc) < 0 && CompareCausally(c, late, desc) < 0
    ensures CompareCausally(late, F[r], desc) < 0 && !TotalOrder(Causally(desc), rows)
  {
    r := QuadCircle(digest, a, late, b, c, F);
    QuadClock(a, late, b, c);
    MergeAcyclic(digest, Table4(a, late, b, c), F);
    CircleMatters(F, desc, rows, late.id, r, c.id);
  }
}
