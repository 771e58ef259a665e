/** Whether merged rows can be ordered causally: the clock condition after a merge, and the exact condition
    under which compareEventsCausally is an order on a merged set (src/distributed/merge_algebra.ts,
    src/distributed/event_ordering.ts). */
module MergeOrder {
  import opened Ids
  import opened Digraph
  import opened DistributedEvents
  import opened CausalGraphs
  import opened ConflictSets
  import opened RowOrder
  import opened PayloadMerge
  import opened EventSets
  import opened GrownSets

  // ----- the clock condition -----

  ghost predicate LatestAt(E: Rows, s: seq<Id>, w: Id, x: Id) {
    w in s && w in E && x in E && Present(E, s) && Greatest(RowsOf(E, s), E[w]) && E[x].node == E[w].node
    ==> CompareLogicalTime(E[x].time, E[w].time) <= 0
  }

  /** Every unresolved component is won by a row carrying the latest clock of its node. */
  ghost predicate WinnersLatest(E: Rows) {
    forall s, w, x :: Unresolved(E, s) ==> LatestAt(E, s, w, x)
  }

  lemma DerivedTime(digest: Digest, E: Rows, s: seq<Id>, row: Row) returns (w: Id)
    requires Component(Conflicts(E), s) && MergeRow(digest, E, s, row)
    ensures w in s && w in E && Present(E, s) && Greatest(RowsOf(E, s), E[w]) && row.node == E[w].node
        && row.time == E[w].time
  {
    w :| w in s && w in E && WonBy(E, s, w, row);
  }

  /** The merged set keeps the clock condition, so that sorting it causally is well defined and safe to
      replay, if and only if every unresolved component is won by a row with the latest clock of its
      node. */
  lemma MergeKeepsClockExactly(digest: Digest, E: Rows, F: Rows)
    requires RowTable(E) && RefClosed(E) && ClockConsistent(E) && Absorbed(digest, E, F)
    ensures ClockConsistent(F) <==> WinnersLatest(E)
  {
    AbsorbedOnTop(digest, E, F);
    if WinnersLatest(E) {
      forall a, b | Edge(Causal(F), a, b)
        ensures a in F && Less(F[a], F[b])
      {
        MergedEdgeClimbs(digest, E, F, a, b);
      }
    }
    if ClockConsistent(F) {
      forall s, w, x | Unresolved(E, s)
        ensures LatestAt(E, s, w, x)
      {
        ClockMakesLatest(digest, E, F, s, w, x);
      }
    }
  }

  lemma ClockMakesLatest(digest: Digest, E: Rows, F: Rows, s: seq<Id>, w: Id, x: Id)
    requires OnTop(E, F) && Absorbed(digest, E, F) && ClockConsistent(F) && Unresolved(E, s)
    ensures LatestAt(E, s, w, x)
  {
    if w in s && w in E && x in E && Present(E, s) && Greatest(RowsOf(E, s), E[w]) && E[x].node == E[w].node {
      assert Covered(digest, E, F, s);
      var id := RowAbove(digest, E, F, s, w, x);
      ChainClimbs(F, x, id);
    }
  }

  lemma ChainClimbs(F: Rows, x: Id, y: Id)
    requires ClockConsistent(F) && OnChain(F, x, y)
    ensures Less(F[x], F[y])
  {
    ChainIsBefore(F, x, y);
    BeforeIsLess(F, x, y);
  }

  lemma RowAbove(digest: Digest, E: Rows, F: Rows, s: seq<Id>, w: Id, x: Id) returns (id: Id)
    requires RowTable(E) && Extends(E, F) && Covered(digest, E, F, s)
    requires w in s && w in E && Present(E, s) && Greatest(RowsOf(E, s), E[w]) && x in E && E[x].node == E[w].node
    ensures id in F && OnChain(F, x, id) && F[id].time == E[w].time
  {
    id :| id in F && DerivedFor(digest, E, s, F[id]);
    WinnerIs(digest, E, s, F[id], w);
    RowOnTop(digest, E, F, s, id, x);
  }

  lemma WinnerIs(digest: Digest, E: Rows, s: seq<Id>, row: Row, w: Id)
    requires RowTable(E) && MergeRow(digest, E, s, row) && w in s && w in E && Greatest(RowsOf(E, s), E[w])
    ensures row.node == E[w].node && row.time == E[w].time
  {
    var v :| v in s && v in E && WonBy(E, s, v, row);
    LessIsTotalOrder(E[v], E[w], E[v]);
  }

  lemma RowOnTop(digest: Digest, E: Rows, F: Rows, s: seq<Id>, id: Id, x: Id)
    requires Extends(E, F) && id in F && MergeRow(digest, E, s, F[id]) && x in E && E[x].node == F[id].node
    ensures OnChain(F, x, id)
  {
  }

  lemma MergedEdgeClimbs(digest: Digest, E: Rows, F: Rows, a: Id, b: Id)
    requires OnTop(E, F) && Absorbed(digest, E, F) && ClockConsistent(E) && WinnersLatest(E)
    requires Edge(Causal(F), a, b)
    ensures a in F && Less(F[a], F[b])
  {
    if b in E {
      EdgeIntoOld(E, F, a, b);
    } else {
      var s :| DerivedFor(digest, E, s, F[b]);
      RowAfterSources(digest, E, F, s, b);
      if a in F[b].resolvedFrom {
      } else if a in F[b].parents {
        ParentClimbs(digest, E, F, s, a, b);
      } else {
        FollowerClimbs(digest, E, F, s, a, b);
      }
    }
  }

  lemma ParentClimbs(digest: Digest, E: Rows, F: Rows, s: seq<Id>, a: Id, b: Id)
    requires OnTop(E, F) && ClockConsistent(E) && b in F && DerivedFor(digest, E, s, F[b]) && AfterSources(F, s, b)
    requires a in F[b].parents
    ensures a in F && Less(F[a], F[b])
  {
    assert a in Elements(F[b].parents);
    var x :| x in s && x in E && a in E[x].parents;
    assert CausalEdge(E, a, x);
    assert Edge(Causal(E), a, x);
    assert x in F && F[x] == E[x];
    LessIsTotalOrder(F[a], F[x], F[b]);
  }

  lemma FollowerClimbs(digest: Digest, E: Rows, F: Rows, s: seq<Id>, a: Id, b: Id)
    requires OnTop(E, F) && Absorbed(digest, E, F) && WinnersLatest(E)
    requires b in F && DerivedFor(digest, E, s, F[b]) && OnChain(F, a, b)
    ensures Less(F[a], F[b])
  {
    var w := DerivedTime(digest, E, s, F[b]);
    if a in E {
      OldFollower(E, s, w, E[a], F[b]);
    } else {
      DerivedTimes(digest, E, s, w, F[b], F[a]);
    }
  }

  lemma OldFollower(E: Rows, s: seq<Id>, w: Id, a: Row, b: Row)
    requires WinnersLatest(E) && Unresolved(E, s) && a.id in E && E[a.id] == a
    requires w in s && w in E && Present(E, s) && Greatest(RowsOf(E, s), E[w])
    requires a.node == b.node == E[w].node && b.time == E[w].time && ChainLess(a, b)
    ensures Less(a, b)
  {
    assert LatestAt(E, s, w, a.id);
  }

  lemma DerivedTimes(digest: Digest, E: Rows, s: seq<Id>, w: Id, row: Row, other: Row)
    requires WinnersLatest(E) && Unresolved(E, s) && IsDerived(digest, E, other) && other.node == row.node
    requires w in s && w in E && Present(E, s) && Greatest(RowsOf(E, s), E[w]) && row.node == E[w].node
        && row.time == E[w].time
    ensures other.time == row.time
  {
    var t :| DerivedFor(digest, E, t, other);
    var v := DerivedTime(digest, E, t, other);
    SameTimes(E, s, w, t, v);
  }

  lemma SameTimes(E: Rows, s: seq<Id>, w: Id, t: seq<Id>, v: Id)
    requires WinnersLatest(E) && Unresolved(E, s) && Unresolved(E, t)
    requires w in s && w in E && Present(E, s) && Greatest(RowsOf(E, s), E[w])
    requires v in t && v in E && Present(E, t) && Greatest(RowsOf(E, t), E[v])
    requires E[w].node == E[v].node
    ensures CompareLogicalTime(E[v].time, E[w].time) == 0 && E[v].time == E[w].time
  {
    assert LatestAt(E, s, w, v) && LatestAt(E, t, v, w);
  }

  // ----- when the merged rows are ordered -----

  ghost predicate MergeOf(digest: Digest, E: Rows, F: Rows) {
    EventModel.CollisionFree(digest) && Identified(digest, E) && RefClosed(E) && Absorbed(digest, E, F)
  }

  /** The rows a merge of E adds. */
  ghost function DerivedRows(digest: Digest, E: Rows): NewRows {
    (r: Row) => IsDerived(digest, E, r)
  }

  lemma DerivedIsListed(digest: Digest, E: Rows, F: Rows, z: Row)
    requires MergeOf(digest, E, F) && IsDerived(digest, E, z)
    ensures AddedAs(E, F, z) && RefersDown(E, z)
  {
    var s :| DerivedFor(digest, E, s, z);
    assert Covered(digest, E, F, s);
    var id :| id in F && DerivedFor(digest, E, s, F[id]);
    MergeRowUnique(digest, E, s, z, F[id]);
    MergeRowFresh(digest, E, s, z);
    DerivedRefersDown(digest, E, s, z);
  }

  lemma DerivedRefersDown(digest: Digest, E: Rows, s: seq<Id>, z: Row)
    requires DerivedFor(digest, E, s, z)
    ensures RefersDown(E, z)
  {
    UnresolvedPresent(E, s);
    forall p | p in z.parents
      ensures exists x :: x in z.resolvedFrom && x in E && p in E[x].parents
    {
      assert p in Elements(z.parents);
    }
  }

  /** Rows derived on one node share their sequence. */
  lemma SameSequence(digest: Digest, E: Rows, r: Row, s: Row)
    requires IsDerived(digest, E, r) && IsDerived(digest, E, s) && r.node == s.node
    ensures r.sequence == s.sequence
  {
    DerivedHasMax(digest, E, r);
    DerivedHasMax(digest, E, s);
  }

  lemma MergeIsGrown(digest: Digest, E: Rows, F: Rows)
    requires MergeOf(digest, E, F)
    ensures Grown(DerivedRows(digest, E), E, F)
  {
    AbsorbedOnTop(digest, E, F);
    forall z | IsDerived(digest, E, z)
      ensures AddedAs(E, F, z) && RefersDown(E, z)
    {
      DerivedIsListed(digest, E, F, z);
    }
    forall y, z | IsDerived(digest, E, y) && IsDerived(digest, E, z) && y.node == z.node
      ensures y.sequence == z.sequence
    {
      SameSequence(digest, E, y, z);
    }
  }

  lemma MergeAcyclic(digest: Digest, E: Rows, F: Rows)
    requires MergeOf(digest, E, F) && !HasCycle(Causal(E))
    ensures RowTable(F) && !HasCycle(Causal(F))
  {
    MergeKeepsShape(digest, E, F);
    if HasCycle(Causal(F)) {
      var x :| Reaches(Causal(F), x, x);
      assert Before(F, x, x);
    }
  }

  /** The causal comparator orders the rows of a merge result if and only if the input, with the rows its
      merge derives, admits no circle. */
  lemma MergeOrderExactly(digest: Digest, E: Rows, F: Rows, desc: map<Id, set<Id>>, rows: seq<Row>)
    requires MergeOf(digest, E, F) && !HasCycle(Causal(E)) && DescendantTable(F, desc) && Lists(rows, F)
    ensures TotalOrder(Causally(desc), rows) <==>
              !exists a, b, c :: GrownCircle(DerivedRows(digest, E), E, a, b, c)
  {
    MergeAcyclic(digest, E, F);
    MergeIsGrown(digest, E, F);
    CausalOrderExactly(F, desc, rows);
    CirclesAgree(DerivedRows(digest, E), E, F);
  }

  /** The output of the merge is a linear extension under the causal comparator, as its documentation says,
      if and only if the input admits no circle. */
  lemma MergeOutputExactly(digest: Digest, E: Rows, F: Rows, desc: map<Id, set<Id>>, out: seq<Row>)
    requires MergeOf(digest, E, F) && !HasCycle(Causal(E)) && SortOf(F, desc, out)
    ensures OrderedBy(Causally(desc), out) <==> !exists a, b, c :: GrownCircle(DerivedRows(digest, E), E, a, b, c)
  {
    MergeAcyclic(digest, E, F);
    MergeIsGrown(digest, E, F);
    CausalSortExactly(F, desc, out);
    CirclesAgree(DerivedRows(digest, E), E, F);
  }

  /** On reference-closed sets, cyclic or not, the merged rows can be listed safely for replay if and only if
      the input rows can. */
  lemma MergeReplayableExactly(digest: Digest, E: Rows, F: Rows)
    requires MergeOf(digest, E, F)
    ensures Replayable(F) <==> Replayable(E)
  {
    MergeKeepsShape(digest, E, F);
    AbsorbedOnTop(digest, E, F);
    ReplayableExactly(E);
    ReplayableExactly(F);
    forall a, b
      ensures Mutual(F, a, b) <==> Mutual(E, a, b)
    {
      if Mutual(F, a, b) {
        ReachTransitive(Causal(F), a, b, a);
        ReachTransitive(Causal(F), b, a, b);
      }
      if Mutual(E, a, b) {
        BeforeEndsInside(E, a, b);
        BeforeEndsInside(E, b, a);
      }
      if a in E && b in E {
        NoNewPaths(E, F, a, b);
        NoNewPaths(E, F, b, a);
      }
    }
  }
}
