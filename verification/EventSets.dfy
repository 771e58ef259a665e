/** What merging a set of rows means: every unresolved conflict component gains one derived row
    (src/distributed/merge_algebra.ts, first half). */
module EventSets {
  import opened Results
  import opened Ids
  import opened Digraph
  import opened CanonicalKeys
  import opened DistributedEvents
  import opened CausalGraphs
  import opened ConflictSets
  import opened PayloadMerge

  // ----- conflicts of a row set -----

  predicate Primitive(E: Rows, a: Id) {
    a in E && E[a].kind != MERGE_RESOLVED
  }

  ghost predicate ConflictEdge(E: Rows, a: Id, b: Id) {
    Primitive(E, a) && Primitive(E, b) && Concurrent(E, a, b) && Overlap(E[a].payload, E[b].payload)
  }

  /** Primitive rows, joined when concurrent and overlapping. */
  ghost function Conflicts(E: Rows): Graph {
    (a: Id) => set b | b in E && ConflictEdge(E, a, b)
  }

  /** hasMergeForSet, for one row. */
  predicate Resolves(r: Row, s: seq<Id>) {
    r.kind == MERGE_RESOLVED && |r.resolvedFrom| == |s| && SortList(r.resolvedFrom) == SortList(s)
  }

  ghost predicate Resolved(E: Rows, s: seq<Id>) {
    exists id :: id in E && Resolves(E[id], s)
  }

  /** A conflict component without a merge row. */
  ghost predicate Unresolved(E: Rows, s: seq<Id>) {
    Component(Conflicts(E), s) && !Resolved(E, s)
  }

  lemma ComponentInside(E: Rows, s: seq<Id>)
    requires Component(Conflicts(E), s)
    ensures forall x :: x in s ==> Primitive(E, x)
  {
    forall x | x in s
      ensures Primitive(E, x)
    {
      var y := ComponentHasEdge(Conflicts(E), s, x);
    }
  }

  // ----- the derived row -----

  ghost predicate Present(E: Rows, s: seq<Id>) {
    forall i :: 0 <= i < |s| ==> s[i] in E
  }

  function RowsOf(E: Rows, s: seq<Id>): (r: seq<Row>)
    requires forall i :: 0 <= i < |s| ==> s[i] in E
    ensures |r| == |s| && forall i :: 0 <= i < |s| ==> r[i] == E[s[i]]
  {
    seq(|s|, i requires 0 <= i < |s| => E[s[i]])
  }

  /** The largest sequence on a node, 0 when there is none or none is positive. */
  ghost predicate MaxSequence(E: Rows, node: Id, m: int) {
    && m >= 0
    && (forall id :: id in E && E[id].node == node ==> E[id].sequence <= m)
    && (m == 0 || exists id :: id in E && E[id].node == node && E[id].sequence == m)
  }

  ghost function ParentsOf(E: Rows, s: seq<Id>): set<Id> {
    set x, p | x in s && x in E && p in E[x].parents :: p
  }

  /** The row mergeConflictSet derives for a component: placed on the winner's node right after every
      row there, carrying the winner's clock, all sources, all their parents and the merged payload. */
  ghost predicate MergeRow(digest: Digest, E: Rows, s: seq<Id>, row: Row) {
    && Present(E, s)
    && (exists w :: w in s && w in E && WonBy(E, s, w, row))
    && MaxSequence(E, row.node, row.sequence - 1)
    && row.kind == MERGE_RESOLVED
    && GroupPayload(RowsOf(E, s), row.payload)
    && StrictlySorted(row.parents) && Elements(row.parents) == ParentsOf(E, s)
    && row.resolvedFrom == s
    && row.conflictSet == Some(ConflictSetId(digest, s))
    && row.id == DerivedId(digest, row)
  }

  ghost predicate WonBy(E: Rows, s: seq<Id>, w: Id, row: Row)
    requires Present(E, s) && w in E
  {
    && Greatest(RowsOf(E, s), E[w])
    && row.node == E[w].node && row.time == E[w].time
    && row.policy == Some(Decision("deterministic_order", w, s))
  }

  /** What rows show that validation admits: canonical JSON under derived ids. */
  ghost predicate Identified(digest: Digest, E: Rows) {
    && RowTable(E)
    && forall id :: id in E ==> CanonicalRow(E[id]) && CanonicalJson(E[id].payload) && id == DerivedId(digest, E[id])
  }

  lemma WinnerUnique(E: Rows, s: seq<Id>, w: Id, row: Row, w': Id, row': Row)
    requires RowTable(E) && Present(E, s) && w in s && w in E && w' in s && w' in E
    requires WonBy(E, s, w, row) && WonBy(E, s, w', row')
    ensures w == w'
  {
    LessIsTotalOrder(E[w], E[w'], E[w]);
  }

  lemma RowsDistinct(E: Rows, s: seq<Id>)
    requires RowTable(E) && Present(E, s) && StrictlySorted(s)
    ensures DistinctRows(RowsOf(E, s))
  {
  }

  /** The derived row is a function of the row set and the component. */
  lemma MergeRowUnique(digest: Digest, E: Rows, s: seq<Id>, row: Row, row': Row)
    requires RowTable(E) && StrictlySorted(s) && MergeRow(digest, E, s, row) && MergeRow(digest, E, s, row')
    ensures row == row'
  {
    var w :| w in s && w in E && WonBy(E, s, w, row);
    var w' :| w' in s && w' in E && WonBy(E, s, w', row');
    WinnerUnique(E, s, w, row, w', row');
    RowsDistinct(E, s);
    GroupPayloadUnique(RowsOf(E, s), RowsOf(E, s), row.payload, row'.payload);
    SortedUnique(row.parents, row'.parents);
    assert row.sequence == row'.sequence;
    assert RowValues(None, row) == RowValues(None, row');
  }

  lemma MergeRowOk(digest: Digest, E: Rows, s: seq<Id>, row: Row)
    requires Component(Conflicts(E), s) && MergeRow(digest, E, s, row)
    ensures CanonicalRow(row) && CanonicalJson(row.payload) && Resolves(row, s)
  {
    SortListSorts(s);
    CanonFixpoint(row.payload);
    assert Sorted(s);
  }

  /** A derived row is new: an identified row under its id would already resolve the component. */
  lemma MergeRowFresh(digest: Digest, E: Rows, s: seq<Id>, row: Row)
    requires EventModel.CollisionFree(digest) && Identified(digest, E)
    requires Unresolved(E, s) && MergeRow(digest, E, s, row)
    ensures row.id !in E
  {
    MergeRowOk(digest, E, s, row);
    if row.id in E {
      DerivedIdInjective(digest, row, E[row.id]);
      assert false;
    }
  }

  lemma MergeRowsApart(digest: Digest, E: Rows, s: seq<Id>, row: Row, s': seq<Id>, row': Row)
    requires EventModel.CollisionFree(digest) && Component(Conflicts(E), s) && Component(Conflicts(E), s')
    requires MergeRow(digest, E, s, row) && MergeRow(digest, E, s', row') && row.id == row'.id
    ensures s == s'
  {
    MergeRowOk(digest, E, s, row);
    MergeRowOk(digest, E, s', row');
    DerivedIdInjective(digest, row, row');
    assert row.(id := 0).resolvedFrom == row'.(id := 0).resolvedFrom;
  }

  // ----- absorbing conflicts -----

  ghost predicate Extends(E: Rows, F: Rows) {
    forall id :: id in E ==> id in F && F[id] == E[id]
  }

  ghost predicate DerivedFor(digest: Digest, E: Rows, s: seq<Id>, row: Row) {
    Unresolved(E, s) && MergeRow(digest, E, s, row)
  }

  ghost predicate IsDerived(digest: Digest, E: Rows, row: Row) {
    exists s :: DerivedFor(digest, E, s, row)
  }

  lemma UnresolvedPresent(D: Rows, s: seq<Id>)
    requires Component(Conflicts(D), s)
    ensures Present(D, s) && |s| >= 2
  {
    ComponentInside(D, s);
    assert forall i :: 0 <= i < |s| ==> s[i] in s && Primitive(D, s[i]);
  }

  lemma DerivedHasMax(digest: Digest, D: Rows, row: Row)
    ensures IsDerived(digest, D, row) ==> MaxSequence(D, row.node, row.sequence - 1)
  {
  }

  ghost predicate Covered(digest: Digest, E: Rows, F: Rows, s: seq<Id>) {
    exists id :: id in F && DerivedFor(digest, E, s, F[id])
  }

  /** The meaning of absorbConflictSets, and so of mergeEventSets on deduplicated rows: F is E with
      exactly one derived row for every unresolved component. */
  ghost predicate Absorbed(digest: Digest, E: Rows, F: Rows) {
    && RowTable(F) && Extends(E, F)
    && (forall s :: Unresolved(E, s) ==> Covered(digest, E, F, s))
    && (forall id :: id in F && id !in E ==> IsDerived(digest, E, F[id]))
  }

  lemma AbsorbedIncluded(digest: Digest, E: Rows, F: Rows, F': Rows, id: Id)
    requires RowTable(E) && Absorbed(digest, E, F) && Absorbed(digest, E, F') && id in F
    ensures id in F' && F'[id] == F[id]
  {
    if id !in E {
      var s :| DerivedFor(digest, E, s, F[id]);
      assert Covered(digest, E, F', s);
      var id' :| id' in F' && DerivedFor(digest, E, s, F'[id']);
      MergeRowUnique(digest, E, s, F[id], F'[id']);
    }
  }

  /** The merged set is determined by the input set. */
  lemma AbsorbedUnique(digest: Digest, E: Rows, F: Rows, F': Rows)
    requires RowTable(E) && Absorbed(digest, E, F) && Absorbed(digest, E, F')
    ensures F == F'
  {
    forall id
      ensures id in F <==> id in F'
      ensures id in F ==> F[id] == F'[id]
    {
      if id in F {
        AbsorbedIncluded(digest, E, F, F', id);
      }
      if id in F' {
        AbsorbedIncluded(digest, E, F', F, id);
      }
    }
  }

  /** Merging keeps every input row, and resolves every conflict component by a row that is greater than,
      and causally after, each of its sources. */
  lemma MergeCoversConflicts(digest: Digest, E: Rows, F: Rows, s: seq<Id>)
    requires RowTable(E) && Absorbed(digest, E, F) && Component(Conflicts(E), s)
    ensures Extends(E, F) && Resolved(F, s)
    ensures !Resolved(E, s) ==> exists id :: id in F && id !in E && AfterSources(F, s, id)
  {
    if Resolved(E, s) {
      var id :| id in E && Resolves(E[id], s);
      assert F[id] == E[id];
    } else {
      assert Covered(digest, E, F, s);
      var id :| id in F && DerivedFor(digest, E, s, F[id]);
      MergeRowOk(digest, E, s, F[id]);
      RowAfterSources(digest, E, F, s, id);
      assert id in F && Resolves(F[id], s);
      assert id !in E;
    }
  }

  ghost predicate AfterSources(F: Rows, s: seq<Id>, id: Id) {
    id in F && F[id].resolvedFrom == s && forall x :: x in s ==> x in F && Less(F[x], F[id]) && Before(F, x, id)
  }

  lemma RowAfterSources(digest: Digest, E: Rows, F: Rows, s: seq<Id>, id: Id)
    requires RowTable(E) && RowTable(F) && Extends(E, F) && id in F && DerivedFor(digest, E, s, F[id])
    ensures AfterSources(F, s, id)
  {
    var row := F[id];
    var w :| w in s && w in E && WonBy(E, s, w, row);
    assert E[w].sequence < row.sequence;
    forall x | x in s
      ensures x in F && Less(F[x], row) && Before(F, x, id)
    {
      var i :| 0 <= i < |s| && s[i] == x;
      assert RowsOf(E, s)[i] == E[x];
      assert E[x] in RowsOf(E, s);
      LessIsTotalOrder(E[x], E[w], row);
      assert CausalEdge(F, x, id);
      ReachEdge(Causal(F), x, id);
    }
  }

  // ----- new rows add no path between old ones -----

  ghost predicate RefClosed(E: Rows) {
    forall b, a :: b in E && (a in E[b].parents || a in E[b].resolvedFrom) ==> a in E
  }

  /** F adds rows behind the last row of every node only. */
  ghost predicate OnTop(E: Rows, F: Rows) {
    && RowTable(E) && RowTable(F) && Extends(E, F) && RefClosed(E)
    && forall r, x :: r in F && r !in E && x in E && E[x].node == F[r].node ==> E[x].sequence < F[r].sequence
  }

  lemma AbsorbedOnTop(digest: Digest, E: Rows, F: Rows)
    requires RowTable(E) && RefClosed(E) && Absorbed(digest, E, F)
    ensures OnTop(E, F)
  {
    forall r, x | r in F && r !in E && x in E && E[x].node == F[r].node
      ensures E[x].sequence < F[r].sequence
    {
      var s :| DerivedFor(digest, E, s, F[r]);
    }
  }

  lemma EdgeIntoOld(E: Rows, F: Rows, a: Id, b: Id)
    requires OnTop(E, F) && b in E
    ensures Edge(Causal(F), a, b) ==> a in E
    ensures Edge(Causal(F), a, b) <==> Edge(Causal(E), a, b)
  {
    if Follows(F, a, b) {
      assert a in E;
      assert OnChain(E, a, b);
      forall c | c in E && OnChain(E, a, c) && OnChain(E, c, b)
        ensures false
      {
        assert OnChain(F, a, c) && OnChain(F, c, b);
      }
    }
    if Follows(E, a, b) {
      assert OnChain(F, a, b);
      forall c | c in F && OnChain(F, a, c) && OnChain(F, c, b)
        ensures false
      {
        assert c in E;
        assert OnChain(E, a, c) && OnChain(E, c, b);
      }
    }
    assert CausalEdge(F, a, b) <==> CausalEdge(E, a, b);
  }

  lemma {:induction false} PathIntoOld(E: Rows, F: Rows, p: seq<Id>)
    requires OnTop(E, F) && IsPath(Causal(F), p) && |p| > 1 && p[|p| - 1] in E
    ensures p[0] in E && Before(E, p[0], p[|p| - 1])
    decreases |p|
  {
    var k := |p| - 1;
    assert Edge(Causal(F), p[k - 1], p[k]);
    EdgeIntoOld(E, F, p[k - 1], p[k]);
    ReachEdge(Causal(E), p[k - 1], p[k]);
    if |p| > 2 {
      var q := p[..k];
      forall i | 0 <= i < |q| - 1
        ensures Edge(Causal(F), q[i], q[i + 1])
      {
        assert Edge(Causal(F), p[i], p[i + 1]);
      }
      PathIntoOld(E, F, q);
      ReachTransitive(Causal(E), p[0], p[k - 1], p[k]);
    }
  }

  lemma {:induction false} PathOfOld(E: Rows, F: Rows, p: seq<Id>)
    requires OnTop(E, F) && IsPath(Causal(E), p)
    ensures IsPath(Causal(F), p)
  {
    forall i | 0 <= i < |p| - 1
      ensures Edge(Causal(F), p[i], p[i + 1])
    {
      assert Edge(Causal(E), p[i], p[i + 1]);
      EdgeIntoOld(E, F, p[i], p[i + 1]);
    }
  }

  /** Happens-before between old rows is unchanged. */
  lemma NoNewPaths(E: Rows, F: Rows, a: Id, b: Id)
    requires OnTop(E, F) && b in E
    ensures Before(F, a, b) <==> Before(E, a, b)
  {
    if Before(F, a, b) {
      var p :| PathBetween(Causal(F), p, a, b);
      PathIntoOld(E, F, p);
    }
    if Before(E, a, b) {
      var p :| PathBetween(Causal(E), p, a, b);
      PathOfOld(E, F, p);
      assert PathBetween(Causal(F), p, a, b);
    }
  }

  ghost predicate SameEdges(g: Graph, h: Graph) {
    forall a, b :: Edge(g, a, b) <==> Edge(h, a, b)
  }

  lemma SameComponents(g: Graph, h: Graph, s: seq<Id>)
    requires SameEdges(g, h)
    ensures Component(g, s) <==> Component(h, s)
  {
    forall x, y
      ensures MemberAt(g, s, x, y) <==> MemberAt(h, s, x, y)
    {
      if Reaches(g, x, y) {
        ReachMonotone(h, g, x, y);
      }
      if Reaches(h, x, y) {
        ReachMonotone(g, h, x, y);
      }
    }
  }

  /** Rows of the derived kind on top leave the conflict graph alone. */
  lemma ConflictsStay(E: Rows, F: Rows)
    requires OnTop(E, F) && forall r :: r in F && r !in E ==> F[r].kind == MERGE_RESOLVED
    ensures SameEdges(Conflicts(E), Conflicts(F))
  {
    forall a, b
      ensures Edge(Conflicts(E), a, b) <==> Edge(Conflicts(F), a, b)
    {
      if a in E && b in E {
        NoNewPaths(E, F, a, b);
        NoNewPaths(E, F, b, a);
      }
      assert ConflictEdge(E, a, b) <==> ConflictEdge(F, a, b);
    }
  }

  lemma AbsorbedKinds(digest: Digest, E: Rows, F: Rows)
    requires Absorbed(digest, E, F)
    ensures forall r :: r in F && r !in E ==> F[r].kind == MERGE_RESOLVED
  {
    forall r | r in F && r !in E
      ensures F[r].kind == MERGE_RESOLVED
    {
      var s :| DerivedFor(digest, E, s, F[r]);
    }
  }

  /** Nothing is left to resolve after a merge. */
  lemma NothingUnresolved(digest: Digest, E: Rows, F: Rows, s: seq<Id>)
    requires RowTable(E) && RefClosed(E) && Absorbed(digest, E, F)
    ensures !Unresolved(F, s)
  {
    AbsorbedOnTop(digest, E, F);
    AbsorbedKinds(digest, E, F);
    ConflictsStay(E, F);
    SameComponents(Conflicts(E), Conflicts(F), s);
    if Component(Conflicts(E), s) {
      MergeCoversConflicts(digest, E, F, s);
    }
  }

  /** Idempotence on reference-closed sets: merging a merged set adds nothing. */
  lemma MergeIdempotent(digest: Digest, E: Rows, F: Rows, G: Rows)
    requires RowTable(E) && RefClosed(E) && Absorbed(digest, E, F)
    ensures Absorbed(digest, F, G) <==> G == F
  {
    forall s
      ensures !Unresolved(F, s)
    {
      NothingUnresolved(digest, E, F, s);
    }
    if Absorbed(digest, F, G) {
      assert forall id :: id in G ==> !IsDerived(digest, F, G[id]);
      assert G.Keys == F.Keys;
    }
  }

  /** A merged set is again reference-closed and identified, and it has a causal cycle only if the input
      has one. */
  lemma MergeKeepsShape(digest: Digest, E: Rows, F: Rows)
    requires Identified(digest, E) && RefClosed(E) && Absorbed(digest, E, F)
    ensures Identified(digest, F) && RefClosed(F)
    ensures forall x :: Before(F, x, x) ==> x in E && Before(E, x, x)
  {
    AbsorbedOnTop(digest, E, F);
    forall b | b in F && b !in E
      ensures NewRowOk(digest, E, F[b])
    {
      assert IsDerived(digest, E, F[b]);
      DerivedRowOk(digest, E, F[b]);
    }
    ShapeKept(digest, E, F);
    forall x | Before(F, x, x)
      ensures x in E && Before(E, x, x)
    {
      NewRowsAcyclic(E, F, x);
      NoNewPaths(E, F, x, x);
    }
  }

  /** A derived row is canonical, carries its derived id and refers to rows of E only. */
  ghost predicate NewRowOk(digest: Digest, E: Rows, row: Row) {
    && CanonicalRow(row) && CanonicalJson(row.payload) && row.id == DerivedId(digest, row)
    && forall a :: a in row.parents || a in row.resolvedFrom ==> a in E
  }

  lemma DerivedRowOk(digest: Digest, E: Rows, row: Row)
    requires RefClosed(E) && IsDerived(digest, E, row)
    ensures NewRowOk(digest, E, row)
  {
    var s :| DerivedFor(digest, E, s, row);
    MergeRowOk(digest, E, s, row);
    ParentsPresent(E, s);
    FirstIsElement(row.parents);
  }

  lemma ParentsPresent(E: Rows, s: seq<Id>)
    requires RefClosed(E)
    ensures ParentsOf(E, s) <= E.Keys
  {
  }

  lemma ShapeKept(digest: Digest, E: Rows, F: Rows)
    requires Identified(digest, E) && RefClosed(E) && RowTable(F) && Extends(E, F)
    requires forall b :: b in F && b !in E ==> NewRowOk(digest, E, F[b])
    ensures Identified(digest, F) && RefClosed(F)
    ensures forall b, a :: b in F && b !in E && (a in F[b].parents || a in F[b].resolvedFrom) ==> a in E
  {
    forall b | b in F
      ensures CanonicalRow(F[b]) && CanonicalJson(F[b].payload) && b == DerivedId(digest, F[b])
    {
      assert b in E ==> F[b] == E[b];
    }
  }

  /** Among new rows only the chain order remains, and it is strict. */
  lemma {:induction false} NewRowsAcyclic(E: Rows, F: Rows, x: Id)
    requires OnTop(E, F) && Before(F, x, x)
    requires forall b, a :: b in F && b !in E && (a in F[b].parents || a in F[b].resolvedFrom) ==> a in E
    ensures x in E
  {
    if x !in E {
      var p :| PathBetween(Causal(F), p, x, x);
      NewPathClimbs(E, F, p);
    }
  }

  lemma {:induction false} NewPathClimbs(E: Rows, F: Rows, p: seq<Id>)
    requires OnTop(E, F) && IsPath(Causal(F), p) && |p| > 1 && p[0] !in E
    requires forall b, a :: b in F && b !in E && (a in F[b].parents || a in F[b].resolvedFrom) ==> a in E
    ensures p[0] in F && p[|p| - 1] in F && p[|p| - 1] !in E && ChainLess(F[p[0]], F[p[|p| - 1]])
  {
    assert Edge(Causal(F), p[0], p[1]);
    if p[1] in E {
      EdgeIntoOld(E, F, p[0], p[1]);
    }
    assert Follows(F, p[0], p[1]);
    if |p| > 2 {
      SubPath(Causal(F), p);
      NewPathClimbs(E, F, p[1..]);
    }
  }
}
