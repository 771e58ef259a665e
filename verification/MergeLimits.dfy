/** Where the row merge is associative, as docs/distributed/causality_model.md promises, and where it is not. */
module MergeLimits {
  import opened Ids
  import opened Digraph
  import opened CanonicalKeys
  import opened DistributedEvents
  import opened CausalGraphs
  import opened ConflictSets
  import opened PayloadMerge
  import opened EventSets
  import opened ExampleRows

  // ----- rows added before a merge -----

  predicate Early(D: Rows, G: Rows, r: Id) {
    r in G && r !in D
  }

  /** The merge of D would derive every early row itself. */
  ghost predicate EarlyRowsDerived(digest: Digest, D: Rows, G: Rows) {
    forall r :: Early(D, G, r) ==> IsDerived(digest, D, G[r])
  }

  ghost predicate Crowds(D: Rows, G: Rows, r: Id, s: seq<Id>, w: Id) {
    Early(D, G, r) && Present(D, s) && w in s && w in D && Greatest(RowsOf(D, s), D[w]) && D[w].node == G[r].node
  }

  /** No early row stands on the winner's node of a component that is still unresolved. */
  ghost predicate EarlyRowsAside(D: Rows, G: Rows) {
    forall r, s, w :: Unresolved(D, s) && !Resolved(G, s) ==> !Crowds(D, G, r, s, w)
  }

  lemma EarlyOnTop(digest: Digest, D: Rows, G: Rows)
    requires RowTable(D) && RowTable(G) && RefClosed(D) && Extends(D, G) && EarlyRowsDerived(digest, D, G)
    ensures OnTop(D, G) && SameEdges(Conflicts(D), Conflicts(G))
    ensures forall r :: Early(D, G, r) ==> MaxSequence(D, G[r].node, G[r].sequence - 1) && G[r].kind == MERGE_RESOLVED
  {
    forall r | Early(D, G, r)
      ensures MaxSequence(D, G[r].node, G[r].sequence - 1) && G[r].kind == MERGE_RESOLVED
    {
      var s :| DerivedFor(digest, D, s, G[r]);
    }
    ConflictsStay(D, G);
  }

  lemma UnresolvedStays(D: Rows, G: Rows, s: seq<Id>)
    requires Extends(D, G) && SameEdges(Conflicts(D), Conflicts(G))
    ensures Unresolved(G, s) <==> Unresolved(D, s) && !Resolved(G, s)
  {
    SameComponents(Conflicts(D), Conflicts(G), s);
    if Resolved(D, s) {
      var id :| id in D && Resolves(D[id], s);
      assert id in G && Resolves(G[id], s);
    }
  }

  /** Without early rows on its node the largest sequence is unchanged. */
  lemma MaxSequenceStays(D: Rows, G: Rows, node: Id, m: int)
    requires Extends(D, G) && forall r :: Early(D, G, r) ==> G[r].node != node
    ensures MaxSequence(D, node, m) <==> MaxSequence(G, node, m)
  {
    if MaxSequence(G, node, m) && m != 0 {
      var id :| id in G && G[id].node == node && G[id].sequence == m;
      assert id in D;
    }
    if MaxSequence(D, node, m) && m != 0 {
      var id :| id in D && D[id].node == node && D[id].sequence == m;
      assert id in G && G[id].node == node && G[id].sequence == m;
    }
  }

  lemma SameRows(D: Rows, G: Rows, s: seq<Id>)
    requires Extends(D, G) && Present(D, s)
    ensures Present(G, s) && RowsOf(G, s) == RowsOf(D, s) && ParentsOf(G, s) == ParentsOf(D, s)
  {
    assert forall x :: x in s ==> x in D;
    assert ParentsOf(G, s) == ParentsOf(D, s);
  }

  lemma DerivedAlike(digest: Digest, D: Rows, G: Rows, s: seq<Id>, row: Row)
    requires Extends(D, G) && Present(D, s)
    requires forall r :: Early(D, G, r) ==> G[r].node != row.node
    ensures MergeRow(digest, D, s, row) <==> MergeRow(digest, G, s, row)
  {
    SameRows(D, G, s);
    MaxSequenceStays(D, G, row.node, row.sequence - 1);
    assert forall w :: w in s ==> w in D && w in G && D[w] == G[w];
    if w :| w in s && w in D && WonBy(D, s, w, row) {
      assert WonBy(G, s, w, row);
    }
    if w :| w in s && w in G && WonBy(G, s, w, row) {
      assert WonBy(D, s, w, row);
    }
  }

  /** The node of the row of an unresolved component is free of early rows. */
  lemma RowNodeFree(digest: Digest, D: Rows, G: Rows, s: seq<Id>, row: Row)
    requires RowTable(D) && Extends(D, G) && EarlyRowsAside(D, G) && Unresolved(D, s) && !Resolved(G, s)
    requires MergeRow(digest, D, s, row) || MergeRow(digest, G, s, row)
    ensures forall r :: Early(D, G, r) ==> G[r].node != row.node
  {
    UnresolvedPresent(D, s);
    SameRows(D, G, s);
    var w :| w in s && w in G && w in D && D[w].node == row.node && Greatest(RowsOf(D, s), D[w]);
    forall r | Early(D, G, r)
      ensures G[r].node != row.node
    {
      assert !Crowds(D, G, r, s, w);
    }
  }

  /** Rows that the full merge would derive anyway, set aside from the nodes still to be written, do not
      change it. */
  lemma EarlyRowsHarmless(digest: Digest, D: Rows, G: Rows, F: Rows)
    requires RowTable(D) && RowTable(G) && RefClosed(D) && Extends(D, G)
    requires EarlyRowsDerived(digest, D, G) && EarlyRowsAside(D, G)
    requires Absorbed(digest, G, F)
    ensures Absorbed(digest, D, F)
  {
    EarlyOnTop(digest, D, G);
    forall s | Unresolved(D, s)
      ensures Covered(digest, D, F, s)
    {
      UnresolvedStays(D, G, s);
      if Resolved(G, s) {
        ResolvedEarly(digest, D, G, F, s);
      } else {
        assert Covered(digest, G, F, s);
        var id :| id in F && DerivedFor(digest, G, s, F[id]);
        UnresolvedPresent(D, s);
        RowNodeFree(digest, D, G, s, F[id]);
        DerivedAlike(digest, D, G, s, F[id]);
        assert DerivedFor(digest, D, s, F[id]);
      }
    }
    forall id | id in F && id !in D
      ensures IsDerived(digest, D, F[id])
    {
      if id in G {
        assert Early(D, G, id);
      } else {
        var s :| DerivedFor(digest, G, s, F[id]);
        UnresolvedStays(D, G, s);
        UnresolvedPresent(D, s);
        RowNodeFree(digest, D, G, s, F[id]);
        DerivedAlike(digest, D, G, s, F[id]);
        assert DerivedFor(digest, D, s, F[id]);
      }
    }
  }

  lemma ResolvedEarly(digest: Digest, D: Rows, G: Rows, F: Rows, s: seq<Id>)
    requires Extends(D, G) && EarlyRowsDerived(digest, D, G) && Extends(G, F)
    requires Unresolved(D, s) && Resolved(G, s)
    ensures Covered(digest, D, F, s)
  {
    var id :| id in G && Resolves(G[id], s);
    assert forall d :: d in D ==> !Resolves(D[d], s);
    assert Early(D, G, id);
    var t :| DerivedFor(digest, D, t, G[id]);
    SameSources(G[id], s, t);
    assert DerivedFor(digest, D, s, F[id]);
  }

  lemma EarlyRowsNeeded(digest: Digest, D: Rows, G: Rows, F: Rows)
    requires RowTable(D) && RowTable(G) && RefClosed(D) && Extends(D, G)
    requires Absorbed(digest, G, F) && Absorbed(digest, D, F)
    ensures EarlyRowsDerived(digest, D, G) && EarlyRowsAside(D, G)
  {
    forall r | Early(D, G, r)
      ensures IsDerived(digest, D, G[r])
    {
      assert r in F && F[r] == G[r];
    }
    EarlyOnTop(digest, D, G);
    forall r, s, w | Unresolved(D, s) && !Resolved(G, s)
      ensures !Crowds(D, G, r, s, w)
    {
      if Crowds(D, G, r, s, w) {
        CrowdedRowDiffers(digest, D, G, F, r, s, w);
        assert false;
      }
    }
  }

  /** The component's row is pushed one sequence further by the early row on its node. */
  lemma CrowdedRowDiffers(digest: Digest, D: Rows, G: Rows, F: Rows, r: Id, s: seq<Id>, w: Id)
    requires RowTable(D) && RowTable(G) && Extends(D, G)
    requires SameEdges(Conflicts(D), Conflicts(G)) && Absorbed(digest, G, F)
    requires Unresolved(D, s) && !Resolved(G, s) && Crowds(D, G, r, s, w)
    requires MaxSequence(D, G[r].node, G[r].sequence - 1)
    ensures !Absorbed(digest, D, F)
  {
    UnresolvedStays(D, G, s);
    assert Covered(digest, G, F, s);
    var id :| id in F && DerivedFor(digest, G, s, F[id]);
    MergeRowOk(digest, G, s, F[id]);
    assert Extends(D, F);
    NotOld(D, F, s, id);
    NotDerivedTwice(digest, D, G, s, F[id], r, w);
  }

  lemma NotOld(D: Rows, F: Rows, s: seq<Id>, id: Id)
    requires Extends(D, F) && !Resolved(D, s) && id in F && Resolves(F[id], s)
    ensures id !in D
  {
    assert forall d :: d in D ==> !Resolves(D[d], s);
  }

  lemma NotDerivedTwice(digest: Digest, D: Rows, G: Rows, s: seq<Id>, row: Row, r: Id, w: Id)
    requires RowTable(D) && Extends(D, G) && MergeRow(digest, G, s, row)
    requires Crowds(D, G, r, s, w) && MaxSequence(D, G[r].node, G[r].sequence - 1)
    ensures !IsDerived(digest, D, row)
  {
    SameRows(D, G, s);
    var v :| v in s && v in G && WonBy(G, s, v, row);
    var i :| 0 <= i < |s| && s[i] == v;
    assert v in D && D[v] == G[v];
    LessIsTotalOrder(D[v], D[w], D[v]);
    SequencesClash(D, G, G[r].node, row.sequence - 1, r);
    DerivedHasMax(digest, D, row);
  }

  lemma SequencesClash(D: Rows, G: Rows, node: Id, m: int, r: Id)
    requires MaxSequence(G, node, m)
    requires r in G && G[r].node == node && MaxSequence(D, node, G[r].sequence - 1)
    ensures !MaxSequence(D, node, m)
  {
  }

  /** Two-stage merging, exactly: merging after some rows were added early gives the merge of the
      original set if and only if that merge derives each early row itself and no early row stands on
      the winner's node of a component that is still to be resolved. */
  lemma TwoStageExactly(digest: Digest, D: Rows, G: Rows, F: Rows, F': Rows)
    requires RowTable(D) && RowTable(G) && RefClosed(D) && Extends(D, G)
    requires Absorbed(digest, D, F) && Absorbed(digest, G, F')
    ensures F' == F <==> EarlyRowsDerived(digest, D, G) && EarlyRowsAside(D, G)
  {
    if EarlyRowsDerived(digest, D, G) && EarlyRowsAside(D, G) {
      EarlyRowsHarmless(digest, D, G, F');
      AbsorbedUnique(digest, D, F, F');
    }
    if F' == F {
      EarlyRowsNeeded(digest, D, G, F);
    }
  }

  // ----- associativity, told by the inputs -----

  /** C already holds the row the merge of AB derives for the component. */
  ghost predicate HeldBy(digest: Digest, AB: Rows, C: Rows, t: seq<Id>) {
    exists id :: id in C && MergeRow(digest, AB, t, C[id])
  }

  /** Merging AB alone adds a row that C lacks. */
  ghost predicate Opened(digest: Digest, AB: Rows, C: Rows, t: seq<Id>) {
    Unresolved(AB, t) && !HeldBy(digest, AB, C, t)
  }

  ghost predicate WinnerOf(E: Rows, s: seq<Id>, w: Id) {
    Present(E, s) && w in s && w in E && Greatest(RowsOf(E, s), E[w])
  }

  /** r does not stand behind every row of E on its node. */
  ghost predicate NotBeyond(E: Rows, r: Row) {
    r.sequence <= 0 || exists y :: y in E && E[y].node == r.node && r.sequence <= E[y].sequence
  }

  /** No row of C stands on the winner's node behind all rows of AB there. */
  ghost predicate NoneBeyond(AB: Rows, C: Rows, t: seq<Id>) {
    forall w, x :: WinnerOf(AB, t, w) && x in C && C[x].node == AB[w].node ==> NotBeyond(AB, C[x])
  }

  /** Every component that AB opens is one of AB + C too, still unresolved, its row placed alike. */
  ghost predicate ComponentsStand(digest: Digest, AB: Rows, C: Rows) {
    forall t :: Opened(digest, AB, C, t) ==> Unresolved(AB + C, t) && NoneBeyond(AB, C, t)
  }

  ghost predicate NodesDiffer(AB: Rows, D: Rows, t: seq<Id>, s: seq<Id>) {
    forall v, w :: WinnerOf(AB, t, v) && WinnerOf(D, s, w) ==> AB[v].node != D[w].node
  }

  /** No component that only C brings about is won on the node of one that AB opens. */
  ghost predicate WinnersAside(digest: Digest, AB: Rows, C: Rows) {
    forall t, s :: Opened(digest, AB, C, t) && Unresolved(AB + C, s) && !Unresolved(AB, s) ==>
        NodesDiffer(AB, AB + C, t, s)
  }

  /** Identified rows under one id are equal. */
  lemma SameIdSameRow(digest: Digest, a: Row, b: Row)
    requires EventModel.CollisionFree(digest) && CanonicalRow(a) && CanonicalRow(b)
    requires CanonicalJson(a.payload) && CanonicalJson(b.payload)
    requires a.id == DerivedId(digest, a) && b.id == DerivedId(digest, b) && a.id == b.id
    ensures a == b
  {
    DerivedIdInjective(digest, a, b);
    assert a == a.(id := 0).(id := a.id) && b == b.(id := 0).(id := b.id);
  }

  /** The early rows are exactly the rows of the opened components. */
  ghost predicate EarlyAreOpened(digest: Digest, AB: Rows, C: Rows, F1: Rows) {
    && Extends(AB, AB + C) && Extends(AB + C, F1 + C)
    && (forall r :: Early(AB + C, F1 + C, r) ==> exists t :: OpenedRow(digest, AB, C, t, (F1 + C)[r]))
    && (forall t :: Opened(digest, AB, C, t) ==>
          exists r :: Early(AB + C, F1 + C, r) && OpenedRow(digest, AB, C, t, (F1 + C)[r]))
  }

  ghost predicate OpenedRow(digest: Digest, AB: Rows, C: Rows, t: seq<Id>, row: Row) {
    Opened(digest, AB, C, t) && MergeRow(digest, AB, t, row)
  }

  lemma RowInC(digest: Digest, AB: Rows, C: Rows, t: seq<Id>, row: Row)
    requires EventModel.CollisionFree(digest) && RowTable(AB) && Identified(digest, C) && DerivedFor(digest, AB, t, row)
    ensures row.id in C <==> HeldBy(digest, AB, C, t)
    ensures row.id in C ==> C[row.id] == row
  {
    if row.id in C {
      MergeRowOk(digest, AB, t, row);
      SameIdSameRow(digest, row, C[row.id]);
    }
    if id :| id in C && MergeRow(digest, AB, t, C[id]) {
      MergeRowUnique(digest, AB, t, row, C[id]);
    }
  }

  lemma InputsAgree(digest: Digest, AB: Rows, C: Rows, F1: Rows)
    requires EventModel.CollisionFree(digest) && Identified(digest, AB) && Identified(digest, C)
    requires Absorbed(digest, AB, F1)
    ensures forall id :: id in AB && id in C ==> AB[id] == C[id]
    ensures forall id :: id in F1 && id in C ==> F1[id] == C[id]
  {
    forall id | id in AB && id in C
      ensures AB[id] == C[id]
    {
      SameIdSameRow(digest, AB[id], C[id]);
    }
    forall id | id in F1 && id in C
      ensures F1[id] == C[id]
    {
      if id !in AB {
        var t :| DerivedFor(digest, AB, t, F1[id]);
        RowInC(digest, AB, C, t, F1[id]);
      }
    }
  }

  lemma OpenedIsEarly(digest: Digest, AB: Rows, C: Rows, F1: Rows, t: seq<Id>) returns (r: Id)
    requires EventModel.CollisionFree(digest) && Identified(digest, AB) && Identified(digest, C)
    requires Absorbed(digest, AB, F1) && Opened(digest, AB, C, t)
    ensures Early(AB + C, F1 + C, r) && OpenedRow(digest, AB, C, t, (F1 + C)[r])
  {
    assert Covered(digest, AB, F1, t);
    r :| r in F1 && DerivedFor(digest, AB, t, F1[r]);
    MergeRowFresh(digest, AB, t, F1[r]);
    RowInC(digest, AB, C, t, F1[r]);
  }

  lemma EarlyIsOpened(digest: Digest, AB: Rows, C: Rows, F1: Rows, r: Id) returns (t: seq<Id>)
    requires EventModel.CollisionFree(digest) && Identified(digest, AB) && Identified(digest, C)
    requires Absorbed(digest, AB, F1) && Early(AB + C, F1 + C, r)
    ensures OpenedRow(digest, AB, C, t, (F1 + C)[r])
  {
    t :| DerivedFor(digest, AB, t, F1[r]);
    RowInC(digest, AB, C, t, F1[r]);
  }

  lemma InputsExtend(digest: Digest, AB: Rows, C: Rows, F1: Rows)
    requires EventModel.CollisionFree(digest) && Identified(digest, AB) && Identified(digest, C)
    requires Absorbed(digest, AB, F1)
    ensures Extends(AB, AB + C) && Extends(AB + C, F1 + C)
  {
    InputsAgree(digest, AB, C, F1);
    AgreeExtends(AB, C, F1);
  }

  lemma AgreeExtends(AB: Rows, C: Rows, F1: Rows)
    requires Extends(AB, F1) && forall id :: id in AB && id in C ==> AB[id] == C[id]
    ensures Extends(AB, AB + C) && Extends(AB + C, F1 + C)
  {
  }

  lemma EarlyRowsOpened(digest: Digest, AB: Rows, C: Rows, F1: Rows)
    requires EventModel.CollisionFree(digest) && Identified(digest, AB) && Identified(digest, C)
    requires Absorbed(digest, AB, F1)
    ensures EarlyAreOpened(digest, AB, C, F1)
  {
    InputsExtend(digest, AB, C, F1);
    forall r | Early(AB + C, F1 + C, r)
      ensures exists t :: OpenedRow(digest, AB, C, t, (F1 + C)[r])
    {
      var t := EarlyIsOpened(digest, AB, C, F1, r);
    }
    forall t | Opened(digest, AB, C, t)
      ensures exists r :: Early(AB + C, F1 + C, r) && OpenedRow(digest, AB, C, t, (F1 + C)[r])
    {
      var r := OpenedIsEarly(digest, AB, C, F1, t);
    }
  }

  /** The winner of a derived row's component, and its place. */
  lemma RowPlace(digest: Digest, E: Rows, t: seq<Id>, row: Row) returns (w: Id)
    requires RowTable(E) && MergeRow(digest, E, t, row)
    ensures WinnerOf(E, t, w) && E[w].node == row.node
    ensures forall v :: WinnerOf(E, t, v) ==> E[v].node == row.node
  {
    w :| w in t && w in E && WonBy(E, t, w, row);
    forall v | WinnerOf(E, t, v)
      ensures E[v].node == row.node
    {
      LessIsTotalOrder(E[v], E[w], E[v]);
    }
  }

  /** The largest sequence stays exactly when C adds nothing beyond. */
  lemma MaxSequenceExactly(AB: Rows, C: Rows, node: Id, m: int)
    requires Extends(AB, AB + C) && MaxSequence(AB, node, m)
    ensures MaxSequence(AB + C, node, m) <==> forall x :: x in C && C[x].node == node ==> NotBeyond(AB, C[x])
  {
    var D := AB + C;
    if m != 0 {
      var top :| top in AB && AB[top].node == node && AB[top].sequence == m;
      assert top in D && D[top].node == node && D[top].sequence == m;
    }
    if forall x :: x in C && C[x].node == node ==> NotBeyond(AB, C[x]) {
      forall id | id in D && D[id].node == node
        ensures D[id].sequence <= m
      {
        if id in C {
          assert NotBeyond(AB, C[id]);
        }
      }
    }
    if MaxSequence(D, node, m) {
      forall x | x in C && C[x].node == node
        ensures NotBeyond(AB, C[x])
      {
        assert D[x] == C[x];
      }
    }
  }

  /** The row of a component of AB is the one of AB + C exactly when C adds nothing beyond on its node. */
  lemma PlacedAlike(digest: Digest, AB: Rows, C: Rows, t: seq<Id>, row: Row)
    requires RowTable(AB) && Extends(AB, AB + C) && MergeRow(digest, AB, t, row)
    ensures MergeRow(digest, AB + C, t, row) <==> NoneBeyond(AB, C, t)
  {
    var D := AB + C;
    SameRows(AB, D, t);
    var w := RowPlace(digest, AB, t, row);
    var won :| won in t && won in AB && WonBy(AB, t, won, row);
    assert D[won] == AB[won] && WonBy(D, t, won, row);
    MaxSequenceExactly(AB, C, row.node, row.sequence - 1);
    if NoneBeyond(AB, C, t) {
      assert forall x :: x in C && C[x].node == row.node ==> NotBeyond(AB, C[x]);
    }
  }

  lemma DerivedOfSources(digest: Digest, D: Rows, t: seq<Id>, row: Row)
    requires row.resolvedFrom == t
    ensures IsDerived(digest, D, row) <==> DerivedFor(digest, D, t, row)
  {
  }

  lemma StandIsDerived(digest: Digest, AB: Rows, C: Rows, F1: Rows)
    requires RowTable(AB) && EarlyAreOpened(digest, AB, C, F1)
    ensures ComponentsStand(digest, AB, C) <==> EarlyRowsDerived(digest, AB + C, F1 + C)
  {
    var D, G := AB + C, F1 + C;
    if ComponentsStand(digest, AB, C) {
      forall r | Early(D, G, r)
        ensures IsDerived(digest, D, G[r])
      {
        var t :| OpenedRow(digest, AB, C, t, G[r]);
        PlacedAlike(digest, AB, C, t, G[r]);
        DerivedOfSources(digest, D, t, G[r]);
      }
    }
    if EarlyRowsDerived(digest, D, G) {
      forall t | Opened(digest, AB, C, t)
        ensures Unresolved(D, t) && NoneBeyond(AB, C, t)
      {
        var r :| Early(D, G, r) && OpenedRow(digest, AB, C, t, G[r]);
        PlacedAlike(digest, AB, C, t, G[r]);
        DerivedOfSources(digest, D, t, G[r]);
      }
    }
  }

  lemma NotHeld(digest: Digest, AB: Rows, C: Rows, s: seq<Id>)
    requires Unresolved(AB + C, s) && Component(Conflicts(AB), s)
    ensures !HeldBy(digest, AB, C, s)
  {
    forall id | id in C
      ensures !MergeRow(digest, AB, s, C[id])
    {
      assert (AB + C)[id] == C[id];
      if MergeRow(digest, AB, s, C[id]) {
        MergeRowOk(digest, AB, s, C[id]);
      }
    }
  }

  lemma OpenedResolves(digest: Digest, AB: Rows, C: Rows, F1: Rows, s: seq<Id>)
    requires EarlyAreOpened(digest, AB, C, F1) && Opened(digest, AB, C, s)
    ensures Resolved(F1 + C, s)
  {
    var r :| Early(AB + C, F1 + C, r) && OpenedRow(digest, AB, C, s, (F1 + C)[r]);
    MergeRowOk(digest, AB, s, (F1 + C)[r]);
  }

  lemma EarlyResolver(digest: Digest, AB: Rows, C: Rows, F1: Rows, s: seq<Id>, id: Id)
    requires EarlyAreOpened(digest, AB, C, F1) && Unresolved(AB + C, s)
    requires id in F1 + C && Resolves((F1 + C)[id], s)
    ensures Unresolved(AB, s)
  {
    ResolverIsEarly(AB + C, F1 + C, s, id);
    var t :| OpenedRow(digest, AB, C, t, (F1 + C)[id]);
    SameSources((F1 + C)[id], s, t);
  }

  lemma ResolverIsEarly(D: Rows, G: Rows, s: seq<Id>, id: Id)
    requires Extends(D, G) && !Resolved(D, s) && id in G && Resolves(G[id], s)
    ensures Early(D, G, id)
  {
    assert forall d :: d in D ==> !Resolves(D[d], s);
  }

  lemma SameSources(row: Row, s: seq<Id>, t: seq<Id>)
    requires Resolves(row, s) && row.resolvedFrom == t && StrictlySorted(s) && StrictlySorted(t)
    ensures s == t
  {
    SortListSorts(s);
    SortListSorts(t);
    assert Sorted(s) && Sorted(t);
  }

  /** Of the components of AB + C the early rows resolve exactly those that were unresolved in AB. */
  lemma ResolvedEarlyExactly(digest: Digest, AB: Rows, C: Rows, F1: Rows, s: seq<Id>)
    requires EarlyAreOpened(digest, AB, C, F1) && Unresolved(AB + C, s)
    ensures Resolved(F1 + C, s) <==> Unresolved(AB, s)
  {
    if id :| id in F1 + C && Resolves((F1 + C)[id], s) {
      EarlyResolver(digest, AB, C, F1, s, id);
    }
    if Unresolved(AB, s) {
      NotHeld(digest, AB, C, s);
      OpenedResolves(digest, AB, C, F1, s);
    }
  }

  lemma AsideIsAside(digest: Digest, AB: Rows, C: Rows, F1: Rows)
    requires RowTable(AB) && EarlyAreOpened(digest, AB, C, F1)
    ensures WinnersAside(digest, AB, C) <==> EarlyRowsAside(AB + C, F1 + C)
  {
    var D, G := AB + C, F1 + C;
    if WinnersAside(digest, AB, C) {
      forall r, s, w | Unresolved(D, s) && !Resolved(G, s)
        ensures !Crowds(D, G, r, s, w)
      {
        ResolvedEarlyExactly(digest, AB, C, F1, s);
        NotCrowded(digest, AB, C, F1, r, s, w);
      }
    }
    if EarlyRowsAside(D, G) {
      forall t, s | Opened(digest, AB, C, t) && Unresolved(D, s) && !Unresolved(AB, s)
        ensures NodesDiffer(AB, D, t, s)
      {
        ResolvedEarlyExactly(digest, AB, C, F1, s);
        AsideNodes(digest, AB, C, F1, t, s);
      }
    }
  }

  lemma NotCrowded(digest: Digest, AB: Rows, C: Rows, F1: Rows, r: Id, s: seq<Id>, w: Id)
    requires RowTable(AB) && EarlyAreOpened(digest, AB, C, F1)
    requires forall t :: Opened(digest, AB, C, t) ==> NodesDiffer(AB, AB + C, t, s)
    ensures !Crowds(AB + C, F1 + C, r, s, w)
  {
    var D, G := AB + C, F1 + C;
    assert Crowds(D, G, r, s, w) ==> WinnerOf(D, s, w);
    if Early(D, G, r) {
      var t :| OpenedRow(digest, AB, C, t, G[r]);
      var v := RowPlace(digest, AB, t, G[r]);
    }
  }

  lemma AsideNodes(digest: Digest, AB: Rows, C: Rows, F1: Rows, t: seq<Id>, s: seq<Id>)
    requires RowTable(AB) && EarlyAreOpened(digest, AB, C, F1) && EarlyRowsAside(AB + C, F1 + C)
    requires Opened(digest, AB, C, t) && Unresolved(AB + C, s) && !Resolved(F1 + C, s)
    ensures NodesDiffer(AB, AB + C, t, s)
  {
    var D, G := AB + C, F1 + C;
    var r :| Early(D, G, r) && OpenedRow(digest, AB, C, t, G[r]);
    var u := RowPlace(digest, AB, t, G[r]);
    forall v, w | WinnerOf(AB, t, v) && WinnerOf(D, s, w)
      ensures AB[v].node != D[w].node
    {
      assert !Crowds(D, G, r, s, w);
    }
  }

  /** The associativity law of the row merge, exactly. Merging AB first and C later gives what merging all at
      once gives if and only if (1) every component the first merge resolves by a row that C lacks is a
      component of AB + C, unresolved there, with no row of C behind the rows of AB on its winner's node,
      and (2) no unresolved component that only AB + C has is won on such a node. */
  lemma MergeAssociativeExactly(digest: Digest, AB: Rows, C: Rows, F1: Rows, F2: Rows, F3: Rows)
    requires EventModel.CollisionFree(digest) && Identified(digest, AB) && Identified(digest, C) && RefClosed(AB + C)
    requires Absorbed(digest, AB, F1) && Absorbed(digest, F1 + C, F2) && Absorbed(digest, AB + C, F3)
    ensures F2 == F3 <==> ComponentsStand(digest, AB, C) && WinnersAside(digest, AB, C)
  {
    EarlyRowsOpened(digest, AB, C, F1);
    StandIsDerived(digest, AB, C, F1);
    AsideIsAside(digest, AB, C, F1);
    TwoStageExactly(digest, AB + C, F1 + C, F3, F2);
  }

  // ----- associativity fails -----

  predicate PlainAlone(E: Rows, a: Id) {
    a in E && E[a].parents == [] && E[a].resolvedFrom == []
    && forall b :: b in E && E[b].node == E[a].node ==> b == a
  }

  lemma AloneHasNoPast(E: Rows, a: Id, x: Id)
    requires PlainAlone(E, a)
    ensures !Before(E, x, a)
  {
    if Before(E, x, a) {
      var m := ReachLast(Causal(E), x, a);
    }
  }

  /** Three rows of three nodes, a and c overlapping b only. */
  ghost predicate Triple(a: Row, b: Row, c: Row) {
    && a.id != b.id && b.id != c.id && a.id != c.id && a.node != b.node && b.node != c.node && a.node != c.node
    && Plain(a) && Plain(b) && Plain(c)
    && Overlap(a.payload, b.payload) && Overlap(b.payload, a.payload) && Overlap(b.payload, c.payload)
  }

  function Table2(a: Row, b: Row): Rows {
    map[a.id := a, b.id := b]
  }

  function Table3(a: Row, b: Row, c: Row): Rows {
    map[a.id := a, b.id := b, c.id := c]
  }

  /** A row derived for {a, b} survives when c joins their component. */
  lemma SurvivingRow(digest: Digest, a: Row, b: Row, c: Row, F1: Rows, F2: Rows, F3: Rows)
    requires Triple(a, b, c) && Absorbed(digest, Table2(a, b), F1) && Absorbed(digest, Table3(a, b, c), F3)
    requires KeepsDerived(F1, F2)
    ensures F2 != F3
  {
    var id := PairRow(digest, a, b, c, F1);
    TripleSplits(a, b, c);
    NoPairRow(digest, Table3(a, b, c), F3, PairOf(a, b), id);
  }

  ghost predicate KeepsDerived(F1: Rows, F2: Rows) {
    forall id :: id in F1 && F1[id].kind == MERGE_RESOLVED ==> id in F2 && F2[id] == F1[id]
  }

  lemma TripleSplits(a: Row, b: Row, c: Row)
    requires Triple(a, b, c)
    ensures !Component(Conflicts(Table3(a, b, c)), PairOf(a, b))
    ensures forall x :: x in Table3(a, b, c) ==> Table3(a, b, c)[x].kind != MERGE_RESOLVED
  {
    TripleIsNotPair(Table3(a, b, c), a.id, b.id, c.id, PairOf(a, b));
  }

  lemma PairRow(digest: Digest, a: Row, b: Row, c: Row, F1: Rows) returns (id: Id)
    requires Triple(a, b, c) && Absorbed(digest, Table2(a, b), F1)
    ensures id in F1 && F1[id].kind == MERGE_RESOLVED && F1[id].resolvedFrom == PairOf(a, b)
  {
    var s := PairOf(a, b);
    PairConflicts(a, b, c);
    assert Unresolved(Table2(a, b), s);
    assert Covered(digest, Table2(a, b), F1, s);
    id :| id in F1 && DerivedFor(digest, Table2(a, b), s, F1[id]);
  }

  lemma NoPairRow(digest: Digest, D: Rows, F: Rows, s: seq<Id>, id: Id)
    requires Absorbed(digest, D, F) && !Component(Conflicts(D), s)
    requires forall x :: x in D ==> D[x].kind != MERGE_RESOLVED
    ensures id in F && F[id].kind == MERGE_RESOLVED ==> F[id].resolvedFrom != s
  {
    if id in F && id !in D {
      var t :| DerivedFor(digest, D, t, F[id]);
      assert t == F[id].resolvedFrom;
    }
  }

  /** The merge is not associative: three primitive rows, merged in two steps or in one. */
  lemma AssociativityFails(digest: Digest, F1: Rows, F2: Rows, F3: Rows)
    requires EventModel.CollisionFree(digest)
    requires var a, b, c := PlainRow(digest, 1, 1, 1, OneKey("x")), PlainRow(digest, 2, 1, 1, PAYLOAD_XY),
        PlainRow(digest, 3, 1, 1, OneKey("y"));
      && Absorbed(digest, Table2(a, b), F1)
      && Absorbed(digest, F1 + map[c.id := c], F2)
      && Absorbed(digest, Table3(a, b, c), F3)
    ensures F2 != F3
  {
    var a, b, c := PlainRow(digest, 1, 1, 1, OneKey("x")), PlainRow(digest, 2, 1, 1, PAYLOAD_XY),
        PlainRow(digest, 3, 1, 1, OneKey("y"));
    ExampleTriple(digest, a, b, c);
    DerivedComesThrough(digest, a, b, c, F1, F2);
    SurvivingRow(digest, a, b, c, F1, F2, F3);
  }

  lemma DerivedComesThrough(digest: Digest, a: Row, b: Row, c: Row, F1: Rows, F2: Rows)
    requires EventModel.CollisionFree(digest) && Triple(a, b, c) && Absorbed(digest, Table2(a, b), F1)
    requires Extends(F1 + map[c.id := c], F2)
    requires CanonicalRow(c) && CanonicalJson(c.payload) && c.id == DerivedId(digest, c)
    ensures KeepsDerived(F1, F2)
  {
    assert forall x :: x in Table2(a, b) ==> Table2(a, b)[x].kind != MERGE_RESOLVED;
    forall id | id in F1 && F1[id].kind == MERGE_RESOLVED
      ensures id in F2 && F2[id] == F1[id]
    {
      RowIsNotPlain(digest, Table2(a, b), F1, id, c);
      assert id in F1 + map[c.id := c];
    }
  }

  lemma RowIsNotPlain(digest: Digest, E: Rows, F: Rows, id: Id, c: Row)
    requires EventModel.CollisionFree(digest) && Absorbed(digest, E, F) && id in F && F[id].kind == MERGE_RESOLVED
    requires forall x :: x in E ==> E[x].kind != MERGE_RESOLVED
    requires CanonicalRow(c) && CanonicalJson(c.payload) && c.id == DerivedId(digest, c) && c.kind != MERGE_RESOLVED
    ensures id != c.id
  {
    var s :| DerivedFor(digest, E, s, F[id]);
    MergeRowOk(digest, E, s, F[id]);
    if id == c.id {
      DerivedIdInjective(digest, F[id], c);
    }
  }

  lemma ExampleTriple(digest: Digest, a: Row, b: Row, c: Row)
    requires EventModel.CollisionFree(digest)
    requires a == PlainRow(digest, 1, 1, 1, OneKey("x")) && b == PlainRow(digest, 2, 1, 1, PAYLOAD_XY)
        && c == PlainRow(digest, 3, 1, 1, OneKey("y"))
    ensures Triple(a, b, c) && CanonicalRow(c) && CanonicalJson(c.payload) && c.id == DerivedId(digest, c)
  {
    OneKeyOk("x");
    OneKeyOk("y");
    TwoKeysOk();
    CommonKey(a.payload, b.payload, "x");
    CommonKey(b.payload, a.payload, "x");
    CommonKey(b.payload, c.payload, "y");
    PlainRowOk(digest, 1, 1, 1, OneKey("x"));
    PlainRowOk(digest, 2, 1, 1, PAYLOAD_XY);
    PlainRowOk(digest, 3, 1, 1, OneKey("y"));
    PlainRowsApart(digest, a, b);
    PlainRowsApart(digest, b, c);
    PlainRowsApart(digest, a, c);
  }

  lemma PairConflicts(a: Row, b: Row, c: Row)
    requires Triple(a, b, c)
    ensures Component(Conflicts(Table2(a, b)), PairOf(a, b))
  {
    var E := Table2(a, b);
    AloneHasNoPast(E, a.id, b.id);
    AloneHasNoPast(E, b.id, a.id);
    forall x, y
      ensures Edge(Conflicts(E), x, y) <==> IsPair(a, b, x, y)
    {
      assert E.Keys == {a.id, b.id};
    }
    PairIsComponent(Conflicts(E), a, b);
  }

  lemma TripleIsNotPair(D: Rows, a: Id, b: Id, c: Id, s: seq<Id>)
    requires b in s && c !in s && b != c && PlainAlone(D, b) && PlainAlone(D, c)
    requires Primitive(D, b) && Primitive(D, c) && Overlap(D[b].payload, D[c].payload)
    ensures !Component(Conflicts(D), s)
  {
    var g := Conflicts(D);
    AloneHasNoPast(D, b, c);
    AloneHasNoPast(D, c, b);
    assert Edge(g, b, c);
    ReachEdge(g, b, c);
    assert !MemberAt(g, s, b, c);
  }
}
