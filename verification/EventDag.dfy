/** The order theory of the causal DAG: depth, happens-before, conflict winners and dominance
    (src/distributed/merge_algebra.ts, src/distributed/state_engine.ts), as functions of the event set. */
module EventDag {
  import opened Ids
  import opened Digraph
  import opened EventModel

  /** The events of a graph by id. */
  type Events = map<Id, Event>

  datatype EventNode = EventNode(event: Event, parents: seq<Id>, children: seq<Id>)

  /** Edges from each event to its parents. */
  function Parents(E: Events): Graph {
    (id: Id) => if id in E then Elements(E[id].parents) else {}
  }

  ghost predicate Closed(E: Events) {
    forall id, p :: id in E && p in E[id].parents ==> p in E
  }

  ghost predicate Acyclic(E: Events) {
    exists rank :: Falls(Parents(E), rank)
  }

  /** Stored under their own id, with strictly ascending parents that are present, and no cycle. */
  ghost predicate Dag(E: Events) {
    && (forall id :: id in E ==> E[id].id == id && StrictlySorted(E[id].parents))
    && Closed(E)
    && Acyclic(E)
  }

  ghost predicate WellFormed(digest: Digest, E: Events) {
    Dag(E) && forall id :: id in E ==> CanonicalEvent(digest, E[id])
  }

  function ChildIds(E: Events, id: Id): set<Id> {
    set c | c in E && id in E[c].parents
  }

  /** The node table of an event set; there is one for each, as parents and children of every node are told
      by the events. */
  ghost predicate NodeTable(nodes: map<Id, EventNode>, E: Events) {
    && nodes.Keys == E.Keys
    && forall id :: id in E ==> nodes[id] == EventNode(E[id], E[id].parents, SortIds(ChildIds(E, id)))
  }

  // ----- depth -----

  ghost function RankOf(E: Events): Id -> nat
    requires Acyclic(E)
    ensures Falls(Parents(E), RankOf(E))
  {
    var rank :| Falls(Parents(E), rank);
    rank
  }

  ghost function Rank(E: Events, id: Id): nat
    requires Acyclic(E)
  {
    RankOf(E)(id)
  }

  /** computeDepth: 0 without parents, else one more than the deepest parent. */
  ghost function Depth(E: Events, id: Id): (d: nat)
    requires Dag(E) && id in E
    decreases Rank(E, id), |E[id].parents| + 1
  {
    PrefixDepth(E, id, |E[id].parents|) + 1
  }

  /** The largest depth among the first k parents, -1 when there is none. */
  ghost function PrefixDepth(E: Events, id: Id, k: nat): (d: int)
    requires Dag(E) && id in E && k <= |E[id].parents|
    ensures d >= -1
    decreases Rank(E, id), k
  {
    if k == 0 then -1
    else
      var p := E[id].parents[k - 1];
      assert Edge(Parents(E), id, p);
      var before := PrefixDepth(E, id, k - 1);
      if Depth(E, p) > before then Depth(E, p) else before
  }

  lemma {:induction false} PrefixDepthIsMax(E: Events, id: Id, k: nat)
    requires Dag(E) && id in E && k <= |E[id].parents|
    ensures forall i :: 0 <= i < k ==> Depth(E, E[id].parents[i]) <= PrefixDepth(E, id, k)
    ensures k > 0 ==> exists i :: 0 <= i < k && Depth(E, E[id].parents[i]) == PrefixDepth(E, id, k)
  {
    if k > 0 {
      PrefixDepthIsMax(E, id, k - 1);
      var last, before := Depth(E, E[id].parents[k - 1]), PrefixDepth(E, id, k - 1);
      assert PrefixDepth(E, id, k) == if last > before then last else before;
      if last <= before {
        var i :| 0 <= i < k - 1 && Depth(E, E[id].parents[i]) == before;
      }
    }
  }

  lemma ParentDepth(E: Events, id: Id, p: Id)
    requires Dag(E) && id in E && p in E[id].parents
    ensures Depth(E, p) < Depth(E, id)
  {
    PrefixDepthIsMax(E, id, |E[id].parents|);
    var i :| 0 <= i < |E[id].parents| && E[id].parents[i] == p;
  }

  lemma DeepestParent(E: Events, id: Id) returns (p: Id)
    requires Dag(E) && id in E && E[id].parents != []
    ensures p in E[id].parents && Depth(E, p) + 1 == Depth(E, id)
  {
    PrefixDepthIsMax(E, id, |E[id].parents|);
    var i :| 0 <= i < |E[id].parents| && Depth(E, E[id].parents[i]) == PrefixDepth(E, id, |E[id].parents|);
    p := E[id].parents[i];
  }

  ghost function DepthRank(E: Events): Id -> nat
    requires Dag(E)
  {
    (id: Id) => if id in E then Depth(E, id) else 0
  }

  lemma DepthFalls(E: Events)
    requires Dag(E)
    ensures Falls(Parents(E), DepthRank(E))
  {
    forall a, b | Edge(Parents(E), a, b)
      ensures DepthRank(E)(b) < DepthRank(E)(a)
    {
      ParentDepth(E, a, b);
    }
  }

  /** A path of parents can only be as long as the depth it starts from. */
  lemma ChainAtMostDepth(E: Events, path: seq<Id>)
    requires Dag(E) && IsPath(Parents(E), path) && path[0] in E
    ensures |path| - 1 <= Depth(E, path[0])
  {
    DepthFalls(E);
    PathFalls(Parents(E), DepthRank(E), path);
  }

  /** Some path of parents is that long. */
  lemma {:induction false} ChainOfDepth(E: Events, id: Id) returns (path: seq<Id>)
    requires Dag(E) && id in E
    ensures IsPath(Parents(E), path) && path[0] == id && |path| - 1 == Depth(E, id)
    decreases Depth(E, id)
  {
    if E[id].parents == [] {
      path := [id];
    } else {
      var p := DeepestParent(E, id);
      var rest := ChainOfDepth(E, p);
      path := [id] + rest;
      forall i | 0 <= i < |path| - 1
        ensures Edge(Parents(E), path[i], path[i + 1])
      {
        if i > 0 {
          assert Edge(Parents(E), rest[i - 1], rest[i - 1 + 1]);
        }
      }
    }
  }

  /** Depth is the length of the longest parent chain. */
  lemma DepthIsLongestChain(E: Events, id: Id, n: nat)
    requires Dag(E) && id in E
    ensures n <= Depth(E, id) <==> exists path :: IsPath(Parents(E), path) && path[0] == id && |path| == n + 1
  {
    if n <= Depth(E, id) {
      var path := ChainOfDepth(E, id);
      assert IsPath(Parents(E), path[..n + 1]) && path[..n + 1][0] == id;
    }
    if exists path :: IsPath(Parents(E), path) && path[0] == id && |path| == n + 1 {
      var path :| IsPath(Parents(E), path) && path[0] == id && |path| == n + 1;
      ChainAtMostDepth(E, path);
    }
  }

  // ----- happens-before, conflict winners, dominance -----

  /** a is a proper causal ancestor of b. */
  ghost predicate HappensBefore(E: Events, a: Id, b: Id) {
    a != b && Reaches(Parents(E), b, a)
  }

  ghost predicate Concurrent(E: Events, a: Id, b: Id) {
    a != b && !HappensBefore(E, a, b) && !HappensBefore(E, b, a)
  }

  /** resolveConflict: the deeper event wins, the larger id on equal depth. */
  ghost function Winner(E: Events, a: Id, b: Id): Id
    requires Dag(E) && a in E && b in E
  {
    if a == b then a
    else if Depth(E, a) != Depth(E, b) then (if Depth(E, a) > Depth(E, b) then a else b)
    else if a >= b then a else b
  }

  /** dominates, as the code decides it: causal successors first, conflict winners otherwise. */
  ghost predicate Dominates(E: Events, a: Id, b: Id)
    requires Dag(E) && a in E && b in E
  {
    if a == b then false
    else if HappensBefore(E, b, a) then true
    else if HappensBefore(E, a, b) then false
    else Winner(E, a, b) == a
  }

  /** The lexicographic order on (depth, id). */
  ghost predicate KeyLess(E: Events, a: Id, b: Id)
    requires Dag(E) && a in E && b in E
  {
    Depth(E, a) < Depth(E, b) || (Depth(E, a) == Depth(E, b) && a < b)
  }

  lemma AncestorIsShallower(E: Events, a: Id, b: Id)
    requires Dag(E) && Reaches(Parents(E), b, a)
    ensures a in E && b in E && Depth(E, a) < Depth(E, b)
  {
    DepthFalls(E);
    ReachFalls(Parents(E), DepthRank(E), b, a);
    var m := ReachFirst(Parents(E), b, a);
    var n := ReachLast(Parents(E), b, a);
  }

  /** Dominance, defined through paths and conflict winners, is the order on (depth, id): ancestry
      strictly raises depth, so both of its cases agree with it. */
  lemma DominanceIsKeyOrder(E: Events, a: Id, b: Id)
    requires Dag(E) && a in E && b in E
    ensures Dominates(E, a, b) <==> KeyLess(E, b, a)
  {
    if Reaches(Parents(E), a, b) {
      AncestorIsShallower(E, b, a);
    }
    if Reaches(Parents(E), b, a) {
      AncestorIsShallower(E, a, b);
    }
  }

  // ----- a graph inside a larger one -----

  ghost predicate SubGraph(A: Events, U: Events) {
    forall id :: id in A ==> id in U && U[id] == A[id]
  }

  lemma {:induction false} DepthStable(A: Events, U: Events, id: Id)
    requires Dag(A) && Dag(U) && SubGraph(A, U) && id in A
    ensures Depth(A, id) == Depth(U, id)
    decreases Depth(A, id), |A[id].parents| + 1
  {
    forall i | 0 <= i < |A[id].parents|
      ensures Depth(A, A[id].parents[i]) == Depth(U, A[id].parents[i])
    {
      ParentDepth(A, id, A[id].parents[i]);
      DepthStable(A, U, A[id].parents[i]);
    }
    PrefixStable(A, U, id, |A[id].parents|);
  }

  lemma {:induction false} PrefixStable(A: Events, U: Events, id: Id, k: nat)
    requires Dag(A) && Dag(U) && SubGraph(A, U) && id in A && k <= |A[id].parents|
    requires forall i :: 0 <= i < k ==> Depth(A, A[id].parents[i]) == Depth(U, A[id].parents[i])
    ensures PrefixDepth(A, id, k) == PrefixDepth(U, id, k)
  {
    if k > 0 {
      PrefixStable(A, U, id, k - 1);
    }
  }

  /** Ancestors of an event of A are the same in A and in any graph that contains A. */
  lemma AncestryStable(A: Events, U: Events, a: Id, b: Id)
    requires Closed(A) && SubGraph(A, U) && b in A
    ensures Reaches(Parents(U), b, a) <==> Reaches(Parents(A), b, a)
  {
    if Reaches(Parents(A), b, a) {
      ReachMonotone(Parents(U), Parents(A), b, a);
    }
    if Reaches(Parents(U), b, a) {
      var path :| PathBetween(Parents(U), path, b, a);
      PathInside(A, U, path);
      assert PathBetween(Parents(A), path, b, a);
    }
  }

  lemma {:induction false} PathInside(A: Events, U: Events, path: seq<Id>)
    requires Closed(A) && SubGraph(A, U) && IsPath(Parents(U), path) && path[0] in A
    ensures IsPath(Parents(A), path)
  {
    if |path| > 1 {
      assert Edge(Parents(U), path[0], path[1]);
      SubPath(Parents(U), path);
      PathInside(A, U, path[1..]);
      forall i | 0 <= i < |path| - 1
        ensures Edge(Parents(A), path[i], path[i + 1])
      {
        if i > 0 {
          assert Edge(Parents(A), path[1..][i - 1], path[1..][i - 1 + 1]);
        }
      }
    }
  }

  /** Embedding a graph changes neither depth, nor happens-before, nor any conflict winner or
      dominance between its events. */
  lemma HistoryStable(A: Events, U: Events, a: Id, b: Id)
    requires Dag(A) && Dag(U) && SubGraph(A, U) && a in A && b in A
    ensures Depth(U, a) == Depth(A, a)
    ensures HappensBefore(U, a, b) <==> HappensBefore(A, a, b)
    ensures Winner(U, a, b) == Winner(A, a, b)
    ensures Dominates(U, a, b) <==> Dominates(A, a, b)
  {
    DepthStable(A, U, a);
    DepthStable(A, U, b);
    AncestryStable(A, U, a, b);
    AncestryStable(A, U, b, a);
  }

  // ----- union of two graphs -----

  /** The two sides carry the same event under every shared id. */
  ghost predicate Compatible(A: Events, B: Events) {
    forall id :: id in A && id in B ==> A[id] == B[id]
  }

  lemma {:induction false} SharedDepth(A: Events, B: Events, id: Id)
    requires Dag(A) && Dag(B) && Compatible(A, B) && id in A && id in B
    ensures Depth(A, id) == Depth(B, id)
    decreases Depth(A, id)
  {
    forall i | 0 <= i < |A[id].parents|
      ensures Depth(A, A[id].parents[i]) == Depth(B, A[id].parents[i])
    {
      ParentDepth(A, id, A[id].parents[i]);
      SharedDepth(A, B, A[id].parents[i]);
    }
    SharedPrefix(A, B, id, |A[id].parents|);
  }

  lemma {:induction false} SharedPrefix(A: Events, B: Events, id: Id, k: nat)
    requires Dag(A) && Dag(B) && Compatible(A, B) && id in A && id in B && k <= |A[id].parents|
    requires forall i :: 0 <= i < k ==> Depth(A, A[id].parents[i]) == Depth(B, A[id].parents[i])
    ensures PrefixDepth(A, id, k) == PrefixDepth(B, id, k)
  {
    if k > 0 {
      SharedPrefix(A, B, id, k - 1);
    }
  }

  /** Each side is closed under parents, so the union of two compatible DAGs has no cycle. */
  lemma UnionIsDag(A: Events, B: Events)
    requires Dag(A) && Dag(B) && Compatible(A, B)
    ensures Dag(A + B)
  {
    var U := A + B;
    var rank := (id: Id) => if id in A then Depth(A, id) else if id in B then Depth(B, id) else 0;
    forall a, b | Edge(Parents(U), a, b)
      ensures rank(b) < rank(a)
    {
      if a in A {
        assert b in A[a].parents;
        ParentDepth(A, a, b);
      } else {
        assert b in B[a].parents;
        ParentDepth(B, a, b);
        if b in A {
          SharedDepth(A, B, b);
        }
      }
    }
    assert Falls(Parents(U), rank);
  }

  /** Content-derived ids make every two graphs compatible. */
  lemma CollisionFreeCompatible(digest: Digest, A: Events, B: Events)
    requires CollisionFree(digest) && WellFormed(digest, A) && WellFormed(digest, B)
    ensures Compatible(A, B)
  {
    forall id | id in A && id in B
      ensures A[id] == B[id]
    {
      ContentIdInjective(digest, A[id], B[id]);
    }
  }
}
