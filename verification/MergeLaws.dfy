/** The algebra of mergeGraphs on event sets, and convergence of any merge schedule
    (src/distributed/merge_algebra.ts). */
module MergeLaws {
  import opened Results
  import opened EventModel
  import opened EventDag
  import opened MergeGraphs

  lemma MergeSpecCases(A: Events, B: Events)
    ensures MergeSpec(A, B).Ok? <==> Compatible(A, B)
  {
    forall id | id in A && id in B
      ensures id in Conflicts(A, B) <==> A[id] != B[id]
    {
    }
  }

  /** Commutative, the reported id of a clash included. */
  lemma MergeCommutative(A: Events, B: Events)
    ensures MergeSpec(A, B) == MergeSpec(B, A)
  {
    assert Conflicts(A, B) == Conflicts(B, A);
    if Conflicts(A, B) == {} {
      MergeSpecCases(A, B);
      assert A + B == B + A;
    }
  }

  lemma MergeIdempotent(A: Events)
    ensures MergeSpec(A, A) == Ok(A)
  {
    assert Conflicts(A, A) == {};
    assert A + A == A;
  }

  /** Merging on when the first merge succeeded. */
  function MergeLeft(r: Result<Events, GraphError>, C: Events): Result<Events, GraphError> {
    match r
    case Ok(X) => MergeSpec(X, C)
    case Err(e) => Err(e)
  }

  function MergeRight(A: Events, r: Result<Events, GraphError>): Result<Events, GraphError> {
    match r
    case Ok(X) => MergeSpec(A, X)
    case Err(e) => Err(e)
  }

  ghost predicate SameOutcome(r: Result<Events, GraphError>, s: Result<Events, GraphError>) {
    r.Ok? == s.Ok? && (r.Ok? ==> r == s)
  }

  /** Associative without any assumption on ids: both nestings succeed exactly when the three graphs
      are pairwise compatible, and then with the same union. */
  lemma MergeAssociative(A: Events, B: Events, C: Events)
    ensures var left, right := MergeLeft(MergeSpec(A, B), C), MergeRight(A, MergeSpec(B, C));
      && SameOutcome(left, right)
      && (left.Ok? <==> Compatible(A, B) && Compatible(A, C) && Compatible(B, C))
      && (left.Ok? ==> left.value == A + B + C)
  {
    MergeSpecCases(A, B);
    MergeSpecCases(B, C);
    if Compatible(A, B) {
      MergeSpecCases(A + B, C);
      UnionCompatible(A, B, C);
    }
    if Compatible(B, C) {
      MergeSpecCases(A, B + C);
      UnionCompatible(B, C, A);
      assert Compatible(A, B + C) <==> Compatible(B + C, A);
      assert Compatible(A, B) <==> Compatible(B, A);
      assert Compatible(A, C) <==> Compatible(C, A);
    }
    assert A + B + C == A + (B + C);
  }

  lemma UnionCompatible(A: Events, B: Events, C: Events)
    requires Compatible(A, B)
    ensures Compatible(A + B, C) <==> Compatible(A, C) && Compatible(B, C)
  {
    if Compatible(A + B, C) {
      forall id | id in A && id in C
        ensures A[id] == C[id]
      {
        assert id in A + B && (A + B)[id] == A[id];
      }
      forall id | id in B && id in C
        ensures B[id] == C[id]
      {
        assert id in A + B && (A + B)[id] == B[id];
      }
    }
  }

  /** With collision-free content ids merging is total, keeps every event of both sides unchanged, and
      yields a well-formed graph in which neither side's history was reordered. */
  lemma MergeTotal(digest: Digest, A: Events, B: Events)
    requires CollisionFree(digest) && WellFormed(digest, A) && WellFormed(digest, B)
    ensures MergeSpec(A, B) == Ok(A + B) && WellFormed(digest, A + B)
    ensures SubGraph(A, A + B) && SubGraph(B, A + B)
  {
    CollisionFreeCompatible(digest, A, B);
    MergeSpecCases(A, B);
    MergedIsWellFormed(digest, A, B);
  }

  /** A way to combine replicas by binary merges: any tree, any order, any repetition. */
  datatype Schedule = Replica(index: nat) | Merge(left: Schedule, right: Schedule)

  predicate Within(s: Schedule, n: nat) {
    match s
    case Replica(index) => index < n
    case Merge(left, right) => Within(left, n) && Within(right, n)
  }

  function Used(s: Schedule): set<nat> {
    match s
    case Replica(index) => {index}
    case Merge(left, right) => Used(left) + Used(right)
  }

  function RunSchedule(s: Schedule, replicas: seq<Events>): Result<Events, GraphError>
    requires Within(s, |replicas|)
  {
    match s
    case Replica(index) => Ok(replicas[index])
    case Merge(left, right) => MergeResults(RunSchedule(left, replicas), RunSchedule(right, replicas))
  }

  function MergeResults(r: Result<Events, GraphError>, s: Result<Events, GraphError>): Result<Events, GraphError> {
    match s
    case Ok(C) => MergeLeft(r, C)
    case Err(e) => if r.Err? then r else Err(e)
  }

  /** E holds exactly the events of the chosen replicas. */
  ghost predicate UnionOf(E: Events, replicas: seq<Events>, chosen: set<nat>) {
    && (forall i, id :: i in chosen && i < |replicas| && id in replicas[i] ==> id in E && E[id] == replicas[i][id])
    && (forall id :: id in E ==> exists i :: i in chosen && i < |replicas| && id in replicas[i])
  }

  lemma UnionUnique(E: Events, F: Events, replicas: seq<Events>, chosen: set<nat>)
    requires UnionOf(E, replicas, chosen) && UnionOf(F, replicas, chosen)
    ensures E == F
  {
    forall id | id in E
      ensures id in F && E[id] == F[id]
    {
      var i :| i in chosen && i < |replicas| && id in replicas[i];
    }
    forall id | id in F
      ensures id in E
    {
      var i :| i in chosen && i < |replicas| && id in replicas[i];
    }
  }

  lemma {:induction false} ScheduleUnion(digest: Digest, s: Schedule, replicas: seq<Events>)
    requires CollisionFree(digest) && Within(s, |replicas|)
    requires forall i :: 0 <= i < |replicas| ==> WellFormed(digest, replicas[i])
    ensures RunSchedule(s, replicas).Ok?
    ensures WellFormed(digest, RunSchedule(s, replicas).value)
    ensures UnionOf(RunSchedule(s, replicas).value, replicas, Used(s))
  {
    match s
    case Replica(index) =>
      assert index in Used(s);
    case Merge(left, right) =>
      ScheduleUnion(digest, left, replicas);
      ScheduleUnion(digest, right, replicas);
      var A, B := RunSchedule(left, replicas).value, RunSchedule(right, replicas).value;
      MergeTotal(digest, A, B);
      UnionOfBoth(A, B, replicas, Used(left), Used(right));
  }

  lemma UnionOfBoth(A: Events, B: Events, replicas: seq<Events>, left: set<nat>, right: set<nat>)
    requires UnionOf(A, replicas, left) && UnionOf(B, replicas, right) && SubGraph(A, A + B)
    ensures UnionOf(A + B, replicas, left + right)
  {
    var U := A + B;
    forall i, id | i in left + right && i < |replicas| && id in replicas[i]
      ensures id in U && U[id] == replicas[i][id]
    {
      if i in left {
        assert id in A;
      } else {
        assert id in B;
      }
    }
    forall id | id in U
      ensures exists i :: i in left + right && i < |replicas| && id in replicas[i]
    {
      if id in A {
        var i :| i in left && i < |replicas| && id in replicas[i];
        assert i in left + right;
      } else {
        var i :| i in right && i < |replicas| && id in replicas[i];
        assert i in left + right;
      }
    }
  }

  /** Convergence of graphs: any two merge schedules over the same replicas, however nested, reordered
      or repeated, succeed and produce the same event set, hence the same node table. */
  lemma SchedulesConverge(digest: Digest, s: Schedule, t: Schedule, replicas: seq<Events>)
    requires CollisionFree(digest) && Within(s, |replicas|) && Within(t, |replicas|) && Used(s) == Used(t)
    requires forall i :: 0 <= i < |replicas| ==> WellFormed(digest, replicas[i])
    ensures RunSchedule(s, replicas).Ok? && RunSchedule(s, replicas) == RunSchedule(t, replicas)
  {
    ScheduleUnion(digest, s, replicas);
    ScheduleUnion(digest, t, replicas);
    UnionUnique(RunSchedule(s, replicas).value, RunSchedule(t, replicas).value, replicas, Used(s));
  }
}
