/** Replica convergence (docs/distributed/convergence_proof.md, section 4): merging and evaluating. */
module Convergence {
  import opened Results
  import opened Ids
  import opened EventModel
  import opened EventDag
  import opened Kahn
  import opened MergeLaws
  import opened StateRecords
  import opened StateEngine

  /** Two replicas that combined the same graphs, by whatever merge schedules, evaluate alike: to the same
      state, or with the same error. */
  lemma ReplicasConverge(digest: Digest, s: Schedule, t: Schedule, replicas: seq<Events>,
                         r: Result<State, StateError>, r': Result<State, StateError>)
    requires CollisionFree(digest) && Within(s, |replicas|) && Within(t, |replicas|) && Used(s) == Used(t)
    requires forall i :: 0 <= i < |replicas| ==> WellFormed(digest, replicas[i])
    ensures RunSchedule(s, replicas).Ok? && RunSchedule(t, replicas).Ok?
    ensures var E, F := RunSchedule(s, replicas).value, RunSchedule(t, replicas).value;
      Dag(E) && Dag(F) && (EvaluatesTo(E, r) && EvaluatesTo(F, r') ==> r == r')
  {
    ScheduleUnion(digest, s, replicas);
    SchedulesConverge(digest, s, t, replicas);
    var E := RunSchedule(s, replicas).value;
    if EvaluatesTo(E, r) && EvaluatesTo(E, r') {
      OutcomeUnique(E, r, r');
    }
  }

  /** What a replica had already evaluated keeps its relative order, its depths, its ancestry and its
      conflict winners after any merge. */
  lemma MergeKeepsHistory(digest: Digest, A: Events, B: Events, orderA: seq<Id>, merged: seq<Id>, a: Id, b: Id)
    requires CollisionFree(digest) && WellFormed(digest, A) && WellFormed(digest, B)
    requires KeySorted(A, orderA) && Elements(orderA) == A.Keys
    requires Dag(A + B) && KeySorted(A + B, merged) && Elements(merged) == (A + B).Keys
    requires a in A && b in A
    ensures Filter(merged, A.Keys) == orderA
    ensures Depth(A + B, a) == Depth(A, a)
    ensures HappensBefore(A + B, a, b) <==> HappensBefore(A, a, b)
    ensures Winner(A + B, a, b) == Winner(A, a, b)
  {
    MergeTotal(digest, A, B);
    EvaluationOrderEmbeds(A, A + B, orderA, merged);
    HistoryStable(A, A + B, a, b);
  }
}
