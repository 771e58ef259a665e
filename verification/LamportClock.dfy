/** Runs of nodes that tick and receive with the logical clocks of src/distributed/logical_time.ts: the
    Lamport clock condition and what it makes of the causal order. */
module LamportClock {
  import opened Ids
  import opened Digraph
  import opened DistributedEvents
  import opened CausalGraphs
  import opened RowOrder
  import opened EventSets

  /** The rows written so far and the last clock of every node that wrote. */
  datatype State = State(rows: Rows, clocks: map<Id, LogicalTime>)

  datatype Step =
    | Tick(row: Row)
    | Receive(row: Row, from: Id)

  function ClockOf(s: State, node: Id): LogicalTime {
    if node in s.clocks then s.clocks[node] else LogicalTime(0, node)
  }

  /** A node writes a new row: alone, advancing its clock, or on receiving an existing row, merging the
      clocks and naming that row as parent. Sequences grow on every node. */
  ghost predicate Enabled(s: State, step: Step) {
    var row := step.row;
    && row.id !in s.rows && row.resolvedFrom == []
    && (forall x :: x in s.rows && s.rows[x].node == row.node ==> s.rows[x].sequence < row.sequence)
    && match step
       case Tick(_) => row.parents == [] && row.time == Advance(ClockOf(s, row.node))
       case Receive(_, from) =>
         from in s.rows && row.parents == [from] && row.time == MergeClocks(ClockOf(s, row.node), s.rows[from].time)
  }

  function Next(s: State, step: Step): State {
    State(s.rows[step.row.id := step.row], s.clocks[step.row.node := step.row.time])
  }

  const INITIAL: State := State(map[], map[])

  ghost predicate IsRun(steps: seq<Step>) {
    |steps| > 0 ==> IsRun(steps[..|steps| - 1]) && Enabled(After(steps[..|steps| - 1]), steps[|steps| - 1])
  }

  function After(steps: seq<Step>): State {
    if |steps| == 0 then INITIAL else Next(After(steps[..|steps| - 1]), steps[|steps| - 1])
  }

  /** Every causal edge raises the counter. */
  ghost predicate CountersClimb(E: Rows) {
    forall a, b :: Edge(Causal(E), a, b) ==> a in E && E[a].time.counter < E[b].time.counter
  }

  ghost predicate Clocked(s: State) {
    && RowTable(s.rows) && RefClosed(s.rows) && CountersClimb(s.rows)
    && forall x :: x in s.rows ==> s.rows[x].time.counter <= ClockOf(s, s.rows[x].node).counter
  }

  lemma StepKeepsClocked(s: State, step: Step)
    requires Clocked(s) && Enabled(s, step)
    ensures Clocked(Next(s, step))
  {
    var E, F := s.rows, Next(s, step).rows;
    assert OnTop(E, F);
    forall a, b | Edge(Causal(F), a, b)
      ensures a in F && F[a].time.counter < F[b].time.counter
    {
      if b in E {
        EdgeIntoOld(E, F, a, b);
      }
    }
    forall b, a | b in F && (a in F[b].parents || a in F[b].resolvedFrom)
      ensures a in F
    {
    }
  }

  lemma {:induction false} RunIsClocked(steps: seq<Step>)
    requires IsRun(steps)
    ensures Clocked(After(steps))
  {
    if |steps| > 0 {
      RunIsClocked(steps[..|steps| - 1]);
      StepKeepsClocked(After(steps[..|steps| - 1]), steps[|steps| - 1]);
    }
  }

  lemma {:induction false} PathRaisesCounter(E: Rows, p: seq<Id>)
    requires CountersClimb(E) && IsPath(Causal(E), p) && |p| > 1
    ensures p[0] in E && p[|p| - 1] in E && E[p[0]].time.counter < E[p[|p| - 1]].time.counter
  {
    assert Edge(Causal(E), p[0], p[1]);
    if |p| > 2 {
      SubPath(Causal(E), p);
      PathRaisesCounter(E, p[1..]);
    }
  }

  /** The clock condition, for every run: a row that happens before another has the smaller logical
      time. */
  lemma LamportCondition(steps: seq<Step>, a: Id, b: Id)
    requires IsRun(steps) && Before(After(steps).rows, a, b)
    ensures var E := After(steps).rows;
      a in E && b in E && CompareLogicalTime(E[a].time, E[b].time) < 0
  {
    RunIsClocked(steps);
    var E := After(steps).rows;
    var p :| PathBetween(Causal(E), p, a, b);
    PathRaisesCounter(E, p);
  }

  /** So on the rows of every run the causal comparator is a strict total order, and sorting any listing
      of them by it is safe to replay. */
  lemma RunSortsSafely(steps: seq<Step>, events: seq<Row>, desc: map<Id, set<Id>>)
    requires IsRun(steps) && DistinctRows(events) && TableOf(events) == After(steps).rows
    requires DescendantTable(TableOf(events), desc)
    ensures TotalOrder(Causally(desc), events)
    ensures ReplaySafe(SortBy(Causally(desc), events))
  {
    RunIsClocked(steps);
    var E := TableOf(events);
    TableOfDistinct(events);
    assert ClockConsistent(E);
    forall x | x in events
      ensures x.id in E && E[x.id] == x
    {
      var i :| 0 <= i < |events| && events[i] == x;
    }
    CausallyTotal(E, desc, events);
    SortedIsReplaySafe(events, desc);
  }
}
