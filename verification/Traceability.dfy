/** Traceability of a row list: every reference resolves, none points at its own row, and the
    predecessor graph has no cycle (src/distributed/event_traceability.ts). */
module Traceability {
  import opened Results
  import opened Ids
  import opened Digraph
  import opened DepthFirst
  import opened DistributedEvents
  import opened CausalGraphs

  ghost predicate RefsResolve(E: Rows, r: Row) {
    && |Elements(r.parents)| == |r.parents|
    && forall p :: p in r.parents || p in r.resolvedFrom ==> p != r.id && p in E
  }

  ghost predicate Traceable(events: seq<Row>) {
    && (forall i :: 0 <= i < |events| ==> RefsResolve(TableOf(events), events[i]))
    && !HasCycle(Predecessors(TableOf(events)))
  }

  /** Every reference of a listed row is to another listed row, and no parent is repeated. */
  ghost predicate RefsFound(events: seq<Row>) {
    && (forall i, k, l :: 0 <= i < |events| && 0 <= k < l < |events[i].parents| ==>
          events[i].parents[k] != events[i].parents[l])
    && forall i, p :: 0 <= i < |events| && (p in events[i].parents || p in events[i].resolvedFrom) ==>
        p != events[i].id && exists j :: 0 <= j < |events| && events[j].id == p
  }

  lemma RefsExactly(events: seq<Row>)
    ensures (forall i :: 0 <= i < |events| ==> RefsResolve(TableOf(events), events[i])) <==> RefsFound(events)
  {
    forall i | 0 <= i < |events|
      ensures |Elements(events[i].parents)| == |events[i].parents| <==>
                forall k, l :: 0 <= k < l < |events[i].parents| ==> events[i].parents[k] != events[i].parents[l]
    {
      DistinctCard(events[i].parents);
    }
  }

  method CheckRefs(E: Rows, r: Row, refs: seq<Id>) returns (e: Option<InputError>)
    ensures e.None? <==> forall p :: p in refs ==> p != r.id && p in E
    ensures e.Some? ==> e.value != CausalCycle
  {
    for i := 0 to |refs|
      invariant forall p :: p in refs[..i] ==> p != r.id && p in E
    {
      assert refs[i] in refs;
      if refs[i] == r.id {
        return Some(SelfReference(r.id));
      }
      if refs[i] !in E {
        return Some(MissingReference(r.id, refs[i]));
      }
      assert refs[..i + 1] == refs[..i] + [refs[i]];
    }
    assert refs[..|refs|] == refs;
    e := None;
  }

  method CheckRow(E: Rows, r: Row) returns (e: Option<InputError>)
    ensures e.None? <==> RefsResolve(E, r)
    ensures e.Some? ==> e.value != CausalCycle
  {
    if |Elements(r.parents)| != |r.parents| {
      return Some(DuplicateParents(r.id));
    }
    var parents := SortIds(Elements(r.parents));
    FirstIsElement(parents);
    FirstIsElement(r.parents);
    assert forall p :: p in parents <==> p in r.parents;
    e := CheckRefs(E, r, parents);
    if e.None? {
      e := CheckRefs(E, r, r.resolvedFrom);
    }
  }

  /** validateEventTraceability completes exactly on traceable lists; the cycle error means all references are
      found and the predecessor graph has a cycle. */
  method ValidateEventTraceability(events: seq<Row>) returns (r: Result<(), InputError>)
    ensures r.Ok? <==> Traceable(events)
    ensures r.Ok? <==> RefsFound(events) && !HasCycle(Predecessors(TableOf(events)))
    ensures r == Err(CausalCycle) <==> RefsFound(events) && HasCycle(Predecessors(TableOf(events)))
  {
    r := CheckList(events);
    RefsExactly(events);
  }

  method CheckList(events: seq<Row>) returns (r: Result<(), InputError>)
    ensures r.Ok? <==> Traceable(events)
    ensures r == Err(CausalCycle) <==>
              (forall i :: 0 <= i < |events| ==> RefsResolve(TableOf(events), events[i]))
                  && HasCycle(Predecessors(TableOf(events)))
  {
    var E := TableOf(events);
    for i := 0 to |events|
      invariant forall k :: 0 <= k < i ==> RefsResolve(E, events[k])
    {
      var e := CheckRow(E, events[i]);
      if e.Some? {
        return Err(e.value);
      }
    }
    var acyclic := VisitAll(E);
    r := if acyclic then Ok(()) else Err(CausalCycle);
  }

  method VisitAll(E: Rows) returns (acyclic: bool)
    ensures acyclic <==> !HasCycle(Predecessors(E))
  {
    ghost var g := Predecessors(E);
    ghost var u := E.Keys + set b, x | b in E && x in Elements(E[b].parents) + Elements(E[b].resolvedFrom) :: x;
    var visiting, finished := {}, {};
    ghost var fin := [];
    var ids := SortIds(E.Keys);
    for i := 0 to |ids|
      invariant visiting == {} && finished == Elements(fin)
      invariant Walking(g, [], fin)
      invariant forall k :: 0 <= k < i ==> ids[k] in fin
    {
      assert ids[i] in Elements(ids);
      acyclic, visiting, finished, fin := Visit(E, ids[i], visiting, finished, [], fin, u);
      if !acyclic {
        return;
      }
    }
    forall x | Reaches(g, x, x)
      ensures false
    {
      var m := ReachFirst(g, x, x);
      assert x in Elements(ids);
      FinishedHasNoCycle(g, fin, x);
      assert CycleFrom(g, x, x);
    }
    acyclic := true;
  }

  /** The recursive visit: false when a row is met while it is being visited. */
  method Visit(E: Rows, id: Id, visiting: set<Id>, finished: set<Id>, ghost stack: seq<Id>, ghost fin: seq<Id>,
      ghost u: set<Id>)
    returns (ok: bool, visiting': set<Id>, finished': set<Id>, ghost fin': seq<Id>)
    requires visiting == Elements(stack) && finished == Elements(fin)
    requires Walking(Predecessors(E), stack, fin) && Universe(Predecessors(E), u) && id in u
    requires stack != [] ==> Edge(Predecessors(E), stack[|stack| - 1], id)
    ensures !ok ==> HasCycle(Predecessors(E))
    ensures ok ==>
              && fin <= fin' && id in fin'
              && visiting' == visiting && finished' == Elements(fin')
              && Walking(Predecessors(E), stack, fin')
    decreases u - (visiting + finished)
  {
    ghost var g := Predecessors(E);
    visiting', finished', fin' := visiting, finished, fin;
    if id in finished {
      return true, visiting', finished', fin';
    }
    if id in visiting {
      BackEdgeIsCycle(g, stack, id);
      ghost var x :| CycleFrom(g, stack[0], x);
      return false, visiting', finished', fin';
    }
    PushStack(g, stack, fin, id);
    ghost var stack' := stack + [id];
    visiting' := visiting' + {id};
    ElementsAppend(stack, id);
    if id in E {
      var preds := PredecessorIds(E[id]);
      PredecessorsListed(E, id);
      for i := 0 to |preds|
        invariant visiting' == Elements(stack') && finished' == Elements(fin')
        invariant fin <= fin' && Walking(g, stack', fin')
        invariant forall k :: 0 <= k < i ==> preds[k] in fin'
      {
        assert preds[i] in preds;
        assert visiting + finished < visiting' + finished' by {
          assert id in visiting';
        }
        ok, visiting', finished', fin' := Visit(E, preds[i], visiting', finished', stack', fin', u);
        if !ok {
          return;
        }
      }
    }
    Finish(g, stack, fin', id);
    visiting' := visiting' - {id};
    ElementsAppend(fin', id);
    finished' := finished' + {id};
    fin' := fin' + [id];
    ok := true;
  }

  // ----- what traceability misses -----

  /** Parent and lineage edges, from the earlier row to the later one. */
  function Refs(E: Rows): Graph {
    (a: Id) => set b | b in E && (a in E[b].parents || a in E[b].resolvedFrom)
  }

  /** A cycle of the causal graph uses the same-node chain, when the predecessors have none. */
  lemma CycleUsesChain(E: Rows, p: seq<Id>) returns (i: nat)
    requires !HasCycle(Predecessors(E)) && IsPath(Causal(E), p) && |p| > 1 && p[0] == p[|p| - 1]
    ensures i < |p| - 1 && Follows(E, p[i], p[i + 1])
  {
    if forall k :: 0 <= k < |p| - 1 ==> Edge(Refs(E), p[k], p[k + 1]) {
      forall a, b | Edge(Refs(E), a, b)
        ensures Edge(Predecessors(E), b, a)
      {
      }
      PathReverses(Refs(E), Predecessors(E), p);
      assert false;
    }
    i :| 0 <= i < |p| - 1 && !Edge(Refs(E), p[i], p[i + 1]);
    assert Edge(Causal(E), p[i], p[i + 1]);
  }

  /** What the validation misses, exactly: the causal graph of a traceable list has a cycle if and only if
      some row happens before an earlier row of its own node. */
  lemma TraceableCycleExactly(events: seq<Row>)
    requires Traceable(events)
    ensures HasCycle(Causal(TableOf(events))) <==>
              exists a, b :: OnChain(TableOf(events), a, b) && Before(TableOf(events), b, a)
  {
    var E := TableOf(events);
    if a, b :| OnChain(E, a, b) && Before(E, b, a) {
      ChainIsBefore(E, a, b);
      ReachTransitive(Causal(E), a, b, a);
    }
    if HasCycle(Causal(E)) {
      var x :| Reaches(Causal(E), x, x);
      var p :| PathBetween(Causal(E), p, x, x);
      var i := CycleUsesChain(E, p);
      assert OnChain(E, p[i], p[i + 1]) && |p| > 2;
      CycleReturns(Causal(E), p, i);
    }
  }

  /** A traceable list can still have a cyclic causal graph: a row may name as parent a later row of
      its own node, and the same-node chain then closes the loop. */
  lemma TraceableYetCyclic() returns (events: seq<Row>, x: Id)
    ensures Traceable(events) && DistinctRows(events)
    ensures Before(TableOf(events), x, x)
  {
    var early := Row(1, 0, LogicalTime(1, 0), 1, "a", Json.Json.Null, [2], [], None, None);
    var late := Row(2, 0, LogicalTime(2, 0), 2, "b", Json.Json.Null, [], [], None, None);
    events, x := [early, late], 1;
    var E := TableOf(events);
    TableOfDistinct(events);
    assert E[events[0].id] == early && E[events[1].id] == late;
    var g := Predecessors(E);
    forall y | Reaches(g, y, y)
      ensures false
    {
      var rank := (n: Id) => if n == 1 then 1 else 0;
      assert Falls(g, rank);
      ReachFalls(g, rank, y, y);
    }
    DistinctCard(early.parents);
    DistinctCard(late.parents);
    var c := Causal(E);
    assert Follows(E, 1, 2);
    assert Edge(c, 1, 2) && Edge(c, 2, 1);
    ReachEdge(c, 1, 2);
    ReachEdge(c, 2, 1);
    ReachTransitive(c, 1, 2, 1);
  }
}
