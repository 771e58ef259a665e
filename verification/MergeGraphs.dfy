/** The graph-level sorts and the merge of two causal graphs (src/distributed/event_model.ts,
    src/distributed/merge_algebra.ts, src/distributed/state_engine.ts). */
module MergeGraphs {
  import opened Results
  import opened Ids
  import opened Digraph
  import opened EventModel
  import opened EventDag
  import opened EventGraphs
  import opened GraphSearch
  import opened Kahn

  // ----- counting parents -----

  /** Counts once the child lists of the ids in done have been read. */
  ghost predicate Counted(E: Events, indegree: map<Id, int>, done: set<Id>) {
    && indegree.Keys == E.Keys
    && forall id :: id in E ==> indegree[id] == |Elements(E[id].parents) * done|
  }

  lemma CountOne(E: Events, c: Id, done: set<Id>, id: Id)
    requires c in E && id !in done
    ensures |Elements(E[c].parents) * (done + {id})| ==
              |Elements(E[c].parents) * done| + if id in E[c].parents then 1 else 0
  {
    var parents := Elements(E[c].parents);
    if id in parents {
      assert parents * (done + {id}) == parents * done + {id};
    } else {
      assert parents * (done + {id}) == parents * done;
    }
  }

  lemma CountedAll(E: Events, indegree: map<Id, int>)
    requires Dag(E) && Counted(E, indegree, E.Keys)
    ensures forall id :: id in E ==> indegree[id] == |E[id].parents|
  {
    forall id | id in E
      ensures indegree[id] == |E[id].parents|
    {
      AllParentsCounted(E, id);
    }
  }

  lemma AllParentsCounted(E: Events, id: Id)
    requires Dag(E) && id in E
    ensures |Elements(E[id].parents) * E.Keys| == |E[id].parents|
  {
    DistinctCard(E[id].parents);
    assert Elements(E[id].parents) * E.Keys == Elements(E[id].parents);
  }

  /** The in-degrees of a graph, read off its child lists. */
  method CountParents(E: Events, children: map<Id, seq<Id>>) returns (indegree: map<Id, int>)
    requires Dag(E) && ChildTable(E, children)
    ensures indegree.Keys == E.Keys && forall id :: id in E ==> indegree[id] == |E[id].parents|
  {
    var ids := SortIds(E.Keys);
    indegree := Fill(ids, 0);
    for i := 0 to |ids|
      invariant Counted(E, indegree, Elements(ids[..i]))
    {
      assert ids[i] in Elements(ids);
      NextId(ids, i);
      indegree := CountChildren(E, children[ids[i]], indegree, Elements(ids[..i]), ids[i]);
    }
    ElementsWhole(ids);
    CountedAll(E, indegree);
  }

  lemma NextId(ids: seq<Id>, i: nat)
    requires StrictlySorted(ids) && i < |ids|
    ensures ids[i] !in Elements(ids[..i]) && Elements(ids[..i + 1]) == Elements(ids[..i]) + {ids[i]}
  {
    ElementsStep(ids, i);
  }

  method CountChildren(E: Events, kids: seq<Id>, counts: map<Id, int>, ghost done: set<Id>, ghost id: Id)
    returns (indegree: map<Id, int>)
    requires StrictlySorted(kids) && Elements(kids) == ChildIds(E, id) && id !in done && Counted(E, counts, done)
    ensures Counted(E, indegree, done + {id})
  {
    indegree := counts;
    for k := 0 to |kids|
      invariant indegree.Keys == E.Keys
      invariant forall c :: c in E ==> indegree[c] == counts[c] + if c in kids[..k] then 1 else 0
    {
      assert kids[k] in Elements(kids);
      assert kids[k] !in kids[..k];
      indegree := indegree[kids[k] := indegree[kids[k]] + 1];
      assert kids[..k + 1] == kids[..k] + [kids[k]];
    }
    ElementsWhole(kids);
    forall c | c in E
      ensures indegree[c] == |Elements(E[c].parents) * (done + {id})|
    {
      CountOne(E, c, done, id);
      assert c in kids <==> c in Elements(kids);
    }
  }

  /** The events and child lists of the listed nodes. */
  function EventTable(nodes: map<Id, EventNode>, ids: seq<Id>): (E: Events)
    requires Elements(ids) <= nodes.Keys
    ensures E.Keys == Elements(ids) && forall id :: id in E ==> E[id] == nodes[id].event
  {
    if |ids| == 0 then map[]
    else
      HeadAndRest(ids);
      EventTable(nodes, ids[1..])[ids[0] := nodes[ids[0]].event]
  }

  function ChildLists(nodes: map<Id, EventNode>, ids: seq<Id>): (children: map<Id, seq<Id>>)
    requires Elements(ids) <= nodes.Keys
    ensures children.Keys == Elements(ids) && forall id :: id in children ==> children[id] == nodes[id].children
  {
    if |ids| == 0 then map[]
    else
      HeadAndRest(ids);
      ChildLists(nodes, ids[1..])[ids[0] := nodes[ids[0]].children]
  }

  lemma HeadAndRest(ids: seq<Id>)
    requires |ids| > 0
    ensures Elements(ids) == {ids[0]} + Elements(ids[1..])
  {
    assert ids == [ids[0]] + ids[1..];
  }

  /** topologicalSort, topologicalSortDepthDominant and topologicalSortDominanceAware, by policy. On a
      valid graph the cycle error is unreachable. */
  method SortGraph(graph: EventGraph, policy: Policy) returns (out: Result<seq<Id>, GraphError>)
    requires graph.Valid()
    ensures out.Ok? && LinearExtension(graph.events, out.value) && Greedy(graph.events, policy, out.value)
    ensures policy == LosersFirst ==> KeySorted(graph.events, out.value)
  {
    var ids := graph.SortedIds();
    var E := EventTable(graph.nodes, ids);
    assert E == graph.events;
    var children := ChildLists(graph.nodes, ids);
    assert ChildTable(E, children);
    var indegree := CountParents(E, children);
    var order := Run(E, children, indegree, policy);
    ListingLength(order, E.Keys);
    ListingLength(ids, E.Keys);
    if |order| != |ids| {
      return Err(CycleDetected);
    }
    out := Ok(order);
  }

  lemma ListingLength(s: seq<Id>, keys: set<Id>)
    requires Distinct(s) && Elements(s) == keys
    ensures |s| == |keys|
  {
    DistinctCard(s);
  }

  // ----- insertion order of a union -----

  /** Child lists and counts after the parent lists of the ids in done, and the first j parents of one
      more id. */
  ghost predicate Linked(E: Events, children: map<Id, seq<Id>>, indegree: map<Id, int>, done: set<Id>) {
    && children.Keys == E.Keys && indegree.Keys == E.Keys
    && (forall p :: p in E ==> Elements(children[p]) == ChildIds(E, p) * done)
    && (forall c :: c in E ==> indegree[c] == if c in done then |E[c].parents| else 0)
  }

  method LinkOne(E: Events, table: map<Id, seq<Id>>, counts: map<Id, int>, id: Id, ghost done: set<Id>)
    returns (children: map<Id, seq<Id>>, indegree: map<Id, int>)
    requires Dag(E) && id in E && id !in done && Linked(E, table, counts, done)
    ensures Linked(E, children, indegree, done + {id})
  {
    children, indegree := table, counts;
    var parents := E[id].parents;
    for j := 0 to |parents|
      invariant children.Keys == E.Keys && indegree == counts[id := j]
      invariant Pushed(E, table, children, id, parents[..j])
    {
      var p := parents[j];
      PushOne(E, table, children, id, parents, j);
      if p in E {
        indegree := indegree[id := indegree[id] + 1];
        children := children[p := children[p] + [id]];
      }
    }
    ElementsWhole(parents);
    LinkedOne(E, table, counts, children, id, done);
  }

  function PushedChildren(list: seq<Id>, p: Id, id: Id, pushed: seq<Id>): set<Id> {
    Elements(list) + if p in pushed then {id} else {}
  }

  ghost predicate Pushed(E: Events, table: map<Id, seq<Id>>, children: map<Id, seq<Id>>, id: Id, parents: seq<Id>)
    requires table.Keys == E.Keys && children.Keys == E.Keys
  {
    forall p :: p in E ==> Elements(children[p]) == PushedChildren(table[p], p, id, parents)
  }

  lemma PushOne(E: Events, table: map<Id, seq<Id>>, children: map<Id, seq<Id>>, id: Id, parents: seq<Id>, j: nat)
    requires j < |parents| && table.Keys == E.Keys && children.Keys == E.Keys && parents[j] in E
    requires Pushed(E, table, children, id, parents[..j])
    ensures var p := parents[j]; Pushed(E, table, children[p := children[p] + [id]], id, parents[..j + 1])
  {
    assert parents[..j + 1] == parents[..j] + [parents[j]];
    assert forall p :: p in parents[..j + 1] <==> p in parents[..j] || p == parents[j];
    ElementsAppend(children[parents[j]], id);
  }

  lemma LinkedOne(E: Events, table: map<Id, seq<Id>>, counts: map<Id, int>, children: map<Id, seq<Id>>, id: Id,
                  done: set<Id>)
    requires id in E && Linked(E, table, counts, done) && children.Keys == E.Keys
    requires Pushed(E, table, children, id, E[id].parents)
    ensures Linked(E, children, counts[id := |E[id].parents|], done + {id})
  {
    forall p | p in E
      ensures Elements(children[p]) == ChildIds(E, p) * (done + {id})
    {
      assert id in ChildIds(E, p) <==> p in E[id].parents;
    }
  }

  method LinkAll(E: Events) returns (children: map<Id, seq<Id>>, indegree: map<Id, int>)
    requires Dag(E)
    ensures Linked(E, children, indegree, E.Keys)
  {
    var ids := SortIds(E.Keys);
    children, indegree := Fill(ids, []), Fill(ids, 0);
    for i := 0 to |ids|
      invariant Linked(E, children, indegree, Elements(ids[..i]))
    {
      assert ids[i] in Elements(ids);
      NextId(ids, i);
      children, indegree := LinkOne(E, children, indegree, ids[i], Elements(ids[..i]));
    }
    ElementsWhole(ids);
  }

  function SortLists(children: map<Id, seq<Id>>, ids: seq<Id>): (sorted: map<Id, seq<Id>>)
    requires Elements(ids) <= children.Keys
    ensures sorted.Keys == Elements(ids) && forall id :: id in sorted ==> sorted[id] == SortIds(Elements(children[id]))
  {
    if |ids| == 0 then map[]
    else
      HeadAndRest(ids);
      SortLists(children, ids[1..])[ids[0] := SortIds(Elements(children[ids[0]]))]
  }

  lemma LinkedTable(E: Events, children: map<Id, seq<Id>>, indegree: map<Id, int>, ids: seq<Id>)
    requires Linked(E, children, indegree, E.Keys) && Elements(ids) == E.Keys
    ensures ChildTable(E, SortLists(children, ids))
  {
    forall p | p in E
      ensures Elements(children[p]) == ChildIds(E, p)
    {
      assert ChildIds(E, p) * E.Keys == ChildIds(E, p);
    }
  }

  /** topologicalInsertionOrderFromEventMap: deeper events first among the ready ones. */
  method InsertionOrder(E: Events) returns (out: Result<seq<Id>, GraphError>)
    requires Dag(E)
    ensures out.Ok? && LinearExtension(E, out.value) && Greedy(E, DeepestFirst, out.value)
  {
    var ids := SortIds(E.Keys);
    var children, indegree := LinkAll(E);
    LinkedTable(E, children, indegree, ids);
    var order := Run(E, SortLists(children, ids), indegree, DeepestFirst);
    ListingLength(order, E.Keys);
    ListingLength(ids, E.Keys);
    if |order| != |ids| {
      return Err(CycleDetected);
    }
    out := Ok(order);
  }

  // ----- union and merge -----

  function Conflicts(A: Events, B: Events): set<Id> {
    set id | id in A && id in B && A[id] != B[id]
  }

  /** mergeGraphs on event sets: the union, or the least id that the two sides use differently. */
  function MergeSpec(A: Events, B: Events): Result<Events, GraphError> {
    if Conflicts(A, B) == {} then Ok(A + B) else Err(IncompatibleDuplicate(Minimum(Conflicts(A, B))))
  }

  /** serializeEvent of a stored event. */
  function Serialize(e: Event): string {
    match CanonicalizeEvent(e)
    case Ok(c) => EventText(c)
    case Err(_) => ""
  }

  lemma SerializeDecides(digest: Digest, d: Event, e: Event)
    requires CanonicalEvent(digest, d) && CanonicalEvent(digest, e) && d.id == e.id
    ensures Serialize(d) == Serialize(e) <==> d == e
  {
    SortIdsOfSorted(d.parents);
    SortIdsOfSorted(e.parents);
    TextDecides(IdText(d.id), d, IdText(e.id), e);
  }

  /** The union while the ids in done have been ingested. */
  ghost predicate Ingested(A: Events, B: Events, out: Events, done: set<Id>) {
    && out.Keys == A.Keys + done && done <= B.Keys
    && (forall id :: id in A ==> out[id] == A[id])
    && (forall id :: id in done ==> out[id] == B[id])
  }

  lemma IngestStep(A: Events, B: Events, out: Events, done: set<Id>, id: Id)
    requires id in B && id !in done && Ingested(A, B, out, done)
    requires id in A ==> (Serialize(A[id]) == Serialize(B[id]) <==> A[id] == B[id])
    ensures id in out ==> id in A && out[id] == A[id]
    ensures id in out && Serialize(out[id]) != Serialize(B[id]) ==> id in Conflicts(A, B)
    ensures id in out && Serialize(out[id]) == Serialize(B[id]) ==> Ingested(A, B, out, done + {id})
    ensures id !in out ==> Ingested(A, B, out[id := B[id]], done + {id})
  {
  }

  lemma IngestedNoConflict(A: Events, B: Events, out: Events, done: set<Id>)
    requires Ingested(A, B, out, done)
    ensures Conflicts(A, B) !! done
  {
  }

  /** unionEventGraphEvents, one operand: its events join unless an id is taken by another event. */
  method Ingest(graph: EventGraph, byId: Events) returns (r: Result<Events, GraphError>)
    requires graph.Valid() && WellFormed(graph.digest, byId)
    ensures r == MergeSpec(byId, graph.events)
  {
    ghost var B := graph.events;
    var ids := graph.SortedIds();
    var out := byId;
    assert Ingested(byId, B, out, {});
    for i := 0 to |ids|
      invariant Ingested(byId, B, out, Elements(ids[..i]))
    {
      var id := ids[i];
      assert id in Elements(ids);
      NextId(ids, i);
      var ev := graph.nodes[id].event;
      if id in byId {
        SerializeDecides(graph.digest, byId[id], B[id]);
      }
      IngestStep(byId, B, out, Elements(ids[..i]), id);
      if id in out {
        if Serialize(out[id]) != Serialize(ev) {
          IngestedNoConflict(byId, B, out, Elements(ids[..i]));
          LeastConflict(byId, B, ids, i);
          return Err(IncompatibleDuplicate(id));
        }
      } else {
        out := out[id := ev];
      }
    }
    ElementsWhole(ids);
    AllIngested(byId, B, out);
    r := Ok(out);
  }

  lemma AllIngested(A: Events, B: Events, out: Events)
    requires Ingested(A, B, out, B.Keys)
    ensures MergeSpec(A, B) == Ok(out)
  {
    IngestedNoConflict(A, B, out, B.Keys);
    assert Conflicts(A, B) <= B.Keys;
    assert out == A + B;
  }

  lemma LeastConflict(A: Events, B: Events, ids: seq<Id>, i: nat)
    requires StrictlySorted(ids) && Elements(ids) == B.Keys && i < |ids|
    requires Conflicts(A, B) !! Elements(ids[..i]) && ids[i] in Conflicts(A, B)
    ensures Minimum(Conflicts(A, B)) == ids[i]
  {
    var m := Minimum(Conflicts(A, B));
    NotBefore(ids, i, m);
  }

  lemma NotBefore(ids: seq<Id>, i: nat, x: Id)
    requires StrictlySorted(ids) && i < |ids| && x in ids && x !in Elements(ids[..i])
    ensures ids[i] <= x
  {
    assert ids == ids[..i] + ids[i..];
    assert x in ids[i..];
  }

  lemma AdmitCanonical(digest: Digest, e: Event)
    requires CanonicalEvent(digest, e)
    ensures Admit(digest, e) == Ok(e)
  {
    AdmitExactly(digest, e);
  }

  /** The events of U under the given ids. */
  ghost predicate Portion(E: Events, U: Events, ids: set<Id>) {
    E.Keys == ids && ids <= U.Keys && forall id :: id in ids ==> E[id] == U[id]
  }

  /** Rebuilding a well-formed event set along a linear extension adds every event. */
  lemma RebuildStep(digest: Digest, U: Events, order: seq<Id>, i: nat, E: Events)
    requires WellFormed(digest, U) && LinearExtension(U, order) && i < |order|
    requires Portion(E, U, Elements(order[..i]))
    ensures order[i] in U
    ensures AddSpec(digest, E, U[order[i]]) == Ok(E[order[i] := U[order[i]]])
    ensures Portion(E[order[i] := U[order[i]]], U, Elements(order[..i + 1]))
  {
    assert order[i] in Elements(order);
    AddSpecCanonical(digest, E, U[order[i]]);
    ElementsStep(order, i);
    AddNext(E, U[order[i]], order, i);
  }

  lemma AddSpecCanonical(digest: Digest, E: Events, e: Event)
    requires CanonicalEvent(digest, e)
    ensures AddSpec(digest, E, e) == AddCanonicalSpec(E, e)
  {
    AdmitCanonical(digest, e);
  }

  lemma WholePortion(E: Events, U: Events, order: seq<Id>)
    requires Portion(E, U, Elements(order)) && Elements(order) == U.Keys
    ensures E == U
  {
  }

  lemma AddNext(E: Events, e: Event, order: seq<Id>, i: nat)
    requires i < |order| && Distinct(order) && E.Keys == Elements(order[..i]) && e.id == order[i]
    requires forall p :: p in e.parents ==> p in order[..i]
    ensures AddCanonicalSpec(E, e) == Ok(E[e.id := e])
  {
    assert order[i] !in order[..i];
    assert FirstMissing(e.parents, E.Keys).None?;
  }

  /** Feeding a union to an empty graph in insertion order: every addEvent succeeds. */
  method Rebuild(digest: Digest, U: Events, order: seq<Id>) returns (out: EventGraph)
    requires WellFormed(digest, U) && LinearExtension(U, order)
    ensures fresh(out) && out.Valid() && out.digest == digest && out.events == U
  {
    out := new EventGraph(digest);
    for i := 0 to |order|
      invariant fresh(out) && out.Valid() && out.digest == digest
      invariant Portion(out.events, U, Elements(order[..i]))
    {
      AddToCopy(out, U, order, i);
    }
    ElementsWhole(order);
    WholePortion(out.events, U, order);
  }

  /** One addEvent of the loop; it succeeds. */
  method AddToCopy(out: EventGraph, U: Events, order: seq<Id>, i: nat)
    requires out.Valid() && WellFormed(out.digest, U) && LinearExtension(U, order) && i < |order|
    requires Portion(out.events, U, Elements(order[..i]))
    modifies out
    ensures out.Valid() && Portion(out.events, U, Elements(order[..i + 1]))
  {
    RebuildStep(out.digest, U, order, i, out.events);
    var added := out.AddEvent(U[order[i]]);
    assert added == Ok(());
  }

  lemma MergedIsWellFormed(digest: Digest, A: Events, B: Events)
    requires WellFormed(digest, A) && WellFormed(digest, B)
    ensures Conflicts(A, B) == {} <==> Compatible(A, B)
    ensures MergeSpec(A, B).Ok? ==> WellFormed(digest, MergeSpec(A, B).value)
  {
    forall id | id in A && id in B
      ensures id in Conflicts(A, B) <==> A[id] != B[id]
    {
    }
    if Conflicts(A, B) == {} {
      UnionIsDag(A, B);
    }
  }

  /** mergeGraphs: it fails only on an id used for two different events. The merged node table is that
      of the union. */
  method Merge(a: EventGraph, b: EventGraph) returns (r: Result<EventGraph, GraphError>)
    requires a.Valid() && b.Valid() && a.digest == b.digest
    ensures match MergeSpec(a.events, b.events)
            case Ok(U) => r.Ok? && fresh(r.value) && r.value.Valid() && r.value.digest == a.digest
                && r.value.events == U
            case Err(e) => r == Err(e)
  {
    EmptyIsWellFormed(a.digest, a.events);
    var first := Ingest(a, map[]);
    MergedIsWellFormed(a.digest, a.events, b.events);
    var byId := Ingest(b, first.value);
    match byId {
      case Err(e) => r := Err(e);
      case Ok(U) =>
        var order := InsertionOrder(U);
        var out := Rebuild(a.digest, U, order.value);
        r := Ok(out);
    }
  }

  lemma EmptyIsWellFormed(digest: Digest, A: Events)
    ensures WellFormed(digest, map[]) && MergeSpec(map[], A) == Ok(A)
  {
    assert Falls(Parents(map[]), (id: Id) => 0);
    assert Conflicts(map[], A) == {} && map[] + A == A;
  }
}
