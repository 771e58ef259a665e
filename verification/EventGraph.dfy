/** The append-only causal graph and the searches over it (src/distributed/event_model.ts,
    src/distributed/merge_algebra.ts). */
module EventGraphs {
  import opened Results
  import opened Ids
  import opened Digraph
  import opened DepthFirst
  import opened EventModel
  import opened EventDag

  function Children(nodes: map<Id, EventNode>): Graph {
    (id: Id) => if id in nodes then Elements(nodes[id].children) else {}
  }

  function FirstMissing(parents: seq<Id>, present: set<Id>): (r: Option<Id>)
    ensures r.None? <==> forall p :: p in parents ==> p in present
    ensures r.Some? ==> r.value in parents && r.value !in present
  {
    if |parents| == 0 then None
    else if parents[0] !in present then Some(parents[0])
    else FirstMissing(parents[1..], present)
  }

  /** addEvent on the event set: the checks on the event, then nothing when the id is present, then
      every parent must be present, then the event joins. */
  function AddSpec(digest: Digest, E: Events, event: Event): Result<Events, GraphError> {
    match Admit(digest, event)
    case Err(e) => Err(e)
    case Ok(c) => AddCanonicalSpec(E, c)
  }

  function AddCanonicalSpec(E: Events, c: Event): Result<Events, GraphError> {
    if c.id in E then Ok(E)
    else
      match FirstMissing(c.parents, E.Keys)
      case Some(p) => Err(MissingParent(p))
      case None => Ok(E[c.id := c])
  }

  /** A number above the depth of every listed event. */
  ghost function Above(E: Events, ids: seq<Id>): nat
    requires Dag(E)
  {
    if |ids| == 0 then 0
    else
      var rest := Above(E, ids[1..]);
      if ids[0] in E && Depth(E, ids[0]) >= rest then Depth(E, ids[0]) + 1 else rest
  }

  lemma {:induction false} AboveAll(E: Events, ids: seq<Id>, x: Id)
    requires Dag(E) && x in ids && x in E
    ensures Depth(E, x) < Above(E, ids)
  {
    if x != ids[0] {
      AboveAll(E, ids[1..], x);
    }
  }

  /** An event whose parents are present cannot close a cycle: nothing present refers to it. */
  lemma AddKeepsDag(E: Events, c: Event)
    requires Dag(E) && StrictlySorted(c.parents) && c.id !in E && c.id !in c.parents
    requires forall p :: p in c.parents ==> p in E
    ensures Dag(E[c.id := c])
  {
    var E' := E[c.id := c];
    var rank := (id: Id) => if id == c.id then Above(E, c.parents) else if id in E then Depth(E, id) else 0;
    forall a, b | Edge(Parents(E'), a, b)
      ensures rank(b) < rank(a)
    {
      if a == c.id {
        AboveAll(E, c.parents, b);
      } else {
        ParentDepth(E, a, b);
      }
    }
    assert Falls(Parents(E'), rank);
  }

  lemma AddKeepsWellFormed(digest: Digest, E: Events, c: Event)
    requires WellFormed(digest, E) && CanonicalEvent(digest, c) && c.id !in E
    requires forall p :: p in c.parents ==> p in E
    ensures WellFormed(digest, E[c.id := c])
  {
    AddKeepsDag(E, c);
  }

  function LinkedIds(E: Events, c: Event, id: Id, done: set<Id>): set<Id> {
    if id in done then ChildIds(E, id) + {c.id} else ChildIds(E, id)
  }

  function LinkedNode(E: Events, c: Event, id: Id, done: set<Id>): EventNode
    requires id in E || id == c.id
  {
    var e := if id == c.id then c else E[id];
    EventNode(e, e.parents, SortIds(LinkedIds(E, c, id, done)))
  }

  /** The node table while a new event is being linked below the parents in done. */
  ghost predicate Linking(nodes: map<Id, EventNode>, E: Events, c: Event, done: set<Id>) {
    && nodes.Keys == E.Keys + {c.id}
    && forall id :: id in nodes ==> nodes[id] == LinkedNode(E, c, id, done)
  }

  function Link(node: EventNode, id: Id): EventNode {
    node.(children := SortIds(Elements(node.children + [id])))
  }

  lemma LinkStart(nodes: map<Id, EventNode>, E: Events, c: Event)
    requires NodeTable(nodes, E) && Closed(E) && c.id !in E
    ensures Linking(nodes[c.id := EventNode(c, c.parents, [])], E, c, {})
  {
    assert ChildIds(E, c.id) == {};
    assert SortIds({}) == [];
  }

  lemma LinkNode(n: EventNode, E: Events, c: Event, done: set<Id>, p: Id)
    requires (p in E || p == c.id) && p !in done
    requires n == LinkedNode(E, c, p, done)
    ensures Link(n, c.id) == LinkedNode(E, c, p, done + {p})
  {
    assert Elements(n.children) == ChildIds(E, p);
    assert Elements(n.children + [c.id]) == Elements(n.children) + {c.id};
  }

  lemma OtherNodeKept(E: Events, c: Event, id: Id, done: set<Id>, p: Id)
    requires (id in E || id == c.id) && id != p
    ensures LinkedNode(E, c, id, done + {p}) == LinkedNode(E, c, id, done)
  {
    assert LinkedIds(E, c, id, done + {p}) == LinkedIds(E, c, id, done);
  }

  lemma LinkStep(nodes: map<Id, EventNode>, E: Events, c: Event, done: set<Id>, p: Id, n: EventNode)
    requires Linking(nodes, E, c, done) && p in nodes && p !in done
    requires n == LinkedNode(E, c, p, done + {p})
    ensures Linking(nodes[p := n], E, c, done + {p})
  {
    var next := nodes[p := n];
    assert next.Keys == nodes.Keys;
    forall id | id in next
      ensures next[id] == LinkedNode(E, c, id, done + {p})
    {
      if id != p {
        assert next[id] == nodes[id] == LinkedNode(E, c, id, done);
        OtherNodeKept(E, c, id, done, p);
      }
    }
  }

  lemma LinkParent(nodes: map<Id, EventNode>, E: Events, c: Event, i: nat)
    requires i < |c.parents| && StrictlySorted(c.parents) && c.parents[i] in E
    requires Linking(nodes, E, c, Elements(c.parents[..i]))
    ensures c.parents[i] in nodes
    ensures Linking(nodes[c.parents[i] := Link(nodes[c.parents[i]], c.id)], E, c, Elements(c.parents[..i + 1]))
  {
    var p, done := c.parents[i], Elements(c.parents[..i]);
    LinkNode(nodes[p], E, c, done, p);
    LinkStep(nodes, E, c, done, p, Link(nodes[p], c.id));
    ElementsStep(c.parents, i);
  }

  lemma NewChildIds(E: Events, c: Event, id: Id)
    requires c.id !in E
    ensures ChildIds(E[c.id := c], id) == LinkedIds(E, c, id, Elements(c.parents))
  {
  }

  lemma LinkingDone(nodes: map<Id, EventNode>, E: Events, c: Event)
    requires c.id !in E && Linking(nodes, E, c, Elements(c.parents))
    ensures NodeTable(nodes, E[c.id := c])
  {
    var E' := E[c.id := c];
    forall id | id in nodes
      ensures nodes[id] == EventNode(E'[id], E'[id].parents, SortIds(ChildIds(E', id)))
    {
      NewChildIds(E, c, id);
    }
  }

  class EventGraph {
    const digest: Digest
    var nodes: map<Id, EventNode>
    ghost var events: Events

    ghost predicate Valid()
      reads this
    {
      WellFormed(digest, events) && NodeTable(nodes, events)
    }

    constructor (digest: Digest)
      ensures Valid() && events == map[] && this.digest == digest
    {
      this.digest := digest;
      nodes, events := map[], map[];
      new;
      assert Falls(Parents(events), (id: Id) => 0);
    }

    method AddEvent(event: Event) returns (r: Result<(), GraphError>)
      requires Valid()
      modifies this
      ensures Valid()
      ensures match AddSpec(digest, old(events), event)
              case Ok(E) => r == Ok(()) && events == E
              case Err(e) => r == Err(e) && events == old(events)
    {
      var checked := CheckEvent(event);
      match checked {
        case Err(e) => r := Err(e);
        case Ok(c) =>
          AdmitExactly(digest, event);
          r := AddCanonical(c);
      }
    }

    method AddCanonical(c: Event) returns (r: Result<(), GraphError>)
      requires Valid() && CanonicalEvent(digest, c)
      modifies this
      ensures Valid()
      ensures match AddCanonicalSpec(old(events), c)
              case Ok(E) => r == Ok(()) && events == E
              case Err(e) => r == Err(e) && events == old(events)
    {
      ghost var E := events;
      if c.id in nodes {
        return Ok(());
      }
      assert nodes.Keys == E.Keys;
      var missing := FirstMissing(c.parents, nodes.Keys);
      if missing.Some? {
        return Err(MissingParent(missing.value));
      }
      InsertChecked(c);
      r := Ok(());
    }

    /** Store the event and look for a cycle; the rollback branch is never taken. */
    method InsertChecked(c: Event)
      requires Valid() && CanonicalEvent(digest, c) && c.id !in events && forall p :: p in c.parents ==> p in events
      modifies this
      ensures Valid() && events == old(events)[c.id := c]
    {
      AddKeepsWellFormed(digest, events, c);
      Insert(c);
      var cyclic := DetectCycle(c.id);
      if cyclic {
        // The rollback branch: no admitted event closes a cycle.
        NewEventHasNoChildren(nodes, old(events), c);
        assert false;
      }
    }

    /** The checks addEvent makes before it looks at the graph. */
    method CheckEvent(event: Event) returns (r: Result<Event, GraphError>)
      ensures r == Admit(digest, event)
    {
      var canonical := CanonicalizeEvent(event);
      if canonical.Err? {
        return Err(canonical.error);
      }
      var c := canonical.value;
      if event.id != ContentId(digest, c) {
        return Err(InvalidId);
      }
      if EventText(event) != EventText(c) {
        return Err(NotCanonical);
      }
      if |Elements(event.parents)| != |event.parents| {
        return Err(DuplicateParents);
      }
      if SortIds(Elements(event.parents)) != event.parents {
        return Err(UnsortedParents);
      }
      if event.id in event.parents {
        return Err(SelfReference);
      }
      r := Ok(c);
    }

    /** Store the node and list it among the children of its parents. */
    method Insert(c: Event)
      requires Closed(events) && NodeTable(nodes, events) && c.id !in events
      requires StrictlySorted(c.parents) && forall i :: 0 <= i < |c.parents| ==> c.parents[i] in events
      modifies this
      ensures events == old(events)[c.id := c] && NodeTable(nodes, events)
    {
      LinkStart(nodes, events, c);
      nodes := nodes[c.id := EventNode(c, c.parents, [])];
      LinkParents(c);
      LinkingDone(nodes, events, c);
      events := events[c.id := c];
    }

    /** The loop over the parents. */
    method LinkParents(c: Event)
      requires Linking(nodes, events, c, {}) && StrictlySorted(c.parents)
      requires forall i :: 0 <= i < |c.parents| ==> c.parents[i] in events
      modifies this`nodes
      ensures Linking(nodes, events, c, Elements(c.parents))
    {
      for i := 0 to |c.parents|
        invariant Linking(nodes, events, c, Elements(c.parents[..i]))
      {
        var p := c.parents[i];
        LinkParent(nodes, events, c, i);
        nodes := nodes[p := Link(nodes[p], c.id)];
      }
      ElementsWhole(c.parents);
    }

    /** True exactly when a cycle of children can be reached from the start. */
    method DetectCycle(start: Id) returns (found: bool)
      ensures found <==> CycleReachable(Children(nodes), start)
    {
      ghost var g := Children(nodes);
      ghost var u := {start} + set id, c | id in nodes && c in nodes[id].children :: c;
      var visited, inStack;
      ghost var fin;
      found, visited, inStack, fin := Dfs(start, {}, {}, [], [], u);
      if !found {
        FinishedHasNoCycle(g, fin, start);
      }
    }

    method Dfs(id: Id, visited: set<Id>, inStack: set<Id>, ghost stack: seq<Id>, ghost fin: seq<Id>, ghost u: set<Id>)
      returns (found: bool, visited': set<Id>, inStack': set<Id>, ghost fin': seq<Id>)
      requires inStack == Elements(stack) && visited == Elements(stack) + Elements(fin)
      requires Walking(Children(nodes), stack, fin) && Universe(Children(nodes), u) && id in u
      requires stack != [] ==> Edge(Children(nodes), stack[|stack| - 1], id)
      ensures found ==> CycleReachable(Children(nodes), if stack == [] then id else stack[0])
      ensures !found ==>
                && fin <= fin' && id in fin'
                && inStack' == inStack && visited' == Elements(stack) + Elements(fin')
                && Walking(Children(nodes), stack, fin')
      ensures visited <= visited'
      decreases u - visited
    {
      ghost var g := Children(nodes);
      visited', inStack', fin' := visited, inStack, fin;
      if id in inStack {
        BackEdgeIsCycle(g, stack, id);
        return true, visited', inStack', fin';
      }
      if id in visited {
        return false, visited', inStack', fin';
      }
      PushStack(g, stack, fin, id);
      ghost var stack' := stack + [id];
      visited' := visited' + {id};
      inStack' := inStack' + {id};
      assert Elements(stack') == Elements(stack) + {id};
      if id in nodes {
        var children := SortIds(Elements(nodes[id].children));
        for i := 0 to |children|
          invariant inStack' == Elements(stack') && visited' == Elements(stack') + Elements(fin')
          invariant fin <= fin' && visited <= visited' && id in visited'
          invariant Walking(g, stack', fin')
          invariant forall k :: 0 <= k < i ==> children[k] in fin'
        {
          assert children[i] in Elements(children);
          assert Edge(g, id, children[i]);
          found, visited', inStack', fin' := Dfs(children[i], visited', inStack', stack', fin', u);
          if found {
            return true, visited', inStack', fin';
          }
        }
        forall y | Edge(g, id, y)
          ensures y in fin'
        {
          assert y in Elements(children);
        }
      }
      Finish(g, stack, fin', id);
      assert id !in inStack;
      inStack' := inStack' - {id};
      assert Elements(fin' + [id]) == Elements(fin') + {id};
      fin' := fin' + [id];
      found := false;
    }

    /** The ids in ascending order. */
    method SortedIds() returns (ids: seq<Id>)
      ensures StrictlySorted(ids) && Elements(ids) == nodes.Keys
    {
      ids := SortIds(nodes.Keys);
    }
  }

  lemma NewEventHasNoChildren(nodes: map<Id, EventNode>, E: Events, c: Event)
    requires NodeTable(nodes, E[c.id := c]) && Closed(E) && c.id !in E && c.id !in c.parents
    ensures !CycleReachable(Children(nodes), c.id)
  {
    var g := Children(nodes);
    assert ChildIds(E[c.id := c], c.id) == {};
    forall x | CycleFrom(g, c.id, x)
      ensures false
    {
      var m := ReachFirst(g, c.id, if x == c.id then c.id else x);
    }
  }
}
