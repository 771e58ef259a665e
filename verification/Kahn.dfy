/** Kahn's topological sort with an ordered ready queue, as the distributed layer runs it three times
    (src/distributed/event_model.ts, src/distributed/merge_algebra.ts, src/distributed/state_engine.ts). */
module Kahn {
  import opened Ids
  import opened EventDag
  import opened GraphSearch

  /** Parents still to be scheduled. */
  function Pending(E: Events, id: Id, done: set<Id>): set<Id>
    requires id in E
  {
    Elements(E[id].parents) - done
  }

  ghost predicate Topological(E: Events, out: seq<Id>) {
    forall i, p :: 0 <= i < |out| && out[i] in E && p in E[out[i]].parents ==> p in out[..i]
  }

  /** A listing of every event, each after its parents. */
  ghost predicate LinearExtension(E: Events, out: seq<Id>) {
    Distinct(out) && Elements(out) == E.Keys && Topological(E, out)
  }

  /** Child lists as the node table holds them. */
  ghost predicate ChildTable(E: Events, children: map<Id, seq<Id>>) {
    && children.Keys == E.Keys
    && forall id :: id in E ==> StrictlySorted(children[id]) && Elements(children[id]) == ChildIds(E, id)
  }

  /** What has been scheduled: distinct events, each after its parents. */
  ghost predicate Scheduled(E: Events, out: seq<Id>) {
    Distinct(out) && Topological(E, out) && Elements(out) <= E.Keys
  }

  /** Each count is the number of parents not yet scheduled, one more for a child in later, which
      still counts the event scheduled last. */
  ghost predicate Counts(E: Events, indegree: map<Id, int>, done: set<Id>, later: set<Id>) {
    && indegree.Keys == E.Keys
    && forall id :: id in E ==> indegree[id] == |Pending(E, id, done)| + if id in later then 1 else 0
  }

  /** The queue holds exactly the events that nothing unscheduled precedes. */
  ghost predicate Queue(E: Events, ready: seq<Id>, done: set<Id>, later: set<Id>) {
    && Distinct(ready)
    && forall id :: id in ready <==> id in E && id !in done && id !in later && Pending(E, id, done) == {}
  }

  /** The state between two picks (later empty) and while children are being visited. */
  ghost predicate Scheduling(E: Events, indegree: map<Id, int>, ready: seq<Id>, out: seq<Id>, later: set<Id>) {
    Scheduled(E, out) && Counts(E, indegree, Elements(out), later) && Queue(E, ready, Elements(out), later)
  }

  lemma PickPending(E: Events, id: Id, done: set<Id>, c: Id)
    requires c in E && id !in done
    ensures |Pending(E, c, done)| == |Pending(E, c, done + {id})| + if id in E[c].parents then 1 else 0
    ensures id !in E[c].parents ==> Pending(E, c, done + {id}) == Pending(E, c, done)
    ensures id in E[c].parents ==> Pending(E, c, done) != {}
  {
    if id in E[c].parents {
      assert id in Pending(E, c, done);
      assert Pending(E, c, done) == Pending(E, c, done + {id}) + {id};
    } else {
      assert Pending(E, c, done + {id}) == Pending(E, c, done);
    }
  }

  /** Taking the head of the queue: every child of it still counts it. */
  lemma Pick(E: Events, indegree: map<Id, int>, ready: seq<Id>, out: seq<Id>)
    requires Dag(E) && Scheduling(E, indegree, ready, out, {}) && |ready| > 0
    ensures Scheduling(E, indegree, ready[1..], out + [ready[0]], ChildIds(E, ready[0]))
  {
    var id := ready[0];
    assert id in ready;
    ElementsAppend(out, id);
    PickCounts(E, indegree, Elements(out), id);
    PickQueue(E, ready, Elements(out));
    TopologicalAppend(E, out, id);
    PickDistinct(out, id);
  }

  lemma PickDistinct(out: seq<Id>, id: Id)
    requires Distinct(out) && id !in out
    ensures Distinct(out + [id])
  {
  }

  lemma PickCounts(E: Events, indegree: map<Id, int>, done: set<Id>, id: Id)
    requires Counts(E, indegree, done, {}) && id !in done
    ensures Counts(E, indegree, done + {id}, ChildIds(E, id))
  {
    forall c | c in E
      ensures indegree[c] == |Pending(E, c, done + {id})| + if c in ChildIds(E, id) then 1 else 0
    {
      PickPending(E, id, done, c);
    }
  }

  lemma PickQueue(E: Events, ready: seq<Id>, done: set<Id>)
    requires Queue(E, ready, done, {}) && |ready| > 0 && ready[0] !in done
    ensures Queue(E, ready[1..], done + {ready[0]}, ChildIds(E, ready[0]))
  {
    var id := ready[0];
    forall c
      ensures c in ready[1..] <==>
                c in E && c !in done + {id} && c !in ChildIds(E, id) && Pending(E, c, done + {id}) == {}
    {
      assert c in ready <==> c == id || c in ready[1..];
      if c in E {
        PickPending(E, id, done, c);
      }
    }
  }

  lemma TopologicalAppend(E: Events, out: seq<Id>, id: Id)
    requires Topological(E, out) && id in E && Pending(E, id, Elements(out)) == {}
    ensures Topological(E, out + [id])
  {
    var out' := out + [id];
    forall i, p | 0 <= i < |out'| && out'[i] in E && p in E[out'[i]].parents
      ensures p in out'[..i]
    {
      if i < |out| {
        assert out'[..i] == out[..i];
      } else {
        assert out'[..i] == out;
        assert p !in Pending(E, id, Elements(out));
      }
    }
  }

  /** Visiting one child: its count drops, and it joins the queue when nothing is pending. */
  lemma Visit(E: Events, indegree: map<Id, int>, ready: seq<Id>, out: seq<Id>, later: set<Id>, c: Id)
    requires Scheduling(E, indegree, ready, out, later) && out != [] && c in later
    requires later <= ChildIds(E, out[|out| - 1])
    ensures c in indegree
    ensures var next := indegree[c] - 1;
      Scheduling(E, indegree[c := next], if next == 0 then ready + [c] else ready, out, later - {c})
  {
    ChildNotScheduled(E, out, c);
    VisitQueue(E, ready, Elements(out), later, c);
    VisitCounts(E, indegree, Elements(out), later, c);
  }

  lemma VisitCounts(E: Events, indegree: map<Id, int>, done: set<Id>, later: set<Id>, c: Id)
    requires Counts(E, indegree, done, later) && c in later && c in E
    ensures Counts(E, indegree[c := indegree[c] - 1], done, later - {c})
    ensures indegree[c] - 1 == 0 <==> Pending(E, c, done) == {}
  {
    assert |Pending(E, c, done)| == 0 <==> Pending(E, c, done) == {};
  }

  /** A scheduled child would have its parent scheduled before it. */
  lemma ChildNotScheduled(E: Events, out: seq<Id>, c: Id)
    requires Scheduled(E, out) && out != [] && c in E && out[|out| - 1] in E[c].parents
    ensures c !in out
  {
  }

  lemma VisitQueue(E: Events, ready: seq<Id>, done: set<Id>, later: set<Id>, c: Id)
    requires Queue(E, ready, done, later) && c in later && c in E && c !in done
    ensures Queue(E, if Pending(E, c, done) == {} then ready + [c] else ready, done, later - {c})
  {
    var ready' := if Pending(E, c, done) == {} then ready + [c] else ready;
    assert c !in ready;
    assert forall x :: x in ready + [c] <==> x in ready || x == c;
  }

  /** An empty queue means everything is scheduled: the shallowest event left would be ready. */
  lemma {:induction false} NothingLeft(E: Events, indegree: map<Id, int>, out: seq<Id>, id: Id)
    requires Dag(E) && Scheduling(E, indegree, [], out, {}) && id in E
    ensures id in out
    decreases Depth(E, id)
  {
    forall p | p in E[id].parents
      ensures p in Elements(out)
    {
      ParentDepth(E, id, p);
      NothingLeft(E, indegree, out, p);
    }
    assert Pending(E, id, Elements(out)) == {};
    assert id !in [];
  }

  /** Below every event still to be scheduled there is a ready one that is no greater in (depth, id). */
  lemma {:induction false} ReadyBelow(E: Events, indegree: map<Id, int>, ready: seq<Id>, out: seq<Id>, id: Id)
    returns (r: Id)
    requires Dag(E) && Scheduling(E, indegree, ready, out, {}) && id in E && id !in out
    ensures r in ready && r in E && (r == id || KeyLess(E, r, id))
    decreases Depth(E, id)
  {
    if Pending(E, id, Elements(out)) == {} {
      r := id;
    } else {
      var p :| p in Pending(E, id, Elements(out));
      ParentDepth(E, id, p);
      r := ReadyBelow(E, indegree, ready, out, p);
    }
  }

  /** Scheduled events precede all others in (depth, id), and are sorted by it. */
  ghost predicate KeySorted(E: Events, out: seq<Id>)
    requires Dag(E)
  {
    && (forall x :: x in out ==> x in E)
    && (forall i, j :: 0 <= i < j < |out| ==> KeyLess(E, out[i], out[j]))
  }

  ghost predicate KeyPrefix(E: Events, out: seq<Id>)
    requires Dag(E)
  {
    KeySorted(E, out) && forall x, y :: x in out && y in E && y !in out ==> KeyLess(E, x, y)
  }

  lemma PickLeast(E: Events, indegree: map<Id, int>, ready: seq<Id>, out: seq<Id>)
    requires Dag(E) && Scheduling(E, indegree, ready, out, {}) && |ready| > 0 && KeyPrefix(E, out)
    requires (forall x :: x in ready ==> x in E) && Ordered(E, LosersFirst, ready)
    ensures KeyPrefix(E, out + [ready[0]])
  {
    var id := ready[0];
    assert id in ready;
    forall y | y in E && y !in out && y != id
      ensures KeyLess(E, id, y)
    {
      var r := ReadyBelow(E, indegree, ready, out, y);
      HeadBelow(E, ready, r, y);
    }
    KeyAppend(E, out, id);
  }

  lemma HeadBelow(E: Events, ready: seq<Id>, r: Id, y: Id)
    requires Dag(E) && (forall x :: x in ready ==> x in E) && Ordered(E, LosersFirst, ready) && r in ready
    requires y in E && y != ready[0] && (r == y || KeyLess(E, r, y))
    ensures ready[0] in E && KeyLess(E, ready[0], y)
  {
    HeadIsLeast(E, ready, r);
  }

  lemma HeadIsLeast(E: Events, ready: seq<Id>, r: Id)
    requires Dag(E) && (forall x :: x in ready ==> x in E) && Ordered(E, LosersFirst, ready) && r in ready
    ensures ready[0] in E && (r == ready[0] || KeyLess(E, ready[0], r))
  {
    var k :| 0 <= k < |ready| && ready[k] == r;
    assert ready[0] in ready;
    assert k > 0 ==> Before(E, LosersFirst, ready[0], ready[k]);
  }

  lemma KeyAppend(E: Events, out: seq<Id>, id: Id)
    requires Dag(E) && KeyPrefix(E, out) && id in E && id !in out
    requires forall y :: y in E && y !in out && y != id ==> KeyLess(E, id, y)
    ensures KeyPrefix(E, out + [id])
  {
    var out' := out + [id];
    assert forall x :: x in out' <==> x in out || x == id;
    forall i, j | 0 <= i < j < |out'|
      ensures KeyLess(E, out'[i], out'[j])
    {
      assert out'[i] in out;
    }
  }

  // ----- what the comparator decides -----

  ghost predicate ReadyNow(E: Events, y: Id, done: set<Id>) {
    y in E && y !in done && Pending(E, y, done) == {}
  }

  ghost predicate LeastReady(E: Events, policy: Policy, x: Id, done: set<Id>)
    requires Dag(E)
  {
    ReadyNow(E, x, done) && forall y :: ReadyNow(E, y, done) ==> y == x || Before(E, policy, x, y)
  }

  /** Every event is the first, in the comparator's order, of all that could come next. */
  ghost predicate Greedy(E: Events, policy: Policy, out: seq<Id>)
    requires Dag(E)
  {
    forall i :: 0 <= i < |out| ==> LeastReady(E, policy, out[i], Elements(out[..i]))
  }

  lemma GreedyAppend(E: Events, policy: Policy, out: seq<Id>, x: Id)
    requires Dag(E) && Greedy(E, policy, out) && LeastReady(E, policy, x, Elements(out))
    ensures Greedy(E, policy, out + [x])
  {
    var out' := out + [x];
    forall i | 0 <= i < |out'|
      ensures LeastReady(E, policy, out'[i], Elements(out'[..i]))
    {
      assert out'[..i] == out[..i];
      assert i == |out| ==> out[..i] == out;
    }
  }

  lemma QueueHead(E: Events, policy: Policy, ready: seq<Id>, done: set<Id>)
    requires Dag(E) && Queue(E, ready, done, {}) && |ready| > 0
    requires (forall x :: x in ready ==> x in E) && Ordered(E, policy, ready)
    ensures LeastReady(E, policy, ready[0], done)
  {
    assert ready[0] in ready;
    forall y | ReadyNow(E, y, done)
      ensures y == ready[0] || Before(E, policy, ready[0], y)
    {
      assert y in ready;
      var k :| 0 <= k < |ready| && ready[k] == y;
    }
  }

  /** So the sort is a function of the event set and the comparator alone. */
  lemma {:induction false} GreedyUnique(E: Events, policy: Policy, s: seq<Id>, t: seq<Id>, n: nat)
    requires Dag(E) && Greedy(E, policy, s) && Greedy(E, policy, t) && n <= |s| && n <= |t|
    ensures s[..n] == t[..n]
  {
    if n > 0 {
      GreedyUnique(E, policy, s, t, n - 1);
      assert LeastReady(E, policy, s[n - 1], Elements(s[..n - 1]))
          && LeastReady(E, policy, t[n - 1], Elements(t[..n - 1]));
      BeforeIsOrder(E, policy, s[n - 1], t[n - 1], s[n - 1]);
      BeforeIrreflexive(E, policy, s[n - 1]);
      assert s[..n] == s[..n - 1] + [s[n - 1]] && t[..n] == t[..n - 1] + [t[n - 1]];
    }
  }

  lemma BeforeIrreflexive(E: Events, policy: Policy, x: Id)
    requires Dag(E) && x in E
    ensures !Before(E, policy, x, x)
  {
  }

  /** The main loop: sort the queue, take its head, count its children down. */
  method Run(E: Events, children: map<Id, seq<Id>>, counts: map<Id, int>, policy: Policy) returns (out: seq<Id>)
    requires Dag(E) && ChildTable(E, children)
    requires counts.Keys == E.Keys && forall id :: id in E ==> counts[id] == |E[id].parents|
    ensures LinearExtension(E, out) && Greedy(E, policy, out)
    ensures policy == LosersFirst ==> KeySorted(E, out)
  {
    var indegree := counts;
    out := [];
    StartScheduling(E, counts);
    var ready := SortIds(set id | id in E && indegree[id] == 0);
    while |ready| > 0
      invariant Scheduling(E, indegree, ready, out, {}) && Greedy(E, policy, out)
      invariant policy == LosersFirst ==> KeyPrefix(E, out)
      decreases E.Keys - Elements(out)
    {
      ghost var before := out;
      indegree, ready, out := PickOne(E, children, indegree, ready, out, policy);
      GreedyAppend(E, policy, before, out[|before|]);
    }
    AllScheduled(E, indegree, out);
  }

  /** One round of the loop: the head of the sorted queue is scheduled and its children counted down. */
  method PickOne(E: Events, children: map<Id, seq<Id>>, counts: map<Id, int>, queue: seq<Id>, before: seq<Id>,
      policy: Policy)
    returns (indegree: map<Id, int>, ready: seq<Id>, out: seq<Id>)
    requires Dag(E) && ChildTable(E, children) && Scheduling(E, counts, queue, before, {}) && |queue| > 0
    requires policy == LosersFirst ==> KeyPrefix(E, before)
    ensures |out| == |before| + 1 && out == before + [out[|before|]]
        && LeastReady(E, policy, out[|before|], Elements(before))
    ensures Scheduling(E, indegree, ready, out, {})
    ensures policy == LosersFirst ==> KeyPrefix(E, out)
    ensures E.Keys - Elements(out) < E.Keys - Elements(before)
  {
    var sorted := SortQueue(E, policy, queue, Elements(before));
    QueueHead(E, policy, sorted, Elements(before));
    TakeHead(E, children, counts, sorted, before, policy);
    var id := sorted[0];
    out := before + [id];
    indegree, ready := VisitChildren(E, children[id], counts, sorted[1..], out);
  }

  lemma TakeHead(E: Events, children: map<Id, seq<Id>>, indegree: map<Id, int>, ready: seq<Id>, out: seq<Id>,
      policy: Policy)
    requires Dag(E) && ChildTable(E, children) && Scheduling(E, indegree, ready, out, {}) && |ready| > 0
    requires (forall x :: x in ready ==> x in E) && Ordered(E, policy, ready)
    requires policy == LosersFirst ==> KeyPrefix(E, out)
    ensures var id, out' := ready[0], out + [ready[0]];
      && id in children && StrictlySorted(children[id]) && Elements(children[id]) <= ChildIds(E, out'[|out'| - 1])
      && Scheduling(E, indegree, ready[1..], out', Elements(children[id]))
      && (policy == LosersFirst ==> KeyPrefix(E, out'))
      && E.Keys - Elements(out') < E.Keys - Elements(out)
  {
    var id := ready[0];
    assert id in ready && id in E;
    if policy == LosersFirst {
      PickLeast(E, indegree, ready, out);
    }
    Pick(E, indegree, ready, out);
    ElementsAppend(out, id);
    assert id in E.Keys - Elements(out);
  }

  lemma AllScheduled(E: Events, indegree: map<Id, int>, out: seq<Id>)
    requires Dag(E) && Scheduling(E, indegree, [], out, {})
    ensures LinearExtension(E, out)
  {
    forall id | id in E
      ensures id in out
    {
      NothingLeft(E, indegree, out, id);
    }
    assert Elements(out) == E.Keys;
  }

  method SortQueue(E: Events, policy: Policy, ready: seq<Id>, ghost done: set<Id>) returns (sorted: seq<Id>)
    requires Dag(E) && Queue(E, ready, done, {})
    ensures Queue(E, sorted, done, {}) && |sorted| == |ready|
    ensures (forall x :: x in sorted ==> x in E) && Ordered(E, policy, sorted)
  {
    sorted := SortReady(E, policy, ready);
  }

  lemma StartScheduling(E: Events, counts: map<Id, int>)
    requires Dag(E) && counts.Keys == E.Keys && forall id :: id in E ==> counts[id] == |E[id].parents|
    ensures Scheduling(E, counts, SortIds(set id | id in E && counts[id] == 0), [], {})
  {
    var start := set id | id in E && counts[id] == 0;
    assert Elements<Id>([]) == {};
    forall id | id in E
      ensures counts[id] == |Pending(E, id, {})| && (counts[id] == 0 <==> Pending(E, id, {}) == {})
    {
      NothingDone(E, id);
    }
    FirstIsElement(SortIds(start));
    assert Counts(E, counts, {}, {});
    assert Queue(E, SortIds(start), {}, {});
  }

  lemma NothingDone(E: Events, id: Id)
    requires id in E && StrictlySorted(E[id].parents)
    ensures |Pending(E, id, {})| == |E[id].parents|
    ensures |E[id].parents| == 0 <==> Pending(E, id, {}) == {}
  {
    DistinctCard(E[id].parents);
    assert Pending(E, id, {}) == Elements(E[id].parents);
  }

  method VisitChildren(E: Events, kids: seq<Id>, counts: map<Id, int>, queue: seq<Id>, ghost out: seq<Id>)
    returns (indegree: map<Id, int>, ready: seq<Id>)
    requires StrictlySorted(kids) && out != [] && Elements(kids) <= ChildIds(E, out[|out| - 1])
    requires Scheduling(E, counts, queue, out, Elements(kids))
    ensures Scheduling(E, indegree, ready, out, {})
  {
    indegree, ready := counts, queue;
    assert kids[0..] == kids;
    for i := 0 to |kids|
      invariant Scheduling(E, indegree, ready, out, Elements(kids[i..]))
    {
      VisitKid(E, indegree, ready, out, kids, i);
      var next := indegree[kids[i]] - 1;
      indegree := indegree[kids[i] := next];
      if next == 0 {
        ready := ready + [kids[i]];
      }
    }
    assert Elements(kids[|kids|..]) == {};
  }

  lemma VisitKid(E: Events, indegree: map<Id, int>, ready: seq<Id>, out: seq<Id>, kids: seq<Id>, i: nat)
    requires StrictlySorted(kids) && out != [] && Elements(kids) <= ChildIds(E, out[|out| - 1]) && i < |kids|
    requires Scheduling(E, indegree, ready, out, Elements(kids[i..]))
    ensures kids[i] in indegree
    ensures var next := indegree[kids[i]] - 1;
      Scheduling(E, indegree[kids[i] := next], if next == 0 then ready + [kids[i]] else ready,
                 out, Elements(kids[i + 1..]))
  {
    KidsLeft(kids, i);
    Visit(E, indegree, ready, out, Elements(kids[i..]), kids[i]);
  }

  lemma KidsLeft(kids: seq<Id>, i: nat)
    requires StrictlySorted(kids) && i < |kids|
    ensures kids[i] in Elements(kids[i..]) && Elements(kids[i..]) <= Elements(kids)
    ensures Elements(kids[i..]) - {kids[i]} == Elements(kids[i + 1..])
  {
    var rest := kids[i + 1..];
    assert kids[i..] == [kids[i]] + rest;
    forall x | x in rest
      ensures x != kids[i]
    {
      var k :| 0 <= k < |rest| && rest[k] == x;
      assert x == kids[i + 1 + k];
    }
    assert forall x :: x in kids[i..] <==> x == kids[i] || x in rest;
  }
}
