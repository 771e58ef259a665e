/** The deterministic scheduler: a binary heap ordered by tick, priority and insertion
    (iris-sim/src/scheduler/DeterministicScheduler.ts). Callbacks of events are not modelled; running an
    event hands it to the caller together with its execution index. */
module Scheduler {
  import opened Results

  /** A queued event with its place in the order of insertion. Priorities are finite numbers. */
  datatype Item = Item(id: string, tick: int, priority: real, order: nat)

  // ----- the order -----

  /** compare: negative when a runs before b. */
  function Compare(a: Item, b: Item): real {
    if a.tick != b.tick then (if a.tick < b.tick then -1.0 else 1.0)
    else if a.priority != b.priority then b.priority - a.priority
    else a.order as real - b.order as real
  }

  predicate Runs(a: Item, b: Item) {
    Compare(a, b) < 0.0
  }

  /** Everything but the insertion order. */
  predicate KeyBefore(a: Item, b: Item) {
    a.tick < b.tick || (a.tick == b.tick && a.priority > b.priority)
  }

  lemma RunsIsTotal(a: Item, b: Item, c: Item)
    ensures !Runs(a, a) && !(Runs(a, b) && Runs(b, a))
    ensures a.order != b.order ==> Runs(a, b) || Runs(b, a)
    ensures Runs(a, b) && Runs(b, c) ==> Runs(a, c)
    ensures !Runs(b, a) && !Runs(c, b) ==> !Runs(c, a)
    ensures Runs(a, b) <==> KeyBefore(a, b) || (!KeyBefore(b, a) && a.order < b.order)
  {
  }

  /** The order in the parts of the items: earlier ticks first, then higher priorities, then earlier insertion. */
  lemma RunsExactly(a: Item, b: Item)
    ensures Runs(a, b) <==>
              || a.tick < b.tick
              || (a.tick == b.tick && a.priority > b.priority)
              || (a.tick == b.tick && a.priority == b.priority && a.order < b.order)
  {
  }

  // ----- heaps -----

  function Parent(k: nat): nat
    requires k > 0
  {
    (k - 1) / 2
  }

  ghost predicate HeapAt(h: seq<Item>, k: nat) {
    0 < k < |h| ==> !Runs(h[k], h[Parent(k)])
  }

  /** No item runs before its parent. */
  ghost predicate IsHeap(h: seq<Item>) {
    forall k :: 0 < k < |h| ==> HeapAt(h, k)
  }

  /** A heap but for position i, whose children still respect the parent of i. */
  ghost predicate HeapUpAt(h: seq<Item>, i: nat) {
    && (forall k :: 0 < k < |h| && k != i ==> HeapAt(h, k))
    && (forall k :: 0 < k < |h| && i > 0 && Parent(k) == i && i < |h| ==> !Runs(h[k], h[Parent(i)]))
  }

  /** A heap but for the children of position i, which still respect the parent of i. */
  ghost predicate HeapDownAt(h: seq<Item>, i: nat) {
    && (forall k :: 0 < k < |h| && Parent(k) != i ==> HeapAt(h, k))
    && (forall k :: 0 < k < |h| && i > 0 && Parent(k) == i && i < |h| ==> !Runs(h[k], h[Parent(i)]))
  }

  function Swap(h: seq<Item>, i: nat, j: nat): (r: seq<Item>)
    requires i < |h| && j < |h|
    ensures |r| == |h| && r[i] == h[j] && r[j] == h[i] && forall k :: 0 <= k < |h| && k != i && k != j ==> r[k] == h[k]
  {
    h[i := h[j]][j := h[i]]
  }

  lemma SwapKeeps(h: seq<Item>, i: nat, j: nat)
    requires i < |h| && j < |h|
    ensures multiset(Swap(h, i, j)) == multiset(h)
  {
  }

  lemma SwapUp(h: seq<Item>, i: nat)
    requires 0 < i < |h| && HeapUpAt(h, i) && Runs(h[i], h[Parent(i)])
    ensures HeapUpAt(Swap(h, i, Parent(i)), Parent(i))
  {
    var p := Parent(i);
    var r := Swap(h, i, p);
    forall k | 0 < k < |r| && k != p
      ensures HeapAt(r, k)
    {
      assert k != i ==> HeapAt(h, k);
      if k != i && Parent(k) == p {
        RunsIsTotal(h[i], h[p], h[k]);
      } else if k == i {
        RunsIsTotal(h[i], h[p], h[i]);
      }
    }
    forall k | 0 < k < |r| && p > 0 && Parent(k) == p
      ensures !Runs(r[k], r[Parent(p)])
    {
      assert HeapAt(h, p);
      if k != i {
        assert HeapAt(h, k);
        RunsIsTotal(h[Parent(p)], h[p], h[k]);
      }
    }
  }

  /** heapUp: move the item at index up until its parent does not run after it. */
  method HeapUp(h: seq<Item>, index: nat) returns (r: seq<Item>)
    requires index < |h| && HeapUpAt(h, index)
    ensures IsHeap(r) && |r| == |h| && multiset(r) == multiset(h)
  {
    r := h;
    var i := index;
    while i > 0
      invariant 0 <= i < |r| == |h| && HeapUpAt(r, i) && multiset(r) == multiset(h)
    {
      var parent := Parent(i);
      if Compare(r[i], r[parent]) >= 0.0 {
        assert HeapAt(r, i);
        return;
      }
      SwapUp(r, i);
      SwapKeeps(r, i, parent);
      r := Swap(r, i, parent);
      i := parent;
    }
  }

  lemma SwapDown(h: seq<Item>, i: nat, c: nat)
    requires i < |h| && HeapDownAt(h, i) && c < |h| && c > 0 && Parent(c) == i && Runs(h[c], h[i])
    requires forall k :: 0 < k < |h| && Parent(k) == i ==> !Runs(h[k], h[c])
    ensures HeapDownAt(Swap(h, i, c), c)
  {
    var r := Swap(h, i, c);
    forall k | 0 < k < |r| && Parent(k) != c
      ensures HeapAt(r, k)
    {
      if Parent(k) == i {
        if k == c {
          RunsIsTotal(h[c], h[i], h[c]);
        }
      } else {
        assert HeapAt(h, k);
      }
    }
    forall k | 0 < k < |r| && Parent(k) == c
      ensures !Runs(r[k], r[Parent(c)])
    {
      assert HeapAt(h, k);
    }
  }

  lemma SettledDown(h: seq<Item>, i: nat)
    requires HeapDownAt(h, i)
    requires forall k :: 0 < k < |h| && Parent(k) == i ==> HeapAt(h, k)
    ensures IsHeap(h)
  {
  }

  /** heapDown: move the item at index down until no child runs before it. */
  method HeapDown(h: seq<Item>, index: nat) returns (r: seq<Item>)
    requires index < |h| && HeapDownAt(h, index)
    ensures IsHeap(r) && |r| == |h| && multiset(r) == multiset(h)
  {
    r := h;
    var i := index;
    while true
      invariant 0 <= i < |r| == |h| && HeapDownAt(r, i) && multiset(r) == multiset(h)
      decreases |h| - i
    {
      var smallest := i;
      var left, right := 2 * i + 1, 2 * i + 2;
      if left < |r| && Compare(r[left], r[smallest]) < 0.0 {
        smallest := left;
      }
      if right < |r| && Compare(r[right], r[smallest]) < 0.0 {
        smallest := right;
      }
      LeastChild(r, i, smallest);
      if smallest == i {
        SettledDown(r, i);
        return;
      }
      SwapDown(r, i, smallest);
      SwapKeeps(r, i, smallest);
      r := Swap(r, i, smallest);
      i := smallest;
    }
  }

  lemma LeastChild(h: seq<Item>, i: nat, smallest: nat)
    requires i < |h| && smallest < |h|
    requires var l := if 2 * i + 1 < |h| && Runs(h[2 * i + 1], h[i]) then 2 * i + 1 else i;
      smallest == if 2 * i + 2 < |h| && Runs(h[2 * i + 2], h[l]) then 2 * i + 2 else l
    ensures forall k :: 0 < k < |h| && Parent(k) == i ==> !Runs(h[k], h[smallest])
    ensures smallest != i ==> smallest > i && Parent(smallest) == i && Runs(h[smallest], h[i])
    ensures smallest == i ==> forall k :: 0 < k < |h| && Parent(k) == i ==> HeapAt(h, k)
  {
    forall k | 0 < k < |h| && Parent(k) == i
      ensures k == 2 * i + 1 || k == 2 * i + 2
    {
    }
    if 2 * i + 2 < |h| {
      RunsIsTotal(h[2 * i + 2], h[2 * i + 1], h[i]);
      RunsIsTotal(h[2 * i + 1], h[2 * i + 2], h[i]);
      RunsIsTotal(h[2 * i + 1], h[i], h[2 * i + 1]);
    } else if 2 * i + 1 < |h| {
      RunsIsTotal(h[2 * i + 1], h[i], h[2 * i + 1]);
    }
  }

  /** Nothing runs before the root. */
  lemma {:induction false} RootRunsFirst(h: seq<Item>, k: nat)
    requires IsHeap(h) && k < |h|
    ensures !Runs(h[k], h[0])
  {
    if k > 0 {
      RootRunsFirst(h, Parent(k));
      assert HeapAt(h, k);
      RunsIsTotal(h[0], h[Parent(k)], h[k]);
    } else {
      RunsIsTotal(h[0], h[0], h[0]);
    }
  }

  // ----- the stable sort -----

  ghost predicate InRunOrder(s: seq<Item>) {
    forall i, j :: 0 <= i < j < |s| ==> Runs(s[i], s[j])
  }

  ghost predicate InsertionOrder(s: seq<Item>) {
    forall i, j :: 0 <= i < j < |s| ==> s[i].order < s[j].order
  }

  /** Insert behind every item whose key is not greater: an insertion step of a stable sort. */
  function InsertStable(s: seq<Item>, x: Item): seq<Item> {
    if |s| == 0 || !KeyBefore(x, s[|s| - 1]) then s + [x]
    else InsertStable(s[..|s| - 1], x) + [s[|s| - 1]]
  }

  /** Stable sort by tick and descending priority alone. */
  function StableSort(s: seq<Item>): seq<Item> {
    if |s| == 0 then [] else InsertStable(StableSort(s[..|s| - 1]), s[|s| - 1])
  }

  lemma {:induction false} InsertStableKeeps(s: seq<Item>, x: Item)
    ensures multiset(InsertStable(s, x)) == multiset(s) + multiset{x}
  {
    if |s| > 0 && KeyBefore(x, s[|s| - 1]) {
      InsertStableKeeps(s[..|s| - 1], x);
      assert s == s[..|s| - 1] + [s[|s| - 1]];
    }
  }

  lemma {:induction false} StableSortKeeps(s: seq<Item>)
    ensures multiset(StableSort(s)) == multiset(s)
  {
    if |s| > 0 {
      var front, last := s[..|s| - 1], s[|s| - 1];
      StableSortKeeps(front);
      InsertStableKeeps(StableSort(front), last);
      assert s == front + [last];
    }
  }

  lemma {:induction false} InsertStableOrdered(s: seq<Item>, x: Item)
    requires InRunOrder(s) && forall y :: y in s ==> y.order < x.order
    ensures InRunOrder(InsertStable(s, x))
  {
    if |s| > 0 {
      var last := s[|s| - 1];
      assert last in s;
      if KeyBefore(x, last) {
        InsertStableOrdered(s[..|s| - 1], x);
        InsertStableKeeps(s[..|s| - 1], x);
        var r := InsertStable(s[..|s| - 1], x);
        forall i | 0 <= i < |r|
          ensures Runs(r[i], last)
        {
          assert r[i] in multiset(r);
          RunsIsTotal(x, last, x);
        }
      } else {
        forall i | 0 <= i < |s|
          ensures Runs(s[i], x)
        {
          assert s[i] in s;
          RunsIsTotal(s[i], last, x);
          RunsIsTotal(last, x, x);
        }
      }
    }
  }

  /** On items in insertion order the stable sort yields the run order. */
  lemma {:induction false} StableSortOrdered(s: seq<Item>)
    requires InsertionOrder(s)
    ensures InRunOrder(StableSort(s))
  {
    if |s| > 0 {
      var init, x := s[..|s| - 1], s[|s| - 1];
      StableSortOrdered(init);
      StableSortKeeps(init);
      forall y | y in StableSort(init)
        ensures y.order < x.order
      {
        assert y in multiset(init);
        var i :| 0 <= i < |init| && init[i] == y;
      }
      InsertStableOrdered(StableSort(init), x);
    }
  }

  lemma FirstsAgree(s: seq<Item>, t: seq<Item>)
    requires InRunOrder(s) && InRunOrder(t) && multiset(s) == multiset(t) && |s| > 0 && |t| > 0
    ensures s[0] == t[0]
  {
    assert s[0] in multiset(t) && t[0] in multiset(s);
    var i :| 0 <= i < |t| && t[i] == s[0];
    var j :| 0 <= j < |s| && s[j] == t[0];
    RunsIsTotal(s[0], t[0], s[0]);
  }

  lemma TailKeeps(s: seq<Item>)
    requires |s| > 0
    ensures multiset(s[1..]) == multiset(s) - multiset{s[0]}
  {
    assert s == [s[0]] + s[1..];
  }

  /** A list in run order is determined by what it contains. */
  lemma {:induction false} RunOrderUnique(s: seq<Item>, t: seq<Item>)
    requires InRunOrder(s) && InRunOrder(t) && multiset(s) == multiset(t)
    ensures s == t
  {
    assert |s| == |multiset(s)| == |t|;
    if |s| > 0 {
      FirstsAgree(s, t);
      TailKeeps(s);
      TailKeeps(t);
      RunOrderUnique(s[1..], t[1..]);
      assert s == [s[0]] + s[1..] && t == [t[0]] + t[1..];
    }
  }

  // ----- the snapshot listing -----

  function InsertRuns(x: Item, s: seq<Item>): seq<Item> {
    if |s| == 0 || Runs(x, s[0]) then [x] + s else [s[0]] + InsertRuns(x, s[1..])
  }

  /** The sort of the snapshot, by tick, descending priority and insertion order. */
  function SortRuns(s: seq<Item>): seq<Item> {
    if |s| == 0 then [] else InsertRuns(s[0], SortRuns(s[1..]))
  }

  lemma {:induction false} InsertRunsOrdered(x: Item, s: seq<Item>)
    requires InRunOrder(s) && forall y :: y in s ==> y.order != x.order
    ensures InRunOrder(InsertRuns(x, s)) && multiset(InsertRuns(x, s)) == multiset(s) + multiset{x}
  {
    if |s| > 0 {
      assert s[0] in s;
      assert s == [s[0]] + s[1..];
      RunsIsTotal(x, s[0], x);
      if Runs(x, s[0]) {
        forall i | 0 <= i < |s|
          ensures Runs(x, s[i])
        {
          RunsIsTotal(x, s[0], s[i]);
        }
      } else {
        InsertRunsOrdered(x, s[1..]);
        var r := InsertRuns(x, s[1..]);
        forall i | 0 <= i < |r|
          ensures Runs(s[0], r[i])
        {
          assert r[i] in multiset(r);
          assert r[i] == x || r[i] in s[1..];
        }
      }
    }
  }

  lemma {:induction false} SortRunsOrders(s: seq<Item>)
    requires forall i, j :: 0 <= i < j < |s| ==> s[i].order != s[j].order
    ensures InRunOrder(SortRuns(s)) && multiset(SortRuns(s)) == multiset(s)
  {
    if |s| > 0 {
      SortRunsOrders(s[1..]);
      var rest := SortRuns(s[1..]);
      forall y | y in rest
        ensures y.order != s[0].order
      {
        assert y in multiset(rest);
        var i :| 0 <= i < |s[1..]| && s[1..][i] == y;
        assert y == s[i + 1];
      }
      InsertRunsOrdered(s[0], rest);
      assert s == [s[0]] + s[1..];
    }
  }

  datatype SchedulerSnapshot = SchedulerSnapshot(events: seq<Item>, nextInsertionOrder: nat)

  // ----- the scheduler -----

  class DeterministicScheduler {
    var heap: seq<Item>
    var insertionOrder: nat
    var executionOrderIndex: nat

    /** The heap order, and distinct insertion orders below the next one. */
    ghost predicate Valid()
      reads this
    {
      IsHeap(heap) && DistinctOrders(heap, insertionOrder)
    }

    constructor ()
      ensures Valid() && heap == [] && insertionOrder == 0 && executionOrderIndex == 0
    {
      heap, insertionOrder, executionOrderIndex := [], 0, 0;
    }

    method Schedule(id: string, tick: int, priority: real)
      requires Valid()
      modifies this
      ensures Valid()
      ensures multiset(heap) == multiset(old(heap)) + multiset{Item(id, tick, priority, old(insertionOrder))}
      ensures insertionOrder == old(insertionOrder) + 1 && executionOrderIndex == old(executionOrderIndex)
    {
      var item := Item(id, tick, priority, insertionOrder);
      var pushed := heap + [item];
      PushedIsHeapUp(heap, item);
      heap := HeapUp(pushed, |heap|);
      OrdersKept(pushed, heap, insertionOrder + 1);
      insertionOrder := insertionOrder + 1;
    }

    /** Runs the one event that runs before all others, and nothing when the queue is empty. */
    method RunNext() returns (ran: Option<Item>, index: nat)
      requires Valid()
      modifies this
      ensures Valid() && insertionOrder == old(insertionOrder)
      ensures old(heap) == [] ==> ran == None && heap == [] && executionOrderIndex == old(executionOrderIndex)
      ensures old(heap) != [] ==>
                && ran == Some(old(heap[0])) && index == old(executionOrderIndex)
                && (forall x :: x in multiset(heap) ==> Runs(ran.value, x))
                && multiset(old(heap)) == multiset(heap) + multiset{ran.value}
                && executionOrderIndex == old(executionOrderIndex) + 1
    {
      if |heap| == 0 {
        return None, 0;
      }
      var next := heap[0];
      var rest := Popped(heap);
      PopFacts(heap, insertionOrder);
      if |rest| > 0 {
        PoppedIsHeapDown(heap);
        rest := HeapDown(rest, 0);
      }
      OrdersKept(Popped(heap), rest, insertionOrder);
      index := executionOrderIndex;
      executionOrderIndex := executionOrderIndex + 1;
      heap := rest;
      ran := Some(next);
    }

    /** runUntilTick: run everything due, in run order. What stays is not due. */
    method RunUntilTick(tick: int) returns (ran: seq<Item>)
      requires Valid()
      modifies this
      ensures Valid() && insertionOrder == old(insertionOrder)
      ensures multiset(old(heap)) == multiset(heap) + multiset(ran) && InRunOrder(ran)
      ensures (forall i :: 0 <= i < |ran| ==> ran[i].tick <= tick) && forall x :: x in heap ==> x.tick > tick
      ensures executionOrderIndex == old(executionOrderIndex) + |ran|
    {
      ran := [];
      while |heap| > 0 && heap[0].tick <= tick
        invariant Valid() && insertionOrder == old(insertionOrder)
        invariant multiset(old(heap)) == multiset(heap) + multiset(ran) && InRunOrder(ran) && AllBefore(ran, heap)
        invariant forall i :: 0 <= i < |ran| ==> ran[i].tick <= tick
        invariant executionOrderIndex == old(executionOrderIndex) + |ran|
        decreases |heap|
      {
        ghost var was := heap;
        var next, index := RunNext();
        RanOneMore(ran, was, heap, next.value);
        ran := ran + [next.value];
      }
      NothingDue(heap, tick);
    }

    /** drain: run everything. */
    method Drain() returns (ran: seq<Item>)
      requires Valid()
      modifies this
      ensures Valid() && heap == [] && insertionOrder == old(insertionOrder)
      ensures multiset(ran) == multiset(old(heap)) && InRunOrder(ran)
      ensures executionOrderIndex == old(executionOrderIndex) + |ran|
    {
      ran := [];
      while |heap| > 0
        invariant Valid() && insertionOrder == old(insertionOrder)
        invariant multiset(old(heap)) == multiset(heap) + multiset(ran) && InRunOrder(ran) && AllBefore(ran, heap)
        invariant executionOrderIndex == old(executionOrderIndex) + |ran|
        decreases |heap|
      {
        ghost var was := heap;
        var next, index := RunNext();
        RanOneMore(ran, was, heap, next.value);
        ran := ran + [next.value];
      }
    }

    /** The snapshot lists what is queued in the order it would run. */
    method Snapshot() returns (snap: SchedulerSnapshot)
      requires Valid()
      ensures multiset(snap.events) == multiset(heap) && InRunOrder(snap.events)
      ensures snap.nextInsertionOrder == insertionOrder
    {
      SortRunsOrders(heap);
      snap := SchedulerSnapshot(SortRuns(heap), insertionOrder);
    }

    method Clear()
      modifies this`heap
      ensures Valid() && heap == []
    {
      heap := [];
    }
  }

  /** Everything run so far runs before everything queued. */
  ghost predicate AllBefore(ran: seq<Item>, heap: seq<Item>) {
    forall i, x :: 0 <= i < |ran| && x in multiset(heap) ==> Runs(ran[i], x)
  }

  lemma RanOneMore(ran: seq<Item>, was: seq<Item>, heap: seq<Item>, next: Item)
    requires InRunOrder(ran) && AllBefore(ran, was) && multiset(was) == multiset(heap) + multiset{next}
    requires forall x :: x in multiset(heap) ==> Runs(next, x)
    ensures InRunOrder(ran + [next]) && AllBefore(ran + [next], heap) && |was| == |heap| + 1
    ensures multiset(was) + multiset(ran) == multiset(heap) + multiset(ran + [next])
  {
    assert |multiset(was)| == |multiset(heap)| + 1;
    forall i | 0 <= i < |ran|
      ensures Runs(ran[i], next)
    {
      assert next in multiset(was);
    }
    forall i, x | 0 <= i < |ran + [next]| && x in multiset(heap)
      ensures Runs((ran + [next])[i], x)
    {
      assert x in multiset(was);
    }
  }

  /** A drain right after the snapshot runs exactly the listed events, in the listed order. */
  lemma SnapshotIsDrain(queued: seq<Item>, listed: seq<Item>, ran: seq<Item>)
    requires multiset(listed) == multiset(queued) && InRunOrder(listed)
    requires multiset(ran) == multiset(queued) && InRunOrder(ran)
    ensures listed == ran
  {
    RunOrderUnique(listed, ran);
  }

  /** Draining executes the stable sort of the queued events, taken in insertion order: conservation and
      order together. */
  lemma DrainIsStableSort(queued: seq<Item>, ran: seq<Item>)
    requires InsertionOrder(queued) && multiset(ran) == multiset(queued) && InRunOrder(ran)
    ensures ran == StableSort(queued)
  {
    StableSortKeeps(queued);
    StableSortOrdered(queued);
    RunOrderUnique(ran, StableSort(queued));
  }

  lemma PushedIsHeapUp(h: seq<Item>, x: Item)
    requires IsHeap(h)
    ensures HeapUpAt(h + [x], |h|)
  {
    var p := h + [x];
    forall k | 0 < k < |p| && k != |h|
      ensures HeapAt(p, k)
    {
      assert HeapAt(h, k);
    }
  }

  /** The last item takes the place of the root. */
  function Popped(h: seq<Item>): seq<Item>
    requires |h| > 0
  {
    h[0 := h[|h| - 1]][..|h| - 1]
  }

  lemma PoppedIsHeapDown(h: seq<Item>)
    requires IsHeap(h) && |h| > 1
    ensures HeapDownAt(Popped(h), 0)
  {
    var p := Popped(h);
    forall k | 0 < k < |p| && Parent(k) != 0
      ensures HeapAt(p, k)
    {
      assert HeapAt(h, k);
    }
  }

  lemma PopKeeps(h: seq<Item>)
    requires |h| > 0
    ensures multiset(h) == multiset(Popped(h)) + multiset{h[0]}
  {
    var last := |h| - 1;
    assert h == h[..last] + [h[last]];
    if last > 0 {
      assert Popped(h) == [h[last]] + h[1..last];
      assert h[..last] == [h[0]] + h[1..last];
    }
  }

  lemma PopFacts(h: seq<Item>, bound: nat)
    requires IsHeap(h) && |h| > 0 && DistinctOrders(h, bound)
    ensures multiset(h) == multiset(Popped(h)) + multiset{h[0]}
    ensures DistinctOrders(Popped(h), bound) && |Popped(h)| == |h| - 1
    ensures forall x :: x in multiset(Popped(h)) ==> Runs(h[0], x)
  {
    PopKeeps(h);
    RootIsFirst(h);
    var p := Popped(h);
    forall x | x in multiset(p)
      ensures Runs(h[0], x)
    {
      var i :| 0 <= i < |p| && p[i] == x;
      assert p[i] == if i == 0 then h[|h| - 1] else h[i];
    }
  }

  ghost predicate DistinctOrders(h: seq<Item>, bound: nat) {
    && (forall i :: 0 <= i < |h| ==> h[i].order < bound)
    && forall i, j :: 0 <= i < j < |h| ==> h[i].order != h[j].order
  }

  /** Rearranging keeps insertion orders distinct. */
  lemma OrdersKept(h: seq<Item>, r: seq<Item>, bound: nat)
    requires multiset(r) == multiset(h) && DistinctOrders(h, bound)
    ensures DistinctOrders(r, bound)
  {
    forall i | 0 <= i < |r|
      ensures r[i].order < bound
    {
      assert r[i] in multiset(h);
    }
    forall i, j | 0 <= i < j < |r|
      ensures r[i].order != r[j].order
    {
      assert r[i] in multiset(h) && r[j] in multiset(h);
      var k :| 0 <= k < |h| && h[k] == r[i];
      var l :| 0 <= l < |h| && h[l] == r[j];
      SingleInDistinct(h, bound, k);
      TwiceCounts(r, i, j);
    }
  }

  lemma TwiceCounts(r: seq<Item>, i: nat, j: nat)
    requires i < j < |r|
    ensures r[i] == r[j] ==> multiset(r)[r[i]] >= 2
  {
    assert r == r[..i] + [r[i]] + r[i + 1..];
    assert r[j] == r[i + 1..][j - i - 1];
    assert r[j] in multiset(r[i + 1..]);
  }

  lemma SingleInDistinct(h: seq<Item>, bound: nat, k: nat)
    requires DistinctOrders(h, bound) && k < |h|
    ensures multiset(h)[h[k]] == 1
  {
    assert h == h[..k] + [h[k]] + h[k + 1..];
    assert h[k] !in h[..k] && h[k] !in h[k + 1..];
  }

  lemma RootIsFirst(h: seq<Item>)
    requires IsHeap(h) && |h| > 0 && forall i, j :: 0 <= i < j < |h| ==> h[i].order != h[j].order
    ensures forall k :: 0 < k < |h| ==> Runs(h[0], h[k])
  {
    forall k | 0 < k < |h|
      ensures Runs(h[0], h[k])
    {
      RootRunsFirst(h, k);
      RunsIsTotal(h[0], h[k], h[0]);
    }
  }

  lemma NothingDue(h: seq<Item>, tick: int)
    requires IsHeap(h) && (|h| > 0 ==> h[0].tick > tick)
    ensures forall x :: x in h ==> x.tick > tick
  {
    forall k | 0 <= k < |h|
      ensures h[k].tick > tick
    {
      RootRunsFirst(h, k);
    }
  }
}
