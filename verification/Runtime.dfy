/** The deterministic runtime: logical clock, scheduler and execution trace with its cached hash
    (iris-sim/src/runtime/DeterministicRuntime.ts, iris-sim/src/trace-engine/ExecutionTrace.ts,
    iris-sim/src/core-time/LogicalClock.ts). The random generator is an opaque state. */
module Runtime {
  import opened Results
  import opened Scheduler

  datatype ClockSnapshot = ClockSnapshot(tick: int, epoch: int, frozen: bool)

  datatype TraceEntry = TraceEntry(tick: int, eventId: string, executionOrderIndex: nat, rng: nat, clock: ClockSnapshot)

  datatype TraceExport = TraceExport(entries: seq<TraceEntry>, executionHash: Option<nat>)

  datatype RuntimeSnapshot = RuntimeSnapshot(clock: ClockSnapshot, scheduler: SchedulerSnapshot, rng: nat,
      trace: TraceExport)

  datatype RuntimeError = AlreadyStarted | NotInitialized | NotStarted | ClockFrozen

  type TraceHash = seq<TraceEntry> -> nat

  // ----- the trace -----

  /** The entries with a cached hash that is valid while not dirty. */
  class ExecutionTrace {
    const hashEntries: TraceHash
    var entries: seq<TraceEntry>
    var hash: Option<nat>
    var dirty: bool

    /** The cache, where it is used, holds the hash of the entries. */
    ghost predicate Genuine()
      reads this
    {
      !dirty && hash.Some? ==> hash.value == hashEntries(entries)
    }

    constructor (hashEntries: TraceHash)
      ensures this.hashEntries == hashEntries && entries == [] && Genuine() && dirty
    {
      this.hashEntries := hashEntries;
      entries, hash, dirty := [], None, true;
    }

    /** Appending makes the cache stale, so it is genuine afterwards whatever was imported before. */
    method Append(entry: TraceEntry)
      modifies this
      ensures entries == old(entries) + [entry] && dirty && Genuine()
    {
      entries := entries + [entry];
      dirty := true;
    }

    /** The answer is the hash of the entries exactly when the cache is genuine; the cache stays as
        genuine as it was. */
    method ComputeHash() returns (r: nat)
      modifies this`hash, this`dirty
      ensures r == hashEntries(entries) <==> old(Genuine())
      ensures Genuine() == old(Genuine()) && !dirty && hash == Some(r)
    {
      if !dirty && hash.Some? {
        return hash.value;
      }
      hash := Some(hashEntries(entries));
      dirty := false;
      r := hash.value;
    }

    method Export() returns (data: TraceExport)
      modifies this`hash, this`dirty
      ensures data.entries == entries && data.executionHash == hash && !dirty
      ensures Genuine() == old(Genuine())
      ensures data.executionHash.None? ==> !old(dirty)
    {
      var h := if dirty then Some(hashEntries(entries)) else hash;
      hash := h;
      dirty := false;
      data := TraceExport(entries, h);
    }

    /** The imported hash is trusted: the trace is genuine afterwards exactly when it was absent or right. */
    method Import(data: TraceExport)
      modifies this
      ensures entries == data.entries && hash == data.executionHash && !dirty
      ensures Genuine() <==> TrueExport(hashEntries, data)
    {
      entries := data.entries;
      hash := data.executionHash;
      dirty := false;
    }
  }

  ghost predicate TrueExport(hashEntries: TraceHash, data: TraceExport) {
    data.executionHash.Some? ==> data.executionHash.value == hashEntries(data.entries)
  }

  // ----- the runtime -----

  /** Trace ticks never fall, and none lies beyond the given tick. */
  ghost predicate Chronological(entries: seq<TraceEntry>, tick: int) {
    && (forall i, j :: 0 <= i < j < |entries| ==> entries[i].tick <= entries[j].tick)
    && forall i :: 0 <= i < |entries| ==> entries[i].tick <= tick
  }

  /** The entries that running the items at one clock reading appends. */
  function EntriesFor(ran: seq<Item>, index: nat, rng: nat, clock: ClockSnapshot): (es: seq<TraceEntry>)
    ensures |es| == |ran|
    ensures forall i :: 0 <= i < |ran| ==> es[i] == TraceEntry(clock.tick, ran[i].id, index + i, rng, clock)
  {
    seq(|ran|, i requires 0 <= i < |ran| => TraceEntry(clock.tick, ran[i].id, index + i, rng, clock))
  }

  class DeterministicRuntime {
    const scheduler: DeterministicScheduler
    const trace: ExecutionTrace
    var tick: int
    var epoch: int
    var frozen: bool
    var rng: nat
    var started: bool
    var seed: Option<nat>

    ghost predicate Valid()
      reads this, scheduler, trace
    {
      scheduler.Valid() && Chronological(trace.entries, tick)
    }

    /** Nothing queued is overdue. */
    ghost predicate Timely()
      reads this, scheduler
    {
      forall x :: x in scheduler.heap ==> x.tick >= tick
    }

    constructor (hashEntries: TraceHash)
      ensures Valid() && Timely() && !started && tick == 0 && trace.entries == []
      ensures fresh(scheduler) && fresh(trace)
    {
      scheduler := new DeterministicScheduler();
      trace := new ExecutionTrace(hashEntries);
      tick, epoch, frozen, rng, started, seed := 0, 0, false, 0, false, None;
    }

    method Initialize(seedValue: nat) returns (r: Result<(), RuntimeError>)
      requires Valid()
      modifies this`rng, this`seed
      ensures Valid()
      ensures if started then r == Err(AlreadyStarted) && seed == old(seed) && rng == old(rng)
              else r == Ok(()) && seed == Some(seedValue) && rng == seedValue
    {
      if started {
        return Err(AlreadyStarted);
      }
      seed := Some(seedValue);
      rng := seedValue;
      r := Ok(());
    }

    method Start() returns (r: Result<(), RuntimeError>)
      requires Valid()
      modifies this`started
      ensures Valid()
      ensures r == if old(started) then Err(AlreadyStarted) else if seed.None? then Err(NotInitialized) else Ok(())
      ensures started == (old(started) || seed.Some?)
    {
      if started {
        return Err(AlreadyStarted);
      }
      if seed.None? {
        return Err(NotInitialized);
      }
      started := true;
      r := Ok(());
    }

    function Clock(): ClockSnapshot
      reads this
    {
      ClockSnapshot(tick, epoch, frozen)
    }

    /** Run what is due at the given tick and trace it at the present clock reading. */
    method RunDue(upTo: int) returns (ran: seq<Item>)
      requires Valid()
      modifies scheduler, trace
      ensures Valid()
      ensures multiset(old(scheduler.heap)) == multiset(scheduler.heap) + multiset(ran) && InRunOrder(ran)
      ensures (forall i :: 0 <= i < |ran| ==> ran[i].tick <= upTo) && forall x :: x in scheduler.heap ==> x.tick > upTo
      ensures trace.entries == old(trace.entries) + EntriesFor(ran, old(scheduler.executionOrderIndex), rng, Clock())
      ensures scheduler.executionOrderIndex == old(scheduler.executionOrderIndex) + |ran|
    {
      var index := scheduler.executionOrderIndex;
      ran := scheduler.RunUntilTick(upTo);
      ghost var before := trace.entries;
      ghost var all := EntriesFor(ran, index, rng, Clock());
      for i := 0 to |ran|
        invariant trace.entries == before + all[..i]
        invariant Chronological(trace.entries, tick)
        modifies trace
      {
        trace.Append(TraceEntry(tick, ran[i].id, index + i, rng, Clock()));
      }
    }

    /** step: run everything due now, then advance the clock; a frozen clock makes the advance fail after
        the events have run. Without overdue events every event runs exactly at its tick, and none is
        overdue afterwards. */
    method Step() returns (r: Result<(), RuntimeError>, ran: seq<Item>)
      requires Valid()
      modifies this`tick, scheduler, trace
      ensures Valid() && (old(Timely()) ==> Timely())
      ensures !started ==>
                && r == Err(NotStarted) && ran == []
                && trace.entries == old(trace.entries) && scheduler.heap == old(scheduler.heap)
      ensures started ==> r == if frozen then Err(ClockFrozen) else Ok(())
      ensures tick == if started && !frozen then old(tick) + 1 else old(tick)
      ensures started ==>
                && multiset(old(scheduler.heap)) == multiset(scheduler.heap) + multiset(ran) && InRunOrder(ran)
                && (forall x :: x in scheduler.heap ==> x.tick > old(tick))
                && trace.entries == old(trace.entries) +
                    EntriesFor(ran, old(scheduler.executionOrderIndex), rng, old(Clock()))
      ensures forall i :: 0 <= i < |ran| ==> ran[i].tick <= old(tick) && (old(Timely()) ==> ran[i].tick == old(tick))
    {
      if !started {
        return Err(NotStarted), [];
      }
      ghost var queued := scheduler.heap;
      ran := RunDue(tick);
      RanWasQueued(queued, scheduler.heap, ran);
      if frozen {
        return Err(ClockFrozen), ran;
      }
      tick := tick + 1;
      r := Ok(());
    }

    /** Some rounds of runUntil have run and traced these items, in run order, up to the given tick; the others are
        queued and due later. */
    ghost predicate Advanced(from: RunStart, ran: seq<Item>, upTo: int)
      reads this, scheduler, trace
    {
      && Valid() && from.rng == rng && from.epoch == epoch && from.frozen == frozen
      && scheduler.executionOrderIndex == from.index + |ran| && Traced(from, trace.entries, ran)
      && Progress(from.queued, scheduler.heap, ran, upTo)
    }

    /** One more round. */
    method RunRound(upTo: int, ghost from: RunStart, ghost sofar: seq<Item>, ghost last: int) returns (now: seq<Item>)
      requires Advanced(from, sofar, last) && (sofar != [] ==> last <= upTo)
      requires from.exact ==> Timely() && upTo == tick
      modifies scheduler, trace
      ensures Advanced(from, sofar + now, upTo)
      ensures forall x :: x in scheduler.heap ==> x.tick > upTo
    {
      ghost var queued, traced := scheduler.heap, trace.entries;
      now := RunDue(upTo);
      RoundTraced(from, traced, trace.entries, sofar, now, queued, scheduler.heap, Clock());
      ProgressMore(from.queued, queued, scheduler.heap, sofar, now, last, upTo);
    }

    /** One turn of the loop: the round of this tick, and the clock goes on unless it is frozen. */
    method RunTick(ghost from: RunStart, ghost sofar: seq<Item>) returns (now: seq<Item>)
      requires Advanced(from, sofar, tick - 1) && (from.exact ==> Timely())
      modifies this`tick, scheduler, trace
      ensures tick == (if frozen then old(tick) else old(tick) + 1) && Timely()
      ensures Advanced(from, sofar + now, old(tick))
    {
      now := RunRound(tick, from, sofar, tick - 1);
      if !frozen {
        tick := tick + 1;
      }
    }

    /** runUntil: step up to the tick, then run what is due there. On success everything queued up to the target has
        run, in run order; without overdue events every event at its own tick. */
    method RunUntil(target: int) returns (r: Result<(), RuntimeError>, ran: seq<Item>)
      requires Valid()
      modifies this`tick, scheduler, trace
      ensures Valid()
      ensures old(Timely()) && old(tick) <= target ==> Timely()
      ensures !started ==> r == Err(NotStarted) && ran == []
      ensures started ==> r == if frozen && old(tick) < target then Err(ClockFrozen) else Ok(())
      ensures r.Ok? ==> tick == if old(tick) < target then target else old(tick)
      ensures r.Ok? ==> forall x :: x in scheduler.heap ==> x.tick > target
      ensures multiset(old(scheduler.heap)) == multiset(scheduler.heap) + multiset(ran)
      ensures InRunOrder(ran) && forall i :: 0 <= i < |ran| ==> ran[i].tick <= target
      ensures Traced(RunStart(old(trace.entries), old(scheduler.executionOrderIndex), rng, epoch, frozen,
                              old(scheduler.heap), old(Timely()) && old(tick) <= target), trace.entries, ran)
    {
      ran := [];
      ghost var from := RunStart(trace.entries, scheduler.executionOrderIndex, rng, epoch, frozen, scheduler.heap,
                                 Timely() && tick <= target);
      if !started {
        return Err(NotStarted), [];
      }
      while tick < target
        invariant started && Advanced(from, ran, tick - 1) && (from.exact ==> Timely() && tick <= target)
        invariant old(tick) <= tick && (tick <= target || tick == old(tick)) && (frozen ==> tick == old(tick))
        invariant tick == old(tick) ==> ran == []
        decreases target - tick
      {
        var now := RunTick(from, ran);
        ran := ran + now;
        if frozen {
          return Err(ClockFrozen), ran;
        }
      }
      var now := RunRound(target, from, ran, tick - 1);
      ran := ran + now;
      r := Ok(());
    }

    method Snapshot() returns (snap: RuntimeSnapshot)
      requires Valid()
      modifies trace`hash, trace`dirty
      ensures Valid() && Chronological(snap.trace.entries, snap.clock.tick)
      ensures snap.clock == Clock() && snap.rng == rng && snap.trace.entries == trace.entries
      ensures multiset(snap.scheduler.events) == multiset(scheduler.heap) && InRunOrder(snap.scheduler.events)
      ensures snap.scheduler.nextInsertionOrder == scheduler.insertionOrder
      ensures old(trace.Genuine()) ==> TrueExport(trace.hashEntries, snap.trace)
    {
      var exported := trace.Export();
      var queue := scheduler.Snapshot();
      snap := RuntimeSnapshot(Clock(), queue, rng, exported);
    }

    /** restore: clock, generator and trace come back; queued events are dropped, their callbacks cannot
        be restored. */
    method Restore(snap: RuntimeSnapshot)
      requires Valid()
      modifies this`tick, this`epoch, this`frozen, this`rng, scheduler, trace
      ensures scheduler.heap == [] && scheduler.Valid() && Timely()
      ensures Valid() <==> Chronological(snap.trace.entries, snap.clock.tick)
      ensures Clock() == snap.clock && rng == snap.rng && trace.entries == snap.trace.entries
      ensures trace.Genuine() <==> TrueExport(trace.hashEntries, snap.trace)
    {
      tick, epoch, frozen := snap.clock.tick, snap.clock.epoch, snap.clock.frozen;
      rng := snap.rng;
      trace.Import(snap.trace);
      scheduler.Clear();
    }

    method GetExecutionHash() returns (h: nat)
      requires Valid()
      modifies trace`hash, trace`dirty
      ensures Valid() && (h == trace.hashEntries(trace.entries) <==> old(trace.Genuine()))
    {
      h := trace.ComputeHash();
    }
  }

  lemma RanWasQueued(queued: seq<Item>, left: seq<Item>, ran: seq<Item>)
    requires multiset(queued) == multiset(left) + multiset(ran)
    ensures forall i :: 0 <= i < |ran| ==> ran[i] in queued
    ensures forall x :: x in left ==> x in queued
  {
    forall i | 0 <= i < |ran|
      ensures ran[i] in queued
    {
      assert ran[i] in multiset(queued);
    }
    forall x | x in left
      ensures x in queued
    {
      assert x in multiset(queued);
    }
  }

  /** Where rounds start: trace, next index, what stays fixed, the queue, and whether nothing is overdue. */
  datatype RunStart = RunStart(entries: seq<TraceEntry>, index: nat, rng: nat, epoch: int, frozen: bool,
      queued: seq<Item>, exact: bool)

  /** Of what was queued these items have run, in run order, up to the given tick; the others are due later. */
  ghost predicate Progress(queued: seq<Item>, left: seq<Item>, ran: seq<Item>, upTo: int) {
    && multiset(queued) == multiset(left) + multiset(ran)
    && InRunOrder(ran) && (forall i :: 0 <= i < |ran| ==> ran[i].tick <= upTo)
    && (ran != [] ==> forall x :: x in left ==> x.tick > upTo)
  }

  lemma ProgressMore(queued: seq<Item>, before: seq<Item>, left: seq<Item>, ran: seq<Item>, now: seq<Item>, last: int,
      upTo: int)
    requires Progress(queued, before, ran, last) && (ran != [] ==> last <= upTo)
    requires multiset(before) == multiset(left) + multiset(now) && InRunOrder(now)
    requires (forall i :: 0 <= i < |now| ==> now[i].tick <= upTo) && forall x :: x in left ==> x.tick > upTo
    ensures Progress(queued, left, ran + now, upTo)
  {
    assert multiset(ran + now) == multiset(ran) + multiset(now);
    RanWasQueued(before, left, now);
    assert forall i, j :: 0 <= i < |ran| && 0 <= j < |now| ==> ran[i].tick < now[j].tick;
  }

  /** The entry tells which event ran, as which one of all, and at which reading of the clock. */
  ghost predicate Tells(e: TraceEntry, x: Item, index: nat, from: RunStart) {
    && e.eventId == x.id && e.executionOrderIndex == index && e.rng == from.rng
    && e.clock == ClockSnapshot(e.tick, from.epoch, from.frozen)
    && (from.exact ==> e.tick == x.tick)
  }

  /** The trace grew by one entry per event run, in order; where nothing is overdue, each at the event's own tick. */
  ghost predicate Traced(from: RunStart, entries: seq<TraceEntry>, ran: seq<Item>) {
    && |entries| == |from.entries| + |ran| && entries[..|from.entries|] == from.entries
    && forall i :: 0 <= i < |ran| ==> Tells(entries[|from.entries| + i], ran[i], from.index + i, from)
  }

  lemma RoundTraced(from: RunStart, traced: seq<TraceEntry>, entries: seq<TraceEntry>, ran: seq<Item>, now: seq<Item>,
      queued: seq<Item>, left: seq<Item>, clock: ClockSnapshot)
    requires Traced(from, traced, ran) && clock == ClockSnapshot(clock.tick, from.epoch, from.frozen)
    requires entries == traced + EntriesFor(now, from.index + |ran|, from.rng, clock)
    requires multiset(queued) == multiset(left) + multiset(now)
    requires from.exact ==> (forall x :: x in queued ==> x.tick >= clock.tick)
                            && forall i :: 0 <= i < |now| ==> now[i].tick <= clock.tick
    ensures Traced(from, entries, ran + now)
  {
    RanWasQueued(queued, left, now);
    TracedMore(from, traced, entries, ran, now, clock);
  }

  lemma TracedMore(from: RunStart, traced: seq<TraceEntry>, entries: seq<TraceEntry>, ran: seq<Item>, now: seq<Item>,
      clock: ClockSnapshot)
    requires Traced(from, traced, ran) && clock == ClockSnapshot(clock.tick, from.epoch, from.frozen)
    requires entries == traced + EntriesFor(now, from.index + |ran|, from.rng, clock)
    requires from.exact ==> forall i :: 0 <= i < |now| ==> clock.tick == now[i].tick
    ensures Traced(from, entries, ran + now)
  {
    assert entries[..|from.entries|] == traced[..|from.entries|];
    forall i | 0 <= i < |ran + now|
      ensures Tells(entries[|from.entries| + i], (ran + now)[i], from.index + i, from)
    {
      if i < |ran| {
        assert entries[|from.entries| + i] == traced[|from.entries| + i];
      } else {
        assert entries[|from.entries| + i] == EntriesFor(now, from.index + |ran|, from.rng, clock)[i - |ran|];
      }
    }
  }
}
