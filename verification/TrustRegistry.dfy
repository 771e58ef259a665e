/** The trust state of nodes and its transitions (iris-sim/src/control_plane/control_plane_registry.ts),
    the bounded reputation (trust_reputation.ts) and the misbehaviour detector
    (misbehavior_detector.ts). Fresh secrets and clocks are arguments. */
module TrustRegistry {
  import opened Results
  import opened Ids

  datatype TrustState = Pending | Active | Rotating | Revoked

  datatype Entry = Entry(
    lastSeen: int,
    pinnedOffline: bool,
    activeSecret: string,
    nextSecret: Option<string>,
    rotationExpiresAt: Option<int>,
    trustState: TrustState,
    createdAt: int,
    rotatedAt: Option<int>,
    revokedAt: Option<int>)

  /** The parts of a trust event the registry looks at; nextSecret is the payload's field when it is a
      string. */
  datatype TrustEvent = TrustEvent(eventId: string, issuer: string, nodeId: string, kind: string, timestamp: int,
      nextSecret: Option<string>)

  const NODE_ACTIVATED: string := "NODE_ACTIVATED"
  const NODE_REVOKED: string := "NODE_REVOKED"
  const ROTATION_STARTED: string := "ROTATION_STARTED"
  const ROTATION_COMPLETED: string := "ROTATION_COMPLETED"
  const ROTATION_TTL: int := 600000

  function Utf8Length(s: string): nat {
    if |s| == 0 then 0
    else
      var c := s[0] as int;
      (if c < 0x80 then 1 else if c < 0x800 then 2 else if c < 0x10000 then 3 else 4) + Utf8Length(s[1..])
  }

  predicate SecretOk(s: string) {
    Utf8Length(s) >= 32
  }

  // ----- the trust state machine -----

  /** The state a trust event leads to, stale events aside. */
  function NextState(state: Option<TrustState>, kind: string, secretOk: bool): Option<TrustState> {
    if kind == NODE_ACTIVATED then
      if state == None || state == Some(Pending) then Some(Active) else state
    else if kind == NODE_REVOKED then Some(Revoked)
    else if kind == ROTATION_STARTED then
      if secretOk && (state == Some(Active) || state == Some(Rotating)) then Some(Rotating) else state
    else if kind == ROTATION_COMPLETED then
      if state == Some(Rotating) then Some(Active) else state
    else state
  }

  function StateOf(nodes: map<string, Entry>, id: string): Option<TrustState> {
    if id in nodes then Some(nodes[id].trustState) else None
  }

  predicate HasSecret(event: TrustEvent) {
    event.nextSecret.Some? && SecretOk(event.nextSecret.value)
  }

  /** What the registry knows of one node: its state and its event clock. */
  datatype NodeTrust = NodeTrust(state: Option<TrustState>, clock: Option<int>)

  predicate Late(clock: Option<int>, event: TrustEvent) {
    clock.Some? && event.timestamp < clock.value
  }

  /** Which events move the clock: a rotation start with a good secret does even where it is refused. */
  predicate MovesClock(state: Option<TrustState>, event: TrustEvent) {
    || event.kind == NODE_ACTIVATED
    || event.kind == NODE_REVOKED
    || (event.kind == ROTATION_STARTED && HasSecret(event) && state.Some?)
    || (event.kind == ROTATION_COMPLETED && state == Some(Rotating))
  }

  function Later(clock: Option<int>, timestamp: int): int {
    var last := if clock.Some? then clock.value else 0;
    if last >= timestamp then last else timestamp
  }

  /** One trust event about the node: dropped when it is older than the clock. */
  function TrustStep(n: NodeTrust, event: TrustEvent): NodeTrust {
    if Late(n.clock, event) then n
    else NodeTrust(
           NextState(n.state, event.kind, HasSecret(event)),
           if MovesClock(n.state, event) then Some(Later(n.clock, event.timestamp)) else n.clock)
  }

  function NodeOf(nodes: map<string, Entry>, lastTs: map<string, int>, id: string): NodeTrust {
    NodeTrust(StateOf(nodes, id), if id in lastTs then Some(lastTs[id]) else None)
  }

  predicate Stale(lastTs: map<string, int>, event: TrustEvent) {
    event.nodeId in lastTs && event.timestamp < lastTs[event.nodeId]
  }

  /** State and clock of one node along any list of trust events, those about other nodes included. */
  function TrustRun(id: string, n: NodeTrust, events: seq<TrustEvent>): NodeTrust {
    if |events| == 0 then n
    else
      var before, last := TrustRun(id, n, events[..|events| - 1]), events[|events| - 1];
      if last.nodeId == id then TrustStep(before, last) else before
  }

  /** Event i revokes the node and is not late when it arrives. */
  predicate RevokesAt(id: string, n: NodeTrust, events: seq<TrustEvent>, i: nat)
    requires i < |events|
  {
    && events[i].nodeId == id && events[i].kind == NODE_REVOKED
    && !Late(TrustRun(id, n, events[..i]).clock, events[i])
  }

  /** A node is revoked after a list of events exactly when it was revoked before or some event of the list
      revokes it in time: no trust event leads out of that state, and late revocations are dropped. */
  lemma {:induction false} RevokedExactly(id: string, n: NodeTrust, events: seq<TrustEvent>)
    ensures TrustRun(id, n, events).state == Some(Revoked) <==>
              n.state == Some(Revoked) || exists i :: 0 <= i < |events| && RevokesAt(id, n, events, i)
  {
    if |events| > 0 {
      var init, k := events[..|events| - 1], |events| - 1;
      RevokedExactly(id, n, init);
      forall i | 0 <= i < k
        ensures RevokesAt(id, n, events, i) <==> RevokesAt(id, n, init, i)
      {
        assert init[..i] == events[..i] && init[i] == events[i];
      }
      assert RevokesAt(id, n, events, k) <==>
        events[k].nodeId == id && events[k].kind == NODE_REVOKED && !Late(TrustRun(id, n, init).clock, events[k]);
      if i :| 0 <= i < |events| && RevokesAt(id, n, events, i) {
        assert i == k || RevokesAt(id, n, init, i);
      }
      if i :| 0 <= i < |init| && RevokesAt(id, n, init, i) {
        assert RevokesAt(id, n, events, i);
      }
    }
  }

  /** The event is not older than the clock. */
  ghost predicate OnTime(n: NodeTrust, e: TrustEvent) {
    n.clock.None? || e.timestamp >= n.clock.value
  }

  ghost predicate Brings(e: TrustEvent) {
    e.kind == "ROTATION_STARTED" && e.nextSecret.Some? && Utf8Length(e.nextSecret.value) >= 32
  }

  /** The state machine by its targets: what leads into each state, or keeps a node there. */
  lemma StatesExactly(n: NodeTrust, e: TrustEvent)
    ensures var next := TrustStep(n, e).state;
      && (next == Some(Revoked) <==> n.state == Some(Revoked) || (OnTime(n, e) && e.kind == "NODE_REVOKED"))
      && (next == Some(Rotating) <==>
            || (n.state == Some(Rotating) && !(OnTime(n, e) && e.kind in ["NODE_REVOKED", "ROTATION_COMPLETED"]))
            || (n.state == Some(Active) && OnTime(n, e) && Brings(e)))
      && (next == Some(Active) <==>
            || (n.state == Some(Active) && !(OnTime(n, e) && (e.kind == "NODE_REVOKED" || Brings(e))))
            || (n.state == Some(Rotating) && OnTime(n, e) && e.kind == "ROTATION_COMPLETED")
            || (n.state in [None, Some(Pending)] && OnTime(n, e) && e.kind == "NODE_ACTIVATED"))
      && (next == Some(Pending) <==>
            n.state == Some(Pending) && !(OnTime(n, e) && e.kind in ["NODE_ACTIVATED", "NODE_REVOKED"]))
  {
  }

  /** The clock of a node moves to the time of every event that is on time and about it, rotations that are out of
      place aside, but never below zero at first. */
  lemma ClockExactly(n: NodeTrust, e: TrustEvent)
    ensures var next := TrustStep(n, e).clock;
      var moves := OnTime(n, e) && (e.kind in ["NODE_ACTIVATED", "NODE_REVOKED"] || (Brings(e) && n.state.Some?)
        || (e.kind == "ROTATION_COMPLETED" && n.state == Some(Rotating)));
      && (!moves ==> next == n.clock)
      && (moves ==> next == Some(if n.clock.None? && e.timestamp < 0 then 0 else e.timestamp))
  {
  }

  /** The clock of a node never turns back. */
  lemma {:induction false} ClockAdvances(id: string, n: NodeTrust, events: seq<TrustEvent>)
    requires n.clock.Some?
    ensures TrustRun(id, n, events).clock.Some? && TrustRun(id, n, events).clock.value >= n.clock.value
  {
    if |events| > 0 {
      ClockAdvances(id, n, events[..|events| - 1]);
    }
  }

  /** The entry while its secret is being replaced. */
  function InRotation(n: Entry, nextSecret: string, now: int): Entry {
    n.(trustState := Rotating, nextSecret := Some(nextSecret), rotationExpiresAt := Some(now + ROTATION_TTL),
       rotatedAt := Some(now), lastSeen := now)
  }

  /** The entry of a revoked node. */
  function OutOfTrust(n: Entry, now: int): Entry {
    n.(trustState := Revoked, nextSecret := None, rotationExpiresAt := None, revokedAt := Some(now),
       pinnedOffline := true, lastSeen := 0)
  }

  class ControlPlaneRegistry {
    var nodes: map<string, Entry>
    var lastTrustEventTs: map<string, int>

    /** A rotating node has its next secret. */
    ghost predicate Valid()
      reads this
    {
      forall id :: id in nodes && nodes[id].trustState == Rotating ==> nodes[id].nextSecret.Some?
    }

    constructor ()
      ensures Valid() && nodes == map[] && lastTrustEventTs == map[]
    {
      nodes, lastTrustEventTs := map[], map[];
    }

    /** Refused for short secrets; a known node falls back to PENDING. */
    method RegisterNodeWithSecret(id: string, secret: string, now: int) returns (ok: bool)
      requires Valid()
      modifies this`nodes
      ensures Valid() && ok == SecretOk(secret)
      ensures !ok ==> nodes == old(nodes)
      ensures ok ==> nodes.Keys == old(nodes.Keys) + {id}
      ensures ok ==> StateOf(nodes, id) == Some(Pending) && nodes[id].activeSecret == secret
      ensures forall x :: x in old(nodes) && x != id ==> x in nodes && nodes[x] == old(nodes[x])
    {
      if !SecretOk(secret) {
        return false;
      }
      if id in nodes {
        var n := nodes[id].(lastSeen := now, pinnedOffline := false, activeSecret := secret, trustState := Pending);
        nodes := nodes[id := n];
      } else {
        nodes := nodes[id := Entry(now, false, secret, None, None, Pending, now, None, None)];
      }
      ok := true;
    }

    method RegisterNode(id: string, now: int, randomSecret: string)
      requires Valid()
      modifies this`nodes
      ensures Valid()
      ensures var was := old(nodes);
        nodes == was[id := if id in was then was[id].(lastSeen := now, pinnedOffline := false)
                           else Entry(now, false, randomSecret, None, None, Active, now, None, None)]
    {
      if id in nodes {
        nodes := nodes[id := nodes[id].(lastSeen := now, pinnedOffline := false)];
        return;
      }
      nodes := nodes[id := Entry(now, false, randomSecret, None, None, Active, now, None, None)];
    }

    method ActivateNode(id: string, now: int) returns (ok: bool)
      requires Valid()
      modifies this`nodes
      ensures Valid() && ok == (StateOf(old(nodes), id) == Some(Pending))
      ensures var was := old(nodes);
        nodes == if ok then was[id := was[id].(trustState := Active, revokedAt := None, lastSeen := now)] else was
    {
      if id !in nodes || nodes[id].trustState != Pending {
        return false;
      }
      nodes := nodes[id := nodes[id].(trustState := Active, revokedAt := None, lastSeen := now)];
      ok := true;
    }

    method StartRotation(id: string, nextSecret: string, now: int) returns (ok: bool)
      requires Valid()
      modifies this`nodes
      ensures Valid()
      ensures var state := StateOf(old(nodes), id);
        ok == (SecretOk(nextSecret) && (state == Some(Active) || state == Some(Rotating)))
      ensures var was := old(nodes);
        nodes == if ok then was[id := InRotation(was[id], nextSecret, now)] else was
      ensures ok ==>
                && nodes[id].trustState == Rotating && nodes[id].nextSecret == Some(nextSecret)
                && nodes[id].rotationExpiresAt == Some(now + 600000)
                && nodes[id].activeSecret == old(nodes)[id].activeSecret
    {
      if !SecretOk(nextSecret) {
        return false;
      }
      if id !in nodes || (nodes[id].trustState != Active && nodes[id].trustState != Rotating) {
        return false;
      }
      nodes := nodes[id := InRotation(nodes[id], nextSecret, now)];
      ok := true;
    }

    /** Completing makes the next secret the active one. For a valid registry a rotating node always has
        it, so the transition fails exactly outside ROTATING. */
    method CompleteRotation(id: string, now: int) returns (ok: bool)
      requires Valid()
      modifies this`nodes
      ensures Valid() && ok == (StateOf(old(nodes), id) == Some(Rotating))
      ensures !ok ==> nodes == old(nodes)
      ensures ok ==>
        var n := old(nodes)[id];
        nodes == old(nodes)[id := n.(trustState := Active, activeSecret := n.nextSecret.value, nextSecret := None,
                                    rotationExpiresAt := None, rotatedAt := Some(now), lastSeen := now)]
    {
      if id !in nodes || nodes[id].trustState != Rotating || nodes[id].nextSecret.None? {
        return false;
      }
      var n := nodes[id];
      nodes := nodes[id := n.(trustState := Active, activeSecret := n.nextSecret.value, nextSecret := None,
                              rotationExpiresAt := None, rotatedAt := Some(now), lastSeen := now)];
      ok := true;
    }

    method RevokeNode(id: string, now: int) returns (ok: bool)
      requires Valid()
      modifies this`nodes
      ensures Valid() && ok == (id in old(nodes))
      ensures var was := old(nodes);
        nodes == if ok then was[id := OutOfTrust(was[id], now)] else was
      ensures ok ==>
                && nodes[id].trustState == Revoked && nodes[id].revokedAt == Some(now) && nodes[id].pinnedOffline
                && nodes[id].nextSecret == None && nodes[id].rotationExpiresAt == None && nodes[id].lastSeen == 0
    {
      if id !in nodes {
        return false;
      }
      nodes := nodes[id := OutOfTrust(nodes[id], now)];
      ok := true;
    }

    /** applyTrustEvent makes the step of the node's state and clock, touches no other node, and completing
        a rotation installs the secret its start brought. */
    method ApplyTrustEvent(event: TrustEvent, randomSecret: string)
      requires Valid() && SecretOk(randomSecret)
      modifies this
      ensures Valid()
      ensures NodeOf(nodes, lastTrustEventTs, event.nodeId) ==
                TrustStep(old(NodeOf(nodes, lastTrustEventTs, event.nodeId)), event)
      ensures forall x :: x != event.nodeId ==>
                && NodeOf(nodes, lastTrustEventTs, x) == old(NodeOf(nodes, lastTrustEventTs, x))
                && (x in nodes ==> nodes[x] == old(nodes)[x])
      ensures event.kind == ROTATION_STARTED && StateOf(nodes, event.nodeId) == Some(Rotating) && HasSecret(event)
              && !Stale(old(lastTrustEventTs), event) ==>
                nodes[event.nodeId].nextSecret == event.nextSecret
      ensures event.kind == ROTATION_COMPLETED && StateOf(old(nodes), event.nodeId) == Some(Rotating)
              && !Stale(old(lastTrustEventTs), event) ==>
                nodes[event.nodeId].activeSecret == old(nodes)[event.nodeId].nextSecret.value
    {
      var id := event.nodeId;
      if id in lastTrustEventTs && event.timestamp < lastTrustEventTs[id] {
        return;
      }
      var last := if id in lastTrustEventTs then lastTrustEventTs[id] else 0;
      var latest := if last >= event.timestamp then last else event.timestamp;
      if event.kind == NODE_ACTIVATED {
        if id !in nodes {
          var registered := RegisterNodeWithSecret(id, randomSecret, event.timestamp);
        }
        var ok := ActivateNode(id, event.timestamp);
        lastTrustEventTs := lastTrustEventTs[id := latest];
      } else if event.kind == NODE_REVOKED {
        if id !in nodes {
          RegisterNode(id, event.timestamp, randomSecret);
        }
        var ok := RevokeNode(id, event.timestamp);
        lastTrustEventTs := lastTrustEventTs[id := latest];
      } else if event.kind == ROTATION_STARTED {
        if event.nextSecret.None? || !SecretOk(event.nextSecret.value) || id !in nodes {
          return;
        }
        var ok := StartRotation(id, event.nextSecret.value, event.timestamp);
        lastTrustEventTs := lastTrustEventTs[id := latest];
      } else if event.kind == ROTATION_COMPLETED {
        if id !in nodes || nodes[id].trustState != Rotating {
          return;
        }
        var ok := CompleteRotation(id, event.timestamp);
        lastTrustEventTs := lastTrustEventTs[id := latest];
      }
    }
  }

  // ----- reputation -----

  datatype NodeReputation = NodeReputation(score: int, lastUpdated: int, violations: nat)

  const ISOLATION_THRESHOLD: int := 20

  function ScoreOf(nodes: map<string, NodeReputation>, id: string): int {
    if id in nodes then nodes[id].score else 100
  }

  function Clamp(score: int): int {
    if score < 0 then 0 else if score > 100 then 100 else score
  }

  class TrustReputationEngine {
    var nodes: map<string, NodeReputation>

    ghost predicate Valid()
      reads this
    {
      forall id :: id in nodes ==> 0 <= nodes[id].score <= 100
    }

    constructor ()
      ensures Valid() && nodes == map[] && forall id :: ScoreOf(nodes, id) == 100
    {
      nodes := map[];
    }

    /** The entry, created with score 100 on first sight. */
    method GetReputation(id: string, now: int) returns (rep: NodeReputation)
      requires Valid()
      modifies this
      ensures Valid() && id in nodes && rep == nodes[id]
      ensures forall x :: ScoreOf(nodes, x) == ScoreOf(old(nodes), x)
    {
      if id !in nodes {
        nodes := nodes[id := NodeReputation(100, now, 0)];
      }
      rep := nodes[id];
    }

    method Increase(id: string, amount: int, now: int)
      requires Valid()
      modifies this
      ensures Valid() && ScoreOf(nodes, id) == Clamp(ScoreOf(old(nodes), id) + if amount > 0 then amount else 0)
      ensures forall x :: x != id ==> ScoreOf(nodes, x) == ScoreOf(old(nodes), x)
    {
      var cur := GetReputation(id, now);
      var raised := cur.score + if amount > 0 then amount else 0;
      nodes := nodes[id := cur.(score := if raised < 100 then raised else 100, lastUpdated := now)];
    }

    method Decrease(id: string, amount: int, now: int)
      requires Valid()
      modifies this
      ensures Valid() && ScoreOf(nodes, id) == Clamp(ScoreOf(old(nodes), id) - if amount > 0 then amount else 0)
      ensures forall x :: x != id ==> ScoreOf(nodes, x) == ScoreOf(old(nodes), x)
    {
      var cur := GetReputation(id, now);
      var lowered := cur.score - if amount > 0 then amount else 0;
      nodes := nodes[id := cur.(score := if lowered > 0 then lowered else 0, lastUpdated := now)];
    }

    method MarkViolation(id: string, now: int)
      requires Valid()
      modifies this
      ensures Valid() && forall x :: ScoreOf(nodes, x) == ScoreOf(old(nodes), x)
    {
      var cur := GetReputation(id, now);
      nodes := nodes[id := cur.(violations := cur.violations + 1, lastUpdated := now)];
    }
  }

  // ----- the detector -----

  datatype EventPoint = EventPoint(ts: int, kind: string)

  datatype Violation = ReplaySuspect | CompletedWithoutStart | StartInInvalidState | EventSpam | RapidContradiction

  /** The key an event is remembered by. */
  function EventKey(issuer: string, eventId: string): string {
    issuer + ":" + eventId
  }

  function Recent(history: seq<EventPoint>, ts: int): seq<EventPoint> {
    if |history| == 0 then []
    else if ts - history[0].ts <= 1000 then [history[0]] + Recent(history[1..], ts)
    else Recent(history[1..], ts)
  }

  predicate Contradicts(a: string, b: string) {
    (a == NODE_REVOKED && b == NODE_ACTIVATED) || (a == NODE_ACTIVATED && b == NODE_REVOKED)
  }

  /** The first contradicting point decides, whatever follows. */
  function FirstContradiction(points: seq<EventPoint>, kind: string): Option<EventPoint> {
    if |points| == 0 then None
    else if Contradicts(points[0].kind, kind) then Some(points[0])
    else FirstContradiction(points[1..], kind)
  }

  function Abs(n: int): nat {
    if n < 0 then -n else n
  }

  function When(b: bool, v: Violation): seq<Violation> {
    if b then [v] else []
  }

  /** Replays and rotations out of place. */
  function StateViolations(seen: set<string>, auth: Option<TrustState>, event: TrustEvent): seq<Violation> {
    When(EventKey(event.issuer, event.eventId) in seen, ReplaySuspect)
    + When(event.kind == ROTATION_COMPLETED && auth != Some(Rotating), CompletedWithoutStart)
    + When(event.kind == ROTATION_STARTED && auth.Some? && auth != Some(Active) && auth != Some(Rotating),
           StartInInvalidState)
  }

  /** Spam and quick reversals among the issuer's recent points. */
  function RateViolations(recent: seq<EventPoint>, event: TrustEvent): seq<Violation> {
    var contradiction := FirstContradiction(recent, event.kind);
    When(|recent| >= 8, EventSpam)
    + When(contradiction.Some? && Abs(event.timestamp - contradiction.value.ts) <= 200, RapidContradiction)
  }

  /** The violations analyze reports, in order. */
  function Violations(seen: set<string>, history: seq<EventPoint>, auth: Option<TrustState>,
      event: TrustEvent): seq<Violation> {
    StateViolations(seen, auth, event) + RateViolations(Recent(history, event.timestamp), event)
  }

  // ----- the same in the parts of the history -----

  /** Point i is less than or exactly a second old, or lies ahead. */
  ghost predicate RecentAt(history: seq<EventPoint>, ts: int, i: int)
    requires 0 <= i < |history|
  {
    ts - history[i].ts <= 1000
  }

  /** A recent revocation against an activation, or the other way round. */
  ghost predicate OppositeAt(history: seq<EventPoint>, e: TrustEvent, i: int)
    requires 0 <= i < |history|
  {
    && RecentAt(history, e.timestamp, i)
    && ((history[i].kind == "NODE_REVOKED" && e.kind == "NODE_ACTIVATED")
        || (history[i].kind == "NODE_ACTIVATED" && e.kind == "NODE_REVOKED"))
  }

  ghost predicate Crowded(history: seq<EventPoint>, ts: int) {
    |set i | 0 <= i < |history| && RecentAt(history, ts, i)| >= 8
  }

  /** The first such opposite lies within 200 milliseconds. */
  ghost predicate Reverses(history: seq<EventPoint>, e: TrustEvent) {
    exists i :: 0 <= i < |history| && FirstOpposite(history, e, i) && -200 <= e.timestamp - history[i].ts <= 200
  }

  ghost predicate FirstOpposite(history: seq<EventPoint>, e: TrustEvent, i: int)
    requires 0 <= i < |history|
  {
    OppositeAt(history, e, i) && forall j :: 0 <= j < i ==> !OppositeAt(history, e, j)
  }

  /** The recent points by position. */
  ghost predicate ListsRecent(at: seq<int>, history: seq<EventPoint>, ts: int) {
    && (forall k, l :: 0 <= k < l < |at| ==> at[k] < at[l])
    && forall i :: i in at <==> 0 <= i < |history| && RecentAt(history, ts, i)
  }

  lemma {:induction false} RecentPositions(history: seq<EventPoint>, ts: int) returns (at: seq<int>)
    ensures |at| == |Recent(history, ts)| && ListsRecent(at, history, ts)
  {
    if |history| == 0 {
      at := [];
    } else {
      var rest := RecentPositions(history[1..], ts);
      at := Shifted(history, ts, rest);
    }
  }

  lemma Shifted(history: seq<EventPoint>, ts: int, rest: seq<int>) returns (at: seq<int>)
    requires |history| > 0 && ListsRecent(rest, history[1..], ts)
    ensures |at| == |rest| + (if RecentAt(history, ts, 0) then 1 else 0) && ListsRecent(at, history, ts)
  {
    var shifted := seq(|rest|, k requires 0 <= k < |rest| => rest[k] + 1);
    forall i
      ensures i in shifted <==> 0 < i < |history| && RecentAt(history, ts, i)
    {
      if i in shifted {
        var k :| 0 <= k < |rest| && shifted[k] == i;
        assert i - 1 in rest;
      }
      if 0 < i < |history| && RecentAt(history, ts, i) {
        assert i - 1 in rest;
        var k :| 0 <= k < |rest| && rest[k] == i - 1;
        assert shifted[k] == i;
      }
    }
    assert forall k :: 0 <= k < |shifted| ==> shifted[k] in shifted;
    at := if RecentAt(history, ts, 0) then [0] + shifted else shifted;
  }

  lemma CrowdedExactly(history: seq<EventPoint>, ts: int)
    ensures |Recent(history, ts)| >= 8 <==> Crowded(history, ts)
  {
    var at := RecentPositions(history, ts);
    DistinctCard(at);
    assert Elements(at) == set i | 0 <= i < |history| && RecentAt(history, ts, i);
  }

  lemma {:induction false} ContradictionFound(history: seq<EventPoint>, e: TrustEvent)
    ensures var c := FirstContradiction(Recent(history, e.timestamp), e.kind);
      && (c.Some? ==> exists i :: 0 <= i < |history| && FirstOpposite(history, e, i) && history[i] == c.value)
      && (c.None? ==> forall i :: 0 <= i < |history| ==> !OppositeAt(history, e, i))
  {
    if |history| > 0 {
      ContradictionFound(history[1..], e);
      var c := FirstContradiction(Recent(history, e.timestamp), e.kind);
      forall i | 0 < i < |history|
        ensures OppositeAt(history, e, i) <==> OppositeAt(history[1..], e, i - 1)
      {
      }
      if OppositeAt(history, e, 0) {
        assert FirstOpposite(history, e, 0) && history[0] == c.value;
      } else if c.Some? {
        var i :| 0 <= i < |history[1..]| && FirstOpposite(history[1..], e, i) && history[1..][i] == c.value;
        assert FirstOpposite(history, e, i + 1) && history[i + 1] == c.value;
      }
    }
  }

  lemma ReversesExactly(history: seq<EventPoint>, e: TrustEvent)
    ensures var c := FirstContradiction(Recent(history, e.timestamp), e.kind);
      c.Some? && Abs(e.timestamp - c.value.ts) <= 200 <==> Reverses(history, e)
  {
    ContradictionFound(history, e);
  }

  class MisbehaviorDetector {
    var eventHistory: map<string, seq<EventPoint>>
    var seenByIssuer: set<string>

    ghost predicate Valid()
      reads this
    {
      forall id :: id in eventHistory ==> |eventHistory[id]| <= 64
    }

    function History(issuer: string): seq<EventPoint>
      reads this
    {
      if issuer in eventHistory then eventHistory[issuer] else []
    }

    constructor ()
      ensures Valid() && seenByIssuer == {} && eventHistory == map[]
    {
      eventHistory, seenByIssuer := map[], {};
    }

    /** analyze remembers every event it sees, valid or not, and keeps the last 64 points per issuer. */
    method Analyze(event: TrustEvent, auth: Option<TrustState>) returns (violations: seq<Violation>)
      requires Valid()
      modifies this
      ensures Valid() && violations == Violations(old(seenByIssuer), old(History(event.issuer)), auth, event)
      ensures seenByIssuer == old(seenByIssuer) + {EventKey(event.issuer, event.eventId)}
      ensures forall x :: x != event.issuer ==> History(x) == old(History(x))
      ensures var h := old(History(event.issuer)) + [EventPoint(event.timestamp, event.kind)];
        History(event.issuer) == if |h| > 64 then h[|h| - 64..] else h
    {
      violations := FindViolations(event, auth, History(event.issuer));
      seenByIssuer := seenByIssuer + {EventKey(event.issuer, event.eventId)};
      var history := History(event.issuer) + [EventPoint(event.timestamp, event.kind)];
      if |history| > 64 {
        history := history[|history| - 64..];
      }
      eventHistory := eventHistory[event.issuer := history];
    }

    method FindViolations(event: TrustEvent, auth: Option<TrustState>, history: seq<EventPoint>)
      returns (violations: seq<Violation>)
      ensures violations == Violations(seenByIssuer, history, auth, event)
    {
      var ofState := FindStateViolations(event, auth);
      var recent := Recent(history, event.timestamp);
      var ofRate := [];
      if |recent| >= 8 {
        ofRate := ofRate + [EventSpam];
      }
      var contradiction := FirstContradiction(recent, event.kind);
      if contradiction.Some? && Abs(event.timestamp - contradiction.value.ts) <= 200 {
        ofRate := ofRate + [RapidContradiction];
      }
      violations := ofState + ofRate;
    }

    method FindStateViolations(event: TrustEvent, auth: Option<TrustState>) returns (violations: seq<Violation>)
      ensures violations == StateViolations(seenByIssuer, auth, event)
    {
      violations := [];
      if EventKey(event.issuer, event.eventId) in seenByIssuer {
        violations := violations + [ReplaySuspect];
      }
      if event.kind == ROTATION_COMPLETED && auth != Some(Rotating) {
        violations := violations + [CompletedWithoutStart];
      }
      if event.kind == ROTATION_STARTED && auth.Some? && auth != Some(Active) && auth != Some(Rotating) {
        violations := violations + [StartInInvalidState];
      }
    }
  }
}
