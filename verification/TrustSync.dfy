/** The trust event engine: an admission pipeline over registry, reputation, detector, isolation and
    audit log (iris-sim/src/control_plane/trust_sync_engine.ts, node_isolation.ts). Secret lookup,
    signature and quorum decisions arrive as booleans. */
module TrustSync {
  import opened Results
  import opened Merkle
  import opened AuditLogs
  import opened TrustRegistry

  datatype SignedEvent = SignedEvent(event: TrustEvent, payloadHash: string, payload: string, signature: string,
      endorsements: seq<Endorsement>)

  /** quorumOk is true when no quorum is configured. */
  datatype Checks = Checks(secretKnown: bool, signatureOk: bool, quorumOk: bool)

  datatype Verdict =
    | Ignored
    | FromIsolated
    | UnknownIssuer
    | BadSignature
    | OutOfOrder
    | Misbehaving(count: nat)
    | NoQuorum
    | Accepted

  /** isLogicalOrderValid. */
  predicate OrderOk(auth: Option<TrustState>, kind: string) {
    if kind == ROTATION_COMPLETED then auth == Some(Rotating)
    else if kind == ROTATION_STARTED then auth == Some(Active) || auth == Some(Rotating)
    else true
  }

  /** The pipeline's decision, first failing check first. */
  function Judge(open: bool, isolated: bool, checks: Checks, orderOk: bool, violations: nat): Verdict {
    if !open then Ignored
    else if isolated then FromIsolated
    else if !checks.secretKnown then UnknownIssuer
    else if !checks.signatureOk then BadSignature
    else if !orderOk then OutOfOrder
    else if violations > 0 then Misbehaving(violations)
    else if !checks.quorumOk then NoQuorum
    else Accepted
  }

  /** What a verdict does to the issuer's score, before clamping. */
  function Change(verdict: Verdict): int {
    match verdict
    case BadSignature => -10
    case OutOfOrder => -8
    case Misbehaving(count) => -(7 + count)
    case NoQuorum => -6
    case Accepted => 1
    case _ => 0
  }

  predicate Analysed(verdict: Verdict) {
    verdict.Misbehaving? || verdict.NoQuorum? || verdict.Accepted?
  }

  function CountVerified(records: seq<Record>): nat {
    if |records| == 0 then 0
    else CountVerified(records[..|records| - 1]) + if records[|records| - 1].rest.core.verified then 1 else 0
  }

  ghost predicate NoDuplicates(s: seq<(string, string)>) {
    forall i, j :: 0 <= i < j < |s| ==> s[i] != s[j]
  }

  /** An audit record of the event, written by the given node. */
  predicate Audits(r: Record, e: SignedEvent, verified: bool, writer: string) {
    var c := r.rest.core;
    && c.eventId == e.event.eventId && c.issuer == e.event.issuer && c.nodeId == e.event.nodeId
    && c.eventType == e.event.kind && c.timestamp == e.event.timestamp && c.verified == verified
    && c.payloadHash == e.payloadHash && c.eventPayload == Some(e.payload)
    && c.endorsements == (if e.endorsements == [] then None else Some(e.endorsements))
    && c.signerNodeId == (if writer == "" then None else Some(writer))
    && c.eventSignature == (if e.signature == "" then None else Some(e.signature))
  }

  // ----- the outcome in the parts of event and state -----

  /** Rotations are in place: completed only while one is under way, started only on trusted nodes. */
  ghost predicate InPlace(state: Option<TrustState>, kind: string) {
    && (kind == "ROTATION_COMPLETED" ==> state == Some(Rotating))
    && (kind == "ROTATION_STARTED" ==> state == Some(Active) || state == Some(Rotating))
  }

  /** What the detector holds against an event that is in place: it was analysed before, the issuer sends too
      much, or turns round too fast. */
  ghost function Faults(seen: set<string>, history: seq<EventPoint>, e: TrustEvent): nat {
    (if e.issuer + ":" + e.eventId in seen then 1 else 0)
    + (if Crowded(history, e.timestamp) then 1 else 0)
    + (if Reverses(history, e) then 1 else 0)
  }

  lemma FaultsCounted(seen: set<string>, history: seq<EventPoint>, state: Option<TrustState>, e: TrustEvent)
    requires InPlace(state, e.kind)
    ensures |Violations(seen, history, state, e)| == Faults(seen, history, e)
  {
    CrowdedExactly(history, e.timestamp);
    ReversesExactly(history, e);
  }

  /** An event is accepted exactly when nothing speaks against it: it is new, its issuer is not isolated and has a
      known secret, the signature holds, it is in place, the detector finds no fault, and there is a quorum. The
      first of these that fails decides what the issuer pays; an accepted event earns one point. Where the event
      is not looked at, or nobody can be held to account, the score stays. */
  ghost predicate Outcome(open: bool, score: int, checks: Checks, inPlace: bool, faults: nat, accepted: bool,
      score': int) {
    && (accepted <==> open && score >= 20 && checks.secretKnown && checks.signatureOk && inPlace && faults == 0
                      && checks.quorumOk)
    && score' ==
         if !open || score < 20 || !checks.secretKnown then score
         else if !checks.signatureOk then score - 10
         else if !inPlace then score - 8
         else if faults > 0 then score - 7 - faults
         else if !checks.quorumOk then score - 6
         else if score < 100 then score + 1 else 100
  }

  lemma JudgedExactly(open: bool, isolated: bool, score: int, checks: Checks, state: Option<TrustState>,
      seen: set<string>, history: seq<EventPoint>, e: TrustEvent)
    requires 0 <= score <= 100 && (isolated <==> score < 20)
    ensures var verdict := Judge(open, isolated, checks, OrderOk(state, e.kind), |Violations(seen, history, state, e)|);
      Outcome(open, score, checks, InPlace(state, e.kind), Faults(seen, history, e), verdict == Accepted,
              Clamp(score + Change(verdict)))
  {
    if InPlace(state, e.kind) {
      FaultsCounted(seen, history, state, e);
    }
  }

  /** What the detector remembers of issuer x once it analysed the event: the last 64 points. */
  function Remembered(history: seq<EventPoint>, x: string, e: TrustEvent, analysed: bool): seq<EventPoint> {
    if !analysed || x != e.issuer then history
    else
      var longer := history + [EventPoint(e.timestamp, e.kind)];
      if |longer| > 64 then longer[|longer| - 64..] else longer
  }

  class TrustSyncEngine {
    const localNodeId: string
    const registry: ControlPlaneRegistry
    const reputation: TrustReputationEngine
    const detector: MisbehaviorDetector
    const auditLog: AuditLog
    var seenEvents: set<string>
    var isolated: set<string>
    var started: bool
    /** Every (issuer, eventId) handed to the registry, in order, over the engine's whole life. */
    ghost var applied: seq<(string, string)>

    /** What every reachable state satisfies: an issuer is isolated exactly when its score is below the
        threshold, scores stay in range, the audit log verifies, its verified records are the applied
        events in number, and no event was applied twice. */
    ghost predicate Valid()
      reads this, registry, reputation, detector, auditLog
    {
      && Settled()
      && auditLog.Valid() && !FirstClaimsEmpty(auditLog.records)
      && CountVerified(auditLog.records) == |applied|
    }

    /** All of the invariant but the audit log's share. */
    ghost predicate Settled()
      reads this, registry, reputation, detector
    {
      && registry.Valid() && reputation.Valid() && detector.Valid()
      && (forall id :: id in isolated <==> ScoreOf(reputation.nodes, id) < ISOLATION_THRESHOLD)
      && NoDuplicates(applied)
      && forall i :: 0 <= i < |applied| ==> EventKey(applied[i].0, applied[i].1) in detector.seenByIssuer
    }

    constructor (localNodeId: string, registry: ControlPlaneRegistry)
      requires registry.Valid()
      ensures Valid() && this.registry == registry && !started && applied == []
      ensures fresh(reputation) && fresh(detector) && fresh(auditLog)
    {
      this.localNodeId := localNodeId;
      this.registry := registry;
      reputation := new TrustReputationEngine();
      detector := new MisbehaviorDetector();
      auditLog := new AuditLog();
      seenEvents, isolated, started, applied := {}, {}, false, [];
    }

    /** In every reachable state the audit log passes verifyChain. */
    lemma AuditVerifies()
      requires Valid()
      ensures Chained(auditLog.records)
    {
      LinkedVerifies(auditLog.records);
    }

    method Start()
      requires Valid()
      modifies this`started
      ensures Valid() && started
    {
      started := true;
    }

    /** stop forgets the seen ids, but neither the detector's memory nor what was applied. */
    method Stop()
      requires Valid()
      modifies this`started, this`seenEvents
      ensures Valid() && !started && seenEvents == {}
    {
      started := false;
      seenEvents := {};
    }

    method Broadcast(e: SignedEvent) returns (sent: bool)
      requires Valid()
      modifies this`seenEvents
      ensures Valid() && sent == (started && e.event.eventId !in old(seenEvents))
      ensures seenEvents == if sent then old(seenEvents) + {e.event.eventId} else old(seenEvents)
    {
      if !started || e.event.eventId in seenEvents {
        return false;
      }
      seenEvents := seenEvents + {e.event.eventId};
      sent := true;
    }

    method AuditEvent(e: SignedEvent, verified: bool)
      requires auditLog.Valid() && !FirstClaimsEmpty(auditLog.records)
      modifies auditLog
      ensures auditLog.Valid() && !FirstClaimsEmpty(auditLog.records)
      ensures |auditLog.records| == |old(auditLog.records)| + 1
      ensures auditLog.records[..|old(auditLog.records)|] == old(auditLog.records)
      ensures Audits(auditLog.records[|old(auditLog.records)|], e, verified, localNodeId)
      ensures CountVerified(auditLog.records) == CountVerified(old(auditLog.records)) + if verified then 1 else 0
    {
      var ev := e.event;
      var core := Core(ev.eventId, ev.nodeId, ev.timestamp, ev.kind, e.payloadHash, ev.issuer, verified,
                       if e.endorsements == [] then None
                           else Some(e.endorsements), Some(localNodeId), Some(e.payload), Some(e.signature));
      var record := Record(Text(""), Rest(core, None), Text(""), None);
      ghost var before := auditLog.records;
      AppendKeepsLinked(before, record, Some(e.signature));
      auditLog.Append(record, Some(e.signature));
      assert auditLog.records[..|auditLog.records| - 1] == before;
    }

    /** Lower the issuer's score, note the violation, and isolate it when the score is too low. */
    method Punish(issuer: string, amount: nat, now: int)
      requires reputation.Valid() && issuer !in isolated
      requires forall id :: id in isolated <==> ScoreOf(reputation.nodes, id) < ISOLATION_THRESHOLD
      modifies this`isolated, reputation
      ensures reputation.Valid()
      ensures ScoreOf(reputation.nodes, issuer) == Clamp(ScoreOf(old(reputation.nodes), issuer) - amount)
      ensures forall x :: x != issuer ==> ScoreOf(reputation.nodes, x) == ScoreOf(old(reputation.nodes), x)
      ensures forall id :: id in isolated <==> ScoreOf(reputation.nodes, id) < ISOLATION_THRESHOLD
    {
      reputation.Decrease(issuer, amount, now);
      reputation.MarkViolation(issuer, now);
      var rep := reputation.GetReputation(issuer, now);
      if rep.score < ISOLATION_THRESHOLD {
        isolated := isolated + {issuer};
      }
    }

    function Order(e: TrustEvent): bool
      reads this, registry
    {
      OrderOk(StateOf(registry.nodes, e.nodeId), e.kind)
    }

    function ViolationsOf(e: TrustEvent): seq<Violation>
      reads this, registry, detector
    {
      Violations(detector.seenByIssuer, detector.History(e.issuer), StateOf(registry.nodes, e.nodeId), e)
    }

    function Verdict(e: TrustEvent, checks: Checks): Verdict
      reads this, registry, detector
    {
      Judge(started && e.eventId !in seenEvents, e.issuer in isolated, checks, Order(e), |ViolationsOf(e)|)
    }

    /** The checks between the first audit entry and the verdict; the detector remembers what it sees. */
    method Decide(e: TrustEvent, checks: Checks) returns (verdict: Verdict)
      requires detector.Valid() && started && e.eventId !in seenEvents
      modifies detector
      ensures detector.Valid() && verdict == old(Verdict(e, checks))
      ensures detector.seenByIssuer == old(detector.seenByIssuer) + if Analysed(verdict)
          then {EventKey(e.issuer, e.eventId)} else {}
      ensures forall x :: detector.History(x) == Remembered(old(detector.History(x)), x, e, Analysed(verdict))
      ensures verdict == Accepted ==> EventKey(e.issuer, e.eventId) !in old(detector.seenByIssuer)
    {
      if e.issuer in isolated {
        return FromIsolated;
      }
      if !checks.secretKnown {
        return UnknownIssuer;
      }
      if !checks.signatureOk {
        return BadSignature;
      }
      var auth := StateOf(registry.nodes, e.nodeId);
      if !OrderOk(auth, e.kind) {
        return OutOfOrder;
      }
      var violations := detector.Analyze(e, auth);
      if |violations| > 0 {
        return Misbehaving(|violations|);
      }
      verdict := if checks.quorumOk then Accepted else NoQuorum;
    }

    /** receive: the verdict decides everything. An ignored event leaves no trace; any other is audited
        twice, first as unverified, then with the outcome. */
    method Receive(e: SignedEvent, checks: Checks, now: int, randomSecret: string) returns (verdict: Verdict)
      requires Valid() && SecretOk(randomSecret)
      modifies this`seenEvents, this`isolated, this`applied, registry, reputation, detector, auditLog
      ensures Valid() && verdict == old(Verdict(e.event, checks))
      ensures applied == if verdict == Accepted then old(applied) + [(e.event.issuer, e.event.eventId)]
          else old(applied)
      ensures seenEvents == if verdict == Accepted then old(seenEvents) + {e.event.eventId} else old(seenEvents)
      ensures ScoreOf(reputation.nodes, e.event.issuer) ==
          Clamp(ScoreOf(old(reputation.nodes), e.event.issuer) + Change(verdict))
      ensures forall x :: x != e.event.issuer ==> ScoreOf(reputation.nodes, x) == ScoreOf(old(reputation.nodes), x)
      ensures TrustMoved(old(registry.nodes), old(registry.lastTrustEventTs), registry.nodes, registry.lastTrustEventTs,
                         e.event, verdict == Accepted)
      ensures verdict == Ignored ==> auditLog.records == old(auditLog.records)
      ensures verdict != Ignored ==>
                AuditedTwice(old(auditLog.records), auditLog.records, e, verdict == Accepted, localNodeId)
      ensures EventKey(e.event.issuer, e.event.eventId) in old(detector.seenByIssuer) ==> verdict != Accepted
      ensures Analysed(verdict) ==> EventKey(e.event.issuer, e.event.eventId) in detector.seenByIssuer
      ensures forall x :: detector.History(x) == Remembered(old(detector.History(x)), x, e.event, Analysed(verdict))
      ensures RevokedKept(old(registry.nodes), registry.nodes)
      ensures Outcome(old(started && e.event.eventId !in seenEvents), old(ScoreOf(reputation.nodes, e.event.issuer)),
                      checks, InPlace(old(StateOf(registry.nodes, e.event.nodeId)), e.event.kind),
                      old(Faults(detector.seenByIssuer, detector.History(e.event.issuer), e.event)),
                      |applied| > |old(applied)|, ScoreOf(reputation.nodes, e.event.issuer))
    {
      JudgedExactly(started && e.event.eventId !in seenEvents, e.event.issuer in isolated,
                    ScoreOf(reputation.nodes, e.event.issuer), checks, StateOf(registry.nodes, e.event.nodeId),
                    detector.seenByIssuer, detector.History(e.event.issuer), e.event);
      ScoreInRange(reputation.nodes, e.event.issuer);
      if !started || e.event.eventId in seenEvents {
        return Ignored;
      }
      verdict := Process(e, checks, now, randomSecret);
      MovedKeepsRevoked(old(registry.nodes), old(registry.lastTrustEventTs), registry.nodes, registry.lastTrustEventTs,
                        e.event, verdict == Accepted);
    }

    /** receive on an event that is not ignored. */
    method Process(e: SignedEvent, checks: Checks, now: int, randomSecret: string) returns (verdict: Verdict)
      requires Valid() && SecretOk(randomSecret) && started && e.event.eventId !in seenEvents
      modifies this`seenEvents, this`isolated, this`applied, registry, reputation, detector, auditLog
      ensures Valid() && verdict == old(Verdict(e.event, checks)) && verdict != Ignored
      ensures applied == if verdict == Accepted then old(applied) + [(e.event.issuer, e.event.eventId)]
          else old(applied)
      ensures seenEvents == if verdict == Accepted then old(seenEvents) + {e.event.eventId} else old(seenEvents)
      ensures ScoreOf(reputation.nodes, e.event.issuer) ==
          Clamp(ScoreOf(old(reputation.nodes), e.event.issuer) + Change(verdict))
      ensures forall x :: x != e.event.issuer ==> ScoreOf(reputation.nodes, x) == ScoreOf(old(reputation.nodes), x)
      ensures TrustMoved(old(registry.nodes), old(registry.lastTrustEventTs), registry.nodes, registry.lastTrustEventTs,
                         e.event, verdict == Accepted)
      ensures AuditedTwice(old(auditLog.records), auditLog.records, e, verdict == Accepted, localNodeId)
      ensures detector.seenByIssuer == old(detector.seenByIssuer) + if Analysed(verdict)
          then {EventKey(e.event.issuer, e.event.eventId)} else {}
      ensures forall x :: detector.History(x) == Remembered(old(detector.History(x)), x, e.event, Analysed(verdict))
      ensures verdict == Accepted ==> EventKey(e.event.issuer, e.event.eventId) !in old(detector.seenByIssuer)
    {
      AuditEvent(e, false);
      ghost var once := auditLog.records;
      verdict := DecideAndSettle(e.event, checks, now, randomSecret);
      AuditEvent(e, verdict == Accepted);
      TwiceAudited(old(auditLog.records), once, auditLog.records, e, verdict == Accepted, localNodeId);
    }

    /** receive between its two audit rows: the verdict and what it does. */
    method DecideAndSettle(e: TrustEvent, checks: Checks, now: int, randomSecret: string) returns (verdict: Verdict)
      requires Settled() && SecretOk(randomSecret) && started && e.eventId !in seenEvents
      modifies this`seenEvents, this`isolated, this`applied, registry, reputation, detector
      ensures Settled() && verdict == old(Verdict(e, checks)) && verdict != Ignored
      ensures applied == if verdict == Accepted then old(applied) + [(e.issuer, e.eventId)] else old(applied)
      ensures seenEvents == if verdict == Accepted then old(seenEvents) + {e.eventId} else old(seenEvents)
      ensures ScoreOf(reputation.nodes, e.issuer) == Clamp(ScoreOf(old(reputation.nodes), e.issuer) + Change(verdict))
      ensures forall x :: x != e.issuer ==> ScoreOf(reputation.nodes, x) == ScoreOf(old(reputation.nodes), x)
      ensures TrustMoved(old(registry.nodes), old(registry.lastTrustEventTs), registry.nodes, registry.lastTrustEventTs,
                         e, verdict == Accepted)
      ensures detector.seenByIssuer == old(detector.seenByIssuer) + if Analysed(verdict)
          then {EventKey(e.issuer, e.eventId)} else {}
      ensures forall x :: detector.History(x) == Remembered(old(detector.History(x)), x, e, Analysed(verdict))
      ensures verdict == Accepted ==> EventKey(e.issuer, e.eventId) !in old(detector.seenByIssuer)
    {
      verdict := Decide(e, checks);
      AppliedStaysApart(applied, old(detector.seenByIssuer), e.issuer, e.eventId);
      Settle(e, verdict, now, randomSecret);
    }

    /** What the verdict does to registry, reputation and isolation. */
    method Settle(e: TrustEvent, verdict: Verdict, now: int, randomSecret: string)
      requires registry.Valid() && reputation.Valid() && SecretOk(randomSecret)
      requires forall id :: id in isolated <==> ScoreOf(reputation.nodes, id) < ISOLATION_THRESHOLD
      requires Change(verdict) != 0 ==> e.issuer !in isolated
      modifies this`seenEvents, this`isolated, this`applied, registry, reputation
      ensures registry.Valid() && reputation.Valid()
      ensures forall id :: id in isolated <==> ScoreOf(reputation.nodes, id) < ISOLATION_THRESHOLD
      ensures applied == if verdict == Accepted then old(applied) + [(e.issuer, e.eventId)] else old(applied)
      ensures seenEvents == if verdict == Accepted then old(seenEvents) + {e.eventId} else old(seenEvents)
      ensures ScoreOf(reputation.nodes, e.issuer) == Clamp(ScoreOf(old(reputation.nodes), e.issuer) + Change(verdict))
      ensures forall x :: x != e.issuer ==> ScoreOf(reputation.nodes, x) == ScoreOf(old(reputation.nodes), x)
      ensures TrustMoved(old(registry.nodes), old(registry.lastTrustEventTs), registry.nodes, registry.lastTrustEventTs,
                         e, verdict == Accepted)
    {
      ScoreInRange(reputation.nodes, e.issuer);
      match verdict {
        case BadSignature => Punish(e.issuer, 10, now);
        case OutOfOrder => Punish(e.issuer, 8, now);
        case Misbehaving(count) => Punish(e.issuer, 7 + count, now);
        case NoQuorum => Punish(e.issuer, 6, now);
        case Accepted =>
          seenEvents := seenEvents + {e.eventId};
          registry.ApplyTrustEvent(e, randomSecret);
          applied := applied + [(e.issuer, e.eventId)];
          reputation.Increase(e.issuer, 1, now);
        case _ =>
      }
    }

    /** emitLocal: the event is sent exactly when it is new and was NOT accepted, because accepting it
        marks it as seen before broadcast looks. */
    method EmitLocal(e: SignedEvent, checks: Checks, now: int, randomSecret: string)
      returns (verdict: Verdict, sent: bool)
      requires Valid() && SecretOk(randomSecret) && e.event.issuer == localNodeId
      modifies this`seenEvents, this`isolated, this`applied, registry, reputation, detector, auditLog
      ensures Valid() && verdict == old(Verdict(e.event, checks))
      ensures sent <==> verdict != Ignored && verdict != Accepted
    {
      verdict := Receive(e, checks, now, randomSecret);
      sent := Broadcast(e);
    }
  }

  /** State and event clock of every node: an accepted event makes the step of its node, all else stays. */
  ghost predicate TrustMoved(nodes: map<string, Entry>, lastTs: map<string, int>,
                             nodes': map<string, Entry>, lastTs': map<string, int>, e: TrustEvent, accepted: bool) {
    forall x :: NodeOf(nodes', lastTs', x) ==
      if accepted && x == e.nodeId then TrustStep(NodeOf(nodes, lastTs, x), e) else NodeOf(nodes, lastTs, x)
  }

  lemma MovedKeepsRevoked(nodes: map<string, Entry>, lastTs: map<string, int>,
                          nodes': map<string, Entry>, lastTs': map<string, int>, e: TrustEvent, accepted: bool)
    requires TrustMoved(nodes, lastTs, nodes', lastTs', e, accepted)
    ensures RevokedKept(nodes, nodes')
  {
    forall x | StateOf(nodes, x) == Some(Revoked)
      ensures StateOf(nodes', x) == Some(Revoked)
    {
      assert NodeOf(nodes', lastTs', x).state == StateOf(nodes', x);
    }
  }

  /** No revoked node leaves that state. */
  ghost predicate RevokedKept(before: map<string, Entry>, after: map<string, Entry>) {
    forall x :: StateOf(before, x) == Some(Revoked) ==> StateOf(after, x) == Some(Revoked)
  }

  ghost predicate AuditedTwice(before: seq<Record>, after: seq<Record>, e: SignedEvent, accepted: bool,
      writer: string) {
    && |after| == |before| + 2 && after[..|before|] == before
    && Audits(after[|before|], e, false, writer) && Audits(after[|before| + 1], e, accepted, writer)
  }

  lemma TwiceAudited(before: seq<Record>, once: seq<Record>, after: seq<Record>, e: SignedEvent, accepted: bool,
      writer: string)
    requires |once| == |before| + 1 && once[..|before|] == before && Audits(once[|before|], e, false, writer)
    requires |after| == |once| + 1 && after[..|once|] == once && Audits(after[|once|], e, accepted, writer)
    ensures AuditedTwice(before, after, e, accepted, writer)
  {
    assert after[..|before|] == once[..|before|];
    assert after[|before|] == once[|before|];
  }

  lemma ScoreInRange(nodes: map<string, NodeReputation>, id: string)
    requires forall x :: x in nodes ==> 0 <= nodes[x].score <= 100
    ensures Clamp(ScoreOf(nodes, id)) == ScoreOf(nodes, id)
  {
  }

  lemma AppliedStaysApart(applied: seq<(string, string)>, seen: set<string>, issuer: string, eventId: string)
    requires NoDuplicates(applied)
    requires forall i :: 0 <= i < |applied| ==> EventKey(applied[i].0, applied[i].1) in seen
    ensures EventKey(issuer, eventId) !in seen ==> NoDuplicates(applied + [(issuer, eventId)])
  {
  }

  /** Inside the engine the detector's two rotation checks never fire: the order check before it already
      excludes both. */
  lemma RotationChecksDead(seen: set<string>, history: seq<EventPoint>, auth: Option<TrustState>, e: TrustEvent)
    requires OrderOk(auth, e.kind)
    ensures CompletedWithoutStart !in Violations(seen, history, auth, e)
    ensures StartInInvalidState !in Violations(seen, history, auth, e)
  {
  }

  // ----- the key of an event -----

  /** The memory key identifies issuer and event where issuer names hold no separator. */
  lemma EventKeyInjective(issuer: string, eventId: string, issuer': string, eventId': string)
    requires ':' !in issuer && ':' !in issuer'
    requires EventKey(issuer, eventId) == EventKey(issuer', eventId')
    ensures issuer == issuer' && eventId == eventId'
  {
    var k, k' := EventKey(issuer, eventId), EventKey(issuer', eventId');
    assert k[|issuer|] == ':' && k'[|issuer'|] == ':';
    assert forall i :: 0 <= i < |issuer| ==> k[i] == issuer[i] && issuer[i] in issuer;
    assert forall i :: 0 <= i < |issuer'| ==> k'[i] == issuer'[i] && issuer'[i] in issuer';
    assert |issuer| == |issuer'|;
    assert k[..|issuer|] == issuer && k'[..|issuer'|] == issuer';
    assert k[|issuer| + 1..] == eventId && k'[|issuer'| + 1..] == eventId';
  }

  /** With the separator inside an issuer name two different events share a key, so the second is taken
      for a replay. */
  lemma EventKeyCollides(a: string, b: string, c: string)
    ensures EventKey(a, b + ":" + c) == EventKey(a + ":" + b, c)
    ensures (a, b + ":" + c) != (a + ":" + b, c)
  {
    assert a + ":" + (b + ":" + c) == (a + ":" + b) + ":" + c;
    assert |a + ":" + b| > |a|;
  }
}
