/** The replica synchronisation protocol (iris-sim/src/control_plane/distributed_sync.ts): announce a
    root, request a proof, respond, append the proven row. Signatures, peer trust, federation policy and
    freshness are one boolean, `admitted`, per received message. */
module DistributedSync {
  import opened Results
  import opened Merkle
  import opened AuditLogs

  type NodeId = string

  datatype RootAnnouncement = RootAnnouncement(nodeId: NodeId, merkleRoot: Hash, timestamp: int)

  datatype ProofRequest = ProofRequest(requesterNodeId: NodeId, targetNodeId: NodeId, recordIndex: int,
      expectedRoot: Hash)

  datatype ProofResponse = ProofResponse(responderNodeId: NodeId, proof: MerkleProof, record: Record)

  datatype SyncState = SyncState(lastKnownRoot: Hash, lastSyncTimestamp: int, divergenceDetected: bool)

  /** What a node holds: its log, what it knows of its peers, and the one outstanding request. */
  datatype Replica = Replica(
    nodeId: NodeId,
    records: seq<Record>,
    states: map<NodeId, SyncState>,
    pending: Option<ProofRequest>,
    divergenceCount: nat)

  // ----- the steps as functions -----

  function LogRoot(records: seq<Record>): Hash {
    TreeRoot(Hashes(records))
  }

  function ReceiveRootSpec(s: Replica, a: RootAnnouncement, admitted: bool): Replica {
    if !admitted || a.nodeId == s.nodeId then s
    else
      var diverged := LogRoot(s.records) != a.merkleRoot;
      s.(divergenceCount := if diverged then s.divergenceCount + 1 else s.divergenceCount,
         states := s.states[a.nodeId := SyncState(a.merkleRoot, a.timestamp, diverged)])
  }

  /** The request carries the root last heard from the target, or the own root when none was heard. */
  function RequestFor(s: Replica, target: NodeId, index: int): ProofRequest {
    ProofRequest(s.nodeId, target, index,
                 if target in s.states then s.states[target].lastKnownRoot else LogRoot(s.records))
  }

  function RequestProofSpec(s: Replica, target: NodeId, index: int): Replica {
    s.(pending := Some(RequestFor(s, target, index)))
  }

  function CreateProofResponseSpec(s: Replica, request: ProofRequest, admitted: bool): Option<ProofResponse> {
    if request.targetNodeId != s.nodeId || !admitted || request.expectedRoot != LogRoot(s.records)
       || !(0 <= request.recordIndex < |s.records|) then None
    else
      var i := request.recordIndex;
      Some(ProofResponse(s.nodeId,
                         MerkleProof(s.records[i].recordHash, Steps(Hashes(s.records), i), LogRoot(s.records)),
                         s.records[i]))
  }

  /** The checks on an admitted response to the pending request, before the log is consulted. */
  predicate ProofAccepted(pending: ProofRequest, response: ProofResponse) {
    && Fold(response.proof.leafHash, response.proof.steps) == response.proof.root
    && response.proof.leafHash == response.record.recordHash
    && response.proof.root == pending.expectedRoot
  }

  /** Only a proven row for the position right after the local tip can be appended. */
  function ReceiveResponseSpec(s: Replica, response: ProofResponse, admitted: bool): Replica {
    if s.pending.None? || response.responderNodeId != s.pending.value.targetNodeId then s
    else
      var done := s.(pending := None);
      if !admitted || !ProofAccepted(s.pending.value, response) || s.pending.value.recordIndex != |s.records| then done
      else
        match AppendReplicaSpec(s.records, response.record)
        case Ok(records) => done.(records := records)
        case Err(_) => done
  }

  // ----- what the steps change, in the parts of the messages -----

  /** An admitted announcement of another node is noted, with whether its root differs from the root of the log,
      and every difference is counted; any other announcement changes nothing. */
  ghost predicate RootTaken(was: Replica, now: Replica, a: RootAnnouncement, admitted: bool) {
    if !admitted || a.nodeId == was.nodeId then now == was
    else
      && now.nodeId == was.nodeId && now.records == was.records && now.pending == was.pending
      && now.states.Keys == was.states.Keys + {a.nodeId}
      && (forall p :: p in was.states && p != a.nodeId ==> now.states[p] == was.states[p])
      && now.states[a.nodeId].lastKnownRoot == a.merkleRoot && now.states[a.nodeId].lastSyncTimestamp == a.timestamp
      && (now.states[a.nodeId].divergenceDetected <==> TreeRoot(Hashes(was.records)) != a.merkleRoot)
      && now.divergenceCount ==
          was.divergenceCount + (if TreeRoot(Hashes(was.records)) != a.merkleRoot then 1 else 0)
  }

  /** The request names its ends, the row, and the root last heard from the target, or else the own one. */
  ghost predicate Asked(was: Replica, now: Replica, target: NodeId, index: int, request: ProofRequest) {
    && request.requesterNodeId == was.nodeId && request.targetNodeId == target && request.recordIndex == index
    && (target in was.states ==> request.expectedRoot == was.states[target].lastKnownRoot)
    && (target !in was.states ==> request.expectedRoot == TreeRoot(Hashes(was.records)))
    && now == was.(pending := Some(request))
  }

  /** An admitted request to this node for an existing row, against the root the log has now, is answered with
      that row and a path that leads from its hash to the root; any other request is not answered. */
  ghost predicate Answered(s: Replica, request: ProofRequest, admitted: bool, r: Option<ProofResponse>) {
    var root := TreeRoot(Hashes(s.records));
    && (r.Some? <==> && admitted && request.targetNodeId == s.nodeId && request.expectedRoot == root
                     && 0 <= request.recordIndex < |s.records|)
    && (r.Some? ==>
          && r.value.responderNodeId == s.nodeId && r.value.record == s.records[request.recordIndex]
          && r.value.proof.leafHash == r.value.record.recordHash && r.value.proof.root == root
          && Leads(r.value.record.recordHash, r.value.proof.steps, root))
  }

  /** The message is the admitted answer to the open request: from the node that was asked, with a path that leads
      from the row's own hash to the expected root, for the position behind the log, with a row that fits there. */
  ghost predicate Expected(s: Replica, response: ProofResponse, admitted: bool) {
    && admitted && s.pending.Some? && response.responderNodeId == s.pending.value.targetNodeId
    && response.proof.leafHash == response.record.recordHash && response.proof.root == s.pending.value.expectedRoot
    && Leads(response.record.recordHash, response.proof.steps, s.pending.value.expectedRoot)
    && s.pending.value.recordIndex == |s.records| && FitsBehind(s.records, response.record)
  }

  /** Exactly the expected message adds its row and nothing else; every message of the node that was asked closes
      the request, any other changes nothing. */
  ghost predicate ResponseTaken(was: Replica, now: Replica, response: ProofResponse, admitted: bool) {
    && now.records == was.records + (if Expected(was, response, admitted) then [response.record] else [])
    && (now.pending.None? <==>
          was.pending.None? || response.responderNodeId == was.pending.value.targetNodeId)
    && (now.pending.Some? ==> now.pending == was.pending)
    && now.nodeId == was.nodeId && now.states == was.states && now.divergenceCount == was.divergenceCount
  }

  lemma ResponseExactly(s: Replica, response: ProofResponse, admitted: bool)
    ensures ResponseTaken(s, ReceiveResponseSpec(s, response, admitted), response, admitted)
  {
    ReplicaFits(s.records, response.record);
    if s.pending.Some? {
      FoldLeads(response.proof.leafHash, response.proof.steps, response.proof.root);
    }
    assert s.records + [] == s.records;
  }

  lemma AnswerExactly(s: Replica, request: ProofRequest, admitted: bool)
    ensures Answered(s, request, admitted, CreateProofResponseSpec(s, request, admitted))
  {
    if 0 <= request.recordIndex < |s.records| {
      ProofComplete(Hashes(s.records), request.recordIndex);
      FoldLeads(Hashes(s.records)[request.recordIndex], Steps(Hashes(s.records), request.recordIndex),
                LogRoot(s.records));
    }
  }

  class DistributedSyncManager {
    const nodeId: NodeId
    const log: AuditLog
    var states: map<NodeId, SyncState>
    var pending: Option<ProofRequest>
    var divergenceCount: nat

    ghost predicate Valid()
      reads this, log
    {
      log.Valid()
    }

    ghost function View(): Replica
      reads this, log
    {
      Replica(nodeId, log.records, states, pending, divergenceCount)
    }

    constructor (nodeId: NodeId, log: AuditLog)
      requires log.Valid()
      ensures Valid() && this.log == log && View() == Replica(nodeId, log.records, map[], None, 0)
    {
      this.nodeId, this.log := nodeId, log;
      states, pending, divergenceCount := map[], None, 0;
    }

    method AnnounceRoot(timestamp: int) returns (a: RootAnnouncement)
      ensures a == RootAnnouncement(nodeId, LogRoot(log.records), timestamp)
    {
      var root := log.GetMerkleRoot();
      a := RootAnnouncement(nodeId, root, timestamp);
    }

    method ReceiveRoot(a: RootAnnouncement, admitted: bool)
      modifies this
      ensures View() == ReceiveRootSpec(old(View()), a, admitted)
      ensures RootTaken(old(View()), View(), a, admitted)
    {
      if !admitted || a.nodeId == nodeId {
        return;
      }
      var localRoot := log.GetMerkleRoot();
      var diverged := localRoot != a.merkleRoot;
      if diverged {
        divergenceCount := divergenceCount + 1;
      }
      states := states[a.nodeId := SyncState(a.merkleRoot, a.timestamp, diverged)];
    }

    method DetectDivergence(remote: RootAnnouncement) returns (diverged: bool)
      ensures diverged <==> LogRoot(log.records) != remote.merkleRoot
    {
      var localRoot := log.GetMerkleRoot();
      diverged := localRoot != remote.merkleRoot;
    }

    method RequestProof(target: NodeId, index: int) returns (request: ProofRequest)
      modifies this
      ensures request == RequestFor(old(View()), target, index)
      ensures View() == RequestProofSpec(old(View()), target, index)
      ensures Asked(old(View()), View(), target, index, request)
    {
      var expectedRoot;
      if target in states {
        expectedRoot := states[target].lastKnownRoot;
      } else {
        expectedRoot := log.GetMerkleRoot();
      }
      request := ProofRequest(nodeId, target, index, expectedRoot);
      pending := Some(request);
    }

    method CreateProofResponse(request: ProofRequest, admitted: bool) returns (r: Option<ProofResponse>)
      ensures r == CreateProofResponseSpec(View(), request, admitted)
      ensures Answered(View(), request, admitted, r)
    {
      AnswerExactly(View(), request, admitted);
      if request.targetNodeId != nodeId || !admitted {
        return None;
      }
      var localRoot := log.GetMerkleRoot();
      if request.expectedRoot != localRoot {
        return None;
      }
      var idx := request.recordIndex;
      if idx < 0 || idx >= |log.records| {
        return None;
      }
      var proof := log.GetProofForRecord(idx);
      if proof.value.root != localRoot {
        return None;
      }
      r := Some(ProofResponse(nodeId, proof.value, log.records[idx]));
    }

    method ReceiveProofResponse(response: ProofResponse, admitted: bool)
      requires Valid()
      modifies this, log
      ensures Valid() && View() == ReceiveResponseSpec(old(View()), response, admitted)
      ensures ResponseTaken(old(View()), View(), response, admitted)
    {
      ResponseExactly(View(), response, admitted);
      if pending.None? || response.responderNodeId != pending.value.targetNodeId {
        return;
      }
      var request := pending.value;
      pending := None;
      if !admitted {
        return;
      }
      var verified := VerifyMerkleProof(response.proof);
      if !verified || response.proof.leafHash != response.record.recordHash
          || response.proof.root != request.expectedRoot {
        return;
      }
      var idx := request.recordIndex;
      if idx < |log.records| {
        // Already present, or a conflict: the log stays as it is.
        return;
      }
      if idx > |log.records| {
        return;
      }
      var appended := log.AppendReplica(response.record);
    }
  }

  // ----- one accepted row -----

  /** local agrees with an initial part of remote on every hashed field. */
  ghost predicate IsPrefix(local: seq<Record>, remote: seq<Record>) {
    |local| <= |remote| && forall i :: 0 <= i < |local| ==>
        local[i].rest == remote[i].rest && local[i].recordHash == remote[i].recordHash
  }

  lemma LinkedPrefix(records: seq<Record>, n: nat)
    requires Linked(records) && n <= |records|
    ensures Linked(records[..n])
  {
    forall i | 0 <= i < n
      ensures LinkedAt(records[..n], i)
    {
      assert LinkedAt(records, i);
    }
  }

  /** The Merkle path only proves membership somewhere in the announced chain; the chain link then pins the
      position. So whoever responds, a row is accepted only where the whole local log is an initial part of
      the responder's, and is the next row there. */
  lemma ProvenRowIsNext(local: seq<Record>, remote: seq<Record>, k: nat, request: ProofRequest, response: ProofResponse)
    requires Linked(local) && Linked(remote) && k <= |remote|
    requires request.expectedRoot == LogRoot(remote[..k])
    requires ProofAccepted(request, response) && AppendReplicaSpec(local, response.record).Ok?
    ensures IsPrefix(local, remote) && |local| < |remote| && response.record.rest == remote[|local|].rest
    ensures IsPrefix(local + [response.record], remote)
  {
    var j := ProvenRowIsMember(remote, k, request, response);
    LinkPinsPosition(local, remote, j, response.record);
  }

  lemma ProvenRowIsMember(remote: seq<Record>, k: nat, request: ProofRequest, response: ProofResponse) returns (j: nat)
    requires Linked(remote) && k <= |remote| && request.expectedRoot == LogRoot(remote[..k])
    requires ProofAccepted(request, response) && HashOk(response.record)
    ensures j < |remote| && response.record.rest == remote[j].rest && response.record.recordHash == remote[j].recordHash
  {
    var known := remote[..k];
    LinkedPrefix(remote, k);
    LinkedDistinct(known);
    ProofSound(Hashes(known), response.proof);
    j :| 0 <= j < k && Hashes(known)[j] == response.record.recordHash;
    assert known[j] == remote[j] && LinkedAt(remote, j);
  }

  /** Rows of two chains with one hash stand at the same position and have the same past. */
  lemma {:induction false} SameHashSamePast(a: seq<Record>, i: nat, b: seq<Record>, j: nat)
    requires Linked(a) && Linked(b) && i < |a| && j < |b| && a[i].recordHash == b[j].recordHash
    ensures i == j && IsPrefix(a[..i + 1], b)
  {
    assert (i > 0 ==> LinkedAt(a, i - 1)) && (j > 0 ==> LinkedAt(b, j - 1));
    assert LinkedAt(a, i) && LinkedAt(b, j);
    if i > 0 && j > 0 {
      SameHashSamePast(a, i - 1, b, j - 1);
      assert forall k :: 0 <= k < i ==> a[..i + 1][k] == a[..i][k];
    }
  }

  /** A row of a remote chain that links to the local tip stands right after the whole local log there. */
  lemma LinkPinsPosition(local: seq<Record>, remote: seq<Record>, j: nat, record: Record)
    requires Linked(local) && Linked(remote) && j < |remote|
    requires record.rest == remote[j].rest && AppendReplicaSpec(local, record).Ok?
    ensures j == |local| && IsPrefix(local, remote)
  {
    assert LinkedAt(remote, j);
    assert j > 0 ==> LinkedAt(remote, j - 1);
    if |local| > 0 {
      assert LinkedAt(local, |local| - 1);
      SameHashSamePast(local, |local| - 1, remote, j - 1);
      assert local[..|local|] == local;
    }
  }

  // ----- every run among any number of peers -----

  /** A replica that starts empty, among peers with logs of their own, over an untrusted network:
      announcements of a peer are authentic but may be old, announcements of other nodes and all responses are
      arbitrary. The peers' logs grow by any operation a log has, so the peers may be replicas of others. */
  datatype System = System(peers: map<NodeId, seq<Record>>, replica: Replica)

  datatype SyncStep =
    | PeerLogs(peer: NodeId, step: LogStep)
    | PeerRootArrives(peer: NodeId, length: nat, timestamp: int, admitted: bool)
    | OtherRootArrives(announcement: RootAnnouncement, admitted: bool)
    | Request(target: NodeId, index: int)
    | ResponseArrives(response: ProofResponse, admitted: bool)

  /** A delayed announcement still shows a root the peer once had. Proofs are requested from peers, and from
      nodes of which no announcement was admitted. */
  predicate StepOk(sys: System, step: SyncStep) {
    match step
    case PeerLogs(peer, _) => peer in sys.peers
    case PeerRootArrives(peer, length, _, _) => peer in sys.peers && length <= |sys.peers[peer]|
    case OtherRootArrives(announcement, _) => announcement.nodeId !in sys.peers
    case Request(target, _) => target in sys.peers || target !in sys.replica.states
    case ResponseArrives(_, _) => true
  }

  function SysStep(sys: System, step: SyncStep): System
    requires StepOk(sys, step)
  {
    match step
    case PeerLogs(peer, logged) => sys.(peers := sys.peers[peer := LogAfter(sys.peers[peer], logged)])
    case PeerRootArrives(peer, length, timestamp, admitted) =>
      var announcement := RootAnnouncement(peer, LogRoot(sys.peers[peer][..length]), timestamp);
      sys.(replica := ReceiveRootSpec(sys.replica, announcement, admitted))
    case OtherRootArrives(announcement, admitted) =>
      sys.(replica := ReceiveRootSpec(sys.replica, announcement, admitted))
    case Request(target, index) => sys.(replica := RequestProofSpec(sys.replica, target, index))
    case ResponseArrives(response, admitted) => sys.(replica := ReceiveResponseSpec(sys.replica, response, admitted))
  }

  /** A root the log had at some length. */
  ghost predicate PastRoot(log: seq<Record>, root: Hash) {
    exists k :: 0 <= k <= |log| && root == LogRoot(log[..k])
  }

  ghost predicate PeersLinked(peers: map<NodeId, seq<Record>>) {
    forall p :: p in peers ==> Linked(peers[p])
  }

  /** What is known of a peer is a root of its log. */
  ghost predicate KnowsPeer(sys: System, p: NodeId)
    requires p in sys.peers
  {
    p in sys.replica.states ==> PastRoot(sys.peers[p], sys.replica.states[p].lastKnownRoot)
  }

  /** A request expects a root of the peer it goes to, or the local one. */
  ghost predicate RequestOk(sys: System, request: ProofRequest) {
    || request.expectedRoot == LogRoot(sys.replica.records)
    || (request.targetNodeId in sys.peers && PastRoot(sys.peers[request.targetNodeId], request.expectedRoot))
  }

  /** The log is empty or an initial part of the log of some peer. */
  ghost predicate FollowsSome(records: seq<Record>, peers: map<NodeId, seq<Record>>) {
    records == [] || exists p :: p in peers && IsPrefix(records, peers[p])
  }

  ghost predicate SyncInvariant(sys: System) {
    && PeersLinked(sys.peers) && Linked(sys.replica.records)
    && FollowsSome(sys.replica.records, sys.peers)
    && (forall p :: p in sys.peers ==> KnowsPeer(sys, p))
    && (sys.replica.pending.Some? ==> RequestOk(sys, sys.replica.pending.value))
  }

  lemma PastRootGrows(log: seq<Record>, log': seq<Record>, root: Hash)
    requires PastRoot(log, root) && log <= log'
    ensures PastRoot(log', root)
  {
    var k :| 0 <= k <= |log| && root == LogRoot(log[..k]);
    assert log'[..k] == log[..k];
  }

  lemma PeerGrows(sys: System, peer: NodeId, logged: LogStep)
    requires SyncInvariant(sys) && peer in sys.peers
    ensures SyncInvariant(SysStep(sys, PeerLogs(peer, logged)))
  {
    var sys' := SysStep(sys, PeerLogs(peer, logged));
    LogAfterLinked(sys.peers[peer], logged);
    forall p | p in sys'.peers
      ensures KnowsPeer(sys', p)
    {
      assert KnowsPeer(sys, p);
      if p in sys.replica.states {
        PastRootGrows(sys.peers[p], sys'.peers[p], sys.replica.states[p].lastKnownRoot);
      }
    }
    if sys.replica.records != [] {
      var p :| p in sys.peers && IsPrefix(sys.replica.records, sys.peers[p]);
      assert IsPrefix(sys.replica.records, sys'.peers[p]);
    }
    if sys.replica.pending.Some? {
      var request := sys.replica.pending.value;
      if request.expectedRoot != LogRoot(sys.replica.records) {
        PastRootGrows(sys.peers[request.targetNodeId], sys'.peers[request.targetNodeId], request.expectedRoot);
      }
    }
  }

  /** Every step of the system keeps the replica a prefix of a peer. */
  lemma StepKeepsInvariant(sys: System, step: SyncStep)
    requires SyncInvariant(sys) && StepOk(sys, step)
    ensures SyncInvariant(SysStep(sys, step))
  {
    var sys' := SysStep(sys, step);
    match step
    case PeerLogs(peer, logged) => PeerGrows(sys, peer, logged);
    case PeerRootArrives(peer, length, timestamp, admitted) =>
      assert PastRoot(sys.peers[peer], LogRoot(sys.peers[peer][..length]));
      forall p | p in sys'.peers
        ensures KnowsPeer(sys', p)
      {
        assert KnowsPeer(sys, p);
      }
    case OtherRootArrives(announcement, admitted) =>
      forall p | p in sys'.peers
        ensures KnowsPeer(sys', p)
      {
        assert KnowsPeer(sys, p);
      }
    case Request(target, index) =>
      assert target in sys.peers ==> KnowsPeer(sys, target);
      assert forall p :: p in sys'.peers ==> (KnowsPeer(sys', p) <==> KnowsPeer(sys, p));
    case ResponseArrives(response, admitted) =>
      ResponseFollows(sys, response, admitted);
      assert forall p :: p in sys'.peers ==> (KnowsPeer(sys', p) <==> KnowsPeer(sys, p));
  }

  /** A response changes the log only by the next row of the peer that was asked, and only while the whole
      log is an initial part of that peer's. */
  lemma ResponseFollows(sys: System, response: ProofResponse, admitted: bool)
    requires SyncInvariant(sys)
    ensures var was, now := sys.replica.records, ReceiveResponseSpec(sys.replica, response, admitted).records;
      && Linked(now)
      && (now != was ==>
            var p := response.responderNodeId;
            p in sys.peers && |now| == |was| + 1 && IsPrefix(was, sys.peers[p]) && IsPrefix(now, sys.peers[p]))
  {
    var s := sys.replica;
    if ReceiveResponseSpec(s, response, admitted).records != s.records {
      var request := s.pending.value;
      AppendReplicaKeepsLinked(s.records, response.record);
      OwnRootAppendsNothing(s.records, request, response);
      var k :| 0 <= k <= |sys.peers[request.targetNodeId]|
                  && request.expectedRoot == LogRoot(sys.peers[request.targetNodeId][..k]);
      ProvenRowIsNext(s.records, sys.peers[request.targetNodeId], k, request, response);
    }
  }

  /** Against the local root, which a node never heard of is asked for, no row can be appended. */
  lemma OwnRootAppendsNothing(records: seq<Record>, request: ProofRequest, response: ProofResponse)
    requires Linked(records) && ProofAccepted(request, response) && AppendReplicaSpec(records, response.record).Ok?
    ensures request.expectedRoot != LogRoot(records)
  {
    if request.expectedRoot == LogRoot(records) {
      assert records[..|records|] == records;
      ProvenRowIsNext(records, records, |records|, request, response);
    }
  }

  predicate StepsOk(sys: System, steps: seq<SyncStep>)
    decreases |steps|
  {
    |steps| > 0 ==> StepOk(sys, steps[0]) && StepsOk(SysStep(sys, steps[0]), steps[1..])
  }

  function SysRun(sys: System, steps: seq<SyncStep>): System
    requires StepsOk(sys, steps)
    decreases |steps|
  {
    if |steps| == 0 then sys else SysRun(SysStep(sys, steps[0]), steps[1..])
  }

  lemma {:induction false} RunKeepsInvariant(sys: System, steps: seq<SyncStep>)
    requires SyncInvariant(sys) && StepsOk(sys, steps)
    ensures SyncInvariant(SysRun(sys, steps)) && SysRun(sys, steps).peers.Keys == sys.peers.Keys
    decreases |steps|
  {
    if |steps| > 0 {
      StepKeepsInvariant(sys, steps[0]);
      RunKeepsInvariant(SysStep(sys, steps[0]), steps[1..]);
    }
  }

  function Start(peers: map<NodeId, seq<Record>>, localId: NodeId): System {
    System(peers, Replica(localId, [], map[], None, 0))
  }

  /** An initial part of the log, on every hashed field, which verifies exactly when the log does. */
  ghost predicate Follows(records: seq<Record>, log: seq<Record>) {
    && IsPrefix(records, log)
    && Hashes(records) <= Hashes(log)
    && (Chained(records) <==> Chained(log))
  }

  lemma PrefixFollows(records: seq<Record>, log: seq<Record>)
    requires Linked(records) && Linked(log) && IsPrefix(records, log) && records != []
    ensures Follows(records, log)
  {
    LinkedVerifies(records);
    LinkedVerifies(log);
    forall i | 0 <= i < |records|
      ensures Hashes(records)[i] == Hashes(log)[i]
    {
    }
  }

  /** Replica safety: from an empty log and no knowledge, whatever the network delivers, the replica's log is
      empty or an initial part of the log of a peer, and then verifies exactly when that log does. */
  lemma ReplicaSafety(peers: map<NodeId, seq<Record>>, localId: NodeId, steps: seq<SyncStep>)
    requires PeersLinked(peers) && StepsOk(Start(peers, localId), steps)
    ensures var sys := SysRun(Start(peers, localId), steps);
      && sys.peers.Keys == peers.Keys
      && (sys.replica.records == [] || exists p :: p in sys.peers && Follows(sys.replica.records, sys.peers[p]))
  {
    var start := Start(peers, localId);
    RunKeepsInvariant(start, steps);
    var sys := SysRun(start, steps);
    if sys.replica.records != [] {
      var p :| p in sys.peers && IsPrefix(sys.replica.records, sys.peers[p]);
      PrefixFollows(sys.replica.records, sys.peers[p]);
    }
  }

  // ----- catching up -----

  /** One honest exchange for the row after the local tip. */
  function Round(peer: Replica, local: Replica): Replica {
    var asked := RequestProofSpec(local, peer.nodeId, |local.records|);
    match CreateProofResponseSpec(peer, asked.pending.value, true)
    case Some(response) => ReceiveResponseSpec(asked, response, true)
    case None => asked
  }

  function Rounds(peer: Replica, local: Replica, n: nat): Replica
    decreases n
  {
    if n == 0 then local else Rounds(peer, Round(peer, local), n - 1)
  }

  lemma RoundGains(peer: Replica, local: Replica)
    requires Linked(peer.records) && IsPrefix(local.records, peer.records) && |local.records| < |peer.records|
    requires peer.nodeId in local.states && local.states[peer.nodeId].lastKnownRoot == LogRoot(peer.records)
    ensures Round(peer, local).records == local.records + [peer.records[|local.records|]]
    ensures Round(peer, local).states == local.states
    ensures IsPrefix(Round(peer, local).records, peer.records)
  {
    HonestAnswer(peer, local);
    NextRowAccepted(local.records, peer.records);
  }

  /** The peer answers with its next row, and the answer is accepted. */
  lemma HonestAnswer(peer: Replica, local: Replica)
    requires |local.records| < |peer.records|
    requires peer.nodeId in local.states && local.states[peer.nodeId].lastKnownRoot == LogRoot(peer.records)
    ensures var request := RequestFor(local, peer.nodeId, |local.records|);
      var response := CreateProofResponseSpec(peer, request, true);
      && response.Some? && response.value.responderNodeId == peer.nodeId
      && response.value.record == peer.records[|local.records|]
      && ProofAccepted(request, response.value)
  {
    ProofComplete(Hashes(peer.records), |local.records|);
  }

  lemma NextRowAccepted(local: seq<Record>, remote: seq<Record>)
    requires Linked(remote) && IsPrefix(local, remote) && |local| < |remote|
    ensures AppendReplicaSpec(local, remote[|local|]) == Ok(local + [remote[|local|]])
  {
    assert LinkedAt(remote, |local|);
  }

  /** Catch-up: knowing the peer's current root, exactly as many honest rounds as rows are missing make
      the logs agree; then the roots agree and no divergence is detected. */
  lemma {:induction false} CatchUp(peer: Replica, local: Replica)
    requires Linked(peer.records) && IsPrefix(local.records, peer.records)
    requires peer.nodeId in local.states && local.states[peer.nodeId].lastKnownRoot == LogRoot(peer.records)
    ensures var done := Rounds(peer, local, |peer.records| - |local.records|);
      && Hashes(done.records) == Hashes(peer.records)
      && LogRoot(done.records) == LogRoot(peer.records)
    decreases |peer.records| - |local.records|
  {
    if |local.records| < |peer.records| {
      RoundGains(peer, local);
      CatchUp(peer, Round(peer, local));
    } else {
      WholePrefix(local.records, peer.records);
    }
  }

  lemma WholePrefix(local: seq<Record>, remote: seq<Record>)
    requires IsPrefix(local, remote) && |local| == |remote|
    ensures Hashes(local) == Hashes(remote)
  {
  }

  /** detectDivergence is exact: two logs built by the append operations have equal roots exactly when
      they agree on every hashed field of every row. */
  lemma DivergenceExact(a: seq<Record>, b: seq<Record>)
    requires Linked(a) && Linked(b)
    ensures LogRoot(a) != LogRoot(b) <==> !(IsPrefix(a, b) && IsPrefix(b, a))
  {
    RootsDecide(a, b);
    if |a| == |b| {
      forall i | 0 <= i < |a|
        ensures a[i].rest == b[i].rest ==> a[i].recordHash == b[i].recordHash
      {
        assert LinkedAt(a, i) && LinkedAt(b, i);
      }
    }
  }
}
