/** The hash-chained audit log (iris-sim/src/control_plane/audit_log.ts, audit_hash.ts), kept in memory. */
module AuditLogs {
  import opened Results
  import opened Merkle

  datatype Record = Record(recordId: Hash, rest: Rest, recordHash: Hash, signature: Option<string>)

  datatype AuditError = ChainMismatch | InvalidRecordHash

  // ----- chaining -----

  /** A falsy optional string is left out of the chained record. */
  function DropEmpty(s: Option<string>): Option<string> {
    if s == Some("") then None else s
  }

  /** chainAuditRecord: the fields of next, linked to prev when prev has a hash. */
  function ChainRecord(prev: Option<Record>, next: Record): Record {
    var core := next.rest.core.(
      signerNodeId := DropEmpty(next.rest.core.signerNodeId),
      eventSignature := DropEmpty(next.rest.core.eventSignature));
    var link := if prev.Some? && prev.value.recordHash != Text("") then Some(prev.value.recordHash) else None;
    var rest := Rest(core, link);
    Record(RecordDigest(rest), rest, RecordDigest(rest), None)
  }

  predicate HashOk(record: Record) {
    record.recordHash == RecordDigest(record.rest)
  }

  function Last(records: seq<Record>): Option<Record> {
    if |records| == 0 then None else Some(records[|records| - 1])
  }

  /** The link verifyChain demands of record i. */
  function ExpectedLink(records: seq<Record>, i: nat): Option<Hash>
    requires i < |records|
  {
    if i == 0 then None else Some(records[i - 1].recordHash)
  }

  predicate ChainedAt(records: seq<Record>, i: int)
    requires 0 <= i < |records|
  {
    HashOk(records[i]) && records[i].rest.previousRecordHash == ExpectedLink(records, i)
  }

  /** What verifyChain accepts. */
  ghost predicate Chained(records: seq<Record>) {
    forall i :: 0 <= i < |records| ==> ChainedAt(records, i)
  }

  predicate LinkedAt(records: seq<Record>, i: int)
    requires 0 <= i < |records|
  {
    && HashOk(records[i])
    && (records[i].rest.previousRecordHash == ExpectedLink(records, i)
        || (i == 0 && records[0].rest.previousRecordHash == Some(Text(""))))
  }

  /** What append and appendReplica maintain: the first record may also claim the empty string. */
  ghost predicate Linked(records: seq<Record>) {
    forall i :: 0 <= i < |records| ==> LinkedAt(records, i)
  }

  predicate FirstClaimsEmpty(records: seq<Record>) {
    |records| > 0 && records[0].rest.previousRecordHash == Some(Text(""))
  }

  function Hashes(records: seq<Record>): (hashes: seq<Hash>)
    ensures |hashes| == |records| && forall i :: 0 <= i < |records| ==> hashes[i] == records[i].recordHash
  {
    seq(|records|, i requires 0 <= i < |records| => records[i].recordHash)
  }

  /** The stored row is the given record, linked to the log: the fields are kept, but an empty signer or event
      signature counts as absent, and the hash covers all of them and the link. */
  ghost predicate Stored(records: seq<Record>, given: Record, signature: Option<string>, row: Record) {
    var core, kept := given.rest.core, row.rest.core;
    && kept.eventId == core.eventId && kept.nodeId == core.nodeId && kept.timestamp == core.timestamp
    && kept.eventType == core.eventType && kept.payloadHash == core.payloadHash && kept.issuer == core.issuer
    && kept.verified == core.verified && kept.endorsements == core.endorsements
    && kept.eventPayload == core.eventPayload
    && kept.signerNodeId == (if core.signerNodeId == Some("") then None else core.signerNodeId)
    && kept.eventSignature == (if core.eventSignature == Some("") then None else core.eventSignature)
    && row.rest.previousRecordHash == (if records == [] then None else Some(records[|records| - 1].recordHash))
    && row.recordHash == RecordDigest(row.rest) && row.recordId == row.recordHash && row.signature == signature
  }

  lemma AppendStores(records: seq<Record>, given: Record, signature: Option<string>)
    requires Linked(records)
    ensures var after := AppendSpec(records, given, signature);
      |after| == |records| + 1 && after[..|records|] == records && Stored(records, given, signature, after[|records|])
  {
    if |records| > 0 {
      assert LinkedAt(records, |records| - 1);
    }
  }

  /** The row belongs behind the log: it names the hash of the last row, or nothing or the empty string where there
      is none, and carries its own hash. */
  ghost predicate FitsBehind(records: seq<Record>, row: Record) {
    && row.recordHash == RecordDigest(row.rest)
    && if records == [] then row.rest.previousRecordHash in [None, Some(Text(""))]
       else row.rest.previousRecordHash == Some(records[|records| - 1].recordHash)
  }

  lemma ReplicaFits(records: seq<Record>, row: Record)
    ensures FitsBehind(records, row) ==> AppendReplicaSpec(records, row) == Ok(records + [row])
    ensures AppendReplicaSpec(records, row).Ok? <==> FitsBehind(records, row)
  {
  }

  // ----- operations on the record list -----

  function AppendSpec(records: seq<Record>, record: Record, signature: Option<string>): seq<Record> {
    records + [ChainRecord(Last(records), record).(signature := signature)]
  }

  /** appendReplica: the row must link to the tip and carry its own hash. */
  function AppendReplicaSpec(records: seq<Record>, record: Record): Result<seq<Record>, AuditError> {
    var link := record.rest.previousRecordHash;
    if |records| > 0 && link != Some(records[|records| - 1].recordHash) then Err(ChainMismatch)
    else if |records| == 0 && link != None && link != Some(Text("")) then Err(ChainMismatch)
    else if !HashOk(record) then Err(InvalidRecordHash)
    else Ok(records + [record])
  }

  /** A list grown by one row is linked when the new row is. */
  lemma GrownIsLinked(records: seq<Record>, record: Record)
    requires Linked(records) && LinkedAt(records + [record], |records|)
    ensures Linked(records + [record])
  {
    var after := records + [record];
    forall i | 0 <= i < |after|
      ensures LinkedAt(after, i)
    {
      if i < |records| {
        assert LinkedAt(records, i);
        assert ExpectedLink(after, i) == ExpectedLink(records, i);
      }
    }
  }

  lemma AppendKeepsLinked(records: seq<Record>, record: Record, signature: Option<string>)
    requires Linked(records)
    ensures Linked(AppendSpec(records, record, signature))
    ensures FirstClaimsEmpty(AppendSpec(records, record, signature)) <==> FirstClaimsEmpty(records)
  {
    var row := ChainRecord(Last(records), record).(signature := signature);
    if |records| > 0 {
      assert LinkedAt(records, |records| - 1);
    }
    assert LinkedAt(records + [row], |records|);
    GrownIsLinked(records, row);
  }

  lemma AppendReplicaKeepsLinked(records: seq<Record>, record: Record)
    requires Linked(records) && AppendReplicaSpec(records, record).Ok?
    ensures Linked(records + [record])
    ensures FirstClaimsEmpty(records + [record]) <==>
              FirstClaimsEmpty(records) || (records == [] && record.rest.previousRecordHash == Some(Text("")))
  {
    assert LinkedAt(records + [record], |records|);
    GrownIsLinked(records, record);
  }

  /** A log built by the two append operations verifies exactly when it did not begin with a replica
      row that claimed the empty string as previous hash. */
  lemma LinkedVerifies(records: seq<Record>)
    requires Linked(records)
    ensures Chained(records) <==> !FirstClaimsEmpty(records)
  {
    forall i | 0 <= i < |records|
      ensures ChainedAt(records, i) <==> !(i == 0 && FirstClaimsEmpty(records))
    {
      assert LinkedAt(records, i);
    }
    if FirstClaimsEmpty(records) {
      assert !ChainedAt(records, 0);
    }
  }

  // ----- whole histories of a log -----

  datatype LogStep = AppendStep(record: Record, signature: Option<string>) | ReplicaStep(record: Record)

  /** One operation on the log; a refused row leaves it as it was. */
  function LogAfter(records: seq<Record>, step: LogStep): seq<Record> {
    match step
    case AppendStep(record, signature) => AppendSpec(records, record, signature)
    case ReplicaStep(record) =>
      match AppendReplicaSpec(records, record)
      case Ok(after) => after
      case Err(_) => records
  }

  function LogRun(steps: seq<LogStep>): seq<Record> {
    if |steps| == 0 then [] else LogAfter(LogRun(steps[..|steps| - 1]), steps[|steps| - 1])
  }

  lemma LogAfterLinked(records: seq<Record>, step: LogStep)
    requires Linked(records)
    ensures Linked(LogAfter(records, step)) && records <= LogAfter(records, step)
  {
    match step
    case AppendStep(record, signature) => AppendKeepsLinked(records, record, signature);
    case ReplicaStep(record) =>
      if AppendReplicaSpec(records, record).Ok? {
        AppendReplicaKeepsLinked(records, record);
      }
  }

  /** Every log that any run of append and appendReplica can reach is linked, its record hashes are
      pairwise distinct, and it verifies unless its first row was such a replica. */
  lemma {:induction false} EveryRunIsLinked(steps: seq<LogStep>)
    ensures Linked(LogRun(steps))
    ensures NoRepeats(Hashes(LogRun(steps)))
    ensures Chained(LogRun(steps)) <==> !FirstClaimsEmpty(LogRun(steps))
  {
    if |steps| > 0 {
      EveryRunIsLinked(steps[..|steps| - 1]);
      LogAfterLinked(LogRun(steps[..|steps| - 1]), steps[|steps| - 1]);
    }
    LinkedDistinct(LogRun(steps));
    LinkedVerifies(LogRun(steps));
  }

  /** Runs without replica rows always verify. */
  lemma {:induction false} AppendOnlyVerifies(steps: seq<LogStep>)
    requires forall i :: 0 <= i < |steps| ==> steps[i].AppendStep?
    ensures Chained(LogRun(steps)) && |LogRun(steps)| == |steps|
  {
    EveryRunIsLinked(steps);
    AppendOnlyStart(steps);
  }

  lemma {:induction false} AppendOnlyStart(steps: seq<LogStep>)
    requires forall i :: 0 <= i < |steps| ==> steps[i].AppendStep?
    ensures !FirstClaimsEmpty(LogRun(steps)) && |LogRun(steps)| == |steps|
  {
    if |steps| > 0 {
      var last := steps[|steps| - 1];
      AppendOnlyStart(steps[..|steps| - 1]);
      EveryRunIsLinked(steps[..|steps| - 1]);
      AppendKeepsLinked(LogRun(steps[..|steps| - 1]), last.record, last.signature);
    }
  }

  /** The exception can be reached: the row is accepted and the log does not verify. */
  lemma EmptyClaimBreaksVerification(core: Core)
    ensures var rest := Rest(core, Some(Text("")));
      var row := Record(Text(""), rest, RecordDigest(rest), None);
      AppendReplicaSpec([], row) == Ok([row]) && !Chained([row])
  {
    var rest := Rest(core, Some(Text("")));
    var row := Record(Text(""), rest, RecordDigest(rest), None);
    assert [] + [row] == [row];
    assert !ChainedAt([row], 0);
  }

  // ----- distinctness and what the root determines -----

  lemma {:induction false} HashesDiffer(records: seq<Record>, i: nat, j: nat)
    requires Linked(records) && i < j < |records|
    ensures records[i].recordHash != records[j].recordHash
  {
    assert LinkedAt(records, i) && LinkedAt(records, j) && LinkedAt(records, j - 1);
    if i > 0 {
      HashesDiffer(records, i - 1, j - 1);
    }
  }

  /** No two rows of a chain share a hash: equal hashes would have equal predecessors, down to the
      first row, which has none. */
  lemma LinkedDistinct(records: seq<Record>)
    requires Linked(records)
    ensures NoRepeats(Hashes(records)) && RecordDigests(Hashes(records))
  {
    forall i, j | 0 <= i < j < |records|
      ensures Hashes(records)[i] != Hashes(records)[j]
    {
      HashesDiffer(records, i, j);
    }
    forall i | 0 <= i < |records|
      ensures Hashes(records)[i].RecordDigest?
    {
      assert LinkedAt(records, i);
    }
  }

  /** The Merkle roots of two logs agree exactly when the logs agree on every hashed field. */
  lemma RootsDecide(a: seq<Record>, b: seq<Record>)
    requires Linked(a) && Linked(b)
    ensures TreeRoot(Hashes(a)) == TreeRoot(Hashes(b)) <==> Hashes(a) == Hashes(b)
    ensures Hashes(a) == Hashes(b) <==> |a| == |b| && forall i :: 0 <= i < |a| ==> a[i].rest == b[i].rest
  {
    LinkedDistinct(a);
    LinkedDistinct(b);
    TreeRootInjective(Hashes(a), Hashes(b));
    if |a| == |b| {
      forall i | 0 <= i < |a|
        ensures Hashes(a)[i] == Hashes(b)[i] <==> a[i].rest == b[i].rest
      {
        assert LinkedAt(a, i) && LinkedAt(b, i);
      }
    }
  }

  /** The row carries the hash of its own fields and names the hash of the row before it, the first none. */
  ghost predicate RowVerifies(records: seq<Record>, i: int)
    requires 0 <= i < |records|
  {
    && records[i].recordHash == RecordDigest(records[i].rest)
    && (i == 0 ==> records[i].rest.previousRecordHash == None)
    && (i > 0 ==> records[i].rest.previousRecordHash == Some(records[i - 1].recordHash))
  }

  lemma ChainedExactly(records: seq<Record>)
    ensures Chained(records) <==> forall i :: 0 <= i < |records| ==> RowVerifies(records, i)
  {
    assert forall i :: 0 <= i < |records| ==> (ChainedAt(records, i) <==> RowVerifies(records, i));
  }

  /** The last hash of a chain that verifies fixes the whole chain: no row before it can differ in a hashed field. */
  lemma {:induction false} TipDecides(a: seq<Record>, b: seq<Record>)
    requires Chained(a) && Chained(b) && |a| > 0 && |b| > 0
    requires a[|a| - 1].recordHash == b[|b| - 1].recordHash
    ensures |a| == |b|
    ensures forall i :: 0 <= i < |a| ==> a[i].rest == b[i].rest && a[i].recordHash == b[i].recordHash
    decreases |a|
  {
    var m, n := |a| - 1, |b| - 1;
    assert ChainedAt(a, m) && ChainedAt(b, n);
    if m > 0 && n > 0 {
      ChainedInit(a);
      ChainedInit(b);
      TipDecides(a[..m], b[..n]);
      assert forall i :: 0 <= i < m ==> a[..m][i] == a[i] && b[..m][i] == b[i];
    }
  }

  lemma ChainedInit(records: seq<Record>)
    requires Chained(records) && |records| > 0
    ensures Chained(records[..|records| - 1])
  {
    var init := records[..|records| - 1];
    forall i | 0 <= i < |init|
      ensures ChainedAt(init, i)
    {
      assert ChainedAt(records, i);
    }
  }

  class AuditLog {
    var records: seq<Record>

    ghost predicate Valid()
      reads this
    {
      Linked(records)
    }

    constructor ()
      ensures Valid() && records == []
    {
      records := [];
    }

    /** append; the signature, when one is configured, is made after chaining and is not hashed. */
    method Append(record: Record, signature: Option<string>)
      requires Valid()
      modifies this
      ensures Valid() && records == AppendSpec(old(records), record, signature)
      ensures |records| == |old(records)| + 1 && records[..|old(records)|] == old(records)
      ensures Stored(old(records), record, signature, records[|old(records)|])
    {
      AppendKeepsLinked(records, record, signature);
      AppendStores(records, record, signature);
      var prev := if |records| > 0 then Some(records[|records| - 1]) else None;
      var chained := ChainRecord(prev, record);
      chained := chained.(signature := signature);
      records := records + [chained];
    }

    method AppendReplica(record: Record) returns (r: Result<(), AuditError>)
      requires Valid()
      modifies this
      ensures Valid()
      ensures match AppendReplicaSpec(old(records), record)
              case Ok(after) => r == Ok(()) && records == after
              case Err(e) => r == Err(e) && records == old(records)
    {
      if |records| > 0 {
        if record.rest.previousRecordHash != Some(records[|records| - 1].recordHash) {
          return Err(ChainMismatch);
        }
      } else if record.rest.previousRecordHash != None && record.rest.previousRecordHash != Some(Text("")) {
        return Err(ChainMismatch);
      }
      if !HashOk(record) {
        return Err(InvalidRecordHash);
      }
      AppendReplicaKeepsLinked(records, record);
      records := records + [record];
      r := Ok(());
    }

    /** verifyChain without deep signature checks. */
    method VerifyChain() returns (ok: bool)
      ensures ok <==> Chained(records)
      ensures ok <==> forall i :: 0 <= i < |records| ==> RowVerifies(records, i)
    {
      ChainedExactly(records);
      var prev: Option<Record> := None;
      for i := 0 to |records|
        invariant prev == if i == 0 then None else Some(records[i - 1])
        invariant forall k :: 0 <= k < i ==> ChainedAt(records, k)
      {
        var rec := records[i];
        var expected := if prev.Some? then Some(prev.value.recordHash) else None;
        assert ChainedAt(records, i) <==> HashOk(rec) && expected == rec.rest.previousRecordHash;
        if !HashOk(rec) {
          return false;
        }
        if expected != rec.rest.previousRecordHash {
          return false;
        }
        prev := Some(rec);
      }
      ok := true;
    }

    method GetMerkleRoot() returns (root: Hash)
      ensures root == TreeRoot(Hashes(records))
    {
      var tree := BuildMerkleTree(Hashes(records));
      root := tree.hash;
    }

    method GetProofForRecord(index: int) returns (r: Result<MerkleProof, MerkleError>)
      ensures !(0 <= index < |records|) ==> r == Err(MerkleBadIndex)
      ensures 0 <= index < |records| ==>
                r == Ok(MerkleProof(records[index].recordHash, Steps(Hashes(records), index),
                    TreeRoot(Hashes(records))))
    {
      if index < 0 || index >= |records| {
        return Err(MerkleBadIndex);
      }
      r := GenerateMerkleProof(Hashes(records), index);
    }
  }
}
