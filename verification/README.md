# IRIS distributed core: a verified model

This project models the deterministic core of IRIS in Dafny 4.11 and proves what the code relies on.
`dafny verify dfyconfig.toml` checks all of it.

| part | files | subject |
|---|---|---|
| serialisation | `Json`, `JsonTheory`, `JsonReader`, `CanonicalKeys`, `TextLayouts` | the canonical printer every identifier and hash is taken from, an independent reader of its texts, the key canonicaliser |
| event DAG | `EventModel`, `Digraph`, `DepthFirst`, `EventDag`, `EventGraph`, `GraphSearch`, `Kahn`, `MergeGraphs`, `MergeLaws`, `EventLaws`, `StateRecord`, `StateEngine`, `StateLaws`, `PrototypeWrites`, `Convergence` | the causal graph, its merge, its evaluation, convergence of replicas |
| audit chain and sync | `SigningJson`, `Merkle`, `AuditLog`, `DistributedSync` | the printer of hashed records, Merkle proofs, the hash chain, the replication protocol among any number of peers as a transition system |
| event rows | `DistributedEvents`, `CausalGraph`, `ShownRows`, `Traceability`, `RowOrder`, `Deduplication`, `ConflictSets`, `PayloadMerge`, `EventSets`, `MergeWinners`, `MergeEventSets`, `MergeLimits`, `GrownSets`, `MergeOrder`, `MergeCycle`, `ExampleRows`, `LamportClock` | conflict sets, the row merge operator, where it is associative and where its output is ordered, logical clocks |
| simulation runtime | `Scheduler`, `Runtime` | heap scheduler, clock, trace, snapshots |
| trust and stability | `TrustRegistry`, `TrustSync`, `RateLimiter` | trust state machine, admission pipeline, rate limiting |

How things are represented:

- An identifier is the number its digest denotes (`Ids.Id`). Digests have one width, so comparing them as
  strings compares them as numbers.
- SHA-256 is a parameter `digest` from texts to identifiers where texts are modelled (events, rows), and
  a symbolic constructor where only structure matters (audit records, Merkle nodes). Lemmas that need it
  assume `CollisionFree(digest)`, and only those.
- Rows may carry payloads that print like others. What merging promises is then told of the rows as their
  texts show them (`ShownRows`), which for all other rows is the rows themselves.
- Objects that the source updates in place are classes (`EventGraph`, `AuditLog`,
  `DistributedSyncManager`, `UnionFind`, `DeterministicScheduler`, `ExecutionTrace`,
  `DeterministicRuntime`, `ControlPlaneRegistry`, `TrustReputationEngine`, `MisbehaviorDetector`,
  `TrustSyncEngine`, `AdaptiveRateLimiter`, `AdaptiveController`). A JavaScript `Map`, `Set` or array
  field is a `map`, `set` or `seq` field.
- Loops of the source are methods with loop invariants, specified by functions or predicates on values;
  the laws are lemmas about those. Lemmas named `...Exactly` tell what such a function means in the parts of its
  arguments, without naming it or its helpers again.

## Findings

- `stableStringify` prints `[undefined]` like `[]` and a non-finite number like `null`. Finite numbers being
  the tokens they print as, these are the only losses: two values print alike if and only if they are equal
  up to key order and undefined properties after both replacements (`StringifyKernel`, `LossyCollides`).
  Event validation refuses such values; row validation admits them, so rows whose payloads are `{x: NaN}`
  and `{x: null}` share text and derived id (`NonFiniteCollides`, `RowTextDecides`).
- `canonicalizeKeysDeep` copies by assignment, so it loses an own property named `__proto__` at any level. It
  leaves the printed text unchanged if and only if there is no such defined property
  (`CanonicalKeys.StringifyOfCanon`, `ProtoIsLost`).
- `freezeStateRecord` copies the same way, so an operation `set __proto__ = v` never writes that key, whatever
  admissible value v is (`ProtoWriteIsLost`). Where v is an object or an array it becomes the prototype of the
  copy, and the copy of a state that holds one of its keys throws, if that key comes after `__proto__` in text
  order: `set z = 1` followed by `set __proto__ = {"z":2}` makes evaluation fail on every replica
  (`ProtoWriteTrips`). Evaluation succeeds if and only if all events are state operations and no such set has
  such a key set last in its past; the result is then last-writer-wins on every other key (`EvaluateGraph`), and
  on all keys if and only if the last writer on `__proto__` is a delete or there is none (`LwwExactly`).
- In `addEvent` the checks for duplicate and for unsorted parents never fire, because the canonical-text
  check before them already decides both; the rollback branch never runs either (`AdmitExactly`,
  `NewEventHasNoChildren`).
- `validateDominanceOrdering` cannot fail on the order it is given; strict and fast evaluation agree.
- `appendReplica` accepts a first record whose previous hash is the empty string, and `verifyChain` then
  rejects the log; this is the only way the two append operations build a log that does not verify
  (`EmptyClaimBreaksVerification`, `EveryRunIsLinked`).
- `verifyMerkleProof` accepts inner nodes as leaves; a verifying proof names a leaf exactly when its leaf
  is a record digest (`ProofSound`, `InnerNodeVerifies`). Position is pinned by the chain link, not by
  the proof, and so is the whole past: whoever responds, a row is accepted only where the local log is an
  initial part of the responder's (`LinkPinsPosition`, `ProvenRowIsNext`). A proof request to a node never heard
  of carries the local root, and no response to it can append (`OwnRootAppendsNothing`).
- Audit records are hashed through a second printer, which prints undefined as the string "undefined" and
  non-finite numbers as null: payloads that are equal after both replacements, up to key order, and no others
  share their part of a record hash (`SigningKernel`, `SigningCollides`).
- `docs/distributed/causality_model.md` (lines 69, 131, 142) claims that `mergeEventSets` is associative.
  It is not (`AssociativityFails`). `MergeAssociativeExactly` gives the exact condition on the two inputs AB
  and C: each component that AB leaves unresolved, and whose row C lacks, is an unresolved component of
  AB + C with no row of C behind the rows of AB on its winner's node, and no further unresolved component
  of AB + C is won on such a node.
- `src/distributed/merge_algebra.ts` (lines 4-8) calls the merge output a canonical linear extension under
  `compareEventsCausally`. A merge row carries the winner's clock but follows the last row of the winner's
  node, so the comparator can run in a circle, on four clock-consistent rows (`ComparatorCycle`). The output
  is a linear extension if and only if the input, with the rows its merge derives, has no row a below a row
  b of earlier time and no row c apart from both timed between them (`MergeOutputExactly`,
  `MergeEventSets`). The stronger clock condition survives if and only if every unresolved conflict is won
  by a row with the latest clock of its node (`MergeKeepsClockExactly`).
- `validateEventTraceability` checks parent and lineage edges only; a list that passes can still have a
  cycle through the same-node chain of `buildCausalGraph` (`TraceableYetCyclic`), namely if and only if some
  row happens before an earlier row of its own node (`TraceableCycleExactly`). A set of rows, cyclic or not, has
  a listing that is safe to replay if and only if no two of its rows happen before each other, and merging does
  not change whether it has one (`ReplayableExactly`, `MergeReplayableExactly`).
- `applyTrustEvent` drops events older than the node's event clock, revocations included: a node is revoked
  exactly by the revocations that were not late when they arrived (`RevokedExactly`).
- `emitLocal` sends an event exactly when `receive` did not accept it (`EmitLocal`). The detector's two
  rotation checks never fire inside the engine (`RotationChecksDead`). An event that reached the detector
  once, for instance one rejected for lack of quorum, is never accepted later (`Receive`). The detector's
  memory key confuses issuers whose names contain the separator (`EventKeyCollides`).
- `ExecutionTrace.import` trusts the imported hash; `computeHash` is right afterwards exactly when that
  hash was (`Import`, `ComputeHash`).
- The delta cap of the rate limiter is off next to zero, so from the initial value 0 a single decision is
  unbounded (`NearZeroUncapped`).

## Model

| member | source | states |
|---|---|---|
| Json.StableStringify | src/logging/stableAudit.ts:7-25 | the recursive printer with its loops computes the text function all identifiers are taken from |
| JsonReader.PrintedReads | src/logging/stableAudit.ts:7-25 | a reader written after the grammar of RFC 8259 reads every printed text as the value it shows, and accepts it as standard JSON iff no array item in it is undefined |
| Json.StrLessExactly | src/logging/stableAudit.ts:15 | keys are sorted with a proper prefix first, otherwise by the first difference |
| CanonicalKeys.CanonicalizeKeysDeep | src/logging/audit.ts:186-201 | the copying loops compute the canonical form: keys sorted, undefined and `__proto__` properties gone |
| CanonicalKeys.CanonFixpoint | src/logging/audit.ts:186-201 | exactly the values with sorted keys and neither undefined nor `__proto__` properties are left alone |
| CanonicalKeys.CanonIdempotent | src/logging/audit.ts:186-201 | canonicalising keys twice is canonicalising once |
| CanonicalKeys.ProtoIsLost | src/logging/audit.ts:195-199 | an object with an own `__proto__` has the canonical form of the empty object |
| CanonicalKeys.CanonicalTextInjective | src/logging/stableAudit.ts:7-25 | canonical lossless values are determined by their text |
| CanonicalKeys.StringifyOfCanon | src/logging/audit.ts:186-201 | canonicalising leaves the printed text unchanged iff no defined property is named `__proto__` |
| JsonTheory.StringifyDecodes | src/logging/stableAudit.ts:7-25 | a printed canonical value followed by any terminator can be read back in one way only |
| CanonicalKeys.EquivIffCanon | src/logging/audit.ts:186-201 | two values have one canonical form iff they are equal, `__proto__` properties aside, up to key order and undefined properties |
| JsonTheory.StringifyKernel | src/logging/stableAudit.ts:7-25 | two values print alike iff they are equal up to key order and undefined properties once `[undefined]` is read as `[]` and non-finite numbers as null |
| JsonTheory.LossyCollides | src/logging/stableAudit.ts:9-13 | every value prints like the one its text shows, which is equivalent to it iff the value holds neither exception |
| JsonTheory.RecordsInjective | src/logging/stableAudit.ts:14-23 | objects with the same keys print alike iff every slot shows the same |
| EventModel.TextDecides | src/distributed/event_model.ts:135-142 | two events print alike iff id and all fields agree, the payload up to key order |
| TextLayouts.EventReads | src/distributed/event_model.ts:109-137 | an event's text reads as an object with exactly its named members |
| TextLayouts.ContentIdReads | src/distributed/event_model.ts:139-142 | the content id is the digest of such a text with an empty id |
| EventModel.AdmitExactly | src/distributed/event_model.ts:182-198 | which events pass the checks of addEvent, and that two of the checks are unreachable |
| EventLaws.PayloadOkExactly | src/distributed/event_model.ts:59-100 | a payload is admissible iff nothing in it at any depth is undefined or non-finite and no property has a forbidden name |
| EventLaws.AdmitsExactly | src/distributed/event_model.ts:182-198 | the admitted events in their own parts |
| EventModel.ContentIdInjective | src/distributed/event_model.ts:139-165 | under a collision-free digest the id determines the canonical event |
| EventDag.DepthIsLongestChain | src/distributed/merge_algebra.ts:193-215 | computed depth is the length of the longest parent chain |
| EventDag.DominanceIsKeyOrder | src/distributed/state_engine.ts:220-225 | dominance is the lexicographic order by depth and id |
| EventDag.HistoryStable | src/distributed/merge_algebra.ts:383-391 | depth, happens-before, concurrency and conflict winners of a subgraph are unchanged in any larger graph |
| EventDag.UnionIsDag | src/distributed/merge_algebra.ts:358-376 | the union of two compatible parent-closed acyclic graphs is one again |
| EventDag.CollisionFreeCompatible | src/distributed/merge_algebra.ts:363-369 | graphs with content ids never disagree on a shared id |
| EventGraphs.EventGraph.AddEvent | src/distributed/event_model.ts:182-221 | each outcome of addEvent, and the event set and node table it leaves |
| EventGraphs.EventGraph.Insert | src/distributed/event_model.ts:205-210 | storing an event and linking it below its parents yields the node table of the larger event set |
| EventGraphs.EventGraph.DetectCycle | src/distributed/event_model.ts:223-243 | true iff a cycle of children is reachable from the start |
| EventGraphs.AddKeepsDag | src/distributed/event_model.ts:200-220 | an event with present parents keeps the graph acyclic and closed |
| EventGraphs.NewEventHasNoChildren | src/distributed/event_model.ts:212-220 | no cycle is reachable from an event just added, so the rollback is dead |
| GraphSearch.HappensBefore | src/distributed/event_model.ts:250-266 | the stack search terminates and decides whether a non-empty parent path exists |
| GraphSearch.ComputeDepth | src/distributed/merge_algebra.ts:194-215 | the memoised recursion computes the depth and keeps the memo right |
| GraphSearch.ResolveConflict | src/distributed/merge_algebra.ts:227-233 | the winner by depth, then by larger id |
| EventLaws.WinnerExactly | src/distributed/merge_algebra.ts:227-233 | the event with the longer chain of parents behind it wins, of equal ones that with the greater id |
| GraphSearch.AreConcurrent | src/distributed/merge_algebra.ts:218-221 | neither event happens before the other |
| GraphSearch.Dominates | src/distributed/state_engine.ts:220-225 | the searches of dominates decide the dominance relation |
| GraphSearch.Earlier | src/distributed/state_engine.ts:231-238 | the comparators of the three ready queues decide their orders |
| Kahn.Run | src/distributed/state_engine.ts:255-272 | Kahn's loop lists every event once, after its parents, each the first of all that were ready; with conflict losers first the list is sorted by depth and id |
| Kahn.GreedyUnique | src/distributed/event_model.ts:279-294 | such a list is determined by event set and comparator |
| EventLaws.ListsExactly | src/distributed/merge_algebra.ts:296-346 | each listed event has its parents before it, and of all that have, it is the least id, or the deepest with the greatest id, or the shallowest with the least id, by sort |
| Kahn.NothingLeft | src/distributed/state_engine.ts:269-271 | when the queue is empty nothing is left, so the cycle error is unreachable |
| Kahn.ReadyBelow | src/distributed/state_engine.ts:255-267 | below every unscheduled event stands a ready one that is no greater by depth and id |
| MergeGraphs.SortGraph | src/distributed/state_engine.ts:244-273 | all three topological sorts succeed on valid graphs; the dominance-aware one is the plain sort by depth and id |
| MergeGraphs.InsertionOrder | src/distributed/merge_algebra.ts:296-346 | the insertion order of the merge is a linear extension, deepest ready event first |
| MergeGraphs.Ingest | src/distributed/merge_algebra.ts:360-372 | ingesting a graph yields the union, or the least id used for two events |
| MergeGraphs.Rebuild | src/distributed/merge_algebra.ts:385-390 | re-adding the union in insertion order never fails and yields its node table |
| MergeGraphs.Merge | src/distributed/merge_algebra.ts:383-391 | mergeGraphs is the union of event sets, or the clash error |
| MergeLaws.MergeCommutative | docs/distributed/merge_algebra.md:17 | merging is commutative, errors included |
| MergeLaws.MergeIdempotent | docs/distributed/merge_algebra.md:16 | merging a graph with itself returns it |
| MergeLaws.MergeAssociative | docs/distributed/merge_algebra.md:18 | merging is associative for all graphs: both nestings succeed iff the three are pairwise compatible, with one result |
| MergeLaws.MergeTotal | src/distributed/merge_algebra.ts:383-391 | with content ids every merge of valid graphs succeeds and is valid |
| MergeLaws.SchedulesConverge | docs/distributed/convergence_proof.md:59 | any two merge schedules over the same replicas give the same graph |
| StateRecords.FreezeStateRecord | src/distributed/state_engine.ts:194-202 | the copying loop fails iff the value under `__proto__` becomes the prototype and has a key of the record that comes later, and else returns the record without `__proto__` |
| StateLaws.FreezesExactly | src/distributed/state_engine.ts:194-202 | the same condition in the parts of record and value |
| StateLaws.ReadsExactly | src/distributed/state_engine.ts:103-119 | a raw operation reads as a delete or a set iff its properties say so, the value canonicalised, and else not at all |
| StateLaws.ExtractsExactly | src/distributed/state_engine.ts:131-157 | which operation an event holds, from its type and payload |
| StateEngine.ApplyIsWrite | src/distributed/state_engine.ts:310-328 | a step that does not throw writes its key and nothing else, the shortcut for equal text included; a set on `__proto__` changes nothing, and throws iff the state holds a key its value blocks |
| PrototypeWrites.ProtoWriteIsLost | src/distributed/state_engine.ts:194-202 | for every admissible value, an admissible event whose write on `__proto__` is lost |
| PrototypeWrites.ProtoWriteTrips | src/distributed/state_engine.ts:194-202 | two admissible events on which evaluation fails: a set, then a set of `__proto__` to any value that blocks its key |
| StateEngine.ValidateDominanceOrdering | src/distributed/state_engine.ts:278-299 | the check accepts exactly the listings, complete or not, in which of every listed concurrent pair the winner comes last |
| StateEngine.KeySortedIsConsistent | src/distributed/state_engine.ts:278-299 | the order by depth and id always passes the check |
| StateEngine.EvaluateGraph | src/distributed/state_engine.ts:345-360 | evaluation, strict or fast, succeeds iff all events are state operations and no set on `__proto__` meets a key it blocks in its past; it is then last-writer-wins by depth and id on every other key |
| StateEngine.OutcomeUnique | src/distributed/state_engine.ts:345-360 | the outcome of an event set, state or error, is unique |
| StateLaws.LastDecides | src/distributed/state_engine.ts:310-360 | a key whose deepest event, greatest id among equals, is a delete object is absent; if it is a set object the key holds the canonical value; a key no event names is absent |
| StateEngine.LwwExactly | src/distributed/state_engine.ts:194-202 | the result is last-writer-wins on all keys iff the last writer on `__proto__` is a delete or there is none |
| StateEngine.LwwUnique | src/distributed/state_engine.ts:345-360 | the state an event set evaluates to is unique |
| StateEngine.EvaluationOrderEmbeds | src/distributed/state_engine.ts:244-273 | the evaluation order of a graph is the restriction of that of any graph containing it |
| Convergence.ReplicasConverge | docs/distributed/convergence_proof.md:54-66 | replicas that combined the same graphs by any schedules evaluate to the same state, or fail with the same error |
| Convergence.MergeKeepsHistory | src/distributed/merge_algebra.ts:383-391 | a merge changes no depth, no happens-before, no winner and no relative evaluation order of either side |
| Merkle.BuildMerkleTree | iris-sim/src/control_plane/merkle_tree.ts:8-30 | the built tree's hash is the root with odd levels repeating their last node |
| Merkle.RootStands | iris-sim/src/control_plane/merkle_tree.ts:8-30 | the root tops levels in which each node stands over its two neighbours, left before right, the last over itself twice where it has none |
| Merkle.GenerateMerkleProof | iris-sim/src/control_plane/merkle_proof.ts:5-34 | the generated path, its root and the two errors |
| Merkle.VerifyMerkleProof | iris-sim/src/control_plane/merkle_proof.ts:36-50 | verification accepts exactly the proofs whose folded path is their root |
| Merkle.FoldLeads | iris-sim/src/control_plane/merkle_proof.ts:36-50 | a folded path leads from leaf to root by hashing with each sibling on the side it names |
| Merkle.ProofComplete | iris-sim/src/control_plane/merkle_proof.ts:5-50 | every generated proof folds to the separately built root |
| Merkle.ProofSound | iris-sim/src/control_plane/merkle_proof.ts:36-50 | a verifying proof against that root names a listed leaf iff its leaf is a record digest |
| Merkle.InnerNodeVerifies | iris-sim/src/control_plane/merkle_proof.ts:36-50 | an inner node has a verifying proof |
| Merkle.TreeRootInjective | iris-sim/src/control_plane/merkle_tree.ts:8-30 | on duplicate-free record digests the root determines the list |
| Merkle.RepeatedLeafSameRoot | iris-sim/src/control_plane/merkle_tree.ts:14-16 | repeating an odd last leaf leaves the root unchanged |
| AuditLogs.AuditLog.Append | iris-sim/src/control_plane/audit_log.ts:99-117 | append stores the given fields, linked to the log, hashed and signed, behind the rows that were there |
| AuditLogs.AuditLog.AppendReplica | iris-sim/src/control_plane/audit_log.ts:123-143 | a replica row is stored iff it links to the tip and carries its own hash |
| AuditLogs.AuditLog.VerifyChain | iris-sim/src/control_plane/audit_log.ts:225-240 | on any list it accepts iff every row carries its own hash and names the hash of the row before |
| AuditLogs.TipDecides | iris-sim/src/control_plane/audit_log.ts:225-240 | the last hash of a list that verifies fixes the hashed fields of all its rows |
| AuditLogs.EveryRunIsLinked | iris-sim/src/control_plane/audit_log.ts:99-143 | every log the two operations can build is linked, has distinct hashes, and verifies unless it began with an empty-string claim |
| AuditLogs.AppendOnlyVerifies | iris-sim/src/control_plane/audit_log.ts:99-117 | a log that grew by append alone holds one record per call and verifies |
| AuditLogs.EmptyClaimBreaksVerification | iris-sim/src/control_plane/audit_log.ts:129-131 | that exception can be reached |
| AuditLogs.LinkedDistinct | iris-sim/src/control_plane/audit_hash.ts:10-39 | no two records of a chain share a hash |
| SigningJson.SigningKernel | iris-sim/src/security/stable_json.ts:5-25 | two values share their signing text iff they are equal up to key order once undefined is read as its name and non-finite numbers as null |
| SigningJson.SigningReads | iris-sim/src/security/stable_json.ts:5-25 | every signing text is standard JSON and reads as that value, keys sorted |
| SigningJson.SigningLosses | iris-sim/src/security/stable_json.ts:5-25 | a non-finite number has the text of null, undefined that of the string `undefined`, also inside an object |
| SigningJson.SigningCollides | iris-sim/src/security/stable_json.ts:5-25 | every value shares its text with the one read so, which is equivalent to it iff it holds neither |
| AuditLogs.RootsDecide | iris-sim/src/control_plane/audit_log.ts:199-203 | two logs have one Merkle root iff they agree on every hashed field, payloads as their texts show them |
| DistributedSync.DistributedSyncManager.ReceiveRoot | iris-sim/src/control_plane/distributed_sync.ts:404-472 | exactly admitted announcements of other nodes are noted; the flag is set and the counter raised iff the root differs from that of the log |
| DistributedSync.DistributedSyncManager.RequestProof | iris-sim/src/control_plane/distributed_sync.ts:479-505 | the request expects the last known root of the peer, else the local root, and becomes pending |
| DistributedSync.DistributedSyncManager.CreateProofResponse | iris-sim/src/control_plane/distributed_sync.ts:507-583 | a response is made iff the request is admitted, for this node, for the current root and an existing row, and holds that row with a path from its hash to the root |
| DistributedSync.DistributedSyncManager.ReceiveProofResponse | iris-sim/src/control_plane/distributed_sync.ts:585-689 | a row is added iff a request is open, the message is admitted and from the node asked, its path leads from the row's hash to the expected root, the index is the log length and the row links to the tip; every message of that node closes the request |
| DistributedSync.DistributedSyncManager.DetectDivergence | iris-sim/src/control_plane/distributed_sync.ts:474-477 | roots differ |
| DistributedSync.DivergenceExact | iris-sim/src/control_plane/distributed_sync.ts:474-477 | roots differ iff the logs differ in some hashed field of some row |
| DistributedSync.ProvenRowIsNext | iris-sim/src/control_plane/distributed_sync.ts:642-685 | by path and chain link together, a row is accepted only where the local log is an initial part of the responder's, and is the next row there |
| DistributedSync.SameHashSamePast | iris-sim/src/control_plane/audit_hash.ts:10-39 | rows of two chains with one hash stand at one position and have the same past |
| DistributedSync.LinkPinsPosition | iris-sim/src/control_plane/audit_log.ts:123-131 | the chain link pins the index that the Merkle path leaves open, and the past with it |
| DistributedSync.OwnRootAppendsNothing | iris-sim/src/control_plane/distributed_sync.ts:479-505 | no response to a request that carries the local root appends a row |
| DistributedSync.ResponseFollows | iris-sim/src/control_plane/distributed_sync.ts:585-689 | a response changes the log only by the next row of the peer that was asked, and only while the whole log is an initial part of that peer's |
| DistributedSync.StepKeepsInvariant | iris-sim/src/control_plane/distributed_sync.ts:404-689 | among any number of peers every protocol step, whatever the network delivers and however the peers' logs grow, keeps the replica an initial part of some peer's log |
| DistributedSync.ReplicaSafety | iris-sim/src/control_plane/distributed_sync.ts:404-689 | in every run the replica's log is empty or an initial part of some peer's, and verifies iff that one does; peers may append, take replica rows and depart from each other |
| DistributedSync.RoundGains | iris-sim/src/control_plane/distributed_sync.ts:479-689 | one honest exchange appends exactly the peer's next row |
| DistributedSync.CatchUp | iris-sim/src/control_plane/distributed_sync.ts:479-689 | as many honest rounds as rows are missing make logs and roots agree |
| DistributedEvents.RowTextDecides | src/distributed/event_serialization.ts:87-89 | two rows print alike iff they agree in every field and their canonical payloads show the same |
| DistributedEvents.CanonicalizeRowFacts | src/distributed/event_serialization.ts:31-85 | canonicalisation yields a canonical row and is idempotent |
| DistributedEvents.CanonicalizesExactly | src/distributed/event_serialization.ts:31-85 | it fails iff a parent is repeated, and else sorts the lists, canonicalises the payload and keeps all else |
| TextLayouts.RowReads | src/distributed/event_serialization.ts:31-89 | a row's text reads as an object with exactly its named members |
| TextLayouts.DerivedIdReads | src/distributed/event_identity.ts:13-40 | the derived id is the digest of such a text without the id |
| DistributedEvents.DerivedIdInjective | src/distributed/event_identity.ts:13-40 | derived ids of canonical rows coincide iff all else agrees, payloads as far as the text shows them; completely where payloads are lossless |
| DistributedEvents.NonFiniteCollides | src/distributed/event_validation.ts:52-59 | two different admissible rows with one text and one derived id |
| DistributedEvents.LessExactly | src/distributed/event_ordering.ts:16-22 | rows are ordered by counter, then the node of the clock, then sequence, then id, the smaller first |
| CausalGraphs.BuildCausalGraph | src/distributed/causal_graph.ts:26-65 | on any list it fails iff a row repeats a parent, and else yields exactly the edges to the next row on the node, from parents and from merged sources |
| CausalGraphs.ListIsTable | src/distributed/causal_graph.ts:26-65 | on rows with distinct ids these are the edges of the row table |
| CausalGraphs.ChainIsBefore | src/distributed/causal_graph.ts:45-52 | rows of one node are totally ordered by happens-before |
| CausalGraphs.BeforeExactly | src/distributed/causal_graph.ts:26-65 | happens-before is the transitive closure of standing earlier on one node, by sequence and then id, and of references |
| CausalGraphs.PredecessorsExactly | src/distributed/event_traceability.ts:11-16 | the predecessors of a row are exactly its parents and merged sources |
| CausalGraphs.ComputeDescendants | src/distributed/causal_graph.ts:68-89 | on any list the stack search terminates and computes the transitive closure |
| CausalGraphs.GetEventAncestors | src/distributed/event_traceability.ts:93-112 | the sorted list of everything reachable against parent and lineage edges |
| CausalGraphs.AncestorsInverted | src/distributed/event_traceability.ts:93-119 | every ancestor counts the row among its descendants |
| Traceability.ValidateEventTraceability | src/distributed/event_traceability.ts:21-90 | it completes iff all references resolve, none is a self-reference and the predecessor graph has no cycle; the cycle error means exactly a cycle |
| Traceability.RefsExactly | src/distributed/event_traceability.ts:24-62 | the references resolve iff no row repeats a parent and every parent and merged source is another listed row |
| Traceability.TraceableYetCyclic | src/distributed/causal_graph.ts:26-65 | a traceable list whose causal graph has a cycle |
| Traceability.TraceableCycleExactly | src/distributed/event_traceability.ts:21-90 | a traceable list has a causal cycle iff some row happens before an earlier row of its own node |
| RowOrder.CausalIsTotal | src/distributed/event_ordering.ts:28-37 | under the clock condition the causal comparator is compareDistributedEvents |
| RowOrder.CausalOrderExactly | src/distributed/event_ordering.ts:28-37 | on an acyclic set the causal comparator is a strict total order iff no row a below b, with b earlier by time, has a row c apart from both timed between them |
| RowOrder.CausalSortExactly | src/distributed/merge_algebra.ts:188-190 | sorting an acyclic set by it yields a list in causal order iff there is no such circle |
| RowOrder.AssertCausalReplaySafe | src/distributed/causality.ts:80-94 | on any list it passes iff no row repeats a parent and none stands before one that happened before it |
| RowOrder.SortedIsReplaySafe | src/distributed/causality.ts:80-94 | under the clock condition sorting causally yields the ascending list and passes the check |
| RowOrder.ReplayableExactly | src/distributed/causality.ts:80-94 | a set, cyclic or not, has a listing that passes iff no two of its rows happen before each other |
| MergeOrder.MergeReplayableExactly | src/distributed/merge_algebra.ts:173-191 | the merged set has one iff the input has |
| ConflictSets.PayloadsOverlap | src/distributed/payload_domain.ts:8-17 | both payloads are objects with a common key |
| ConflictSets.UnionFind.Find | src/distributed/conflict_sets.ts:55-63 | find with path compression terminates, returns the representative and moves none |
| ConflictSets.UnionFind.Union | src/distributed/conflict_sets.ts:64-68 | union joins exactly two classes |
| ConflictSets.BuildConflictSets | src/distributed/conflict_sets.ts:47-101 | the result is exactly the connected components of size at least two of the concurrent-and-overlapping graph, in order |
| ConflictSets.ListingUnique | src/distributed/conflict_sets.ts:41-46 | that result does not depend on the order of the input |
| ConflictSets.ListingDisjoint | src/distributed/conflict_sets.ts:41-46 | conflict sets share no row |
| ConflictSets.ConflictSetIdInjective | src/distributed/conflict_sets.ts:21-28 | the id of a conflict set determines its members |
| TextLayouts.ConflictSetIdReads | src/distributed/conflict_sets.ts:21-28 | it is the digest of the object of the sorted ids |
| MergeWinners.ConflictsExactly | src/distributed/conflict_sets.ts:30-101 | two rows conflict iff both are no merge rows, neither happened before the other and both write a key |
| PayloadMerge.MergeObjectPayloadsGroup | src/distributed/payload_domain.ts:54-89 | the merged object has exactly the held keys, each with the value of its greatest holder as its text shows it |
| PayloadMerge.GroupPayloadUnique | src/distributed/payload_domain.ts:50-53 | the merged payload is determined by the set of members |
| ShownRows.TextShowsRow | src/distributed/event_serialization.ts:87-89 | two canonical rows have one text iff they show the same |
| Deduplication.DedupeExactly | src/distributed/merge_algebra.ts:174-186 | on any rows deduplication succeeds iff canonical rows of one id have one text, and then lists for every id the canonical form of the first row with it |
| Deduplication.DedupeOrder | src/distributed/merge_algebra.ts:174-186 | outcome and shown rows do not depend on order or repetition |
| MergeEventSets.MergeConflictSet | src/distributed/merge_algebra.ts:61-105 | the derived row as its text shows it: winner's node and clock, next sequence there, all sources, all their parents, merged payload, derived id |
| MergeEventSets.ClassifyMergePolicy | src/distributed/merge_policy.ts:61-73 | the greatest member wins |
| MergeWinners.MergedRowTold | src/distributed/merge_algebra.ts:61-144 | the new row of an unresolved component stands on the node of the member with the latest counter, greatest node, sequence and id, right after the last row there, names it, all sources and their parents, and holds for every key what its last writer wrote |
| MergeWinners.ResolvesExactly | src/distributed/merge_algebra.ts:40-50 | a merge row resolves a component iff it names exactly its rows |
| MergeEventSets.AbsorbConflictSets | src/distributed/merge_algebra.ts:129-144 | exactly one derived row is added per unresolved component |
| MergeEventSets.MergeEventSets | src/distributed/merge_algebra.ts:173-191 | the merge as a whole: errors, the rows kept and what the result shows, causal order iff the input admits no circle, ascending order under the clock condition |
| MergeEventSets.MergeOrderIndependent | src/distributed/merge_algebra.ts:170-172 | what the merged set shows does not depend on order or repetition of the input, lossy payloads included, so union merges are commutative |
| EventSets.MergeRowUnique | src/distributed/merge_algebra.ts:61-105 | the derived row is a function of row set and component |
| EventSets.MergeRowFresh | src/distributed/merge_algebra.ts:101 | its id is new |
| EventSets.AbsorbedUnique | src/distributed/merge_algebra.ts:129-144 | the merged set is determined by the input set |
| EventSets.MergeCoversConflicts | src/distributed/merge_algebra.ts:129-144 | no input row is lost, and every component has a row that is greater than and causally after each source |
| EventSets.NoNewPaths | src/distributed/merge_algebra.ts:129-144 | rows added behind their nodes add no happens-before between old rows |
| EventSets.MergeIdempotent | src/distributed/merge_algebra.ts:4-8 | on reference-closed sets merging again adds nothing |
| EventSets.MergeKeepsShape | src/distributed/merge_algebra.ts:173-191 | the merged set stays identified and reference-closed and gains no causal cycle |
| MergeLimits.TwoStageExactly | src/distributed/merge_algebra.ts:125-144 | merging after rows were added early equals the direct merge iff that merge derives those rows and none crowds a node still to be written |
| MergeLimits.MergeAssociativeExactly | docs/distributed/causality_model.md:131 | the associativity law of mergeEventSets holds iff a condition on its two inputs does |
| MergeLimits.AssociativityFails | docs/distributed/causality_model.md:69 | three rows for which it fails |
| MergeOrder.MergeKeepsClockExactly | src/distributed/merge_algebra.ts:85-95 | the merged set keeps the clock condition iff every unresolved component is won by a row with the latest clock of its node |
| GrownSets.GrownBeforeExactly | src/distributed/merge_algebra.ts:87-101 | happens-before in a set grown by rows on top of their nodes, told by the old set and the new rows |
| MergeOrder.MergeOrderExactly | src/distributed/event_ordering.ts:22-37 | the causal comparator orders a merge result iff the input with its derived rows admits no circle |
| MergeOrder.MergeOutputExactly | src/distributed/merge_algebra.ts:4-8 | the output is a linear extension under the comparator iff that holds |
| MergeCycle.ComparatorCycle | src/distributed/event_ordering.ts:28-37 | four clock-consistent rows whose merge makes the comparator run in a circle |
| LamportClock.StepKeepsClocked | src/distributed/logical_time.ts:34-48 | every tick and receive keeps the clock invariant |
| DistributedEvents.ClocksAdvance | src/distributed/logical_time.ts:34-48 | both steps keep the node and take the least counter beyond what was known |
| LamportClock.LamportCondition | src/distributed/logical_time.ts:34-48 | in every run happens-before implies a strictly smaller logical time |
| LamportClock.RunSortsSafely | src/distributed/causality.ts:77-94 | on the rows of every run the causal comparator is a strict total order and sorting by it is replay-safe |
| Scheduler.HeapUp | iris-sim/src/scheduler/DeterministicScheduler.ts:26-33 | restores the heap and keeps its items |
| Scheduler.HeapDown | iris-sim/src/scheduler/DeterministicScheduler.ts:35-47 | restores the heap and keeps its items |
| Scheduler.RootRunsFirst | iris-sim/src/scheduler/DeterministicScheduler.ts:16-24 | nothing in a heap runs before its root |
| Scheduler.RunsExactly | iris-sim/src/scheduler/DeterministicScheduler.ts:16-24 | earlier ticks run first, then higher priorities, then earlier insertion |
| Scheduler.DeterministicScheduler.Schedule | iris-sim/src/scheduler/DeterministicScheduler.ts:62-65 | adds one item with the next insertion number |
| Scheduler.DeterministicScheduler.RunNext | iris-sim/src/scheduler/DeterministicScheduler.ts:68-77 | runs the item that runs before all others, loses no other, counts one execution |
| Scheduler.DeterministicScheduler.RunUntilTick | iris-sim/src/scheduler/DeterministicScheduler.ts:80-84 | runs everything due in run order and leaves nothing due |
| Scheduler.DeterministicScheduler.Drain | iris-sim/src/scheduler/DeterministicScheduler.ts:87-91 | runs every item once, in run order |
| Scheduler.DeterministicScheduler.Snapshot | iris-sim/src/scheduler/DeterministicScheduler.ts:109-126 | lists exactly what is queued, in run order, with the next insertion number |
| Scheduler.SnapshotIsDrain | iris-sim/src/scheduler/DeterministicScheduler.ts:87-126 | a drain right after a snapshot runs exactly the listed events in that order |
| Scheduler.DrainIsStableSort | iris-sim/src/scheduler/DeterministicScheduler.ts:13-24 | a drain executes the stable sort by tick and priority of the items in insertion order |
| Runtime.DeterministicRuntime.Step | iris-sim/src/runtime/DeterministicRuntime.ts:87-92 | runs what is due, traces it at this tick, then advances or fails on a frozen clock; without overdue events everything runs at its own tick |
| Runtime.DeterministicRuntime.RunUntil | iris-sim/src/runtime/DeterministicRuntime.ts:95-104 | everything up to the target runs, in run order over all rounds, traced by id, consecutive index and clock reading, each event at its own tick when none was overdue |
| Runtime.DeterministicRuntime.Snapshot | iris-sim/src/runtime/DeterministicRuntime.ts:106-114 | the snapshot holds clock, queue in run order, and trace in chronological order |
| Runtime.DeterministicRuntime.Restore | iris-sim/src/runtime/DeterministicRuntime.ts:116-123 | clock and trace come back, the queue is empty, and the trace is chronological iff the snapshot was |
| Runtime.ExecutionTrace.ComputeHash | iris-sim/src/trace-engine/ExecutionTrace.ts:22-27 | returns the hash of the entries iff the cache is genuine |
| Runtime.ExecutionTrace.Import | iris-sim/src/trace-engine/ExecutionTrace.ts:39-44 | the cache is genuine afterwards iff the imported hash was absent or right |
| TrustRegistry.RevokedExactly | iris-sim/src/control_plane/control_plane_registry.ts:268-307 | after any trust events a node is revoked iff it was before or some event revokes it that was not late when it arrived |
| TrustRegistry.StatesExactly | iris-sim/src/control_plane/control_plane_registry.ts:268-307 | for every state, what leads into it or keeps a node in it |
| TrustRegistry.ClockExactly | iris-sim/src/control_plane/control_plane_registry.ts:268-307 | which events move the clock of a node, and to what |
| TrustRegistry.ClockAdvances | iris-sim/src/control_plane/control_plane_registry.ts:268-307 | the event clock of a node never turns back |
| TrustRegistry.ControlPlaneRegistry.ApplyTrustEvent | iris-sim/src/control_plane/control_plane_registry.ts:268-307 | makes the step of the node's state and event clock, drops late events, touches no other node, completes rotations with the announced secret |
| TrustRegistry.ControlPlaneRegistry.StartRotation | iris-sim/src/control_plane/control_plane_registry.ts:128-143 | only active or rotating nodes start a rotation, with a long enough secret |
| TrustRegistry.ControlPlaneRegistry.CompleteRotation | iris-sim/src/control_plane/control_plane_registry.ts:145-163 | succeeds exactly on rotating nodes and installs the next secret |
| TrustRegistry.TrustReputationEngine.Decrease | iris-sim/src/control_plane/trust_reputation.ts:40-44 | lowers the score, clamped to 0..100, and no other score |
| TrustRegistry.MisbehaviorDetector.Analyze | iris-sim/src/control_plane/misbehavior_detector.ts:21-56 | the violations reported, what is remembered, and the bounded history |
| TrustSync.TrustSyncEngine.Receive | iris-sim/src/control_plane/trust_sync_engine.ts:123-177 | an event is applied iff it is new, its issuer has a score of at least 20 and a known secret, signature, place and quorum hold and the detector finds no fault; the first failure costs 10, 8, 7 plus the faults, or 6 points; isolation iff score below 20, no event applied twice, verified records equal applied events, revoked stays revoked |
| TrustSync.FaultsCounted | iris-sim/src/control_plane/misbehavior_detector.ts:21-56 | the detector's faults inside the engine: analysed before, eight events within a second, an opposite within 200 milliseconds |
| TrustSync.TrustSyncEngine.Stop | iris-sim/src/control_plane/trust_sync_engine.ts:91-94 | forgets seen ids only; the invariants survive stop and start |
| TrustSync.TrustSyncEngine.EmitLocal | iris-sim/src/control_plane/trust_sync_engine.ts:103-121 | the event is sent iff it is new and was not accepted |
| TrustSync.TrustSyncEngine.AuditVerifies | iris-sim/src/control_plane/trust_sync_engine.ts:243-261 | in every reachable state the engine's audit log verifies |
| TrustSync.RotationChecksDead | iris-sim/src/control_plane/trust_sync_engine.ts:214-223 | the order check leaves the detector's rotation checks unreachable |
| TrustSync.EventKeyInjective | iris-sim/src/control_plane/misbehavior_detector.ts:24 | the memory key identifies issuer and event where issuers hold no separator |
| TrustSync.EventKeyCollides | iris-sim/src/control_plane/misbehavior_detector.ts:24 | two different events with one key |
| RateLimiter.AdaptiveRateLimiter.ExecuteGuarded | iris-sim/src/stability/rateLimiter.ts:66-76 | whatever the time, inside the window budget the capped and smoothed value goes out and the execution counts, else the last value |
| RateLimiter.AdaptiveRateLimiter.RegisterExecution | iris-sim/src/stability/rateLimiter.ts:39-46 | counts an execution iff the window has room |
| RateLimiter.WindowBound | iris-sim/src/stability/rateLimiter.ts:98-101 | for nondecreasing time no window holds more than the allowed executions |
| RateLimiter.AdaptiveRateLimiter.WindowsHold | iris-sim/src/stability/rateLimiter.ts:34-76 | this holds in every reachable state of a limiter whose calls never went back in time |
| RateLimiter.AdaptiveController.WrapNumericDecision | iris-sim/src/stability/adaptiveController.ts:43-47 | controller and limiter values stay equal, and the value makes one capped and smoothed move iff the window has room |
| RateLimiter.AdaptiveRateLimiter.RoomExactly | iris-sim/src/stability/rateLimiter.ts:34-46 | it has iff fewer than the allowed executions lie in it, as long as no call went back in time |
| RateLimiter.MoveExactly | iris-sim/src/stability/rateLimiter.ts:48-64 | a move is alpha times the way to the input, cut to the bound in either direction, so it never overshoots and never turns away |
| RateLimiter.MoveBound | iris-sim/src/stability/rateLimiter.ts:48-64 | under the cap one move is at most alpha times maxDelta of the value |
| RateLimiter.GrowthBound | iris-sim/src/stability/rateLimiter.ts:48-76 | over n decisions under the cap the value grows at most geometrically |
| RateLimiter.CapStaysActive | iris-sim/src/stability/rateLimiter.ts:48-76 | a start value far enough from zero keeps the cap active for n decisions, whatever the inputs |
| RateLimiter.NearZeroUncapped | iris-sim/src/stability/rateLimiter.ts:49-52 | where the cap is off one decision exceeds any bound |

## Left out

- SHA-256, HMAC, Ed25519 and key handling: hashes are a digest parameter or symbolic terms; signature,
  secret, quorum, freshness and federation-policy decisions arrive as booleans.
- Files, HTTP, timers, metrics, security logs, retention, rotation of log files, the CLI and node shells.
- Symbol keys, circular references and the self-checks of `state_model.ts`. Freezing and prototypes are modelled
  in `freezeStateRecord` only; elsewhere a value assigned under `__proto__` is lost and nothing is inherited.
- CanonicalKeys.CanonFixpoint: integer-like keys, which the language lists first and by number, are taken in
  insertion order like all others; which listings of such keys a copy leaves alone is not told. Texts do not
  depend on it.
- Strings are sequences of Unicode scalar values: lone surrogates are not represented and keys are
  ordered by code point. Finite numbers are their printed tokens.
- `localeCompare` is taken to be the strict total order on identifiers and keys.
- Empty-string identifiers and parents are not representable; node names are ordered identifiers.
- The legacy single-parent field `parentEventId` and the `derivedEventId` written back into a conflict set.
- `compareLogEntriesForAudit` and `deriveReplayOrdinal`: sorting by time, correlation and text would add
  only easy members.
- MergeEventSets.MergeEventSets: rows are taken to carry their derived ids, as `validateDistributedEvent`
  enforces. Of two rows with one text deduplication keeps the first, which is told by
  `Deduplication.DedupeExactly`; the merged payload is told as far as its text shows it. Where the input admits
  a circle the order of the result is whatever the sort makes of a comparator that is no order.
- MergeEventSets.AbsorbConflictSets: rows carry their derived ids, as above; two rows derived under one
  forged id would leave a list with repeated ids.
- MergeLimits.MergeAssociativeExactly: both inputs carry derived ids, so that they agree on shared ones.
- PayloadMerge.MergeObjectPayloadsGroup: the members' payloads are canonical, as its only caller passes them.
- MergeEventSets.MergeConflictSet: members are rows of the context, already canonical, as the only caller
  in the merge passes them.
- DistributedSync.CatchUp: the peer's log does not grow during the rounds; the general run is covered by
  the safety theorem.
- Deep signature verification of audit rows, signatures on records and the persistence of logs.
- AuditLogs.RootsDecide: agreement is on the hashed fields; identifiers and signatures are not hashed, and
  payloads agree as far as `SigningJson.SigningKernel` tells.
- Merkle.VerifyMerkleProof: the source joins two texts with a bar before hashing, so made-up texts that hold a
  bar can hash like others; a node digest is made of the two parts here and keeps them apart. Digests hold no
  bar, so the nodes of a built tree are not concerned.
- DistributedSync.ReplicaSafety: proofs are requested from peers and from nodes never heard of; requests to
  nodes that announced a root without having a log in the system are not modelled.
- Runtime.DeterministicRuntime.Step: callbacks of events and of `setOnBeforeTick` do not run, so nothing is
  scheduled during a step; the logical clock is part of the runtime object and the random generator an
  opaque state.
- Scheduler.HeapUp: the array heap is a sequence field; a swap in place is an update of that field, and the
  helper returns the updated sequence. The same holds for Scheduler.HeapDown.
- Trace hashing beyond a hash function on entry lists.
- TrustSync.TrustSyncEngine.AuditVerifies: the engine is taken to be the only writer of its audit log. The
  sync manager appends replica rows to the same log (`distributed_sync.ts`, line 678); that verified records
  equal applied events, and that the log verifies, is shown only while it does not.
- TrustSync.TrustSyncEngine.Receive: endorsements are checked outside; evidence storage is not modelled.
- Registry operations outside trust events: heartbeats, offline marks, expiry and recovery.
- RateLimiter.AdaptiveRateLimiter.ExecuteGuarded: real arithmetic; rounding and non-finite numbers are not
  modelled.
- Hysteresis, nonce store, actuation gate, projection runner, cluster engines, simulation front ends and
  the later-phase packages.
