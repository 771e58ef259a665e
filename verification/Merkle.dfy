/** Digests, the Merkle tree with duplication of an odd last node, its proofs and their verification
    (iris-sim/src/control_plane/merkle_tree.ts, merkle_proof.ts, merkle_hash.ts, audit_hash.ts). */
module Merkle {
  import opened Results

  /** SHA-256 as a free constructor: a digest is what was hashed. The hashed texts of records (JSON
      objects), of inner nodes (two digests and a bar) and of the empty tree differ in shape, so the
      kinds never meet. Any other string a peer may send is a Text. */
  datatype Hash =
    | RecordDigest(rest: Rest)
    | NodeDigest(left: Hash, right: Hash)
    | EmptyDigest
    | Text(text: string)

  /** The hashed part of an audit record: everything but recordHash, recordId and signature. An event payload is
      held as the text the record hash prints of it, SigningJson.SigningText. */
  datatype Rest = Rest(core: Core, previousRecordHash: Option<Hash>)

  datatype Core = Core(
    eventId: string,
    nodeId: string,
    timestamp: int,
    eventType: string,
    payloadHash: string,
    issuer: string,
    verified: bool,
    endorsements: Option<seq<Endorsement>>,
    signerNodeId: Option<string>,
    eventPayload: Option<string>,
    eventSignature: Option<string>)

  datatype Endorsement = Endorsement(nodeId: string, signature: string)

  datatype MerkleNode =
    | Leaf(hash: Hash)
    | Inner(hash: Hash, left: MerkleNode, right: MerkleNode)

  datatype Side = LeftSide | RightSide

  datatype ProofStep = ProofStep(position: Side, hash: Hash)

  datatype MerkleProof = MerkleProof(leafHash: Hash, steps: seq<ProofStep>, root: Hash)

  datatype MerkleError = MerkleEmpty | MerkleBadIndex

  // ----- specification -----

  /** An odd level repeats its last node. */
  function Padded<T>(level: seq<T>): (p: seq<T>)
    ensures |p| % 2 == 0 && |level| <= |p| <= |level| + 1
    ensures |level| > 0 ==> |p| > 0
  {
    if |level| % 2 == 1 then level + [level[|level| - 1]] else level
  }

  function Level(hashes: seq<Hash>): (next: seq<Hash>)
    ensures |next| == (|hashes| + 1) / 2
    ensures forall i :: 0 <= i < |next| ==> next[i] == NodeDigest(Padded(hashes)[2 * i], Padded(hashes)[2 * i + 1])
  {
    seq(|Padded(hashes)| / 2, i requires 0 <= i < |Padded(hashes)| / 2 =>
      NodeDigest(Padded(hashes)[2 * i], Padded(hashes)[2 * i + 1]))
  }

  function Root(hashes: seq<Hash>): Hash
    requires |hashes| > 0
    decreases |hashes|
  {
    if |hashes| == 1 then hashes[0] else Root(Level(hashes))
  }

  function TreeRoot(hashes: seq<Hash>): Hash {
    if |hashes| == 0 then EmptyDigest else Root(hashes)
  }

  function StepAt(hashes: seq<Hash>, index: nat): ProofStep
    requires index < |hashes|
  {
    if index % 2 == 0 then ProofStep(RightSide, Padded(hashes)[index + 1])
    else ProofStep(LeftSide, Padded(hashes)[index - 1])
  }

  function Steps(hashes: seq<Hash>, index: nat): seq<ProofStep>
    requires index < |hashes|
    decreases |hashes|
  {
    if |hashes| == 1 then [] else [StepAt(hashes, index)] + Steps(Level(hashes), index / 2)
  }

  function Apply(current: Hash, step: ProofStep): Hash {
    match step.position
    case LeftSide => NodeDigest(step.hash, current)
    case RightSide => NodeDigest(current, step.hash)
  }

  function Fold(leaf: Hash, steps: seq<ProofStep>): Hash
    decreases |steps|
  {
    if |steps| == 0 then leaf else Fold(Apply(leaf, steps[0]), steps[1..])
  }

  // ----- the same in parts -----

  /** Each node above stands over its two neighbours below, left before right, the last over itself twice where
      it has no neighbour. */
  ghost predicate StandsOver(level: seq<Hash>, next: seq<Hash>) {
    && |next| == (|level| + 1) / 2
    && forall i :: 0 <= i < |next| ==>
        next[i] == NodeDigest(level[2 * i], if 2 * i + 1 < |level| then level[2 * i + 1] else level[2 * i])
  }

  /** The levels of a tree, from the leaves to the root. */
  ghost predicate IsTree(levels: seq<seq<Hash>>, hashes: seq<Hash>, root: Hash) {
    && |levels| > 0 && levels[0] == hashes && levels[|levels| - 1] == [root]
    && forall i :: 0 <= i < |levels| - 1 ==> |levels[i]| > 1 && StandsOver(levels[i], levels[i + 1])
  }

  lemma {:induction false} RootStands(hashes: seq<Hash>) returns (levels: seq<seq<Hash>>)
    requires |hashes| > 0
    ensures IsTree(levels, hashes, TreeRoot(hashes))
    decreases |hashes|
  {
    if |hashes| == 1 {
      levels := [hashes];
    } else {
      var above := RootStands(Level(hashes));
      levels := [hashes] + above;
    }
  }

  /** The path leads from the leaf to the root: every step hashes what was reached with its sibling, which stands
      on the side it names. */
  ghost predicate Leads(leaf: Hash, steps: seq<ProofStep>, root: Hash) {
    exists reached: seq<Hash> :: Climbs(reached, leaf, steps, root)
  }

  ghost predicate Climbs(reached: seq<Hash>, leaf: Hash, steps: seq<ProofStep>, root: Hash) {
    && |reached| == |steps| + 1 && reached[0] == leaf && reached[|steps|] == root
    && forall i :: 0 <= i < |steps| ==>
        reached[i + 1] == if steps[i].position == LeftSide then NodeDigest(steps[i].hash, reached[i])
                          else NodeDigest(reached[i], steps[i].hash)
  }

  lemma {:induction false} FoldLeads(leaf: Hash, steps: seq<ProofStep>, root: Hash)
    ensures Fold(leaf, steps) == root <==> Leads(leaf, steps, root)
    decreases |steps|
  {
    if |steps| == 0 {
      assert Leads(leaf, steps, root) ==> leaf == root;
      assert Climbs([leaf], leaf, steps, leaf);
    } else {
      var next := Apply(leaf, steps[0]);
      FoldLeads(next, steps[1..], root);
      if reached :| Climbs(reached, leaf, steps, root) {
        assert reached[1] == next;
        assert Climbs(reached[1..], next, steps[1..], root);
      }
      if reached :| Climbs(reached, next, steps[1..], root) {
        assert Climbs([leaf] + reached, leaf, steps, root);
      }
    }
  }

  // ----- the loops -----

  /** Every inner node carries the digest of its children. */
  predicate Honest(node: MerkleNode) {
    match node
    case Leaf(_) => true
    case Inner(hash, left, right) => hash == NodeDigest(left.hash, right.hash) && Honest(left) && Honest(right)
  }

  ghost predicate Carries(nodes: seq<MerkleNode>, hashes: seq<Hash>) {
    |nodes| == |hashes| && forall i :: 0 <= i < |nodes| ==> nodes[i].hash == hashes[i] && Honest(nodes[i])
  }

  method PairUp(nodes: seq<MerkleNode>, ghost hashes: seq<Hash>) returns (next: seq<MerkleNode>)
    requires Carries(nodes, hashes)
    ensures Carries(next, Level(hashes))
  {
    var current := nodes;
    if |current| % 2 == 1 {
      current := current + [current[|current| - 1]];
    }
    assert Carries(current, Padded(hashes));
    next := [];
    var i := 0;
    while i < |current|
      invariant 0 <= i <= |current| && i % 2 == 0 && |next| == i / 2
      invariant forall k :: 0 <= k < |next| ==> next[k].hash == Level(hashes)[k] && Honest(next[k])
    {
      var left, right := current[i], current[i + 1];
      next := next + [Inner(NodeDigest(left.hash, right.hash), left, right)];
      i := i + 2;
    }
  }

  /** buildMerkleTree: the tree is honest and its root digest is TreeRoot of the leaves. */
  method BuildMerkleTree(hashes: seq<Hash>) returns (root: MerkleNode)
    ensures Honest(root) && root.hash == TreeRoot(hashes)
  {
    if |hashes| == 0 {
      return Leaf(EmptyDigest);
    }
    var current := seq(|hashes|, i requires 0 <= i < |hashes| => Leaf(hashes[i]));
    ghost var level := hashes;
    while |current| > 1
      invariant |current| > 0 && Carries(current, level)
      invariant Root(level) == Root(hashes)
      decreases |current|
    {
      current := PairUp(current, level);
      level := Level(level);
    }
    root := current[0];
  }

  method NextLevel(level: seq<Hash>) returns (next: seq<Hash>)
    ensures next == Level(level)
  {
    var padded := Padded(level);
    next := [];
    var i := 0;
    while i < |padded|
      invariant 0 <= i <= |padded| && i % 2 == 0 && |next| == i / 2
      invariant forall k :: 0 <= k < |next| ==> next[k] == Level(level)[k]
    {
      next := next + [NodeDigest(padded[i], padded[i + 1])];
      i := i + 2;
    }
  }

  method SiblingStep(level: seq<Hash>, idx: nat) returns (step: ProofStep)
    requires idx < |level|
    ensures step == StepAt(level, idx)
  {
    var padded := Padded(level);
    SiblingInRange(|padded|, idx);
    var sibling := if idx % 2 == 0 then idx + 1 else idx - 1;
    var position := if idx % 2 == 0 then RightSide else LeftSide;
    step := ProofStep(position, padded[sibling]);
  }

  /** generateMerkleProof: the sibling path of the leaf and the root the loop ends with. */
  method GenerateMerkleProof(hashes: seq<Hash>, index: int) returns (r: Result<MerkleProof, MerkleError>)
    ensures |hashes| == 0 ==> r == Err(MerkleEmpty)
    ensures |hashes| > 0 && !(0 <= index < |hashes|) ==> r == Err(MerkleBadIndex)
    ensures 0 <= index < |hashes| ==> r == Ok(MerkleProof(hashes[index], Steps(hashes, index), TreeRoot(hashes)))
  {
    if |hashes| == 0 {
      return Err(MerkleEmpty);
    }
    if index < 0 || index >= |hashes| {
      return Err(MerkleBadIndex);
    }
    var level, idx := hashes, index;
    var steps := [];
    while |level| > 1
      invariant 0 <= idx < |level|
      invariant steps + Steps(level, idx) == Steps(hashes, index)
      invariant Root(level) == Root(hashes)
      decreases |level|
    {
      var step := SiblingStep(level, idx);
      StepsUnroll(steps, level, idx);
      steps := steps + [step];
      idx := idx / 2;
      level := NextLevel(level);
    }
    assert steps == steps + Steps(level, idx);
    r := Ok(MerkleProof(hashes[index], steps, level[0]));
  }

  lemma SiblingInRange(n: nat, idx: nat)
    requires n % 2 == 0 && idx < n
    ensures idx % 2 == 0 ==> idx + 1 < n
    ensures idx % 2 == 1 ==> 0 <= idx - 1 < n
  {
  }

  lemma StepsUnroll(steps: seq<ProofStep>, level: seq<Hash>, idx: nat)
    requires |level| > 1 && idx < |level|
    ensures steps + Steps(level, idx) == (steps + [StepAt(level, idx)]) + Steps(Level(level), idx / 2)
  {
  }

  /** verifyMerkleProof: accepts exactly the proofs whose path leads from the leaf to the root. The
      index plays no part. */
  method VerifyMerkleProof(proof: MerkleProof) returns (ok: bool)
    ensures ok <==> Fold(proof.leafHash, proof.steps) == proof.root
  {
    var current := proof.leafHash;
    for i := 0 to |proof.steps|
      invariant Fold(proof.leafHash, proof.steps) == Fold(current, proof.steps[i..])
    {
      var step := proof.steps[i];
      assert proof.steps[i..][1..] == proof.steps[i + 1..];
      if step.position == LeftSide {
        current := NodeDigest(step.hash, current);
      } else {
        current := NodeDigest(current, step.hash);
      }
    }
    ok := current == proof.root;
  }

  // ----- completeness -----

  /** A generated proof verifies against the separately built tree's root. */
  lemma {:induction false} ProofComplete(hashes: seq<Hash>, index: nat)
    requires index < |hashes|
    ensures Fold(hashes[index], Steps(hashes, index)) == TreeRoot(hashes)
    decreases |hashes|
  {
    if |hashes| > 1 {
      var steps := Steps(hashes, index);
      assert Apply(hashes[index], steps[0]) == Level(hashes)[index / 2];
      assert steps[1..] == Steps(Level(hashes), index / 2);
      ProofComplete(Level(hashes), index / 2);
    }
  }

  // ----- soundness -----

  /** The digests at the bottom of a tree of node digests. */
  function Bottom(h: Hash): set<Hash> {
    match h
    case NodeDigest(left, right) => Bottom(left) + Bottom(right)
    case _ => {h}
  }

  lemma {:induction false} FoldKeepsBottom(leaf: Hash, steps: seq<ProofStep>)
    ensures Bottom(leaf) <= Bottom(Fold(leaf, steps))
    decreases |steps|
  {
    if |steps| > 0 {
      FoldKeepsBottom(Apply(leaf, steps[0]), steps[1..]);
    }
  }

  lemma {:induction false} RootBottom(hashes: seq<Hash>, x: Hash)
    requires |hashes| > 0 && x in Bottom(Root(hashes))
    ensures exists i :: 0 <= i < |hashes| && x in Bottom(hashes[i])
    decreases |hashes|
  {
    if |hashes| > 1 {
      RootBottom(Level(hashes), x);
      var j :| 0 <= j < |Level(hashes)| && x in Bottom(Level(hashes)[j]);
      var l, r := Padded(hashes)[2 * j], Padded(hashes)[2 * j + 1];
      assert x in Bottom(l) || x in Bottom(r);
      assert l in hashes && r in hashes;
    }
  }

  predicate RecordDigests(hashes: seq<Hash>) {
    forall i :: 0 <= i < |hashes| ==> hashes[i].RecordDigest?
  }

  /** A verifying proof against the root of a list of record digests names a leaf of the list exactly
      when its leaf is a record digest. Without that check a proof may start at an inner node. */
  lemma ProofSound(hashes: seq<Hash>, proof: MerkleProof)
    requires RecordDigests(hashes) && proof.root == TreeRoot(hashes)
    requires Fold(proof.leafHash, proof.steps) == proof.root
    ensures proof.leafHash in hashes <==> proof.leafHash.RecordDigest?
  {
    if proof.leafHash.RecordDigest? {
      FoldKeepsBottom(proof.leafHash, proof.steps);
      assert proof.leafHash in Bottom(proof.root);
      if |hashes| > 0 {
        RootBottom(hashes, proof.leafHash);
      }
    }
  }

  /** The other case is real: the first inner node has a verifying proof. */
  lemma InnerNodeVerifies(hashes: seq<Hash>)
    requires |hashes| > 1 && RecordDigests(hashes)
    ensures var leaf := Level(hashes)[0];
      leaf !in hashes && Fold(leaf, Steps(Level(hashes), 0)) == TreeRoot(hashes)
  {
    ProofComplete(Level(hashes), 0);
  }

  // ----- the root determines a duplicate-free list -----

  /** All leaves at depth k. */
  predicate Perfect(h: Hash, k: nat) {
    if k == 0 then !h.NodeDigest? else h.NodeDigest? && Perfect(h.left, k - 1) && Perfect(h.right, k - 1)
  }

  ghost predicate AllPerfect(hashes: seq<Hash>, k: nat) {
    forall i :: 0 <= i < |hashes| ==> Perfect(hashes[i], k)
  }

  ghost predicate NoRepeats<T>(s: seq<T>) {
    forall i, j :: 0 <= i < j < |s| ==> s[i] != s[j]
  }

  /** Levels above a list: how often it is halved. */
  function Halvings(n: nat): nat
    requires n > 0
  {
    if n == 1 then 0 else 1 + Halvings((n + 1) / 2)
  }

  lemma {:induction false} PerfectUnique(h: Hash, k: nat, l: nat)
    requires Perfect(h, k) && Perfect(h, l)
    ensures k == l
  {
    if k > 0 {
      PerfectUnique(h.left, k - 1, l - 1);
    }
  }

  lemma LevelPerfect(hashes: seq<Hash>, k: nat)
    requires AllPerfect(hashes, k)
    ensures AllPerfect(Level(hashes), k + 1)
  {
    forall i | 0 <= i < |Level(hashes)|
      ensures Perfect(Level(hashes)[i], k + 1)
    {
      var l, r := Padded(hashes)[2 * i], Padded(hashes)[2 * i + 1];
      assert l in hashes && r in hashes;
    }
  }

  lemma {:induction false} RootPerfect(hashes: seq<Hash>, k: nat)
    requires |hashes| > 0 && AllPerfect(hashes, k)
    ensures Perfect(Root(hashes), k + Halvings(|hashes|))
    decreases |hashes|
  {
    if |hashes| > 1 {
      LevelPerfect(hashes, k);
      RootPerfect(Level(hashes), k + 1);
    }
  }

  lemma LevelNoRepeats(hashes: seq<Hash>)
    requires NoRepeats(hashes)
    ensures NoRepeats(Level(hashes))
  {
    forall i, j | 0 <= i < j < |Level(hashes)|
      ensures Level(hashes)[i] != Level(hashes)[j]
    {
      assert Padded(hashes)[2 * i] == hashes[2 * i] && Padded(hashes)[2 * j] == hashes[2 * j];
    }
  }

  lemma LevelInjective(xs: seq<Hash>, ys: seq<Hash>)
    requires NoRepeats(xs) && NoRepeats(ys) && Level(xs) == Level(ys)
    ensures xs == ys
  {
    var px, py := Padded(xs), Padded(ys);
    assert |px| == |py| == 2 * |Level(xs)|;
    forall i | 0 <= i < |px|
      ensures px[i] == py[i]
    {
      assert Level(xs)[i / 2] == Level(ys)[i / 2];
      assert Level(xs)[i / 2] == NodeDigest(px[2 * (i / 2)], px[2 * (i / 2) + 1]);
      assert Level(ys)[i / 2] == NodeDigest(py[2 * (i / 2)], py[2 * (i / 2) + 1]);
    }
    assert px == py;
    SamePadding(xs, ys);
  }

  lemma PaddedShape(xs: seq<Hash>)
    ensures var p := Padded(xs);
      && xs == p[..|xs|]
      && (|xs| % 2 == 1 ==> p[|p| - 2] == p[|p| - 1])
  {
  }

  lemma SamePadding(xs: seq<Hash>, ys: seq<Hash>)
    requires NoRepeats(xs) && NoRepeats(ys) && Padded(xs) == Padded(ys)
    ensures xs == ys
  {
    PaddedShape(xs);
    PaddedShape(ys);
    assert |xs| == |ys|;
  }

  lemma {:induction false} RootInjectiveAt(xs: seq<Hash>, ys: seq<Hash>, k: nat)
    requires |xs| > 0 && |ys| > 0 && AllPerfect(xs, k) && AllPerfect(ys, k)
    requires NoRepeats(xs) && NoRepeats(ys) && Root(xs) == Root(ys)
    ensures xs == ys
    decreases |xs|
  {
    SameHalvings(xs, ys, k);
    SameHeight(xs, ys);
    if |xs| > 1 {
      LevelPerfect(xs, k);
      LevelPerfect(ys, k);
      LevelNoRepeats(xs);
      LevelNoRepeats(ys);
      RootInjectiveAt(Level(xs), Level(ys), k + 1);
      LevelInjective(xs, ys);
    }
  }

  lemma RootHeight(xs: seq<Hash>, k: nat) returns (h: nat)
    requires |xs| > 0 && AllPerfect(xs, k)
    ensures h == Halvings(|xs|) && Perfect(Root(xs), k + h)
  {
    h := Halvings(|xs|);
    RootPerfect(xs, k);
  }

  lemma SameHalvings(xs: seq<Hash>, ys: seq<Hash>, k: nat)
    requires |xs| > 0 && |ys| > 0 && AllPerfect(xs, k) && AllPerfect(ys, k) && Root(xs) == Root(ys)
    ensures Halvings(|xs|) == Halvings(|ys|)
  {
    var hx := RootHeight(xs, k);
    var hy := RootHeight(ys, k);
    HeightUnique(Root(xs), k, hx, hy);
  }

  lemma HeightUnique(h: Hash, k: nat, a: nat, b: nat)
    requires Perfect(h, k + a) && Perfect(h, k + b)
    ensures a == b
  {
    PerfectUnique(h, k + a, k + b);
  }

  lemma SameHeight(xs: seq<Hash>, ys: seq<Hash>)
    requires |xs| > 0 && |ys| > 0 && Halvings(|xs|) == Halvings(|ys|) && Root(xs) == Root(ys)
    ensures |xs| == 1 <==> |ys| == 1
    ensures |xs| == 1 ==> xs == ys
    ensures |xs| > 1 ==> Root(Level(xs)) == Root(Level(ys))
  {
    HalvingsZero(|xs|);
    HalvingsZero(|ys|);
    RootUnfolds(xs);
    RootUnfolds(ys);
  }

  lemma HalvingsZero(n: nat)
    requires n > 0
    ensures Halvings(n) == 0 <==> n == 1
  {
  }

  lemma RootUnfolds(xs: seq<Hash>)
    requires |xs| > 0
    ensures |xs| == 1 ==> xs == [Root(xs)]
    ensures |xs| > 1 ==> Root(xs) == Root(Level(xs))
  {
  }

  /** On duplicate-free lists of record digests the tree root determines the list. */
  lemma TreeRootInjective(xs: seq<Hash>, ys: seq<Hash>)
    requires RecordDigests(xs) && RecordDigests(ys) && NoRepeats(xs) && NoRepeats(ys)
    ensures TreeRoot(xs) == TreeRoot(ys) <==> xs == ys
  {
    if TreeRoot(xs) == TreeRoot(ys) {
      if |xs| > 0 {
        RootPerfect(xs, 0);
      }
      if |ys| > 0 {
        RootPerfect(ys, 0);
      }
      if |xs| > 0 && |ys| > 0 {
        RootInjectiveAt(xs, ys, 0);
      } else {
        EmptyRootOnly(xs);
        EmptyRootOnly(ys);
      }
    }
  }

  lemma EmptyRootOnly(xs: seq<Hash>)
    requires RecordDigests(xs)
    ensures TreeRoot(xs) == EmptyDigest <==> xs == []
  {
    if |xs| > 1 {
      var level := Level(xs);
      assert AllPerfect(xs, 0);
      LevelPerfect(xs, 0);
      RootPerfect(level, 1);
    }
  }

  /** Duplicates break it: repeating an odd last leaf leaves the root unchanged. */
  lemma RepeatedLeafSameRoot(hashes: seq<Hash>)
    requires |hashes| > 1 && |hashes| % 2 == 1
    ensures TreeRoot(hashes + [hashes[|hashes| - 1]]) == TreeRoot(hashes)
  {
    assert Level(hashes + [hashes[|hashes| - 1]]) == Level(hashes);
  }
}
