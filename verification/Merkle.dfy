/** The audit Merkle tree: roots, inclusion proofs and their verification.

    Nodes are reduced bottom-up, pairing neighbours; a level of odd length first
    repeats its last node.  Leaves hash a 0x00 byte and the row hash, internal
    nodes a 0x01 byte and the two children.  Nothing looks at a length: row hashes and
    the nodes of a proof are byte strings of any size. */
module Merkle {
  import opened Digests
  import opened Bits

  // ------------------------------------------------------------------ hashing

  const LEAF_TAG: byte := 0
  const NODE_TAG: byte := 1

  function LeafInput(row: Bytes): Bytes { [LEAF_TAG] + row }

  function NodeInput(left: Bytes, right: Bytes): Bytes { [NODE_TAG] + left + right }

  function LeafHash(h: Hash, row: Bytes): Digest { h(LeafInput(row)) }

  function InternalHash(h: Hash, left: Bytes, right: Bytes): Digest { h(NodeInput(left, right)) }

  function EmptyRoot(h: Hash): Digest { h([LEAF_TAG]) }

  // ------------------------------------------- what reduce and its proofs compute

  function Leaves(h: Hash, rows: seq<Bytes>): seq<Digest> {
    seq(|rows|, i requires 0 <= i < |rows| => LeafHash(h, rows[i]))
  }

  /** One level up: neighbours paired, a last node without neighbour paired with
      itself. */
  function NextLevel(h: Hash, nodes: seq<Digest>): (next: seq<Digest>)
    ensures |nodes| <= |next| + |next| <= |nodes| + 1
  {
    if nodes == [] then []
    else if |nodes| == 1 then [InternalHash(h, nodes[0], nodes[0])]
    else [InternalHash(h, nodes[0], nodes[1])] + NextLevel(h, nodes[2..])
  }

  function Reduce(h: Hash, nodes: seq<Digest>): Digest
    requires nodes != []
    decreases |nodes|
  {
    if |nodes| == 1 then nodes[0] else Reduce(h, NextLevel(h, nodes))
  }

  function MerkleRoot(h: Hash, rows: seq<Bytes>): Digest {
    if rows == [] then EmptyRoot(h) else Reduce(h, Leaves(h, rows))
  }

  /** The node paired with node i: its neighbour, or itself when it has none. */
  function SiblingOf(nodes: seq<Digest>, i: nat): Digest
    requires i < |nodes|
  {
    if i % 2 == 1 then nodes[i - 1]
    else if i + 1 < |nodes| then nodes[i + 1]
    else nodes[i]
  }

  function ProofPath(h: Hash, nodes: seq<Digest>, target: nat): seq<Digest>
    requires target < |nodes|
    decreases |nodes|
  {
    if |nodes| == 1 then []
    else [SiblingOf(nodes, target)] + ProofPath(h, NextLevel(h, nodes), target / 2)
  }

  /** The digest reached from `leaf` by hashing with each node of `path` in turn; the
      m-th bit is set when the m-th node goes on the left. */
  function Climb(h: Hash, leaf: Digest, bits: seq<bool>, path: seq<Bytes>): Digest
    requires |bits| == |path|
    decreases |path|
  {
    if path == [] then leaf
    else
      var m := |path| - 1;
      var current := Climb(h, leaf, bits[..m], path[..m]);
      if bits[m] then InternalHash(h, path[m], current) else InternalHash(h, current, path[m])
  }

  predicate Accepts(h: Hash, rowHash: Bytes, idx: int, path: seq<Bytes>, root: Bytes) {
    Climb(h, LeafHash(h, rowHash), LowBits(idx, |path|), path) == root
  }

  // ------------------------------------------------------------- the algorithms

  datatype InclusionProof = InclusionProof(leafIndex: int, treeSize: int, path: seq<Bytes>)

  datatype ProofResult = RangeError | Built(root: Digest, proof: InclusionProof)

  function Padded(nodes: seq<Digest>): seq<Digest>
    requires nodes != []
  {
    if |nodes| % 2 == 0 then nodes else nodes + [nodes[|nodes| - 1]]
  }

  lemma PairTaken(h: Hash, next: seq<Digest>, nodes: seq<Digest>, i: nat)
    requires i + 1 < |nodes|
    ensures next + NextLevel(h, nodes[i..]) == next + [InternalHash(h, nodes[i], nodes[i + 1])] + NextLevel(h, nodes[i + 2..])
  {
    assert nodes[i..][2..] == nodes[i + 2..];
  }

  method HashPairs(h: Hash, nodes: seq<Digest>) returns (padded: seq<Digest>, next: seq<Digest>)
    requires nodes != []
    ensures padded == Padded(nodes)
    ensures next == NextLevel(h, nodes)
  {
    padded := if |nodes| % 2 == 0 then nodes else nodes + [nodes[|nodes| - 1]];
    next := [];
    var i := 0;
    while i < |padded|
      invariant 0 <= i <= |padded| && i % 2 == 0
      invariant next + NextLevel(h, padded[i..]) == NextLevel(h, padded)
    {
      PairTaken(h, next, padded, i);
      next := next + [InternalHash(h, padded[i], padded[i + 1])];
      i := i + 2;
    }
    PaddingIsPairing(h, nodes);
  }

  lemma {:induction false} PaddingIsPairing(h: Hash, nodes: seq<Digest>)
    requires nodes != []
    ensures NextLevel(h, Padded(nodes)) == NextLevel(h, nodes)
  {
    if |nodes| > 2 {
      PaddingIsPairing(h, nodes[2..]);
      assert Padded(nodes)[2..] == Padded(nodes[2..]);
    }
  }

  method ReduceNodes(h: Hash, nodes: seq<Digest>) returns (root: Digest)
    requires nodes != []
    ensures root == Reduce(h, nodes)
    decreases |nodes|
  {
    if |nodes| == 1 {
      return nodes[0];
    }
    var _, next := HashPairs(h, nodes);
    root := ReduceNodes(h, next);
  }

  lemma PushThenExtend(path: seq<Digest>, node: Digest, rest: seq<Digest>)
    ensures path + [node] + rest == path + ([node] + rest)
  {}

  /** The sibling stands beside its node in the padded level. */
  lemma SiblingInPadded(nodes: seq<Digest>, target: nat)
    requires |nodes| > 1 && target < |nodes|
    ensures
      var beside := if target % 2 == 0 then target + 1 else target - 1;
      0 <= beside < |Padded(nodes)| && Padded(nodes)[beside] == SiblingOf(nodes, target)
  {}

  method ReduceWithProof(h: Hash, nodes: seq<Digest>, target: nat, path: seq<Digest>)
    returns (root: Digest, extended: seq<Digest>)
    requires target < |nodes|
    ensures root == Reduce(h, nodes)
    ensures extended == path + ProofPath(h, nodes, target)
    decreases |nodes|
  {
    if |nodes| == 1 {
      root, extended := nodes[0], path;
    } else {
      var padded, next := HashPairs(h, nodes);
      SiblingInPadded(nodes, target);
      var sibling := padded[if target % 2 == 0 then target + 1 else target - 1];
      root, extended := ReduceWithProof(h, next, target / 2, path + [sibling]);
      PushThenExtend(path, sibling, ProofPath(h, next, target / 2));
    }
  }

  method BuildMerkleRoot(h: Hash, rowHashes: seq<Bytes>) returns (root: Digest)
    ensures root == MerkleRoot(h, rowHashes)
  {
    if |rowHashes| == 0 {
      return EmptyRoot(h);
    }
    root := ReduceNodes(h, Leaves(h, rowHashes));
  }

  method BuildWithProof(h: Hash, rowHashes: seq<Bytes>, leafIndex: int) returns (result: ProofResult)
    ensures result.RangeError? <==> !(0 <= leafIndex < |rowHashes|)
    ensures result.Built? ==>
      && result.root == MerkleRoot(h, rowHashes)
      && result.proof == InclusionProof(leafIndex, |rowHashes|, ProofPath(h, Leaves(h, rowHashes), leafIndex))
  {
    if |rowHashes| == 0 || leafIndex < 0 || leafIndex >= |rowHashes| {
      return RangeError;
    }
    var root, path := ReduceWithProof(h, Leaves(h, rowHashes), leafIndex, []);
    result := Built(root, InclusionProof(leafIndex, |rowHashes|, path));
  }

  method VerifyInclusion(h: Hash, rowHash: Bytes, proof: InclusionProof, root: Bytes) returns (ok: bool)
    ensures ok == Accepts(h, rowHash, proof.leafIndex, proof.path, root)
  {
    ghost var bits := LowBits(proof.leafIndex, |proof.path|);
    var current := LeafHash(h, rowHash);
    var idx, sz := proof.leafIndex, proof.treeSize;
    for i := 0 to |proof.path|
      invariant LowBits(idx, |proof.path| - i) == bits[i..]
      invariant current == Climb(h, LeafHash(h, rowHash), bits[..i], proof.path[..i])
    {
      var sibling := proof.path[i];
      assert proof.path[..i + 1][..i] == proof.path[..i] && bits[..i + 1][..i] == bits[..i];
      assert bits[i..][0] == bits[i] && bits[i..][1..] == bits[i + 1..];
      if idx % 2 == 0 {
        current := InternalHash(h, current, sibling);
      } else {
        current := InternalHash(h, sibling, current);
      }
      idx, sz := idx / 2, (sz + 1) / 2;
    }
    assert proof.path[..|proof.path|] == proof.path && bits[..|bits|] == bits;
    ok := current == root;
  }
}
