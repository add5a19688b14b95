/** What a Merkle root and an accepted inclusion proof commit to.

    Every list of rows has a perfect binary tree behind its root; a node repeated to
    fill an odd level is a repeated subtree.  Roots and proofs are read off that
    tree.  The independent reference is the hash MTH of section 2.1 of RFC 6962,
    which splits a list at the largest power of two below its size. */
module MerkleTheorems {
  import opened Digests
  import opened Bits
  import opened Merkle

  // -------------------------------------------------------------- the tree itself

  datatype Tree = Leaf(row: Bytes) | Node(left: Tree, right: Tree)

  function TreeHash(h: Hash, t: Tree): Digest {
    match t
    case Leaf(row) => LeafHash(h, row)
    case Node(l, r) => InternalHash(h, TreeHash(h, l), TreeHash(h, r))
  }

  /** The string hashed at the root of the tree. */
  function TreeInput(h: Hash, t: Tree): Bytes {
    match t
    case Leaf(row) => LeafInput(row)
    case Node(l, r) => NodeInput(TreeHash(h, l), TreeHash(h, r))
  }

  predicate Perfect(t: Tree, p: nat) {
    match t
    case Leaf(_) => p == 0
    case Node(l, r) => p > 0 && Perfect(l, p - 1) && Perfect(r, p - 1)
  }

  function Flatten(t: Tree): (rows: seq<Bytes>)
    ensures rows != []
  {
    match t
    case Leaf(row) => [row]
    case Node(l, r) => Flatten(l) + Flatten(r)
  }

  /** The trees of the next level up. */
  function Up(ts: seq<Tree>): (next: seq<Tree>)
    ensures |ts| <= |next| + |next| <= |ts| + 1
  {
    if ts == [] then []
    else if |ts| == 1 then [Node(ts[0], ts[0])]
    else [Node(ts[0], ts[1])] + Up(ts[2..])
  }

  function Grow(ts: seq<Tree>): Tree
    requires ts != []
    decreases |ts|
  {
    if |ts| == 1 then ts[0] else Grow(Up(ts))
  }

  /** Levels that Grow adds above n trees. */
  function Levels(ts: seq<Tree>): nat
    requires ts != []
    decreases |ts|
  {
    if |ts| == 1 then 0 else 1 + Levels(Up(ts))
  }

  function LeafTrees(rows: seq<Bytes>): seq<Tree> {
    seq(|rows|, i requires 0 <= i < |rows| => Leaf(rows[i]))
  }

  function TreeOf(rows: seq<Bytes>): Tree
    requires rows != []
  {
    Grow(LeafTrees(rows))
  }

  function Height(rows: seq<Bytes>): nat
    requires rows != []
  {
    Levels(LeafTrees(rows))
  }

  /** The subtree reached from the root, and the hashes passed on the other side,
      listed from the bottom: bits are lowest first, so the last one is taken first. */
  function At(t: Tree, bits: seq<bool>): Tree
    requires Perfect(t, |bits|)
  {
    if bits == [] then t
    else
      var m := |bits| - 1;
      At(if bits[m] then t.right else t.left, bits[..m])
  }

  function Siblings(h: Hash, t: Tree, bits: seq<bool>): (path: seq<Digest>)
    requires Perfect(t, |bits|)
    ensures |path| == |bits|
  {
    if bits == [] then []
    else
      var m := |bits| - 1;
      if bits[m] then Siblings(h, t.right, bits[..m]) + [TreeHash(h, t.left)]
      else Siblings(h, t.left, bits[..m]) + [TreeHash(h, t.right)]
  }

  // ---------------------------------------------------- the code walks this tree

  predicate AllPerfect(ts: seq<Tree>, p: nat) {
    forall i :: 0 <= i < |ts| ==> Perfect(ts[i], p)
  }

  function Hashes(h: Hash, ts: seq<Tree>): seq<Digest> {
    seq(|ts|, i requires 0 <= i < |ts| => TreeHash(h, ts[i]))
  }

  lemma {:induction false} UpHashes(h: Hash, ts: seq<Tree>)
    ensures Hashes(h, Up(ts)) == NextLevel(h, Hashes(h, ts))
  {
    if |ts| > 1 {
      UpHashes(h, ts[2..]);
      assert Hashes(h, ts)[2..] == Hashes(h, ts[2..]);
      assert Hashes(h, Up(ts)) == [TreeHash(h, Node(ts[0], ts[1]))] + Hashes(h, Up(ts[2..]));
    }
  }

  lemma {:induction false} UpPerfect(ts: seq<Tree>, p: nat)
    requires AllPerfect(ts, p)
    ensures AllPerfect(Up(ts), p + 1)
  {
    if |ts| > 1 {
      UpPerfect(ts[2..], p);
    }
  }

  /** Tree i goes under node i / 2 of the next level, with its sibling beside it. */
  lemma {:induction false} UpAt(h: Hash, ts: seq<Tree>, i: nat)
    requires i < |ts|
    ensures i / 2 < |Up(ts)|
    ensures Up(ts)[i / 2].Node?
    ensures
      var n := Up(ts)[i / 2];
      var (own, other) := if i % 2 == 1 then (n.right, n.left) else (n.left, n.right);
      own == ts[i] && TreeHash(h, other) == SiblingOf(Hashes(h, ts), i)
  {
    if i >= 2 {
      UpAt(h, ts[2..], i - 2);
      assert i / 2 == (i - 2) / 2 + 1 && i % 2 == (i - 2) % 2;
    }
  }

  lemma {:induction false} GrowHash(h: Hash, ts: seq<Tree>, p: nat)
    requires ts != [] && AllPerfect(ts, p)
    ensures Reduce(h, Hashes(h, ts)) == TreeHash(h, Grow(ts))
    ensures Perfect(Grow(ts), p + Levels(ts))
    decreases |ts|
  {
    if |ts| > 1 {
      UpHashes(h, ts);
      UpPerfect(ts, p);
      GrowHash(h, Up(ts), p + 1);
    }
  }

  lemma BelowNode(h: Hash, n: Tree, low: seq<bool>, bit: bool)
    requires n.Node? && Perfect(n, |low| + 1)
    ensures
      var (own, other) := if bit then (n.right, n.left) else (n.left, n.right);
      && At(n, low + [bit]) == At(own, low)
      && Siblings(h, n, low + [bit]) == Siblings(h, own, low) + [TreeHash(h, other)]
  {
    assert (low + [bit])[..|low|] == low;
  }

  lemma PushBit(low: seq<bool>, x: nat, m: nat)
    ensures low + [x % 2 == 1] + LowBits(x / 2, m) == low + LowBits(x, m + 1)
  {}

  /** One level up: the node and its sibling are the children of node target / 2. */
  lemma GrowStep(h: Hash, ts: seq<Tree>, p: nat, target: nat, low: seq<bool>)
    requires |ts| > 1 && target < |ts| && AllPerfect(ts, p) && |low| == p
    ensures
      var bit, next := target % 2 == 1, Up(ts);
      var sibling := SiblingOf(Hashes(h, ts), target);
      && AllPerfect(next, p + 1) && target / 2 < |next| && |next| < |ts|
      && At(next[target / 2], low + [bit]) == At(ts[target], low)
      && Siblings(h, next[target / 2], low + [bit]) == Siblings(h, ts[target], low) + [sibling]
      && ProofPath(h, Hashes(h, ts), target) == [sibling] + ProofPath(h, Hashes(h, next), target / 2)
      && Grow(ts) == Grow(next) && Levels(ts) == Levels(next) + 1
      && low + LowBits(target, Levels(ts)) == low + [bit] + LowBits(target / 2, Levels(next))
  {
    var bit, next := target % 2 == 1, Up(ts);
    UpHashes(h, ts);
    UpPerfect(ts, p);
    UpAt(h, ts, target);
    BelowNode(h, next[target / 2], low, bit);
    PushBit(low, target, Levels(next));
  }

  /** Node `target` of a level is found under its grown tree at the bits of `target`. */
  lemma {:induction false} GrowAt(h: Hash, ts: seq<Tree>, p: nat, target: nat, low: seq<bool>)
    requires target < |ts| && AllPerfect(ts, p) && |low| == p
    ensures Perfect(Grow(ts), p + Levels(ts))
    ensures At(Grow(ts), low + LowBits(target, Levels(ts))) == At(ts[target], low)
    ensures Siblings(h, Grow(ts), low + LowBits(target, Levels(ts)))
            == Siblings(h, ts[target], low) + ProofPath(h, Hashes(h, ts), target)
    decreases |ts|
  {
    GrowHash(h, ts, p);
    if |ts| == 1 {
      assert low + [] == low;
    } else {
      var next := Up(ts);
      GrowStep(h, ts, p, target, low);
      GrowAt(h, next, p + 1, target / 2, low + [target % 2 == 1]);
      PushThenExtend(Siblings(h, ts[target], low), SiblingOf(Hashes(h, ts), target),
                     ProofPath(h, Hashes(h, next), target / 2));
    }
  }

  lemma HashesOfLeafTrees(h: Hash, rows: seq<Bytes>)
    ensures Hashes(h, LeafTrees(rows)) == Leaves(h, rows)
    ensures AllPerfect(LeafTrees(rows), 0)
  {}

  /** The root is the hash of the rows' tree, whose height is the same everywhere. */
  lemma RootIsTreeHash(h: Hash, rows: seq<Bytes>)
    requires rows != []
    ensures MerkleRoot(h, rows) == TreeHash(h, TreeOf(rows))
    ensures Perfect(TreeOf(rows), Height(rows))
  {
    HashesOfLeafTrees(h, rows);
    GrowHash(h, LeafTrees(rows), 0);
  }

  lemma IndexFindsRow(h: Hash, rows: seq<Bytes>, idx: nat)
    requires idx < |rows|
    ensures Perfect(TreeOf(rows), Height(rows))
    ensures At(TreeOf(rows), LowBits(idx, Height(rows))) == Leaf(rows[idx])
    ensures Siblings(h, TreeOf(rows), LowBits(idx, Height(rows))) == ProofPath(h, Leaves(h, rows), idx)
  {
    HashesOfLeafTrees(h, rows);
    GrowAt(h, LeafTrees(rows), 0, idx, []);
    assert [] + LowBits(idx, Height(rows)) == LowBits(idx, Height(rows));
  }

  // ------------------------------------------------------------- unpacking hashes

  lemma LeafInputInjective(a: Bytes, b: Bytes)
    requires LeafInput(a) == LeafInput(b)
    ensures a == b
  {
    assert LeafInput(a)[1..] == a && LeafInput(b)[1..] == b;
  }

  lemma NodeInputSplits(a: Bytes, b: Bytes)
    ensures var s := NodeInput(a, b); |s| == 1 + |a| + |b| && s[1..][..|a|] == a && s[1..][|a|..] == b
  {}

  /** A hashed pair of digests is told apart from every other pair with one half of
      digest size: that half fixes the size of the other. */
  lemma NodeInputInjective(a: Bytes, b: Bytes, c: Digest, d: Digest)
    requires NodeInput(a, b) == NodeInput(c, d) && (|a| == 32 || |b| == 32)
    ensures a == c && b == d
  {
    NodeInputSplits(a, b);
    NodeInputSplits(c, d);
  }

  lemma TagsDiffer(row: Bytes, a: Bytes, b: Bytes)
    ensures LeafInput(row) != NodeInput(a, b)
  {
    assert LeafInput(row)[0] != NodeInput(a, b)[0];
  }

  // ------------------------------------------------------------ proof soundness

  /** The string hashed in the last step of a climb. */
  function ClimbInput(h: Hash, rowHash: Bytes, bits: seq<bool>, path: seq<Bytes>): Bytes
    requires |bits| == |path|
  {
    if path == [] then LeafInput(rowHash)
    else
      var m := |path| - 1;
      var current := Climb(h, LeafHash(h, rowHash), bits[..m], path[..m]);
      if bits[m] then NodeInput(path[m], current) else NodeInput(current, path[m])
  }

  /** Walks an accepted climb and a tree down from their common root to the first
      pair of different strings with one hash. */
  function ClimbCollision(h: Hash, rowHash: Bytes, bits: seq<bool>, path: seq<Bytes>, t: Tree): Pair<Bytes>
    requires |bits| == |path|
  {
    var input := ClimbInput(h, rowHash, bits, path);
    if input != TreeInput(h, t) || path == [] || t.Leaf? then Pair(input, TreeInput(h, t))
    else
      var m := |path| - 1;
      ClimbCollision(h, rowHash, bits[..m], path[..m], if bits[m] then t.right else t.left)
  }

  /** A last step that hashes the string of a node starts from one child and takes the
      other beside it. */
  lemma LastStep(h: Hash, current: Digest, sibling: Bytes, bit: bool, l: Digest, r: Digest)
    requires (if bit then NodeInput(sibling, current) else NodeInput(current, sibling)) == NodeInput(l, r)
    ensures current == (if bit then r else l) && sibling == if bit then l else r
  {
    if bit {
      NodeInputInjective(sibling, current, l, r);
    } else {
      NodeInputInjective(current, sibling, l, r);
    }
  }

  /** A climb without steps. */
  lemma NoStepSound(h: Hash, rowHash: Bytes, t: Tree, p: nat)
    requires Perfect(t, p) && LeafHash(h, rowHash) == TreeHash(h, t)
    ensures IsCollision(h, Pair(LeafInput(rowHash), TreeInput(h, t))) || t == Leaf(rowHash)
  {
    match t
    case Leaf(row) =>
      if LeafInput(rowHash) == LeafInput(row) {
        LeafInputInjective(rowHash, row);
      }
    case Node(l, r) => TagsDiffer(rowHash, TreeHash(h, l), TreeHash(h, r));
  }

  /** The row found from the root by `bits`, with its siblings. */
  predicate Found(h: Hash, t: Tree, bits: seq<bool>, rowHash: Bytes, path: seq<Bytes>)
    requires Perfect(t, |bits|)
  {
    At(t, bits) == Leaf(rowHash) && path == Siblings(h, t, bits)
  }

  lemma FoundAbove(h: Hash, l: Tree, r: Tree, bits: seq<bool>, rowHash: Bytes, path: seq<Bytes>)
    requires bits != [] && |path| == |bits| && Perfect(Node(l, r), |bits|)
    requires
      var m := |bits| - 1;
      Found(h, if bits[m] then r else l, bits[..m], rowHash, path[..m]) && path[m] == TreeHash(h, if bits[m] then l else r)
    ensures Found(h, Node(l, r), bits, rowHash, path)
  {
    assert path == path[..|bits| - 1] + [path[|bits| - 1]];
  }

  /** The last step of a climb. */
  lemma ClimbStep(h: Hash, rowHash: Bytes, bits: seq<bool>, path: seq<Bytes>, t: Tree)
    requires |bits| == |path| && path != [] && ClimbInput(h, rowHash, bits, path) == TreeInput(h, t)
    ensures
      var m := |path| - 1;
      && t.Node?
      && Climb(h, LeafHash(h, rowHash), bits[..m], path[..m]) == TreeHash(h, if bits[m] then t.right else t.left)
      && path[m] == TreeHash(h, if bits[m] then t.left else t.right)
  {
    var m := |path| - 1;
    var current := Climb(h, LeafHash(h, rowHash), bits[..m], path[..m]);
    match t
    case Leaf(row) =>
      TagsDiffer(row, path[m], current);
      TagsDiffer(row, current, path[m]);
    case Node(l, r) => LastStep(h, current, path[m], bits[m], TreeHash(h, l), TreeHash(h, r));
  }

  lemma ClimbHashesInput(h: Hash, rowHash: Bytes, bits: seq<bool>, path: seq<Bytes>, t: Tree)
    requires |bits| == |path|
    ensures h(ClimbInput(h, rowHash, bits, path)) == Climb(h, LeafHash(h, rowHash), bits, path)
    ensures h(TreeInput(h, t)) == TreeHash(h, t)
  {}

  lemma {:induction false} ClimbSound(h: Hash, rowHash: Bytes, bits: seq<bool>, path: seq<Bytes>, t: Tree, p: nat)
    requires |bits| == |path| && Perfect(t, p)
    requires Climb(h, LeafHash(h, rowHash), bits, path) == TreeHash(h, t)
    ensures
      || IsCollision(h, ClimbCollision(h, rowHash, bits, path, t))
      || (|path| == p && Found(h, t, bits, rowHash, path))
    decreases |path|
  {
    if path == [] {
      NoStepSound(h, rowHash, t, p);
    } else if ClimbInput(h, rowHash, bits, path) != TreeInput(h, t) {
      ClimbHashesInput(h, rowHash, bits, path, t);
    } else {
      var m := |path| - 1;
      ClimbStep(h, rowHash, bits, path, t);
      ClimbSound(h, rowHash, bits[..m], path[..m], if bits[m] then t.right else t.left, p - 1);
      if m == p - 1 && Found(h, if bits[m] then t.right else t.left, bits[..m], rowHash, path[..m]) {
        FoundAbove(h, t.left, t.right, bits, rowHash, path);
      }
    }
  }

  lemma {:induction false} ClimbComplete(h: Hash, bits: seq<bool>, t: Tree, rowHash: Bytes)
    requires Perfect(t, |bits|) && At(t, bits) == Leaf(rowHash)
    ensures Climb(h, LeafHash(h, rowHash), bits, Siblings(h, t, bits)) == TreeHash(h, t)
  {
    if bits != [] {
      var m := |bits| - 1;
      var below := if bits[m] then t.right else t.left;
      var path := Siblings(h, below, bits[..m]);
      ClimbComplete(h, bits[..m], below, rowHash);
      assert Siblings(h, t, bits)[..m] == path;
    }
  }

  /** The row an index stands for, and its siblings, for every index at all. */
  function Genuine(h: Hash, rows: seq<Bytes>, idx: int): (Bytes, seq<Bytes>)
    requires rows != []
  {
    RootIsTreeHash(h, rows);
    var bits := LowBits(idx, Height(rows));
    AtIsLeaf(TreeOf(rows), bits);
    (At(TreeOf(rows), bits).row, Siblings(h, TreeOf(rows), bits))
  }

  lemma {:induction false} AtIsLeaf(t: Tree, bits: seq<bool>)
    requires Perfect(t, |bits|)
    ensures At(t, bits).Leaf?
  {
    if bits != [] {
      var m := |bits| - 1;
      AtIsLeaf(if bits[m] then t.right else t.left, bits[..m]);
    }
  }

  function ForgeryCollision(h: Hash, rows: seq<Bytes>, rowHash: Bytes, idx: int, path: seq<Bytes>): Pair<Bytes>
    requires rows != []
  {
    ClimbCollision(h, rowHash, LowBits(idx, |path|), path, TreeOf(rows))
  }

  /** Exactly which proofs a root accepts, for every index and every path.  Anything
      accepted beyond the genuine pair yields a hash collision. */
  lemma AcceptanceExact(h: Hash, rows: seq<Bytes>, rowHash: Bytes, idx: int, path: seq<Bytes>)
    requires rows != []
    ensures (rowHash, path) == Genuine(h, rows, idx) ==> Accepts(h, rowHash, idx, path, MerkleRoot(h, rows))
    ensures Accepts(h, rowHash, idx, path, MerkleRoot(h, rows)) ==>
              (rowHash, path) == Genuine(h, rows, idx) || IsCollision(h, ForgeryCollision(h, rows, rowHash, idx, path))
  {
    var bits := LowBits(idx, Height(rows));
    RootIsTreeHash(h, rows);
    AtIsLeaf(TreeOf(rows), bits);
    ClimbComplete(h, bits, TreeOf(rows), At(TreeOf(rows), bits).row);
    if Accepts(h, rowHash, idx, path, MerkleRoot(h, rows)) {
      ClimbSound(h, rowHash, LowBits(idx, |path|), path, TreeOf(rows), Height(rows));
    }
  }

  /** With its index in range, the genuine pair is the row at that index and the
      builder's proof for it. */
  lemma GenuineInRange(h: Hash, rows: seq<Bytes>, idx: nat)
    requires idx < |rows|
    ensures Genuine(h, rows, idx) == (rows[idx], ProofPath(h, Leaves(h, rows), idx))
    ensures |ProofPath(h, Leaves(h, rows), idx)| == Height(rows)
  {
    IndexFindsRow(h, rows, idx);
  }

  /** Position binding: an accepted row is the row at its index, and its path consists of
      the genuine siblings, one digest per level - whatever byte strings were offered. */
  lemma InclusionSound(h: Hash, rows: seq<Bytes>, rowHash: Bytes, idx: nat, path: seq<Bytes>)
    requires idx < |rows|
    requires Accepts(h, rowHash, idx, path, MerkleRoot(h, rows))
    ensures
      || (rowHash == rows[idx] && path == ProofPath(h, Leaves(h, rows), idx) && |path| == Height(rows))
      || IsCollision(h, ForgeryCollision(h, rows, rowHash, idx, path))
  {
    AcceptanceExact(h, rows, rowHash, idx, path);
    GenuineInRange(h, rows, idx);
  }

  /** Whatever the builder returns, the verifier accepts. */
  lemma InclusionComplete(h: Hash, rows: seq<Bytes>, idx: nat)
    requires idx < |rows|
    ensures Accepts(h, rows[idx], idx, ProofPath(h, Leaves(h, rows), idx), MerkleRoot(h, rows))
  {
    GenuineInRange(h, rows, idx);
    AcceptanceExact(h, rows, rows[idx], idx, ProofPath(h, Leaves(h, rows), idx));
  }

  lemma GenuineWraps(h: Hash, rows: seq<Bytes>, idx: int)
    requires rows != []
    ensures Genuine(h, rows, idx + Pow2(Height(rows))) == Genuine(h, rows, idx)
  {
    LowBitsWrap(idx, Height(rows));
  }

  /** An index with the genuine pair of one in range is accepted with its proof. */
  lemma AcceptedLike(h: Hash, rows: seq<Bytes>, idx: nat, other: int)
    requires idx < |rows| && Genuine(h, rows, other) == Genuine(h, rows, idx)
    ensures Accepts(h, rows[idx], other, ProofPath(h, Leaves(h, rows), idx), MerkleRoot(h, rows))
  {
    GenuineInRange(h, rows, idx);
    AcceptanceExact(h, rows, rows[idx], other, ProofPath(h, Leaves(h, rows), idx));
  }

  /** The verifier does not check that the index is in range: an index a whole tree width
      further on, or further back, is as good as the genuine one.  So the index of an
      accepted proof names its row only when it lies in 0..n-1. */
  lemma IndexOutOfRangeAccepted(h: Hash, rows: seq<Bytes>, idx: nat, other: int)
    requires idx < |rows|
    requires other == idx + Pow2(Height(rows)) || other == idx - Pow2(Height(rows))
    ensures Accepts(h, rows[idx], other, ProofPath(h, Leaves(h, rows), idx), MerkleRoot(h, rows))
  {
    GenuineWraps(h, rows, if other > idx then idx else other);
    AcceptedLike(h, rows, idx, other);
  }

  // ----------------------------------------------------------- what a root binds

  function TreeCollision(h: Hash, s: Tree, t: Tree): Pair<Bytes> {
    if TreeInput(h, s) != TreeInput(h, t) || s.Leaf? || t.Leaf? then Pair(TreeInput(h, s), TreeInput(h, t))
    else
      var c := TreeCollision(h, s.left, t.left);
      if IsCollision(h, c) then c else TreeCollision(h, s.right, t.right)
  }

  /** Trees of any shapes with one hash are one tree. */
  lemma {:induction false} TreesBind(h: Hash, s: Tree, t: Tree)
    requires TreeHash(h, s) == TreeHash(h, t)
    ensures s == t || IsCollision(h, TreeCollision(h, s, t))
  {
    match (s, t)
    case (Leaf(a), Leaf(b)) =>
      if LeafInput(a) == LeafInput(b) {
        LeafInputInjective(a, b);
      }
    case (Leaf(a), Node(l, r)) => TagsDiffer(a, TreeHash(h, l), TreeHash(h, r));
    case (Node(l, r), Leaf(b)) => TagsDiffer(b, TreeHash(h, l), TreeHash(h, r));
    case (Node(a, b), Node(l, r)) =>
      if TreeInput(h, s) == TreeInput(h, t) {
        NodeInputInjective(TreeHash(h, a), TreeHash(h, b), TreeHash(h, l), TreeHash(h, r));
        TreesBind(h, a, l);
        TreesBind(h, b, r);
      }
  }

  /** The rows as the tree repeats them, a power of two of them. */
  function Stretched(rows: seq<Bytes>): seq<Bytes> {
    if rows == [] then [] else Flatten(TreeOf(rows))
  }

  function RootInput(h: Hash, rows: seq<Bytes>): Bytes {
    if rows == [] then [LEAF_TAG] else TreeInput(h, TreeOf(rows))
  }

  function ListCollision(h: Hash, a: seq<Bytes>, b: seq<Bytes>): Pair<Bytes> {
    if a != [] && b != [] then TreeCollision(h, TreeOf(a), TreeOf(b))
    else Pair(RootInput(h, a), RootInput(h, b))
  }

  /** No rows, or one empty row: both hash a single zero byte. */
  predicate EmptyLike(rows: seq<Bytes>) { rows == [] || rows == [[]] }

  lemma OneRow(rows: seq<Bytes>)
    requires |rows| == 1
    ensures TreeOf(rows) == Leaf(rows[0])
  {}

  lemma RootHashesInput(h: Hash, rows: seq<Bytes>)
    ensures MerkleRoot(h, rows) == h(RootInput(h, rows))
    ensures RootInput(h, rows) == [LEAF_TAG] <==> EmptyLike(rows)
  {
    if rows != [] {
      RootIsTreeHash(h, rows);
      match TreeOf(rows)
      case Leaf(row) =>
        StretchedExtends(rows);
        assert rows == [row];
        assert LeafInput(row) == [LEAF_TAG] <==> row == [];
      case Node(l, r) =>
        if |rows| == 1 {
          OneRow(rows);
        }
    }
  }

  /** The lists that hash the same things. */
  predicate SameTree(a: seq<Bytes>, b: seq<Bytes>) {
    Stretched(a) == Stretched(b) || (EmptyLike(a) && EmptyLike(b))
  }

  /** Exactly which lists share a root: those the tree repeats to the same list, and no
      rows with one empty row. */
  lemma RootsEqualExact(h: Hash, a: seq<Bytes>, b: seq<Bytes>)
    ensures SameTree(a, b) ==> MerkleRoot(h, a) == MerkleRoot(h, b)
    ensures MerkleRoot(h, a) == MerkleRoot(h, b) ==> SameTree(a, b) || IsCollision(h, ListCollision(h, a, b))
  {
    RootHashesInput(h, a);
    RootHashesInput(h, b);
    if a != [] && b != [] {
      RootIsTreeHash(h, a);
      RootIsTreeHash(h, b);
      if Stretched(a) == Stretched(b) {
        PerfectBySize(TreeOf(a), Height(a), TreeOf(b), Height(b));
      } else if MerkleRoot(h, a) == MerkleRoot(h, b) {
        TreesBind(h, TreeOf(a), TreeOf(b));
      }
    }
  }

  lemma {:induction false} PerfectSize(t: Tree, p: nat)
    requires Perfect(t, p)
    ensures |Flatten(t)| == Pow2(p)
  {
    if t.Node? {
      PerfectSize(t.left, p - 1);
      PerfectSize(t.right, p - 1);
    }
  }

  /** A perfect tree is determined by its leaves. */
  lemma {:induction false} PerfectBySize(s: Tree, p: nat, t: Tree, q: nat)
    requires Perfect(s, p) && Perfect(t, q) && Flatten(s) == Flatten(t)
    ensures s == t
  {
    PerfectSize(s, p);
    PerfectSize(t, q);
    if p > 0 && q > 0 {
      PerfectSize(s.left, p - 1);
      PerfectSize(t.left, q - 1);
      assert Flatten(s)[..Pow2(p - 1)] == Flatten(s.left) && Flatten(t)[..Pow2(q - 1)] == Flatten(t.left);
      assert Flatten(s)[Pow2(p - 1)..] == Flatten(s.right) && Flatten(t)[Pow2(q - 1)..] == Flatten(t.right);
      PerfectBySize(s.left, p - 1, t.left, q - 1);
      PerfectBySize(s.right, p - 1, t.right, q - 1);
    }
  }

  function FlattenAll(ts: seq<Tree>): seq<Bytes> {
    if ts == [] then [] else Flatten(ts[0]) + FlattenAll(ts[1..])
  }

  lemma {:induction false} UpExtends(ts: seq<Tree>)
    ensures FlattenAll(ts) <= FlattenAll(Up(ts))
  {
    if |ts| > 1 {
      UpExtends(ts[2..]);
      assert FlattenAll(ts) == Flatten(ts[0]) + Flatten(ts[1]) + FlattenAll(ts[2..]) by {
        assert ts[1..][1..] == ts[2..];
      }
      assert FlattenAll(Up(ts)) == Flatten(ts[0]) + Flatten(ts[1]) + FlattenAll(Up(ts[2..]));
    }
  }

  lemma {:induction false} GrowExtends(ts: seq<Tree>)
    requires ts != []
    ensures FlattenAll(ts) <= Flatten(Grow(ts))
    decreases |ts|
  {
    if |ts| > 1 {
      UpExtends(ts);
      GrowExtends(Up(ts));
    }
  }

  lemma {:induction false} FlattenLeafTrees(rows: seq<Bytes>)
    ensures FlattenAll(LeafTrees(rows)) == rows
  {
    if rows != [] {
      FlattenLeafTrees(rows[1..]);
      assert LeafTrees(rows)[1..] == LeafTrees(rows[1..]);
    }
  }

  lemma StretchedExtends(rows: seq<Bytes>)
    ensures rows <= Stretched(rows)
  {
    if rows != [] {
      FlattenLeafTrees(rows);
      GrowExtends(LeafTrees(rows));
    }
  }

  function Last<T>(xs: seq<T>): T
    requires xs != []
  {
    xs[|xs| - 1]
  }

  lemma {:induction false} UpKeepsLast(ts: seq<Tree>)
    requires ts != []
    ensures FlattenAll(ts) != [] && FlattenAll(Up(ts)) != [] && Last(FlattenAll(Up(ts))) == Last(FlattenAll(ts))
    decreases |ts|
  {
    if |ts| == 1 {
      assert FlattenAll(ts[1..]) == [];
      assert FlattenAll(Up(ts)) == Flatten(ts[0]) + Flatten(ts[0]);
    } else {
      assert ts[1..][1..] == ts[2..];
      assert FlattenAll(ts) == Flatten(ts[0]) + Flatten(ts[1]) + FlattenAll(ts[2..]);
      assert FlattenAll(Up(ts)) == Flatten(ts[0]) + Flatten(ts[1]) + FlattenAll(Up(ts[2..]));
      if |ts| > 2 {
        UpKeepsLast(ts[2..]);
      }
    }
  }

  lemma {:induction false} GrowKeepsLast(ts: seq<Tree>)
    requires ts != []
    ensures FlattenAll(ts) != [] && Last(Flatten(Grow(ts))) == Last(FlattenAll(ts))
    decreases |ts|
  {
    if |ts| == 1 {
      assert FlattenAll(ts[1..]) == [];
    } else {
      UpKeepsLast(ts);
      GrowKeepsLast(Up(ts));
    }
  }

  /** Repetition keeps both ends of a list. */
  lemma StretchedKeepsEnds(rows: seq<Bytes>)
    requires rows != []
    ensures Stretched(rows) != []
    ensures Stretched(rows)[0] == rows[0] && Last(Stretched(rows)) == Last(rows)
  {
    StretchedExtends(rows);
    FlattenLeafTrees(rows);
    GrowKeepsLast(LeafTrees(rows));
  }

  /** The same first and the same last row; without rows, no rows or one empty row. */
  predicate SameEnds(a: seq<Bytes>, b: seq<Bytes>) {
    if EmptyLike(a) || EmptyLike(b) then EmptyLike(a) && EmptyLike(b)
    else a[0] == b[0] && Last(a) == Last(b)
  }

  lemma StretchedToEmptyRow(rows: seq<Bytes>)
    ensures Stretched(rows) == [[]] <==> rows == [[]]
  {
    StretchedExtends(rows);
    if rows == [[]] {
      OneRow(rows);
    }
  }

  /** Whatever their sizes, lists with one root have the same ends. */
  lemma RootBindsEnds(h: Hash, a: seq<Bytes>, b: seq<Bytes>)
    requires MerkleRoot(h, a) == MerkleRoot(h, b)
    ensures SameEnds(a, b) || IsCollision(h, ListCollision(h, a, b))
  {
    RootsEqualExact(h, a, b);
    StretchedToEmptyRow(a);
    StretchedToEmptyRow(b);
    if a != [] {
      StretchedKeepsEnds(a);
    }
    if b != [] {
      StretchedKeepsEnds(b);
    }
  }

  /** At one size a root determines the list. */
  lemma RootBindsAtEqualSize(h: Hash, a: seq<Bytes>, b: seq<Bytes>)
    requires |a| == |b| && MerkleRoot(h, a) == MerkleRoot(h, b)
    ensures a == b || IsCollision(h, ListCollision(h, a, b))
  {
    RootsEqualExact(h, a, b);
    StretchedExtends(a);
    StretchedExtends(b);
  }

  /** Across sizes it does not: an odd list and the same list with its last row
      twice have one root. */
  lemma RepeatedLastRowSameRoot(h: Hash, rows: seq<Bytes>)
    requires |rows| >= 3 && |rows| % 2 == 1
    ensures MerkleRoot(h, rows + [rows[|rows| - 1]]) == MerkleRoot(h, rows)
  {
    var longer := rows + [rows[|rows| - 1]];
    assert Leaves(h, longer) == Padded(Leaves(h, rows));
    PaddingIsPairing(h, Leaves(h, rows));
  }

  // --------------------------------------------------------- section 2.1 of RFC 6962

  /** Exponent of the largest power of two below n, searching up from e. */
  function SplitExponent(n: nat, e: nat): (s: nat)
    requires Pow2(e) < n
    ensures Pow2(s) < n <= Pow2(s + 1)
    decreases n - e
  {
    if n <= Pow2(e + 1) then e
    else
      Pow2Exceeds(e + 1);
      SplitExponent(n, e + 1)
  }

  /** MTH, in the bytes of the RFC: the hash of the empty string, of 0x00 and a row, or of
      0x01 and two halves, split at the largest power of two smaller than the size. */
  function Mth(h: Hash, rows: seq<Bytes>): Digest
    decreases |rows|
  {
    if rows == [] then h([])
    else if |rows| == 1 then h([0] + rows[0])
    else
      var k := Pow2(SplitExponent(|rows|, 0));
      h([1] + Mth(h, rows[..k]) + Mth(h, rows[k..]))
  }

  /** Where the code leaves the RFC on purpose: an empty list hashes a zero byte. */
  lemma EmptyRootExact(h: Hash)
    ensures MerkleRoot(h, []) == h([0])
    ensures Mth(h, []) == h([])
  {}

  function MthTree(rows: seq<Bytes>): (t: Tree)
    requires rows != []
    ensures Flatten(t) == rows
    decreases |rows|
  {
    if |rows| == 1 then Leaf(rows[0])
    else
      var k := Pow2(SplitExponent(|rows|, 0));
      Node(MthTree(rows[..k]), MthTree(rows[k..]))
  }

  lemma {:induction false} MthIsTreeHash(h: Hash, rows: seq<Bytes>)
    requires rows != []
    ensures Mth(h, rows) == TreeHash(h, MthTree(rows))
    decreases |rows|
  {
    if |rows| > 1 {
      var k := Pow2(SplitExponent(|rows|, 0));
      MthIsTreeHash(h, rows[..k]);
      MthIsTreeHash(h, rows[k..]);
    }
  }

  lemma {:induction false} SplitOfPow2(p: nat)
    requires p > 0
    ensures Pow2(0) < Pow2(p) && SplitExponent(Pow2(p), 0) == p - 1
  {
    Pow2Monotonic(1, p);
    var s := SplitExponent(Pow2(p), 0);
    if s < p - 1 {
      Pow2Monotonic(s + 1, p - 1);
    } else if s > p - 1 {
      Pow2Monotonic(p, s);
    }
  }

  /** On a power of two of rows the RFC builds the perfect tree. */
  lemma {:induction false} MthTreeOfPerfect(t: Tree, p: nat)
    requires Perfect(t, p)
    ensures MthTree(Flatten(t)) == t
    decreases t
  {
    PerfectSize(t, p);
    if t.Node? {
      SplitOfPow2(p);
      PerfectSize(t.left, p - 1);
      MthTreeOfPerfect(t.left, p - 1);
      MthTreeOfPerfect(t.right, p - 1);
      assert Flatten(t)[..Pow2(p - 1)] == Flatten(t.left) && Flatten(t)[Pow2(p - 1)..] == Flatten(t.right);
    }
  }

  /** The code's root is the RFC's hash of the stretched list, at every size. */
  lemma RootIsMthOfStretched(h: Hash, rows: seq<Bytes>)
    requires rows != []
    ensures MerkleRoot(h, rows) == Mth(h, Stretched(rows))
  {
    RootIsTreeHash(h, rows);
    MthTreeOfPerfect(TreeOf(rows), Height(rows));
    MthIsTreeHash(h, Stretched(rows));
  }

  lemma {:induction false} LevelsBounds(ts: seq<Tree>)
    requires ts != []
    ensures |ts| <= Pow2(Levels(ts))
    ensures |ts| > 1 ==> Pow2(Levels(ts) - 1) < |ts|
    decreases |ts|
  {
    if |ts| > 1 {
      LevelsBounds(Up(ts));
    }
  }

  lemma StretchedSize(rows: seq<Bytes>)
    requires rows != []
    ensures |Stretched(rows)| == Pow2(Height(rows))
  {
    HashesOfLeafTrees((x: Bytes) => seq(32, _ => 0), rows);
    GrowHash((x: Bytes) => seq(32, _ => 0), LeafTrees(rows), 0);
    PerfectSize(TreeOf(rows), Height(rows));
  }

  /** A list whose size is a power of two is not stretched, and no other is. */
  lemma StretchedExact(rows: seq<Bytes>, p: nat)
    requires rows != []
    ensures |rows| == Pow2(p) ==> Stretched(rows) == rows
    ensures Stretched(rows) == rows ==> |rows| == Pow2(Height(rows))
  {
    StretchedExtends(rows);
    StretchedSize(rows);
    LevelsBounds(LeafTrees(rows));
    var q := Height(rows);
    if |rows| == Pow2(p) {
      if p < q {
        Pow2Monotonic(p, q - 1);
        assert false;
      }
      Pow2Monotonic(q, p);
    }
  }

  ghost predicate IsPowerOfTwo(n: nat) {
    exists p: nat :: n == Pow2(p)
  }

  function RfcCollision(h: Hash, rows: seq<Bytes>): Pair<Bytes> {
    if rows == [] then Pair([LEAF_TAG], []) else TreeCollision(h, TreeOf(rows), MthTree(rows))
  }

  /** The root is the RFC's exactly when the number of rows is a power of two. */
  lemma RootMatchesRfcExact(h: Hash, rows: seq<Bytes>)
    ensures IsPowerOfTwo(|rows|) ==> MerkleRoot(h, rows) == Mth(h, rows)
    ensures MerkleRoot(h, rows) == Mth(h, rows) ==> IsPowerOfTwo(|rows|) || IsCollision(h, RfcCollision(h, rows))
  {
    if IsPowerOfTwo(|rows|) {
      var p: nat :| |rows| == Pow2(p);
      StretchedExact(rows, p);
      RootIsMthOfStretched(h, rows);
    } else if rows != [] && MerkleRoot(h, rows) == Mth(h, rows) {
      RootIsTreeHash(h, rows);
      MthIsTreeHash(h, rows);
      TreesBind(h, TreeOf(rows), MthTree(rows));
      StretchedExact(rows, 0);
    }
  }
}
