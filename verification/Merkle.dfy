/** Merkle roots: two reductions that compact a vector of nodes in place, level by
    level, against the recursive definition that splits at the largest power of two. */
module Merkle {
  import opened Bytes
  import opened Bits
  import opened LeftTree
  import opened Blake3Spec
  import opened Blake3Hasher
  import opened CryptoHash

  /** What an empty sequence of values yields. */
  function ZeroDigest(): Digest {
    seq(32, i => 0)
  }

  /** The digest of an inner node: the hash of its children's digests, left first. */
  function NodeDigest(m: Mode): (Digest, Digest) -> Digest {
    (l: Digest, r: Digest) => DigestOf(m, Concat(l, r))
  }

  function Concat(l: Digest, r: Digest): (b: Bytes)
    ensures |b| == 64
  {
    var x: Bytes := l;
    x + r
  }

  /** A value of the range: plain data, or a digest by its type. */
  datatype Value = Data(data: Bytes) | Sum(digest: Digest)

  function BytesOf(v: Value): Bytes {
    if v.Data? then v.data else v.digest
  }

  /** A range of plain data. */
  function AllData(bs: seq<Bytes>): (vs: seq<Value>)
    ensures |vs| == |bs| && forall i | 0 <= i < |bs| :: vs[i] == Data(bs[i])
  {
    seq(|bs|, i requires 0 <= i < |bs| => Data(bs[i]))
  }

  /** What a value contributes: itself when it is of the digest type and taken as hashed, else its hash. */
  function LeafDigest(m: Mode, hashed: bool, value: Value): Digest {
    if hashed && value.Sum? then value.digest else DigestOf(m, BytesOf(value))
  }

  function LeafDigests(m: Mode, hashed: bool, values: seq<Value>): (ds: seq<Digest>)
    ensures |ds| == |values|
  {
    seq(|values|, i requires 0 <= i < |values| => LeafDigest(m, hashed, values[i]))
  }

  /** The Merkle root by recursion on the largest power of two below the number of values. */
  function Root(m: Mode, hashed: bool, values: seq<Value>): Digest {
    if values == [] then ZeroDigest() else Tree(NodeDigest(m), LeafDigests(m, hashed, values))
  }

  /** No value yields zeros, and one value itself or its digest. */
  lemma RootOfOne(m: Mode, hashed: bool, data: Bytes, d: Digest)
    ensures |Root(m, hashed, [])| == 32 && forall i | 0 <= i < 32 :: Root(m, hashed, [])[i] == 0
    ensures Root(m, hashed, [Data(data)]) == Hash(m, data, 0, 32)
    ensures Root(m, true, [Sum(d)]) == d && Root(m, false, [Sum(d)]) == Hash(m, d, 0, 32)
  {
    hide Hash;
  }

  /** More values split at the largest power of two below their number, and the root is the digest of the two
      roots, left one first. */
  lemma RootSplit(m: Mode, hashed: bool, values: seq<Value>, k: nat)
    requires Pow2(k) < |values| <= 2 * Pow2(k)
    ensures var left: Bytes := Root(m, hashed, values[..Pow2(k)]);
      Root(m, hashed, values) == Hash(m, left + Root(m, hashed, values[Pow2(k)..]), 0, 32)
  {
    hide Hash, LeafDigest, Tree, Pow2;
    var p, ds := Pow2(k), LeafDigests(m, hashed, values);
    PowIsPow2(k);
    assert ds[..p] == LeafDigests(m, hashed, values[..p]) && ds[p..] == LeafDigests(m, hashed, values[p..]);
    TreeAt(NodeDigest(m), ds, p);
  }

  // ---------------------------------------------------------- digests only

  lemma TwoDigestsFit()
    ensures Pow2(64) > 64
  {
  }

  method CombineDigests(hasher: Hasher, l: Digest, r: Digest) returns (d: Digest)
    requires hasher.Valid()
    modifies hasher, hasher.chunk, hasher.chunk.buf, hasher.cvStack
    ensures hasher.Valid() && hasher.M() == old(hasher.M())
    ensures d == NodeDigest(hasher.M())(l, r) && (var left: Bytes := l; d == Hash(hasher.M(), left + r, 0, 32))
  {
    hide Pow2, Hasher.Valid, Hash;
    TwoDigestsFit();
    hasher.Reset();
    hasher.Update(l);
    hasher.Update(r);
    assert hasher.input == Concat(l, r);
    d := HasherFinalize(hasher);
  }

  /** One level, in place: the pairs of the first count nodes end up in the first (count + 1) / 2. */
  method ReduceLevel(hasher: Hasher, nodes: array<Digest>, count: nat) returns (next: nat)
    requires hasher.Valid() && 1 <= count <= nodes.Length
    requires (nodes as object) != hasher.chunk.buf && (nodes as object) != hasher.cvStack
    modifies hasher, hasher.chunk, hasher.chunk.buf, hasher.cvStack, nodes
    ensures hasher.Valid() && hasher.M() == old(hasher.M())
    ensures next == (count + 1) / 2
    ensures nodes[..next] == Pair(NodeDigest(hasher.M()), old(nodes[..count]))
  {
    hide NodeDigest, Hasher.Valid, Pair;
    ghost var m, level := hasher.M(), nodes[..count];
    ghost var paired := Pair(NodeDigest(m), level);
    next := 0;
    var index := 0;
    while index < count
      invariant index <= count && (index == 2 * next || (index == count && index == 2 * next - 1))
      invariant hasher.Valid() && hasher.M() == m
      invariant next <= (count + 1) / 2
      invariant forall i | 0 <= i < next :: nodes[i] == paired[i]
      invariant forall i | index <= i < count :: nodes[i] == level[i]
    {
      PairAt(NodeDigest(m), level, next);
      if index + 1 < count {
        var d := CombineDigests(hasher, nodes[index], nodes[index + 1]);
        index := index + 1;
        nodes[next] := d;
      } else {
        nodes[next] := nodes[index];
      }
      next := next + 1;
      index := index + 1;
    }
  }

  /** The root computed by repeated levels is the recursively defined one. */
  method MerkleRoot(hasher: Hasher, hashed: bool, values: seq<Value>) returns (root: Digest)
    requires hasher.Valid() && forall v | v in values :: |BytesOf(v)| < Pow2(64)
    modifies hasher, hasher.chunk, hasher.chunk.buf, hasher.cvStack
    ensures hasher.Valid() && hasher.M() == old(hasher.M())
    ensures root == Root(hasher.M(), hashed, values)
  {
    hide DigestOf, Pow2, NodeDigest, Pair, Hasher.Valid;
    if |values| == 0 {
      return ZeroDigest();
    }
    ghost var m := hasher.M();
    ghost var leaves := LeafDigests(m, hashed, values);
    var nodes := new Digest[|values|](i => ZeroDigest());
    for i := 0 to |values|
      invariant hasher.Valid() && hasher.M() == m
      invariant forall j | 0 <= j < i :: nodes[j] == leaves[j]
    {
      if hashed && values[i].Sum? {
        nodes[i] := values[i].digest;
      } else {
        var d := HashBytes(hasher, BytesOf(values[i]));
        nodes[i] := d;
      }
    }
    var count := nodes.Length;
    assert nodes[..count] == leaves;
    while count > 1
      invariant hasher.Valid() && hasher.M() == m
      invariant 1 <= count <= nodes.Length
      invariant Tree(NodeDigest(m), nodes[..count]) == Tree(NodeDigest(m), leaves)
    {
      PairKeepsTree(NodeDigest(m), nodes[..count]);
      count := ReduceLevel(hasher, nodes, count);
    }
    root := nodes[0];
  }

  // ------------------------------------------------------------- node tree

  /** An owned node; Null is a pointer that has been moved from. */
  datatype MerkleNode = Null | Node(left: MerkleNode, right: MerkleNode, hash: Digest)

  /** A node without children holds the digest of a value. */
  function LeafNode(d: Digest): MerkleNode {
    Node(Null, Null, d)
  }

  function Leaves(m: Mode, hashed: bool, values: seq<Value>): (ns: seq<MerkleNode>)
    ensures |ns| == |values|
  {
    seq(|values|, i requires 0 <= i < |values| => LeafNode(LeafDigest(m, hashed, values[i])))
  }

  predicate IsNode(n: MerkleNode) {
    n.Node? && ((n.left.Null? && n.right.Null?) || (IsNode(n.left) && IsNode(n.right)))
  }

  /** The digests at the leaves, from left to right. */
  function Frontier(n: MerkleNode): seq<Digest>
    requires IsNode(n)
  {
    if n.left.Null? then [n.hash] else Frontier(n.left) + Frontier(n.right)
  }

  /** Every inner node carries the combined digest of its children. */
  predicate WellHashed(m: Mode, n: MerkleNode)
    requires IsNode(n)
  {
    n.left.Null? ||
    (WellHashed(m, n.left) && WellHashed(m, n.right) && n.hash == NodeDigest(m)(n.left.hash, n.right.hash))
  }

  /** Every left subtree holds the largest power of two of leaves that leaves one for the right. */
  predicate LeftBalanced(n: MerkleNode)
    requires IsNode(n)
  {
    n.left.Null? ||
    (LeftBalanced(n.left) && LeftBalanced(n.right) &&
     |Frontier(n)| >= 2 && |Frontier(n.left)| == Floor2(|Frontier(n)| - 1))
  }

  /** Such a tree is determined by its frontier; its top digest is the recursively defined root. */
  lemma {:induction false} NodeTreeHash(m: Mode, n: MerkleNode)
    requires IsNode(n) && WellHashed(m, n) && LeftBalanced(n)
    ensures |Frontier(n)| >= 1 && n.hash == Tree(NodeDigest(m), Frontier(n))
  {
    hide NodeDigest, Floor2;
    if !n.left.Null? {
      var f, l, r := Frontier(n), Frontier(n.left), Frontier(n.right);
      NodeTreeHash(m, n.left);
      NodeTreeHash(m, n.right);
      assert f[..|l|] == l && f[|l|..] == r;
    }
  }

  function Join(m: Mode): (MerkleNode, MerkleNode) -> MerkleNode {
    (l: MerkleNode, r: MerkleNode) =>
      if l.Node? && r.Node? then Node(l, r, NodeDigest(m)(l.hash, r.hash)) else Null
  }

  ghost predicate Good(m: Mode, n: MerkleNode) {
    n.Node? && IsNode(n) && WellHashed(m, n) && LeftBalanced(n)
  }

  lemma LeafGood(m: Mode, h: Digest)
    ensures Good(m, LeafNode(h)) && Frontier(LeafNode(h)) == [h]
  {
  }

  lemma InnerNode(l: MerkleNode, r: MerkleNode, h: Digest)
    requires IsNode(l) && IsNode(r)
    ensures IsNode(Node(l, r, h)) && Frontier(Node(l, r, h)) == Frontier(l) + Frontier(r)
  {
  }

  lemma InnerHashed(m: Mode, l: MerkleNode, r: MerkleNode, h: Digest)
    requires IsNode(l) && IsNode(r) && WellHashed(m, l) && WellHashed(m, r) && h == NodeDigest(m)(l.hash, r.hash)
    ensures IsNode(Node(l, r, h)) && WellHashed(m, Node(l, r, h))
  {
    hide NodeDigest;
    InnerNode(l, r, h);
  }

  lemma InnerBalanced(l: MerkleNode, r: MerkleNode, h: Digest)
    requires IsNode(l) && IsNode(r) && LeftBalanced(l) && LeftBalanced(r)
    requires |Frontier(l)| + |Frontier(r)| >= 2 && |Frontier(l)| == Floor2(|Frontier(l)| + |Frontier(r)| - 1)
    ensures IsNode(Node(l, r, h)) && LeftBalanced(Node(l, r, h))
  {
    hide Floor2, IsPow2, Frontier;
    InnerNode(l, r, h);
  }

  /** Joining leaves by the recursive split makes such a tree over them. */
  lemma {:induction false} JoinedTree(m: Mode, hashed: bool, values: seq<Value>)
    requires values != []
    ensures Good(m, Tree(Join(m), Leaves(m, hashed, values)))
    ensures Frontier(Tree(Join(m), Leaves(m, hashed, values))) == LeafDigests(m, hashed, values)
    decreases |values|
  {
    hide NodeDigest, LeafDigest, Floor2, IsPow2, Tree, IsNode, Frontier, WellHashed, LeftBalanced;
    var xs, n := Leaves(m, hashed, values), |values|;
    if n == 1 {
      OneTree(Join(m), xs);
      LeafGood(m, xs[0].hash);
    } else {
      var p := Floor2(n - 1);
      JoinedTree(m, hashed, values[..p]);
      JoinedTree(m, hashed, values[p..]);
      assert xs[..p] == Leaves(m, hashed, values[..p]) && xs[p..] == Leaves(m, hashed, values[p..]);
      TreeAt(Join(m), xs, p);
      var l, r := Tree(Join(m), xs[..p]), Tree(Join(m), xs[p..]);
      InnerNode(l, r, NodeDigest(m)(l.hash, r.hash));
      InnerHashed(m, l, r, NodeDigest(m)(l.hash, r.hash));
      InnerBalanced(l, r, NodeDigest(m)(l.hash, r.hash));
      assert LeafDigests(m, hashed, values) ==
             LeafDigests(m, hashed, values[..p]) + LeafDigests(m, hashed, values[p..]);
    }
  }

  /** A new inner node that takes ownership of two nodes and hashes their digests. */
  method MakeNode(hasher: Hasher, l: MerkleNode, r: MerkleNode) returns (n: MerkleNode)
    requires hasher.Valid() && l.Node? && r.Node?
    modifies hasher, hasher.chunk, hasher.chunk.buf, hasher.cvStack
    ensures hasher.Valid() && hasher.M() == old(hasher.M())
    ensures n == Join(hasher.M())(l, r)
  {
    hide Hasher.Valid, NodeDigest;
    var d := CombineDigests(hasher, l.hash, r.hash);
    n := Node(l, r, d);
  }

  method JoinLevel(hasher: Hasher, nodes: array<MerkleNode>, count: nat) returns (next: nat)
    requires hasher.Valid() && 1 <= count <= nodes.Length
    requires (nodes as object) != hasher.chunk.buf && (nodes as object) != hasher.cvStack
    requires forall i | 0 <= i < count :: nodes[i].Node?
    modifies hasher, hasher.chunk, hasher.chunk.buf, hasher.cvStack, nodes
    ensures hasher.Valid() && hasher.M() == old(hasher.M())
    ensures next == (count + 1) / 2
    ensures nodes[..next] == Pair(Join(hasher.M()), old(nodes[..count]))
    ensures forall i | 0 <= i < next :: nodes[i].Node?
  {
    hide NodeDigest, Hasher.Valid, Pair;
    ghost var m, level := hasher.M(), nodes[..count];
    ghost var paired := Pair(Join(m), level);
    next := 0;
    var index := 0;
    while index < count
      invariant index <= count && (index == 2 * next || (index == count && index == 2 * next - 1))
      invariant hasher.Valid() && hasher.M() == m
      invariant next <= (count + 1) / 2
      invariant forall i | 0 <= i < next :: nodes[i] == paired[i] && nodes[i].Node?
      invariant forall i | index <= i < count :: nodes[i] == level[i]
    {
      PairAt(Join(m), level, next);
      var left := nodes[index];
      nodes[index] := Null;
      if index + 1 < count {
        index := index + 1;
        var right := nodes[index];
        nodes[index] := Null;
        var joined := MakeNode(hasher, left, right);
        nodes[next] := joined;
      } else {
        nodes[next] := left;
      }
      next := next + 1;
      index := index + 1;
    }
  }

  /** The tree of nodes: well hashed, left balanced, with the values' digests as its leaves, and with the same
      digest at its top that MerkleRoot computes. */
  method Create(hasher: Hasher, hashed: bool, values: seq<Value>) returns (root: MerkleNode)
    requires hasher.Valid() && forall v | v in values :: |BytesOf(v)| < Pow2(64)
    modifies hasher, hasher.chunk, hasher.chunk.buf, hasher.cvStack
    ensures hasher.Valid() && hasher.M() == old(hasher.M())
    ensures Good(hasher.M(), root) && root.hash == Root(hasher.M(), hashed, values)
    ensures values != [] ==> Frontier(root) == LeafDigests(hasher.M(), hashed, values)
  {
    hide DigestOf, Pow2, NodeDigest, Pair, Join, Hasher.Valid;
    if |values| == 0 {
      return LeafNode(ZeroDigest());
    }
    ghost var m := hasher.M();
    ghost var leaves := Leaves(m, hashed, values);
    var nodes := new MerkleNode[|values|](i => Null);
    for i := 0 to |values|
      invariant hasher.Valid() && hasher.M() == m
      invariant forall j | 0 <= j < i :: nodes[j] == leaves[j]
    {
      if hashed && values[i].Sum? {
        nodes[i] := LeafNode(values[i].digest);
      } else {
        var d := HashBytes(hasher, BytesOf(values[i]));
        nodes[i] := LeafNode(d);
      }
    }
    var count := nodes.Length;
    assert nodes[..count] == leaves;
    while count > 1
      invariant hasher.Valid() && hasher.M() == m
      invariant 1 <= count <= nodes.Length
      invariant forall i | 0 <= i < count :: nodes[i].Node?
      invariant Tree(Join(m), nodes[..count]) == Tree(Join(m), leaves)
    {
      PairKeepsTree(Join(m), nodes[..count]);
      count := JoinLevel(hasher, nodes, count);
    }
    root := nodes[0];
    JoinedTree(m, hashed, values);
    NodeTreeHash(m, root);
  }
}
