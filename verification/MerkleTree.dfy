/**
 * The Merkle tree: leaves padded to an even number, laid out at the end of a heap array, and hashed
 * upwards in place.  Nodes are also named by level and position: `(t, q)` is the `q`-th node from the
 * left, `t` levels above the leaves.
 */
module MerkleTree {
  import opened Wrappers
  import opened ChainTypes
  import opened MerkleTypes
  import opened Powers

  // ----- The recursive definition -----

  /** Parent of two siblings; an empty left sibling means an empty parent. */
  function Join(H: Hash, left: Option<Digest32>, right: Option<Digest32>): Option<Digest32> {
    match (left, right)
    case (Some(l), Some(r)) => Some(PrefixedHash2(H, INTERNAL_PREFIX, Some(l), Some(r)))
    case (Some(l), None) => Some(PrefixedHash(H, INTERNAL_PREFIX, BytesOf(l)))
    case (None, _) => None
  }

  /** Hash of node `(t, q)` over the given leaf hashes, padded with empty nodes on the right. */
  function NodeHash(H: Hash, leaves: seq<Digest32>, t: nat, q: nat): Option<Digest32> {
    if t == 0 then (if q < |leaves| then Some(leaves[q]) else None)
    else Join(H, NodeHash(H, leaves, t - 1, 2 * q), NodeHash(H, leaves, t - 1, 2 * q + 1))
  }

  lemma DoublePosition(t: nat, q: nat)
    ensures 2 * q * Pow2(t) == q * Pow2(t + 1)
  {
    assert q * (2 * Pow2(t)) == 2 * q * Pow2(t);
  }

  /** Empty nodes form a right-hand block on every level. */
  lemma {:induction false} EmptyNodesAreRightmost(H: Hash, leaves: seq<Digest32>, t: nat, q: nat)
    ensures NodeHash(H, leaves, t, q).None? <==> q * Pow2(t) >= |leaves|
  {
    if t > 0 {
      EmptyNodesAreRightmost(H, leaves, t - 1, 2 * q);
      DoublePosition(t - 1, q);
      hide Pow2;
    }
  }

  /** An empty left sibling never meets a non-empty right one. */
  lemma NoLeftGap(H: Hash, leaves: seq<Digest32>, t: nat, q: nat)
    requires NodeHash(H, leaves, t, 2 * q).None?
    ensures NodeHash(H, leaves, t, 2 * q + 1).None?
  {
    EmptyNodesAreRightmost(H, leaves, t, 2 * q);
    EmptyNodesAreRightmost(H, leaves, t, 2 * q + 1);
    assert (2 * q + 1) * Pow2(t) == 2 * q * Pow2(t) + Pow2(t);
  }

  // ----- Heap layout -----

  function GetParent(index: nat): Option<nat> {
    if index == 0 then None else Some((index - 1) / 2)
  }

  function GetSibling(index: nat): Option<nat> {
    if index == 0 then None
    else
      var parent := (index - 1) / 2;
      Some(if 2 * parent + 1 != index then 2 * parent + 1 else 2 * parent + 2)
  }

  /** The least `d` with `2^d >= n`. */
  function Depth(n: nat): (d: nat)
    ensures Pow2(d) >= n
    ensures n >= 2 ==> d >= 1 && Pow2(d - 1) < n
  {
    if n <= 1 then 0 else 1 + Depth((n + 1) / 2)
  }

  /** The number of leaf slots: the leaves, padded to an even number. */
  function LeafSlots(n: nat): (slots: nat)
    ensures slots == if n % 2 == 1 then n + 1 else n
  {
    2 * ((n + 1) / 2)
  }

  /** The number of inner nodes in front of the leaf slots. */
  function InnerNodes(n: nat): nat {
    Pow2(Depth(LeafSlots(n))) - 1
  }

  /** Leaves at the end of the heap array, everything else empty. */
  function Layout(leaves: seq<MerkleNode>): (base: seq<MerkleNode>)
    ensures |base| == InnerNodes(|leaves|) + LeafSlots(|leaves|)
  {
    var inner := InnerNodes(|leaves|);
    seq(inner + LeafSlots(|leaves|), i => if 0 <= i - inner < |leaves| then leaves[i - inner] else EmptyNode)
  }

  function Combine(H: Hash, left: MerkleNode, right: MerkleNode): MerkleNode {
    match Join(H, left.GetHash(), right.GetHash())
    case Some(h) => Node(h)
    case None => EmptyNode
  }

  /** The node the finished heap holds at index `i`. */
  function HeapNode(H: Hash, base: seq<MerkleNode>, i: nat): MerkleNode
    requires i < |base|
    decreases |base| - i
  {
    if 2 * i + 2 < |base| then Combine(H, HeapNode(H, base, 2 * i + 1), HeapNode(H, base, 2 * i + 2))
    else base[i]
  }

  /** Not an empty left child next to a non-empty right one. */
  ghost predicate NoGapAt(H: Hash, base: seq<MerkleNode>, i: nat) {
    2 * i + 2 < |base| && HeapNode(H, base, 2 * i + 1).EmptyNode? ==> HeapNode(H, base, 2 * i + 2).EmptyNode?
  }

  ghost predicate Gapless(H: Hash, base: seq<MerkleNode>) {
    forall i: nat :: NoGapAt(H, base, i)
  }

  lemma HeapUnfolds(H: Hash, base: seq<MerkleNode>, i: nat)
    requires i < |base|
    ensures 2 * i + 2 < |base|
            ==> HeapNode(H, base, i) == Combine(H, HeapNode(H, base, 2 * i + 1), HeapNode(H, base, 2 * i + 2))
    ensures 2 * i + 2 >= |base| ==> HeapNode(H, base, i) == base[i]
  {
  }

  method ParentNode(H: Hash, left: MerkleNode, right: MerkleNode) returns (node: MerkleNode)
    requires left.EmptyNode? ==> right.EmptyNode?
    ensures node == Combine(H, left, right)
  {
    match (left.GetHash(), right.GetHash()) {
      case (Some(l), Some(r)) => node := Node(PrefixedHash2(H, INTERNAL_PREFIX, Some(l), Some(r)));
      case (Some(l), None) => node := Node(PrefixedHash(H, INTERNAL_PREFIX, BytesOf(l)));
      case (None, None) => node := EmptyNode;
      case (None, Some(_)) => assert false;
    }
  }

  /** Hashes a heap array upwards in place. */
  method BuildNodes(H: Hash, nodes: array<MerkleNode>)
    requires nodes.Length % 2 == 1 || nodes.Length == 0
    requires Gapless(H, nodes[..])
    modifies nodes
    ensures forall i :: 0 <= i < nodes.Length ==> nodes[i] == HeapNode(H, old(nodes[..]), i)
  {
    hide HeapNode, Combine;
    ghost var base := nodes[..];
    var pair := nodes.Length - 2;
    forall i | 0 <= i < nodes.Length && 2 * i + 1 > pair
      ensures HeapNode(H, base, i) == base[i]
    {
      HeapUnfolds(H, base, i);
    }
    while pair >= 1
      invariant pair == -2 || (pair % 2 == 1 && -1 <= pair <= nodes.Length - 2)
      invariant forall i :: 0 <= i < nodes.Length && 2 * i + 1 > pair ==> nodes[i] == HeapNode(H, base, i)
      invariant forall i :: 0 <= i < nodes.Length && 2 * i + 1 <= pair ==> nodes[i] == base[i]
      decreases pair
    {
      var sibling := GetSibling(pair).value;
      var parent := GetParent(pair).value;
      assert sibling == pair + 1 && pair == 2 * parent + 1;
      assert NoGapAt(H, base, parent);
      HeapUnfolds(H, base, parent);
      var node := ParentNode(H, nodes[pair], nodes[sibling]);
      nodes[parent] := node;
      pair := pair - 2;
    }
  }

  // ----- The heap holds the recursive definition -----

  function HashesOf(leaves: seq<MerkleNode>): (hashes: seq<Digest32>)
    requires forall i :: 0 <= i < |leaves| ==> leaves[i].Leaf?
    ensures |hashes| == |leaves|
  {
    seq(|leaves|, i requires 0 <= i < |leaves| => leaves[i].hash)
  }

  /** Heap index of node `(t, q)` in a tree of depth `d`. */
  function Index(d: nat, t: nat, q: nat): nat
    requires t <= d
  {
    Pow2(d - t) - 1 + q
  }

  lemma ChildIndex(d: nat, t: nat, q: nat)
    requires 1 <= t <= d && q < Pow2(d - t)
    ensures Index(d, t - 1, 2 * q) == 2 * Index(d, t, q) + 1
    ensures Index(d, t - 1, 2 * q + 1) == 2 * Index(d, t, q) + 2
    ensures 2 * q + 1 < Pow2(d - (t - 1))
    ensures Index(d, t, q) < Pow2(d) - 1
  {
    Pow2Monotone(d - t + 1, d);
  }

  /** A heap array of depth `d` that holds nothing but the leaves. */
  ghost predicate IsLayout(base: seq<MerkleNode>, hashes: seq<Digest32>, d: nat) {
    && |base| % 2 == 1
    && Pow2(d) - 1 + |hashes| <= |base| < 2 * Pow2(d)
    && forall i :: 0 <= i < |base| ==>
      base[i].GetHash()
      == if 0 <= i - (Pow2(d) - 1) < |hashes| then Some(hashes[i - (Pow2(d) - 1)]) else None
  }

  /** Node `(t, q)` of the heap, if the array reaches that far, is node `(t, q)` of the definition; if not, that is empty. */
  lemma {:induction false} HeapIsTheTree(H: Hash, base: seq<MerkleNode>, hashes: seq<Digest32>, d: nat, t: nat, q: nat)
    requires IsLayout(base, hashes, d)
    requires t <= d && q < Pow2(d - t)
    ensures NodeHash(H, hashes, t, q)
            == if Index(d, t, q) < |base| then HeapNode(H, base, Index(d, t, q)).GetHash() else None
  {
    hide HeapNode, NodeHash, Pow2, Index;
    if t == 0 {
      assert Index(d, 0, q) == Pow2(d) - 1 + q by { LeafIndex(d, q); }
      NodeHashUnfolds(H, hashes, t, q);
      if Index(d, t, q) < |base| {
        HeapUnfolds(H, base, Index(d, t, q));
      }
    } else {
      var i := Index(d, t, q);
      ChildIndex(d, t, q);
      HeapIsTheTree(H, base, hashes, d, t - 1, 2 * q);
      HeapIsTheTree(H, base, hashes, d, t - 1, 2 * q + 1);
      NodeHashUnfolds(H, hashes, t, q);
      assert base[i].GetHash() == None;
      HeapUnfolds(H, base, i);
      hide IsLayout;
      if 2 * i + 2 < |base| {
        CombineIsJoin(H, HeapNode(H, base, 2 * i + 1), HeapNode(H, base, 2 * i + 2));
      }
    }
  }

  lemma LeafIndex(d: nat, q: nat)
    ensures Index(d, 0, q) == Pow2(d) - 1 + q
  {
  }

  lemma CombineIsJoin(H: Hash, left: MerkleNode, right: MerkleNode)
    ensures Combine(H, left, right).GetHash() == Join(H, left.GetHash(), right.GetHash())
  {
  }

  lemma NodeHashUnfolds(H: Hash, leaves: seq<Digest32>, t: nat, q: nat)
    ensures t == 0 ==> NodeHash(H, leaves, t, q) == if q < |leaves| then Some(leaves[q]) else None
    ensures t > 0 ==> NodeHash(H, leaves, t, q)
                      == Join(H, NodeHash(H, leaves, t - 1, 2 * q), NodeHash(H, leaves, t - 1, 2 * q + 1))
  {
  }

  /** The layout of a non-empty list of leaves. */
  lemma LayoutHoldsLeaves(leaves: seq<MerkleNode>)
    requires leaves != [] && forall i :: 0 <= i < |leaves| ==> leaves[i].Leaf?
    ensures IsLayout(Layout(leaves), HashesOf(leaves), Depth(LeafSlots(|leaves|)))
  {
    hide Depth, Pow2, LeafSlots, InnerNodes;
    SlotsFit(|leaves|);
    var base, hashes, inner := Layout(leaves), HashesOf(leaves), InnerNodes(|leaves|);
    forall i | 0 <= i < |base|
      ensures base[i].GetHash() == if 0 <= i - inner < |hashes| then Some(hashes[i - inner]) else None
    {
      assert base[i] == if 0 <= i - inner < |leaves| then leaves[i - inner] else EmptyNode;
    }
  }

  lemma SlotsFit(n: nat)
    requires n >= 1
    ensures Depth(LeafSlots(n)) >= 1 && n <= LeafSlots(n) <= Pow2(Depth(LeafSlots(n)))
    ensures InnerNodes(n) == Pow2(Depth(LeafSlots(n))) - 1
    ensures (InnerNodes(n) + LeafSlots(n)) % 2 == 1
  {
    hide Depth;
    var d, pairs := Depth(LeafSlots(n)), (n + 1) / 2;
    assert Pow2(d) == 2 * Pow2(d - 1);
    hide Pow2;
    OddSum(Pow2(d - 1), pairs);
  }

  lemma OddSum(a: nat, b: nat)
    ensures (2 * a - 1 + 2 * b) % 2 == 1
  {
    assert 2 * a - 1 + 2 * b == 2 * (a + b - 1) + 1;
  }

  /** Every heap index of a tree of depth `d` names a node. */
  lemma {:induction false} NodeOfIndex(d: nat, i: nat) returns (t: nat, q: nat)
    requires i < 2 * Pow2(d) - 1
    ensures t <= d && q < Pow2(d - t) && Index(d, t, q) == i
  {
    if i == 0 {
      t, q := d, 0;
    } else {
      var t', q' := NodeOfIndex(d, (i - 1) / 2);
      if t' == 0 {
        assert false;
      }
      ChildIndex(d, t', q');
      t := t' - 1;
      q := if i % 2 == 1 then 2 * q' else 2 * q' + 1;
    }
  }

  lemma LayoutIsGapless(H: Hash, base: seq<MerkleNode>, hashes: seq<Digest32>, d: nat)
    requires IsLayout(base, hashes, d)
    ensures Gapless(H, base)
  {
    hide HeapNode, NodeHash, Pow2, Index;
    forall i: nat
      ensures NoGapAt(H, base, i)
    {
      if 2 * i + 2 < |base| {
        var t, q := NodeOfIndex(d, i);
        assert t >= 1 by { InnerIsNotLeaf(d, t, q); }
        ChildIndex(d, t, q);
        HeapIsTheTree(H, base, hashes, d, t - 1, 2 * q);
        HeapIsTheTree(H, base, hashes, d, t - 1, 2 * q + 1);
        if HeapNode(H, base, 2 * i + 1).EmptyNode? {
          NoLeftGap(H, hashes, t - 1, q);
        }
      }
    }
  }

  lemma InnerIsNotLeaf(d: nat, t: nat, q: nat)
    requires t <= d && 2 * Index(d, t, q) + 2 < 2 * Pow2(d)
    ensures t >= 1
  {
  }

  // ----- The tree -----

  datatype Tree = Tree(nodes: seq<MerkleNode>, elementsHashIndex: map<Digest32, nat>, internalNodes: nat)

  predicate AllLeaves(leaves: seq<MerkleNode>) {
    forall i :: 0 <= i < |leaves| ==> leaves[i].Leaf?
  }

  /** Each leaf hash with the last position that carries it. */
  function HashIndex(leaves: seq<MerkleNode>): map<Digest32, nat>
    requires AllLeaves(leaves)
  {
    if leaves == [] then map[]
    else HashIndex(leaves[..|leaves| - 1])[leaves[|leaves| - 1].hash := |leaves| - 1]
  }

  /** A leaf's hash is indexed at the last leaf that carries it. */
  lemma {:induction false} HashIndexFinds(leaves: seq<MerkleNode>, i: nat)
    requires AllLeaves(leaves) && i < |leaves|
    ensures leaves[i].hash in HashIndex(leaves)
    ensures HashIndex(leaves)[leaves[i].hash] < |leaves|
    ensures leaves[HashIndex(leaves)[leaves[i].hash]].hash == leaves[i].hash
    ensures i <= HashIndex(leaves)[leaves[i].hash]
  {
    if i < |leaves| - 1 {
      HashIndexFinds(leaves[..|leaves| - 1], i);
    }
  }

  /** And no other hash is indexed. */
  lemma {:induction false} HashIndexOnly(leaves: seq<MerkleNode>, h: Digest32)
    requires AllLeaves(leaves) && h in HashIndex(leaves)
    ensures exists i :: 0 <= i < |leaves| && leaves[i].hash == h
  {
    var init, last := leaves[..|leaves| - 1], leaves[|leaves| - 1];
    if h != last.hash {
      HashIndexOnly(init, h);
      var i :| 0 <= i < |init| && init[i].hash == h;
      assert leaves[i].hash == h;
    }
  }

  function HeapOf(H: Hash, base: seq<MerkleNode>): (nodes: seq<MerkleNode>)
    ensures |nodes| == |base|
    ensures forall i :: 0 <= i < |base| ==> nodes[i] == HeapNode(H, base, i)
  {
    seq(|base|, i requires 0 <= i < |base| => HeapNode(H, base, i))
  }

  function TreeOf(H: Hash, leaves: seq<MerkleNode>): Tree
    requires AllLeaves(leaves)
  {
    Tree(HeapOf(H, Layout(leaves)), HashIndex(leaves), InnerNodes(|leaves|))
  }

  method IndexHashes(leaves: seq<MerkleNode>) returns (elementsHashIndex: map<Digest32, nat>)
    requires AllLeaves(leaves)
    ensures elementsHashIndex == HashIndex(leaves)
  {
    elementsHashIndex := map[];
    for i := 0 to |leaves|
      invariant elementsHashIndex == HashIndex(leaves[..i])
    {
      assert leaves[..i + 1][..i] == leaves[..i];
      elementsHashIndex := elementsHashIndex[leaves[i].hash := i];
    }
    assert leaves[..|leaves|] == leaves;
  }

  lemma LayoutBySplicing(leaves: seq<MerkleNode>, padded: seq<MerkleNode>)
    requires padded == if |leaves| % 2 == 1 then leaves + [EmptyNode] else leaves
    ensures |padded| == LeafSlots(|leaves|)
    ensures seq(Pow2(Depth(|padded|)) - 1, _ => EmptyNode) + padded == Layout(leaves)
  {
  }

  method NewTree(H: Hash, leaves: seq<MerkleNode>) returns (tree: Tree)
    requires AllLeaves(leaves)
    ensures tree == TreeOf(H, leaves)
  {
    hide HeapNode, HashIndex, Layout, Depth;
    var treeNodes := leaves;
    if |treeNodes| % 2 == 1 {
      treeNodes := treeNodes + [EmptyNode];
    }
    var elementsHashIndex := IndexHashes(leaves);
    var leafNodes := |treeNodes|;
    LayoutBySplicing(leaves, treeNodes);
    treeNodes := seq(Pow2(Depth(|treeNodes|)) - 1, _ => EmptyNode) + treeNodes;
    assert treeNodes == Layout(leaves);
    hide LeafSlots;
    var nodes := new MerkleNode[|treeNodes|](i requires 0 <= i < |treeNodes| => treeNodes[i]);
    assert nodes[..] == treeNodes;
    LayoutCanBeBuilt(H, leaves);
    BuildNodes(H, nodes);
    assert nodes[..] == HeapOf(H, treeNodes);
    tree := Tree(nodes[..], elementsHashIndex, nodes.Length - leafNodes);
  }

  lemma LayoutCanBeBuilt(H: Hash, leaves: seq<MerkleNode>)
    requires AllLeaves(leaves)
    ensures Gapless(H, Layout(leaves))
    ensures |Layout(leaves)| % 2 == 1 || |Layout(leaves)| == 0
  {
    if leaves != [] {
      LayoutHoldsLeaves(leaves);
      LayoutIsGapless(H, Layout(leaves), HashesOf(leaves), Depth(LeafSlots(|leaves|)));
    }
  }

  function RootHash(tree: Tree): Digest32 {
    if tree.nodes == [] || tree.nodes[0].EmptyNode? then 0 else tree.nodes[0].hash
  }

  function TreeDepth(leaves: seq<MerkleNode>): nat {
    Depth(LeafSlots(|leaves|))
  }

  /** Node `(t, q)` of the built tree. */
  lemma TreeNode(H: Hash, leaves: seq<MerkleNode>, t: nat, q: nat)
    requires AllLeaves(leaves) && leaves != []
    requires t <= TreeDepth(leaves) && q < Pow2(TreeDepth(leaves) - t)
    ensures
      var i, nodes := Index(TreeDepth(leaves), t, q), TreeOf(H, leaves).nodes;
      NodeHash(H, HashesOf(leaves), t, q) == if i < |nodes| then nodes[i].GetHash() else None
  {
    hide HeapNode, NodeHash, Index, Pow2, Layout, IsLayout, HashesOf;
    LayoutHoldsLeaves(leaves);
    HeapIsTheTree(H, Layout(leaves), HashesOf(leaves), TreeDepth(leaves), t, q);
  }

  /** The root is the node of the top level. */
  lemma RootNode(H: Hash, leaves: seq<MerkleNode>)
    requires AllLeaves(leaves) && leaves != []
    ensures NodeHash(H, HashesOf(leaves), TreeDepth(leaves), 0) == Some(RootHash(TreeOf(H, leaves)))
  {
    hide NodeHash, TreeOf, HashesOf, TreeDepth;
    var d := TreeDepth(leaves);
    TreeNode(H, leaves, d, 0);
    assert Index(d, d, 0) == 0 && 0 * Pow2(d) == 0;
    EmptyNodesAreRightmost(H, HashesOf(leaves), d, 0);
  }

  // ----- The root, by halves -----

  /** `len` leaf slots from `start` on. */
  function Slots(leaves: seq<Digest32>, start: nat, len: nat): (xs: seq<Option<Digest32>>)
    ensures |xs| == len
    ensures forall i :: 0 <= i < len ==> xs[i] == if start + i < |leaves| then Some(leaves[start + i]) else None
  {
    seq(len, i requires 0 <= i < len => if start + i < |leaves| then Some(leaves[start + i]) else None)
  }

  /** The Merkle root of `2^t` slots: join the roots of the two halves. */
  function MerkleRoot(H: Hash, xs: seq<Option<Digest32>>, t: nat): Option<Digest32>
    requires |xs| == Pow2(t)
  {
    if t == 0 then xs[0]
    else
      var half := Pow2(t - 1);
      Join(H, MerkleRoot(H, xs[..half], t - 1), MerkleRoot(H, xs[half..], t - 1))
  }

  lemma RootUnfolds(H: Hash, xs: seq<Option<Digest32>>, t: nat)
    requires t >= 1 && |xs| == Pow2(t)
    ensures |xs| == 2 * Pow2(t - 1)
    ensures MerkleRoot(H, xs, t)
            == Join(H, MerkleRoot(H, xs[..Pow2(t - 1)], t - 1), MerkleRoot(H, xs[Pow2(t - 1)..], t - 1))
  {
  }

  lemma SlotHalves(leaves: seq<Digest32>, start: nat, half: nat)
    ensures Slots(leaves, start, 2 * half)[..half] == Slots(leaves, start, half)
    ensures Slots(leaves, start, 2 * half)[half..] == Slots(leaves, start + half, half)
  {
  }

  lemma {:induction false} NodeIsRootOfItsSlots(H: Hash, leaves: seq<Digest32>, t: nat, q: nat, start: nat)
    requires start == q * Pow2(t)
    ensures NodeHash(H, leaves, t, q) == MerkleRoot(H, Slots(leaves, start, Pow2(t)), t)
  {
    if t > 0 {
      var half := Pow2(t - 1);
      assert start == 2 * q * half && start + half == (2 * q + 1) * half by { DoublePosition(t - 1, q); }
      assert Pow2(t) == 2 * half;
      hide NodeHash, MerkleRoot, Join, Slots, Pow2;
      NodeIsRootOfItsSlots(H, leaves, t - 1, 2 * q, start);
      NodeIsRootOfItsSlots(H, leaves, t - 1, 2 * q + 1, start + half);
      SlotHalves(leaves, start, half);
      RootUnfolds(H, Slots(leaves, start, 2 * half), t);
      NodeHashUnfolds(H, leaves, t, q);
    }
  }

  /** The in-place build yields the root of the recursive definition over the padded leaves. */
  lemma BuiltRoot(H: Hash, leaves: seq<MerkleNode>)
    requires AllLeaves(leaves) && leaves != []
    ensures
      var d := TreeDepth(leaves);
      MerkleRoot(H, Slots(HashesOf(leaves), 0, Pow2(d)), d) == Some(RootHash(TreeOf(H, leaves)))
  {
    hide NodeHash, MerkleRoot, TreeOf, TreeDepth, Slots;
    RootNode(H, leaves);
    assert 0 * Pow2(TreeDepth(leaves)) == 0;
    NodeIsRootOfItsSlots(H, HashesOf(leaves), TreeDepth(leaves), 0, 0);
  }
}
