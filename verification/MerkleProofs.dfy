/** Membership proofs for a single leaf: building, checking, completeness and soundness. */
module MerkleProofs {
  import opened Wrappers
  import opened ChainTypes
  import opened MerkleTypes
  import opened Powers
  import opened MerkleTree

  // ----- Checking -----

  /** What is hashed to climb one level. */
  function StepInput(h: Digest32, node: LevelNode): seq<byte> {
    match node.hash
    case None => [INTERNAL_PREFIX] + BytesOf(h)
    case Some(x) =>
      if node.side == Left then [INTERNAL_PREFIX] + OrEmpty(Some(h)) + OrEmpty(Some(x))
      else [INTERNAL_PREFIX] + OrEmpty(Some(x)) + OrEmpty(Some(h))
  }

  /** The hash reached from `h` through the given levels, bottom up. */
  function Climb(H: Hash, h: Digest32, levels: seq<LevelNode>): Digest32 {
    if levels == [] then h
    else H(StepInput(Climb(H, h, levels[..|levels| - 1]), levels[|levels| - 1]))
  }

  predicate Valid(H: Hash, p: MerkleProof, expectedRoot: Digest32) {
    Climb(H, PrefixedHash(H, LEAF_PREFIX, p.leafData), p.levels) == expectedRoot
  }

  lemma {:induction false} ClimbFirst(H: Hash, h: Digest32, first: LevelNode, rest: seq<LevelNode>)
    ensures Climb(H, h, [first] + rest) == Climb(H, H(StepInput(h, first)), rest)
  {
    var all := [first] + rest;
    if rest == [] {
      assert all[..|all| - 1] == [];
    } else {
      assert all[..|all| - 1] == [first] + rest[..|rest| - 1];
      ClimbFirst(H, h, first, rest[..|rest| - 1]);
    }
  }

  // ----- Building -----

  function LevelNodeAt(nodes: seq<MerkleNode>, i: nat): LevelNode
    requires 1 <= i < |nodes| && |nodes| % 2 == 1
  {
    var sibling := GetSibling(i).value;
    LevelNode(nodes[sibling].GetHash(), if sibling == i + 1 then Left else Right)
  }

  /** The siblings met on the way from index `i` to the root. */
  function Path(nodes: seq<MerkleNode>, i: nat): seq<LevelNode>
    requires i < |nodes| && |nodes| % 2 == 1
  {
    if i == 0 then [] else [LevelNodeAt(nodes, i)] + Path(nodes, (i - 1) / 2)
  }

  function ProofByIndex(tree: Tree, leafIndex: nat): Option<MerkleProof>
    requires |tree.nodes| % 2 == 1 || tree.nodes == []
  {
    var i := leafIndex + tree.internalNodes;
    if i < |tree.nodes| && tree.nodes[i].Leaf? then Some(MerkleProof(tree.nodes[i].data, Path(tree.nodes, i))) else None
  }

  method BuildProof(tree: Tree, leafIndex: nat) returns (r: Option<MerkleProof>)
    requires |tree.nodes| % 2 == 1 || tree.nodes == []
    ensures r == ProofByIndex(tree, leafIndex)
  {
    var nodes := tree.nodes;
    var index := leafIndex + tree.internalNodes;
    if index >= |nodes| || !nodes[index].Leaf? { return None; }
    var leafData := nodes[index].data;
    var proofNodes: seq<LevelNode> := [];
    ghost var start := index;
    while index != 0
      invariant 0 <= index < |nodes|
      invariant Path(nodes, start) == proofNodes + Path(nodes, index)
    {
      var sibling := GetSibling(index).value;
      var side := if sibling == index + 1 then Left else Right;
      ghost var before := proofNodes;
      proofNodes := proofNodes + [LevelNode(nodes[sibling].GetHash(), side)];
      assert before + ([LevelNodeAt(nodes, index)] + Path(nodes, (index - 1) / 2))
          == before + [LevelNodeAt(nodes, index)] + Path(nodes, (index - 1) / 2);
      index := GetParent(index).value;
    }
    assert proofNodes + [] == proofNodes;
    r := Some(MerkleProof(leafData, proofNodes));
  }

  // ----- Completeness -----

  lemma IndexAndParent(d: nat, t: nat, q: nat)
    requires t < d && q < Pow2(d - t)
    ensures q / 2 < Pow2(d - (t + 1))
    ensures
      var i := Index(d, t, q);
      && i >= 1
      && (i - 1) / 2 == Index(d, t + 1, q / 2)
      && GetSibling(i) == Some(Index(d, t, if q % 2 == 0 then q + 1 else q - 1))
      && (GetSibling(i) == Some(i + 1) <==> q % 2 == 0)
  {
    ChildIndex(d, t + 1, q / 2);
  }

  /** Climbing one level of a path from a non-empty node gives its parent. */
  lemma StepGivesParent(H: Hash, leaves: seq<Digest32>, t: nat, q: nat)
    requires NodeHash(H, leaves, t, q).Some?
    ensures
      var sibling := NodeHash(H, leaves, t, if q % 2 == 0 then q + 1 else q - 1);
      NodeHash(H, leaves, t + 1, q / 2)
      == Some(H(StepInput(NodeHash(H, leaves, t, q).value, LevelNode(sibling, if q % 2 == 0 then Left else Right))))
  {
    hide NodeHash;
    NodeHashUnfolds(H, leaves, t + 1, q / 2);
    if q % 2 == 1 {
      if NodeHash(H, leaves, t, 2 * (q / 2)).None? {
        NoLeftGap(H, leaves, t, q / 2);
      }
    }
  }

  lemma SiblingInRange(d: nat, t: nat, q: nat)
    requires t < d && q < Pow2(d - t)
    ensures (if q % 2 == 0 then q + 1 else q - 1) < Pow2(d - t)
  {
    var half := Pow2(d - t - 1);
    assert Pow2(d - t) == 2 * half;
    hide Pow2;
  }

  lemma {:induction false} PathReachesTheRoot(H: Hash, leaves: seq<MerkleNode>, t: nat, q: nat)
    requires AllLeaves(leaves) && leaves != []
    requires t <= TreeDepth(leaves) && q < Pow2(TreeDepth(leaves) - t)
    requires NodeHash(H, HashesOf(leaves), t, q).Some?
    ensures
      var nodes, i := TreeOf(H, leaves).nodes, Index(TreeDepth(leaves), t, q);
      && i < |nodes| && |nodes| % 2 == 1
      && Climb(H, NodeHash(H, HashesOf(leaves), t, q).value, Path(nodes, i)) == RootHash(TreeOf(H, leaves))
    decreases TreeDepth(leaves) - t
  {
    hide NodeHash, TreeOf, HashesOf, Index, Climb, TreeDepth, StepInput, GetSibling;
    var d, hashes, nodes := TreeDepth(leaves), HashesOf(leaves), TreeOf(H, leaves).nodes;
    var i := Index(d, t, q);
    TreeNode(H, leaves, t, q);
    TreeHasOddLength(H, leaves);
    if t == d {
      assert i == 0 && Pow2(0) == 1 by { RootIndex(d, q); }
      assert Climb(H, NodeHash(H, hashes, t, q).value, []) == NodeHash(H, hashes, t, q).value by { ClimbNothing(H, NodeHash(H, hashes, t, q).value); }
    } else {
      IndexAndParent(d, t, q);
      SiblingInRange(d, t, q);
      var s := if q % 2 == 0 then q + 1 else q - 1;
      TreeNode(H, leaves, t, s);
      StepGivesParent(H, hashes, t, q);
      PathReachesTheRoot(H, leaves, t + 1, q / 2);
      assert GetSibling(i).value < |nodes| by { SiblingBelow(i, |nodes|); }
      ClimbFirst(H, NodeHash(H, hashes, t, q).value, LevelNodeAt(nodes, i), Path(nodes, (i - 1) / 2));
    }
  }

  lemma ClimbNothing(H: Hash, h: Digest32)
    ensures Climb(H, h, []) == h
  {
  }

  lemma RootIndex(d: nat, q: nat)
    requires q < Pow2(0)
    ensures Index(d, d, q) == 0 && Pow2(0) == 1
  {
  }

  lemma SiblingBelow(i: nat, n: nat)
    requires 1 <= i < n && n % 2 == 1
    ensures GetSibling(i).value < n
  {
  }

  lemma TreeHasOddLength(H: Hash, leaves: seq<MerkleNode>)
    requires AllLeaves(leaves)
    ensures leaves != [] ==> |TreeOf(H, leaves).nodes| % 2 == 1
    ensures leaves == [] ==> TreeOf(H, leaves).nodes == []
  {
    LayoutCanBeBuilt(H, leaves);
    if leaves != [] {
      SlotsFit(|leaves|);
    }
  }

  predicate MadeFromBytes(H: Hash, leaves: seq<MerkleNode>) {
    forall i :: 0 <= i < |leaves| ==> leaves[i].Leaf? && leaves[i] == FromBytes(H, leaves[i].data)
  }

  /** A leaf's proof exists, carries the leaf's data and is accepted against the root; no other index has one. */
  lemma ProofsAreComplete(H: Hash, leaves: seq<MerkleNode>, i: nat)
    requires MadeFromBytes(H, leaves)
    ensures |TreeOf(H, leaves).nodes| % 2 == 1 || TreeOf(H, leaves).nodes == []
    ensures
      var tree := TreeOf(H, leaves);
      match ProofByIndex(tree, i)
      case Some(p) => i < |leaves| && p.leafData == leaves[i].data && Valid(H, p, RootHash(tree))
      case None => i >= |leaves|
  {
    hide TreeOf, Path, Index, HashesOf, RootHash, Climb, NodeHash, TreeDepth, Pow2;
    TreeHasOddLength(H, leaves);
    if leaves != [] {
      LeafNodes(H, leaves, i);
      if i < |leaves| {
        LeafProof(H, leaves, i);
      }
    } else {
      assert ProofByIndex(TreeOf(H, leaves), i).None?;
    }
  }

  lemma LeafProof(H: Hash, leaves: seq<MerkleNode>, i: nat)
    requires MadeFromBytes(H, leaves) && i < |leaves|
    ensures
      var tree := TreeOf(H, leaves);
      && |tree.nodes| % 2 == 1 && i + tree.internalNodes < |tree.nodes|
      && Valid(H, MerkleProof(leaves[i].data, Path(tree.nodes, i + tree.internalNodes)), RootHash(tree))
  {
    hide TreeOf, Path, Index, HashesOf, RootHash, Climb, NodeHash, TreeDepth, Pow2;
    LeafNodes(H, leaves, i);
    assert i < Pow2(TreeDepth(leaves)) by { LeafInRange(leaves, i); }
    PathReachesTheRoot(H, leaves, 0, i);
  }

  lemma LeafInRange(leaves: seq<MerkleNode>, i: nat)
    requires i < |leaves|
    ensures i < Pow2(TreeDepth(leaves))
  {
    hide Depth, Pow2;
    SlotsFit(|leaves|);
  }

  lemma LayoutSlot(leaves: seq<MerkleNode>, i: nat)
    requires leaves != []
    ensures
      var base, idx := Layout(leaves), i + InnerNodes(|leaves|);
      && (i < |leaves| ==> idx < |base| && base[idx] == leaves[i])
      && (i >= |leaves| && idx < |base| ==> base[idx] == EmptyNode)
      && 2 * idx + 2 >= |base|
  {
    hide Depth, Pow2, LeafSlots, InnerNodes;
    SlotsFit(|leaves|);
  }

  /** What the heap holds in the leaf slots. */
  lemma LeafNodes(H: Hash, leaves: seq<MerkleNode>, i: nat)
    requires AllLeaves(leaves) && leaves != []
    ensures
      var tree := TreeOf(H, leaves);
      var idx := i + tree.internalNodes;
      && idx == Index(TreeDepth(leaves), 0, i)
      && (i < |leaves| ==> idx < |tree.nodes| && tree.nodes[idx] == leaves[i])
      && (i >= |leaves| && idx < |tree.nodes| ==> tree.nodes[idx] == EmptyNode)
    ensures i < |leaves| ==> NodeHash(H, HashesOf(leaves), 0, i) == Some(leaves[i].hash)
  {
    hide HeapNode, Depth, Layout, Pow2, LeafSlots;
    var base, idx := Layout(leaves), i + InnerNodes(|leaves|);
    LayoutSlot(leaves, i);
    if idx < |base| {
      HeapUnfolds(H, base, idx);
    }
  }

  // ----- What a proof holds -----

  function Sib(q: nat): nat {
    if q % 2 == 0 then q + 1 else q - 1
  }

  /** The position of the ancestor `s` levels up. */
  function AncestorOf(q: nat, s: nat): nat {
    if s == 0 then q else AncestorOf(q / 2, s - 1)
  }

  /** What a path holds where it passes node `(t, q)`: the sibling, and on which side of it the node is. */
  function PassedAt(H: Hash, leaves: seq<Digest32>, t: nat, q: nat): LevelNode {
    LevelNode(NodeHash(H, leaves, t, Sib(q)), if q % 2 == 0 then Left else Right)
  }

  lemma {:induction false} PathLength(d: nat, nodes: seq<MerkleNode>, t: nat, q: nat)
    requires t <= d && q < Pow2(d - t) && |nodes| % 2 == 1 && Index(d, t, q) < |nodes|
    ensures |Path(nodes, Index(d, t, q))| == d - t
    decreases d - t
  {
    if t == d {
      assert Index(d, t, q) == 0;
    } else {
      IndexAndParent(d, t, q);
      hide Index, Pow2;
      PathLength(d, nodes, t + 1, q / 2);
    }
  }

  lemma ParentIsNode(H: Hash, leaves: seq<Digest32>, t: nat, q: nat)
    requires NodeHash(H, leaves, t, q).Some?
    ensures NodeHash(H, leaves, t + 1, q / 2).Some?
  {
    hide NodeHash;
    StepGivesParent(H, leaves, t, q);
  }

  /** The path from node `(t, q)` passes its ancestors. */
  lemma {:induction false} PathAt(H: Hash, leaves: seq<MerkleNode>, t: nat, q: nat, s: nat)
    requires AllLeaves(leaves) && leaves != []
    requires t + s < TreeDepth(leaves) && q < Pow2(TreeDepth(leaves) - t)
    requires NodeHash(H, HashesOf(leaves), t, q).Some?
    ensures
      var nodes, i := TreeOf(H, leaves).nodes, Index(TreeDepth(leaves), t, q);
      && i < |nodes| && |nodes| % 2 == 1
      && |Path(nodes, i)| == TreeDepth(leaves) - t
      && Path(nodes, i)[s] == PassedAt(H, HashesOf(leaves), t + s, AncestorOf(q, s))
    decreases s
  {
    hide NodeHash, TreeOf, HashesOf, Index, TreeDepth, GetSibling, Climb, RootHash;
    var d, hashes, nodes := TreeDepth(leaves), HashesOf(leaves), TreeOf(H, leaves).nodes;
    var i := Index(d, t, q);
    PathReachesTheRoot(H, leaves, t, q);
    PathLength(d, nodes, t, q);
    IndexAndParent(d, t, q);
    if s == 0 {
      SiblingInRange(d, t, q);
      TreeNode(H, leaves, t, Sib(q));
      assert GetSibling(i).value < |nodes| by { SiblingBelow(i, |nodes|); }
      assert Path(nodes, i)[0] == LevelNodeAt(nodes, i);
    } else {
      hide Pow2;
      ParentIsNode(H, hashes, t, q);
      PathAt(H, leaves, t + 1, q / 2, s - 1);
      assert Path(nodes, i) == [LevelNodeAt(nodes, i)] + Path(nodes, (i - 1) / 2);
    }
  }

  /** The proof of leaf `i`: one level per level of the tree, with the sibling of each ancestor and the ancestor's side. */
  lemma ProofLevels(H: Hash, leaves: seq<MerkleNode>, i: nat, s: nat)
    requires MadeFromBytes(H, leaves) && i < |leaves| && s < TreeDepth(leaves)
    ensures |TreeOf(H, leaves).nodes| % 2 == 1 && ProofByIndex(TreeOf(H, leaves), i).Some?
    ensures
      var p := ProofByIndex(TreeOf(H, leaves), i).value;
      |p.levels| == TreeDepth(leaves) && p.levels[s] == PassedAt(H, HashesOf(leaves), s, AncestorOf(i, s))
  {
    hide TreeOf, Path, Index, HashesOf, NodeHash, TreeDepth, Pow2;
    LeafNodes(H, leaves, i);
    assert i < Pow2(TreeDepth(leaves)) by { LeafInRange(leaves, i); }
    PathAt(H, leaves, 0, i, s);
  }

  // ----- Small trees, byte for byte -----

  function LeafHash(H: Hash, data: seq<byte>): Digest32 {
    H([0] + data)
  }

  lemma LeafHashes(H: Hash, leaves: seq<MerkleNode>)
    requires MadeFromBytes(H, leaves)
    ensures forall i :: 0 <= i < |leaves| ==> HashesOf(leaves)[i] == LeafHash(H, leaves[i].data)
  {
  }

  lemma SmallDepth(n: nat)
    requires 1 <= n <= 4
    ensures Depth(LeafSlots(n)) == if n <= 2 then 1 else 2
  {
    assert LeafSlots(n) == if n <= 2 then 2 else 4;
    assert Depth(1) == 0 && Depth(2) == 1 && Depth(4) == 2;
  }

  /** One leaf is hashed once more, alone. */
  lemma RootOfOne(H: Hash, leaves: seq<MerkleNode>)
    requires MadeFromBytes(H, leaves) && |leaves| == 1
    ensures RootHash(TreeOf(H, leaves)) == H([1] + BytesOf(LeafHash(H, leaves[0].data)))
  {
    hide TreeOf, RootHash, BytesOf;
    SmallDepth(1);
    RootNode(H, leaves);
    LeafHashes(H, leaves);
    NodeHashUnfolds(H, HashesOf(leaves), 1, 0);
  }

  /** Three leaves: the pair on the left, the single one on the right. */
  lemma RootOfThree(H: Hash, leaves: seq<MerkleNode>)
    requires MadeFromBytes(H, leaves) && |leaves| == 3
    ensures
      var pair := H([1] + BytesOf(LeafHash(H, leaves[0].data)) + BytesOf(LeafHash(H, leaves[1].data)));
      var single := H([1] + BytesOf(LeafHash(H, leaves[2].data)));
      RootHash(TreeOf(H, leaves)) == H([1] + BytesOf(pair) + BytesOf(single))
  {
    hide TreeOf, RootHash, BytesOf, NodeHash;
    var hashes := HashesOf(leaves);
    SmallDepth(3);
    RootNode(H, leaves);
    LeafHashes(H, leaves);
    NodeHashUnfolds(H, hashes, 2, 0);
    NodeHashUnfolds(H, hashes, 1, 0);
    NodeHashUnfolds(H, hashes, 1, 1);
    LeavesOfThree(H, hashes);
  }

  lemma LeavesOfThree(H: Hash, hashes: seq<Digest32>)
    requires |hashes| == 3
    ensures NodeHash(H, hashes, 0, 0) == Some(hashes[0]) && NodeHash(H, hashes, 0, 1) == Some(hashes[1])
    ensures NodeHash(H, hashes, 0, 2) == Some(hashes[2]) && NodeHash(H, hashes, 0, 3) == None
  {
  }

  // ----- Soundness -----

  /** What is hashed to give node `(t, q)`. */
  function NodeInput(H: Hash, leaves: seq<MerkleNode>, t: nat, q: nat): seq<byte>
    requires AllLeaves(leaves)
  {
    if t == 0 then (if q < |leaves| then [LEAF_PREFIX] + leaves[q].data else [])
    else InnerInput(NodeHash(H, HashesOf(leaves), t - 1, 2 * q), NodeHash(H, HashesOf(leaves), t - 1, 2 * q + 1))
  }

  function InnerInput(left: Option<Digest32>, right: Option<Digest32>): seq<byte> {
    [INTERNAL_PREFIX] + OrEmpty(left) + OrEmpty(right)
  }

  lemma NodeIsHashOfInput(H: Hash, leaves: seq<MerkleNode>, t: nat, q: nat)
    requires MadeFromBytes(H, leaves)
    requires NodeHash(H, HashesOf(leaves), t, q).Some?
    ensures NodeHash(H, HashesOf(leaves), t, q) == Some(H(NodeInput(H, leaves, t, q)))
    ensures t > 0 ==> NodeHash(H, HashesOf(leaves), t - 1, 2 * q).Some?
  {
    var hashes := HashesOf(leaves);
    NodeHashUnfolds(H, hashes, t, q);
    if t > 0 {
      hide NodeHash;
      var l := NodeHash(H, hashes, t - 1, 2 * q);
      assert l.Some?;
      assert [INTERNAL_PREFIX] + OrEmpty(l) + [] == [INTERNAL_PREFIX] + OrEmpty(l);
    }
  }

  /** Inner inputs determine the hashes they were made of, up to which side a lone one was on. */
  lemma InnerInputSplits(a: Option<Digest32>, b: Option<Digest32>, l: Option<Digest32>, r: Option<Digest32>)
    requires InnerInput(a, b) == InnerInput(l, r)
    requires l.Some? && (a.Some? || b.Some?)
    ensures a.Some? ==> a == l
    ensures b.Some? ==> b == if a.Some? then r else l
    ensures a.None? || b.None? ==> r.None?
  {
    hide BytesOf;
    var x, y := InnerInput(a, b), InnerInput(l, r);
    assert y[1..33] == BytesOf(l.value);
    if a.Some? {
      assert x[1..33] == BytesOf(a.value);
      BytesOfInjective(a.value, l.value);
      if b.Some? {
        assert |y| == 65;
        assert x[33..] == BytesOf(b.value);
        assert y[33..] == BytesOf(r.value);
        BytesOfInjective(b.value, r.value);
      }
    } else {
      assert x[1..33] == BytesOf(b.value);
      BytesOfInjective(b.value, l.value);
    }
  }

  /** No input that the tree hashes collides with `input`. */
  ghost predicate NoCollisionWith(H: Hash, leaves: seq<MerkleNode>, input: seq<byte>)
    requires AllLeaves(leaves)
  {
    forall t: nat, q: nat ::
      t <= TreeDepth(leaves) && NodeHash(H, HashesOf(leaves), t, q).Some? && H(NodeInput(H, leaves, t, q)) == H(input)
      ==> NodeInput(H, leaves, t, q) == input
  }

  /** `h` is the hash of some node of the tree. */
  ghost predicate IsNodeHash(H: Hash, leaves: seq<MerkleNode>, h: Digest32)
    requires AllLeaves(leaves)
  {
    exists t: nat, q: nat :: t <= TreeDepth(leaves) && NodeHash(H, HashesOf(leaves), t, q) == Some(h)
  }

  /** If an inner input hashes to a node of the tree, its parts are nodes of the tree. */
  lemma PartsAreNodes(H: Hash, leaves: seq<MerkleNode>, a: Option<Digest32>, b: Option<Digest32>)
    requires MadeFromBytes(H, leaves) && (a.Some? || b.Some?)
    requires NoCollisionWith(H, leaves, InnerInput(a, b))
    requires IsNodeHash(H, leaves, H(InnerInput(a, b)))
    ensures a.Some? ==> IsNodeHash(H, leaves, a.value)
    ensures b.Some? ==> IsNodeHash(H, leaves, b.value)
  {
    hide NodeHash, InnerInput, HashesOf;
    var hashes := HashesOf(leaves);
    var t: nat, q: nat :| t <= TreeDepth(leaves) && NodeHash(H, hashes, t, q) == Some(H(InnerInput(a, b)));
    NodeIsHashOfInput(H, leaves, t, q);
    assert NodeInput(H, leaves, t, q) == InnerInput(a, b);
    NodeHashUnfolds(H, hashes, t, q);
    assert t > 0 by {
      InnerInputPrefix(a, b);
    }
    InnerInputSplits(a, b, NodeHash(H, hashes, t - 1, 2 * q), NodeHash(H, hashes, t - 1, 2 * q + 1));
  }

  lemma InnerInputPrefix(a: Option<Digest32>, b: Option<Digest32>)
    ensures InnerInput(a, b) != [] && InnerInput(a, b)[0] == INTERNAL_PREFIX
  {
  }

  /** What the proof hashes at step `j`: the leaf at 0, then one inner input per level. */
  function ProofInput(H: Hash, p: MerkleProof, j: nat): seq<byte>
    requires j <= |p.levels|
  {
    if j == 0 then [LEAF_PREFIX] + p.leafData
    else StepInput(Climb(H, PrefixedHash(H, LEAF_PREFIX, p.leafData), p.levels[..j - 1]), p.levels[j - 1])
  }

  ghost predicate NoCollisions(H: Hash, leaves: seq<MerkleNode>, p: MerkleProof)
    requires AllLeaves(leaves)
  {
    forall j :: 0 <= j <= |p.levels| ==> NoCollisionWith(H, leaves, ProofInput(H, p, j))
  }

  lemma StepInputIsInner(h: Digest32, node: LevelNode) returns (a: Option<Digest32>, b: Option<Digest32>)
    ensures StepInput(h, node) == InnerInput(a, b) && (a == Some(h) || b == Some(h))
  {
    match node.hash
    case None =>
      a, b := Some(h), None;
      assert [INTERNAL_PREFIX] + BytesOf(h) + [] == [INTERNAL_PREFIX] + BytesOf(h);
    case Some(x) =>
      if node.side == Left {
        a, b := Some(h), Some(x);
      } else {
        a, b := Some(x), Some(h);
      }
  }

  /** Every hash on the way of an accepted proof is a node of the tree. */
  lemma {:induction false} ClimbStaysInTree(H: Hash, leaves: seq<MerkleNode>, p: MerkleProof, j: nat)
    requires MadeFromBytes(H, leaves) && leaves != []
    requires Valid(H, p, RootHash(TreeOf(H, leaves))) && NoCollisions(H, leaves, p)
    requires j <= |p.levels|
    ensures IsNodeHash(H, leaves, Climb(H, PrefixedHash(H, LEAF_PREFIX, p.leafData), p.levels[..j]))
    decreases |p.levels| - j
  {
    hide IsNodeHash, NoCollisionWith, InnerInput, StepInput, TreeOf, RootHash;
    var leaf := PrefixedHash(H, LEAF_PREFIX, p.leafData);
    if j == |p.levels| {
      assert p.levels[..j] == p.levels;
      RootIsNode(H, leaves);
    } else {
      ClimbStaysInTree(H, leaves, p, j + 1);
      var h := Climb(H, leaf, p.levels[..j]);
      assert p.levels[..j + 1][..j] == p.levels[..j];
      assert ProofInput(H, p, j + 1) == StepInput(h, p.levels[j]);
      var a, b := StepInputIsInner(h, p.levels[j]);
      PartsAreNodes(H, leaves, a, b);
    }
  }

  lemma RootIsNode(H: Hash, leaves: seq<MerkleNode>)
    requires AllLeaves(leaves) && leaves != []
    ensures IsNodeHash(H, leaves, RootHash(TreeOf(H, leaves)))
  {
    hide NodeHash, TreeOf, TreeDepth;
    RootNode(H, leaves);
  }

  /** Without collisions, a proof accepted for the root of a non-empty tree carries the data of one of its leaves. */
  lemma ProofsAreSound(H: Hash, leaves: seq<MerkleNode>, p: MerkleProof)
    requires MadeFromBytes(H, leaves) && leaves != []
    requires Valid(H, p, RootHash(TreeOf(H, leaves))) && NoCollisions(H, leaves, p)
    ensures exists i :: 0 <= i < |leaves| && leaves[i].data == p.leafData
  {
    ClimbStaysInTree(H, leaves, p, 0);
    var hashes := HashesOf(leaves);
    assert p.levels[..0] == [];
    var leaf := [LEAF_PREFIX] + p.leafData;
    hide NodeHash, TreeOf;
    var t: nat, q: nat :| t <= TreeDepth(leaves) && NodeHash(H, hashes, t, q) == Some(H(leaf));
    NodeIsHashOfInput(H, leaves, t, q);
    assert NoCollisionWith(H, leaves, ProofInput(H, p, 0));
    assert NodeInput(H, leaves, t, q) == leaf;
    if t > 0 {
      InnerInputPrefix(NodeHash(H, hashes, t - 1, 2 * q), NodeHash(H, hashes, t - 1, 2 * q + 1));
      assert false;
    }
    NodeHashUnfolds(H, hashes, t, q);
    assert leaf[1..] == p.leafData;
    assert ([LEAF_PREFIX] + leaves[q].data)[1..] == leaves[q].data;
  }
}
