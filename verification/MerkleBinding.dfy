/** A Merkle root fixes the leaves: two trees with the same root hold the same leaf data, as long as they do not collide. */
module MerkleBinding {
  import opened Wrappers
  import opened ChainTypes
  import opened MerkleTypes
  import opened Powers
  import opened MerkleTree
  import opened MerkleProofs

  ghost predicate IsNode(H: Hash, leaves: seq<MerkleNode>, t: nat, q: nat)
    requires AllLeaves(leaves)
  {
    t <= TreeDepth(leaves) && NodeHash(H, HashesOf(leaves), t, q).Some?
  }

  ghost predicate NodesDoNotCollide(H: Hash, a: seq<MerkleNode>, b: seq<MerkleNode>, t: nat, q: nat, u: nat, r: nat)
    requires AllLeaves(a) && AllLeaves(b)
  {
    IsNode(H, a, t, q) && IsNode(H, b, u, r) && H(NodeInput(H, a, t, q)) == H(NodeInput(H, b, u, r))
    ==> NodeInput(H, a, t, q) == NodeInput(H, b, u, r)
  }

  /** No two different inputs, one hashed by each tree, have the same hash. */
  ghost predicate TreesDoNotCollide(H: Hash, a: seq<MerkleNode>, b: seq<MerkleNode>)
    requires AllLeaves(a) && AllLeaves(b)
  {
    forall t: nat, q: nat, u: nat, r: nat :: NodesDoNotCollide(H, a, b, t, q, u, r)
  }

  predicate SameAt(a: seq<MerkleNode>, b: seq<MerkleNode>, i: nat)
    requires AllLeaves(a) && AllLeaves(b)
  {
    (i < |a| <==> i < |b|) && (i < |a| && i < |b| ==> a[i].data == b[i].data)
  }

  /** The two lists hold the same leaf, or none, at every position from `lo` up to `hi`. */
  ghost predicate SameLeaves(a: seq<MerkleNode>, b: seq<MerkleNode>, lo: nat, hi: nat)
    requires AllLeaves(a) && AllLeaves(b)
  {
    forall i: nat :: lo <= i < hi ==> SameAt(a, b, i)
  }

  /** The same leaves stand under node `(t, q)`. */
  ghost predicate SameUnder(a: seq<MerkleNode>, b: seq<MerkleNode>, t: nat, q: nat)
    requires AllLeaves(a) && AllLeaves(b)
  {
    assert q * Pow2(t) >= 0;
    SameLeaves(a, b, q * Pow2(t), q * Pow2(t) + Pow2(t))
  }

  lemma NodesHaveOneInput(H: Hash, a: seq<MerkleNode>, b: seq<MerkleNode>, t: nat, u: nat, q: nat)
    requires MadeFromBytes(H, a) && MadeFromBytes(H, b) && TreesDoNotCollide(H, a, b)
    requires IsNode(H, a, t, q) && IsNode(H, b, u, q)
    requires NodeHash(H, HashesOf(a), t, q) == NodeHash(H, HashesOf(b), u, q)
    ensures NodeInput(H, a, t, q) == NodeInput(H, b, u, q)
  {
    hide NodeHash, NodeInput, HashesOf;
    NodeIsHashOfInput(H, a, t, q);
    NodeIsHashOfInput(H, b, u, q);
    assert NodesDoNotCollide(H, a, b, t, q, u, q);
  }

  /** Equal inputs of inner nodes have equal children on both sides. */
  lemma ChildrenAgree(l: Option<Digest32>, r: Option<Digest32>, l': Option<Digest32>, r': Option<Digest32>)
    requires l.Some? && l'.Some? && InnerInput(l, r) == InnerInput(l', r')
    ensures l == l' && r == r'
  {
    InnerInputSplits(l, r, l', r');
    InnerInputSplits(l', r', l, r);
  }

  lemma LeafInputs(H: Hash, leaves: seq<MerkleNode>, t: nat, q: nat)
    requires AllLeaves(leaves) && NodeHash(H, HashesOf(leaves), t, q).Some?
    ensures NodeInput(H, leaves, t, q) != []
    ensures NodeInput(H, leaves, t, q)[0] == if t == 0 then LEAF_PREFIX else INTERNAL_PREFIX
    ensures t == 0 ==> q < |leaves| && NodeInput(H, leaves, t, q)[1..] == leaves[q].data
  {
    if t > 0 {
      hide NodeHash;
      InnerInputPrefix(NodeHash(H, HashesOf(leaves), t - 1, 2 * q), NodeHash(H, HashesOf(leaves), t - 1, 2 * q + 1));
    }
  }

  /** Nodes with the same hash at the same position stand on the same level over the same leaves. */
  lemma {:induction false} SameHashSameLeaves(H: Hash, a: seq<MerkleNode>, b: seq<MerkleNode>, t: nat, u: nat, q: nat)
    requires MadeFromBytes(H, a) && MadeFromBytes(H, b) && TreesDoNotCollide(H, a, b)
    requires IsNode(H, a, t, q) && IsNode(H, b, u, q)
    requires NodeHash(H, HashesOf(a), t, q) == NodeHash(H, HashesOf(b), u, q)
    ensures t == u && SameUnder(a, b, t, q)
  {
    hide NodeHash, HashesOf, InnerInput, TreesDoNotCollide, SameUnder;
    var ha, hb := HashesOf(a), HashesOf(b);
    NodesHaveOneInput(H, a, b, t, u, q);
    LeafInputs(H, a, t, q);
    LeafInputs(H, b, u, q);
    if t == 0 {
      SameLeaf(a, b, q);
    } else {
      NodeIsHashOfInput(H, a, t, q);
      NodeIsHashOfInput(H, b, u, q);
      hide MadeFromBytes;
      var l, r := NodeHash(H, ha, t - 1, 2 * q), NodeHash(H, ha, t - 1, 2 * q + 1);
      ChildrenAgree(l, r, NodeHash(H, hb, u - 1, 2 * q), NodeHash(H, hb, u - 1, 2 * q + 1));
      SameHashSameLeaves(H, a, b, t - 1, u - 1, 2 * q);
      if r.Some? {
        SameHashSameLeaves(H, a, b, t - 1, u - 1, 2 * q + 1);
      } else {
        NothingUnder(H, a, b, t - 1, 2 * q + 1);
      }
      JoinHalves(a, b, t, q);
    }
  }

  lemma SameLeaf(a: seq<MerkleNode>, b: seq<MerkleNode>, q: nat)
    requires AllLeaves(a) && AllLeaves(b) && q < |a| && q < |b| && a[q].data == b[q].data
    ensures SameUnder(a, b, 0, q)
  {
    assert Pow2(0) == 1;
  }

  lemma NothingUnder(H: Hash, a: seq<MerkleNode>, b: seq<MerkleNode>, t: nat, q: nat)
    requires AllLeaves(a) && AllLeaves(b)
    requires NodeHash(H, HashesOf(a), t, q).None? && NodeHash(H, HashesOf(b), t, q).None?
    ensures SameUnder(a, b, t, q)
  {
    hide NodeHash;
    EmptyNodesAreRightmost(H, HashesOf(a), t, q);
    EmptyNodesAreRightmost(H, HashesOf(b), t, q);
  }

  lemma JoinHalves(a: seq<MerkleNode>, b: seq<MerkleNode>, t: nat, q: nat)
    requires AllLeaves(a) && AllLeaves(b) && t >= 1
    requires SameUnder(a, b, t - 1, 2 * q) && SameUnder(a, b, t - 1, 2 * q + 1)
    ensures SameUnder(a, b, t, q)
  {
    var half := Pow2(t - 1);
    DoublePosition(t - 1, q);
    assert Pow2(t) == 2 * half;
    assert (2 * q + 1) * half == 2 * q * half + half;
    hide Pow2, SameAt;
  }

  /** Trees of non-empty lists with the same root hold the same leaves. */
  lemma RootBindsLeaves(H: Hash, a: seq<MerkleNode>, b: seq<MerkleNode>)
    requires MadeFromBytes(H, a) && MadeFromBytes(H, b) && a != [] && b != [] && TreesDoNotCollide(H, a, b)
    requires RootHash(TreeOf(H, a)) == RootHash(TreeOf(H, b))
    ensures a == b
  {
    hide NodeHash, TreeOf, HashesOf, TreeDepth, TreesDoNotCollide, RootHash;
    var d := TreeDepth(a);
    RootNode(H, a);
    RootNode(H, b);
    SameHashSameLeaves(H, a, b, d, TreeDepth(b), 0);
    LeavesFit(a);
    LeavesFit(b);
    AllUnderRoot(H, a, b, d);
  }

  lemma AllUnderRoot(H: Hash, a: seq<MerkleNode>, b: seq<MerkleNode>, d: nat)
    requires MadeFromBytes(H, a) && MadeFromBytes(H, b) && SameUnder(a, b, d, 0)
    requires |a| <= Pow2(d) && |b| <= Pow2(d)
    ensures a == b
  {
    assert 0 * Pow2(d) == 0;
    hide Pow2;
    var n := if |a| < |b| then |a| else |b|;
    assert n < Pow2(d) ==> SameAt(a, b, n);
    forall i | 0 <= i < |a|
      ensures a[i] == b[i]
    {
      assert SameAt(a, b, i);
    }
  }

  lemma LeavesFit(leaves: seq<MerkleNode>)
    requires leaves != []
    ensures |leaves| <= Pow2(TreeDepth(leaves))
  {
    hide Depth, Pow2;
    SlotsFit(|leaves|);
  }
}
