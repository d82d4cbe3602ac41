/**
 * What an accepted multi-proof says about positions.  The checker trusts the sides written in the proof, so by itself
 * it does not tie an entry to its index; where the sides agree with the positions, it does.
 */
module MultiproofPositions {
  import opened Wrappers
  import opened ChainTypes
  import opened MerkleTypes
  import opened Powers
  import opened SortedInts
  import opened MerkleTree
  import opened MerkleProofs
  import opened MerkleBinding
  import opened BatchProofs
  import opened Multiproofs

  // ----- Sides that agree with positions -----

  /**
   * `node` can be the sibling of `q`: it stands on the sibling's side.  An empty node hashes the same on either side,
   * and can only be on the right of `q`.
   */
  predicate SideFits(q: nat, node: LevelNode) {
    if node.hash.None? then q % 2 == 0 else node.side == if q % 2 == 0 then Right else Left
  }

  predicate PassFits(a: seq<nat>, m: seq<LevelNode>) {
    if a == [] then true
    else if StartsWithPair(a) then PassFits(a[2..], m)
    else m != [] ==> SideFits(a[0], m[0]) && PassFits(a[1..], m[1..])
  }

  /** On every level the sides agree with the positions, and the climb ends at position 0. */
  predicate Aligned(H: Hash, a: seq<nat>, e: seq<Digest32>, m: seq<LevelNode>)
    decreases |m| + |a|
  {
    |e| == |a| && PassFits(a, m) &&
    match Pass(H, a, e, m)
    case None => false
    case Some((eNew, mNew)) =>
      var aNew := SortDedup(HalfAll(a));
      if (mNew != [] || |eNew| > 1) && aNew != [] then
        NextLevelIsSmaller(H, a, e, m);
        Aligned(H, aNew, eNew[..|aNew|], mNew)
      else aNew == [0]
  }

  predicate AlignedProof(H: Hash, p: BatchMerkleProof) {
    var e := SortByIndex(p.indices);
    Aligned(H, IndicesOf(e), HashesIn(e), p.proofs)
  }

  // ----- Aligned proofs bind every entry to its index -----

  /** The hashes `e` are those of the nodes at positions `a` of level `t`. */
  ghost predicate AtLevel(H: Hash, leaves: seq<MerkleNode>, t: nat, a: seq<nat>, e: seq<Digest32>)
    requires AllLeaves(leaves)
  {
    && t <= TreeDepth(leaves) && |a| == |e|
    && forall i :: 0 <= i < |a| ==> NodeHash(H, HashesOf(leaves), t, a[i]) == Some(e[i])
  }

  /** What the first group of a pass hashes. */
  lemma FirstInput(H: Hash, leaves: seq<MerkleNode>, a: seq<nat>, e: seq<Digest32>, m: seq<LevelNode>)
    requires AllLeaves(leaves) && a != [] && |a| == |e|
    requires Pass(H, a, e, m).Some? && PassNoCollisions(H, leaves, a, e, m) && PassFits(a, m)
    ensures Pass(H, a, e, m).value.0 != []
    ensures !StartsWithPair(a) ==> m != [] && SideFits(a[0], m[0])
    ensures
      var input := if StartsWithPair(a) then InnerInput(Some(e[0]), Some(e[1])) else HeadInput(m[0], e[0]);
      NoCollisionWith(H, leaves, input) && Pass(H, a, e, m).value.0[0] == H(input)
  {
    hide InnerInput, HeadInput, NoCollisionWith, SideFits;
  }

  /** The first group of a pass, read off its parent. */
  lemma GroupIsBound(H: Hash, leaves: seq<MerkleNode>, t: nat, a: seq<nat>, e: seq<Digest32>, m: seq<LevelNode>)
    requires MadeFromBytes(H, leaves) && StrictlyAscending(a) && a != [] && |a| == |e| && t <= TreeDepth(leaves)
    requires Pass(H, a, e, m).Some? && PassNoCollisions(H, leaves, a, e, m) && PassFits(a, m)
    requires Pass(H, a, e, m).value.0 != []
    requires NodeHash(H, HashesOf(leaves), t, a[0] / 2) == Some(Pass(H, a, e, m).value.0[0])
    ensures t > 0 && NodeHash(H, HashesOf(leaves), t - 1, a[0]) == Some(e[0])
    ensures StartsWithPair(a) ==> NodeHash(H, HashesOf(leaves), t - 1, a[1]) == Some(e[1])
  {
    hide NodeHash, InnerInput, NoCollisionWith, HashesOf, Pass, PassNoCollisions, PassFits, TreeDepth;
    FirstInput(H, leaves, a, e, m);
    AfterFirstGroup(a);
    hide StrictlyAscending, MadeFromBytes;
    var q := a[0] / 2;
    if StartsWithPair(a) {
      assert a[0] == 2 * q && a[1] == 2 * q + 1;
      NodeParts(H, leaves, t, q, Some(e[0]), Some(e[1]));
    } else if m[0].side == Left {
      assert a[0] == if m[0].hash.None? then 2 * q else 2 * q + 1;
      NodeParts(H, leaves, t, q, m[0].hash, Some(e[0]));
    } else {
      assert a[0] == 2 * q;
      NodeParts(H, leaves, t, q, Some(e[0]), m[0].hash);
    }
  }

  lemma {:induction false} PassBinds(H: Hash, leaves: seq<MerkleNode>, t: nat, a: seq<nat>, e: seq<Digest32>, m: seq<LevelNode>)
    requires MadeFromBytes(H, leaves) && StrictlyAscending(a) && |a| == |e| && t < TreeDepth(leaves)
    requires Pass(H, a, e, m).Some? && PassNoCollisions(H, leaves, a, e, m) && PassFits(a, m)
    requires AtLevel(H, leaves, t + 1, Halves(a), Pass(H, a, e, m).value.0)
    ensures AtLevel(H, leaves, t, a, e)
  {
    hide NodeHash, InnerInput, HeadInput, NoCollisionWith, HashesOf, TreeDepth;
    if a != [] {
      var k := if StartsWithPair(a) then 2 else 1;
      var m' := if k == 2 then m else m[1..];
      AfterFirstGroup(a);
      var hs, hs' := Pass(H, a, e, m).value.0, Pass(H, a[k..], e[k..], m').value.0;
      assert hs[1..] == hs' && Halves(a)[1..] == Halves(a[k..]) && Halves(a)[0] == a[0] / 2;
      assert NodeHash(H, HashesOf(leaves), t + 1, Halves(a)[0]) == Some(hs[0]);
      assert AtLevel(H, leaves, t + 1, Halves(a[k..]), hs') by {
        forall i | 0 <= i < |hs'|
          ensures NodeHash(H, HashesOf(leaves), t + 1, Halves(a[k..])[i]) == Some(hs'[i])
        {
          assert Halves(a[k..])[i] == Halves(a)[i + 1] && hs'[i] == hs[i + 1];
        }
      }
      GroupIsBound(H, leaves, t + 1, a, e, m);
      PassBinds(H, leaves, t, a[k..], e[k..], m');
      hide StrictlyAscending, Pass, PassFits, PassNoCollisions, Halves;
      forall i | 0 <= i < |a|
        ensures NodeHash(H, HashesOf(leaves), t, a[i]) == Some(e[i])
      {
        if i >= k {
          assert a[i] == a[k..][i - k] && e[i] == e[k..][i - k];
        }
      }
    }
  }

  lemma {:induction false} CheckBinds(H: Hash, leaves: seq<MerkleNode>, a: seq<nat>, e: seq<Digest32>, m: seq<LevelNode>)
    returns (t: nat)
    requires MadeFromBytes(H, leaves) && leaves != [] && StrictlyAscending(a) && a != []
    requires CheckNoCollisions(H, leaves, a, e, m) && Aligned(H, a, e, m)
    requires Validate(H, a, e, m).Some? && Validate(H, a, e, m).value.0 == [RootHash(TreeOf(H, leaves))]
    ensures AtLevel(H, leaves, t, a, e)
    decreases |m| + |a|
  {
    hide Pass, PassNoCollisions, PassFits, SortDedup, Halves, HalfAll, NodeHash, AtLevel, TreeOf, RootHash, TreeDepth, HashesOf;
    var (eNew, mNew) := Pass(H, a, e, m).value;
    SortedHalves(a);
    HalvesMembers(a);
    OneHashPerHalf(H, a, e, m);
    var aNew := Halves(a);
    assert eNew[..|aNew|] == eNew;
    NextLevelIsSmaller(H, a, e, m);
    if mNew != [] || |eNew| > 1 {
      t := CheckBinds(H, leaves, aNew, eNew, mNew);
    } else {
      t := TreeDepth(leaves);
      RootAlone(H, leaves);
    }
    FirstParent(a);
    AtLevelFirst(H, leaves, t, aNew, eNew);
    GroupIsBound(H, leaves, t, a, e, m);
    PassBinds(H, leaves, t - 1, a, e, m);
    t := t - 1;
  }

  lemma FirstParent(a: seq<nat>)
    requires a != []
    ensures Halves(a) != [] && Halves(a)[0] == a[0] / 2
  {
  }

  lemma AtLevelFirst(H: Hash, leaves: seq<MerkleNode>, t: nat, a: seq<nat>, e: seq<Digest32>)
    requires AllLeaves(leaves) && AtLevel(H, leaves, t, a, e) && a != []
    ensures t <= TreeDepth(leaves) && NodeHash(H, HashesOf(leaves), t, a[0]) == Some(e[0])
  {
  }

  lemma RootAlone(H: Hash, leaves: seq<MerkleNode>)
    requires AllLeaves(leaves) && leaves != []
    ensures AtLevel(H, leaves, TreeDepth(leaves), [0], [RootHash(TreeOf(H, leaves))])
  {
    hide NodeHash, TreeOf, HashesOf, TreeDepth;
    RootNode(H, leaves);
  }

  lemma AppendByIndex(e: seq<BatchMerkleProofIndex>, x: BatchMerkleProofIndex)
    requires StrictlyAscending(IndicesOf(e)) && forall y :: y in e ==> y.index < x.index
    ensures StrictlyAscending(IndicesOf(e + [x]))
  {
    assert IndicesOf(e + [x]) == IndicesOf(e) + [x.index];
    assert forall i :: 0 <= i < |e| ==> e[i] in e;
  }

  lemma LastIndexIsTop(e: seq<BatchMerkleProofIndex>)
    requires StrictlyAscending(IndicesOf(e)) && e != []
    ensures StrictlyAscending(IndicesOf(e[..|e| - 1]))
    ensures forall y :: y in e[..|e| - 1] ==> y.index < e[|e| - 1].index
  {
    assert IndicesOf(e[..|e| - 1]) == IndicesOf(e)[..|e| - 1];
    forall y | y in e[..|e| - 1]
      ensures y.index < e[|e| - 1].index
    {
      var j :| 0 <= j < |e| - 1 && e[j] == y;
      assert IndicesOf(e)[j] < IndicesOf(e)[|e| - 1];
    }
  }

  lemma {:induction false} InsertAscends(x: BatchMerkleProofIndex, e: seq<BatchMerkleProofIndex>)
    requires StrictlyAscending(IndicesOf(e)) && forall y :: y in e ==> y.index != x.index
    ensures StrictlyAscending(IndicesOf(InsertByIndex(x, e)))
    ensures forall y :: y in InsertByIndex(x, e) <==> y == x || y in e
  {
    if e == [] {
      assert IndicesOf([x]) == [x.index];
    } else {
      hide StrictlyAscending, IndicesOf;
      var init, last := e[..|e| - 1], e[|e| - 1];
      assert e == init + [last] && last in e;
      LastIndexIsTop(e);
      if x.index < last.index {
        InsertAscends(x, init);
        AppendByIndex(InsertByIndex(x, init), last);
      } else {
        AppendByIndex(e, x);
      }
    }
  }

  lemma {:induction false} DistinctAscend(e: seq<BatchMerkleProofIndex>)
    requires DistinctIndices(e)
    ensures StrictlyAscending(IndicesOf(SortByIndex(e)))
  {
    if e != [] {
      var init, last := e[..|e| - 1], e[|e| - 1];
      assert e == init + [last];
      DistinctAscend(init);
      SortKeepsEntries(init);
      InsertAscends(last, SortByIndex(init));
    }
  }

  /** An accepted, aligned proof with distinct indices: all its entries are nodes of one level, each at its index. */
  lemma EntriesAreAtTheirIndex(H: Hash, leaves: seq<MerkleNode>, p: BatchMerkleProof) returns (t: nat)
    requires MadeFromBytes(H, leaves) && leaves != [] && DistinctIndices(p.indices)
    requires BatchValid(H, p, RootHash(TreeOf(H, leaves))) && NoBatchCollisions(H, leaves, p) && AlignedProof(H, p)
    ensures t <= TreeDepth(leaves)
    ensures forall i :: 0 <= i < |p.indices|
                        ==> NodeHash(H, HashesOf(leaves), t, p.indices[i].index) == Some(p.indices[i].hash)
  {
    hide Validate, SortByIndex, RootHash, TreeOf, CheckNoCollisions, Aligned, NodeHash, StrictlyAscending;
    var e := SortByIndex(p.indices);
    SortKeepsEntries(p.indices);
    DistinctAscend(p.indices);
    var (top, _) := Validate(H, IndicesOf(e), HashesIn(e), p.proofs).value;
    assert top == [RootHash(TreeOf(H, leaves))];
    if e == [] {
      assert IndicesOf(e) == [] && HashesIn(e) == [];
      NothingToCheck(H, p.proofs);
      assert false;
    }
    t := CheckBinds(H, leaves, IndicesOf(e), HashesIn(e), p.proofs);
    forall i | 0 <= i < |p.indices|
      ensures NodeHash(H, HashesOf(leaves), t, p.indices[i].index) == Some(p.indices[i].hash)
    {
      assert p.indices[i] in e;
      var j :| 0 <= j < |e| && e[j] == p.indices[i];
      assert IndicesOf(e)[j] == p.indices[i].index && HashesIn(e)[j] == p.indices[i].hash;
    }
  }

  /** A node with the hash of leaf data is a leaf. */
  lemma LeafHashIsLeaf(H: Hash, leaves: seq<MerkleNode>, t: nat, q: nat, data: seq<byte>)
    requires MadeFromBytes(H, leaves) && t <= TreeDepth(leaves)
    requires NodeHash(H, HashesOf(leaves), t, q) == Some(PrefixedHash(H, LEAF_PREFIX, data))
    requires NoCollisionWith(H, leaves, [LEAF_PREFIX] + data)
    ensures t == 0
  {
    hide NodeHash, HashesOf, TreeDepth;
    NodeIsHashOfInput(H, leaves, t, q);
    assert NodeInput(H, leaves, t, q) == [LEAF_PREFIX] + data;
    if t > 0 {
      hide InnerInput;
      InnerInputPrefix(NodeHash(H, HashesOf(leaves), t - 1, 2 * q), NodeHash(H, HashesOf(leaves), t - 1, 2 * q + 1));
    }
  }

  /** If moreover one entry is known to be the hash of leaf data, every entry is the leaf at its index. */
  lemma EntriesAreLeaves(H: Hash, leaves: seq<MerkleNode>, p: BatchMerkleProof, k: nat, data: seq<byte>)
    requires MadeFromBytes(H, leaves) && leaves != [] && DistinctIndices(p.indices)
    requires BatchValid(H, p, RootHash(TreeOf(H, leaves))) && NoBatchCollisions(H, leaves, p) && AlignedProof(H, p)
    requires k < |p.indices| && p.indices[k].hash == PrefixedHash(H, LEAF_PREFIX, data)
    requires NoCollisionWith(H, leaves, [LEAF_PREFIX] + data)
    ensures forall i :: 0 <= i < |p.indices|
                        ==> p.indices[i].index < |leaves| && p.indices[i].hash == leaves[p.indices[i].index].hash
  {
    hide BatchValid, NoBatchCollisions, AlignedProof, NodeHash, RootHash, TreeOf, NoCollisionWith, TreeDepth, PrefixedHash,
      DistinctIndices;
    var t := EntriesAreAtTheirIndex(H, leaves, p);
    LeafHashIsLeaf(H, leaves, t, p.indices[k].index, data);
    forall i | 0 <= i < |p.indices|
      ensures p.indices[i].index < |leaves| && p.indices[i].hash == leaves[p.indices[i].index].hash
    {
      NodeHashUnfolds(H, HashesOf(leaves), 0, p.indices[i].index);
    }
  }

  // ----- Where all nodes differ, only aligned proofs do -----

  /** No two nodes of the tree have the same hash. */
  ghost predicate NodesDiffer(H: Hash, leaves: seq<MerkleNode>)
    requires AllLeaves(leaves)
  {
    forall t: nat, q: nat, u: nat, r: nat ::
      IsNode(H, leaves, t, q) && IsNode(H, leaves, u, r)
      && NodeHash(H, HashesOf(leaves), t, q) == NodeHash(H, HashesOf(leaves), u, r)
      ==> t == u && q == r
  }

  lemma SameNode(H: Hash, leaves: seq<MerkleNode>, t: nat, q: nat, u: nat, r: nat)
    requires AllLeaves(leaves) && NodesDiffer(H, leaves) && t <= TreeDepth(leaves) && u <= TreeDepth(leaves)
    requires NodeHash(H, HashesOf(leaves), t, q).Some?
    requires NodeHash(H, HashesOf(leaves), t, q) == NodeHash(H, HashesOf(leaves), u, r)
    ensures t == u && q == r
  {
    hide NodeHash, HashesOf, TreeDepth;
    assert IsNode(H, leaves, t, q) && IsNode(H, leaves, u, r);
  }

  /** A lone entry at its position, hashed with `node` to a node of the tree: that is its parent, and `node` fits. */
  lemma LoneFits(H: Hash, leaves: seq<MerkleNode>, t: nat, q: nat, h: Digest32, node: LevelNode)
    requires MadeFromBytes(H, leaves) && NodesDiffer(H, leaves) && t <= TreeDepth(leaves)
    requires NodeHash(H, HashesOf(leaves), t, q) == Some(h)
    requires NoCollisionWith(H, leaves, HeadInput(node, h)) && IsNodeHash(H, leaves, H(HeadInput(node, h)))
    ensures SideFits(q, node) && t + 1 <= TreeDepth(leaves)
    ensures NodeHash(H, HashesOf(leaves), t + 1, q / 2) == Some(H(HeadInput(node, h)))
  {
    hide NodeHash, HashesOf, TreeDepth, InnerInput, NoCollisionWith, NodesDiffer;
    var u: nat, r: nat :| u <= TreeDepth(leaves) && NodeHash(H, HashesOf(leaves), u, r) == Some(H(HeadInput(node, h)));
    if node.side == Left {
      NodeParts(H, leaves, u, r, node.hash, Some(h));
      SameNode(H, leaves, t, q, u - 1, if node.hash.None? then 2 * r else 2 * r + 1);
    } else {
      NodeParts(H, leaves, u, r, Some(h), node.hash);
      SameNode(H, leaves, t, q, u - 1, 2 * r);
    }
  }

  lemma PairFits(H: Hash, leaves: seq<MerkleNode>, t: nat, q: nat, h: Digest32, g: Digest32)
    requires MadeFromBytes(H, leaves) && NodesDiffer(H, leaves) && t <= TreeDepth(leaves)
    requires NodeHash(H, HashesOf(leaves), t, q) == Some(h)
    requires NoCollisionWith(H, leaves, InnerInput(Some(h), Some(g)))
    requires IsNodeHash(H, leaves, H(InnerInput(Some(h), Some(g))))
    ensures t + 1 <= TreeDepth(leaves)
    ensures NodeHash(H, HashesOf(leaves), t + 1, q / 2) == Some(H(InnerInput(Some(h), Some(g))))
  {
    hide NodeHash, HashesOf, TreeDepth, InnerInput, NoCollisionWith, NodesDiffer;
    var u: nat, r: nat :|
      u <= TreeDepth(leaves) && NodeHash(H, HashesOf(leaves), u, r) == Some(H(InnerInput(Some(h), Some(g))));
    NodeParts(H, leaves, u, r, Some(h), Some(g));
    SameNode(H, leaves, t, q, u - 1, 2 * r);
  }

  /** The first group of a pass over entries at their positions: its sides fit, and it gives the parent. */
  lemma GroupFits(H: Hash, leaves: seq<MerkleNode>, t: nat, a: seq<nat>, e: seq<Digest32>, m: seq<LevelNode>)
    requires MadeFromBytes(H, leaves) && NodesDiffer(H, leaves) && a != [] && AtLevel(H, leaves, t, a, e)
    requires Pass(H, a, e, m).Some? && PassNoCollisions(H, leaves, a, e, m)
    requires Pass(H, a, e, m).value.0 != [] && IsNodeHash(H, leaves, Pass(H, a, e, m).value.0[0])
    ensures t + 1 <= TreeDepth(leaves)
    ensures NodeHash(H, HashesOf(leaves), t + 1, a[0] / 2) == Some(Pass(H, a, e, m).value.0[0])
    ensures !StartsWithPair(a) ==> m != [] && SideFits(a[0], m[0])
  {
    hide NodeHash, HashesOf, TreeDepth, InnerInput, HeadInput, NoCollisionWith, NodesDiffer, IsNodeHash, SideFits;
    if StartsWithPair(a) {
      PairFits(H, leaves, t, a[0], e[0], e[1]);
    } else {
      LoneFits(H, leaves, t, a[0], e[0], m[0]);
    }
  }

  lemma AtLevelSize(H: Hash, leaves: seq<MerkleNode>, t: nat, a: seq<nat>, e: seq<Digest32>)
    requires AllLeaves(leaves) && AtLevel(H, leaves, t, a, e)
    ensures |a| == |e|
  {
  }

  lemma AtLevelTail(H: Hash, leaves: seq<MerkleNode>, t: nat, a: seq<nat>, e: seq<Digest32>, k: nat)
    requires AllLeaves(leaves) && AtLevel(H, leaves, t, a, e) && k <= |a|
    ensures AtLevel(H, leaves, t, a[k..], e[k..])
  {
    hide NodeHash;
    forall i | 0 <= i < |a| - k
      ensures NodeHash(H, HashesOf(leaves), t, a[k..][i]) == Some(e[k..][i])
    {
      assert a[k..][i] == a[i + k] && e[k..][i] == e[i + k];
    }
  }

  lemma AtLevelCons(H: Hash, leaves: seq<MerkleNode>, t: nat, q: nat, a: seq<nat>, h: Digest32, e: seq<Digest32>)
    requires AllLeaves(leaves) && AtLevel(H, leaves, t, a, e) && NodeHash(H, HashesOf(leaves), t, q) == Some(h)
    ensures AtLevel(H, leaves, t, [q] + a, [h] + e)
  {
    hide NodeHash;
  }

  lemma {:induction false} PassAligns(
    H: Hash, leaves: seq<MerkleNode>, t: nat, a: seq<nat>, e: seq<Digest32>, m: seq<LevelNode>)
    requires MadeFromBytes(H, leaves) && NodesDiffer(H, leaves) && a != [] && AtLevel(H, leaves, t, a, e)
    requires Pass(H, a, e, m).Some? && PassNoCollisions(H, leaves, a, e, m)
    requires NodeHashes(H, leaves, Pass(H, a, e, m).value.0)
    ensures PassFits(a, m) && AtLevel(H, leaves, t + 1, Halves(a), Pass(H, a, e, m).value.0)
  {
    hide NodeHash, HashesOf, TreeDepth, InnerInput, HeadInput, NoCollisionWith, NodesDiffer, IsNodeHash,
      SideFits, AtLevel;
    AtLevelSize(H, leaves, t, a, e);
    var k := if StartsWithPair(a) then 2 else 1;
    var m' := if k == 2 then m else m[1..];
    var hs, hs' := Pass(H, a, e, m).value.0, Pass(H, a[k..], e[k..], m').value.0;
    assert hs == [hs[0]] + hs' && Halves(a) == [a[0] / 2] + Halves(a[k..]);
    assert NodeHashes(H, leaves, hs') by {
      assert forall i :: 0 <= i < |hs'| ==> hs'[i] == hs[i + 1];
    }
    GroupFits(H, leaves, t, a, e, m);
    AtLevelTail(H, leaves, t, a, e, k);
    if a[k..] == [] {
      assert hs' == [] && Halves(a[k..]) == [] && AtLevel(H, leaves, t + 1, [], []) by { NothingAtLevel(H, leaves, t + 1); }
    } else {
      PassAligns(H, leaves, t, a[k..], e[k..], m');
    }
    AtLevelCons(H, leaves, t + 1, a[0] / 2, Halves(a[k..]), hs[0], hs');
  }

  lemma NothingAtLevel(H: Hash, leaves: seq<MerkleNode>, t: nat)
    requires AllLeaves(leaves) && t <= TreeDepth(leaves)
    ensures AtLevel(H, leaves, t, [], [])
  {
  }

  lemma {:induction false} CheckAligns(
    H: Hash, leaves: seq<MerkleNode>, t: nat, a: seq<nat>, e: seq<Digest32>, m: seq<LevelNode>)
    requires MadeFromBytes(H, leaves) && leaves != [] && NodesDiffer(H, leaves)
    requires StrictlyAscending(a) && a != [] && AtLevel(H, leaves, t, a, e) && CheckNoCollisions(H, leaves, a, e, m)
    requires Validate(H, a, e, m).Some? && Validate(H, a, e, m).value.0 == [RootHash(TreeOf(H, leaves))]
    ensures Aligned(H, a, e, m)
    decreases |m| + |a|
  {
    hide Pass, PassNoCollisions, PassFits, SortDedup, Halves, HalfAll, NodeHash, AtLevel, TreeOf, RootHash, TreeDepth, HashesOf,
      NodeHashes, NodesDiffer, PairsOnly;
    assert |a| == |e| by { AtLevelSize(H, leaves, t, a, e); }
    var (eNew, mNew) := Pass(H, a, e, m).value;
    SortedHalves(a);
    HalvesMembers(a);
    OneHashPerHalf(H, a, e, m);
    var aNew := Halves(a);
    assert eNew[..|aNew|] == eNew;
    NextLevelIsSmaller(H, a, e, m);
    RootsAreNodes(H, leaves);
    if mNew != [] || |eNew| > 1 {
      AscendingIsPairsOnly(aNew);
      CheckIsSound(H, leaves, aNew, eNew, mNew);
      PassAligns(H, leaves, t, a, e, m);
      CheckAligns(H, leaves, t + 1, aNew, eNew, mNew);
    } else {
      PassAligns(H, leaves, t, a, e, m);
      RootOnly(H, leaves, t + 1, aNew);
    }
  }

  lemma RootsAreNodes(H: Hash, leaves: seq<MerkleNode>)
    requires AllLeaves(leaves) && leaves != []
    ensures NodeHashes(H, leaves, [RootHash(TreeOf(H, leaves))])
  {
    hide IsNodeHash, TreeOf, RootHash;
    RootIsNode(H, leaves);
  }

  lemma RootOnly(H: Hash, leaves: seq<MerkleNode>, t: nat, a: seq<nat>)
    requires AllLeaves(leaves) && leaves != [] && NodesDiffer(H, leaves)
    requires AtLevel(H, leaves, t, a, [RootHash(TreeOf(H, leaves))])
    ensures a == [0]
  {
    hide NodeHash, TreeOf, HashesOf, TreeDepth, RootHash, NodesDiffer;
    RootNode(H, leaves);
    assert NodeHash(H, HashesOf(leaves), t, a[0]) == Some(RootHash(TreeOf(H, leaves)));
    SameNode(H, leaves, t, a[0], TreeDepth(leaves), 0);
  }

  /** All entries are nodes of one level, each at its index. */
  ghost predicate InPlace(H: Hash, leaves: seq<MerkleNode>, p: BatchMerkleProof, t: nat)
    requires AllLeaves(leaves)
  {
    && t <= TreeDepth(leaves)
    && forall i :: 0 <= i < |p.indices|
                   ==> NodeHash(H, HashesOf(leaves), t, p.indices[i].index) == Some(p.indices[i].hash)
  }

  lemma SortedInPlace(H: Hash, leaves: seq<MerkleNode>, p: BatchMerkleProof, t: nat)
    requires AllLeaves(leaves) && InPlace(H, leaves, p, t)
    ensures
      var e := SortByIndex(p.indices);
      AtLevel(H, leaves, t, IndicesOf(e), HashesIn(e))
  {
    hide NodeHash, SortByIndex, HashesOf, TreeDepth;
    var e := SortByIndex(p.indices);
    SortKeepsEntries(p.indices);
    forall j | 0 <= j < |e|
      ensures NodeHash(H, HashesOf(leaves), t, IndicesOf(e)[j]) == Some(HashesIn(e)[j])
    {
      assert e[j] in e;
      var i :| 0 <= i < |p.indices| && p.indices[i] == e[j];
    }
  }

  /**
   * On a tree whose nodes all differ, an accepted proof with distinct indices binds its entries to their indices if and
   * only if it is aligned.
   */
  lemma AlignedIffInPlace(H: Hash, leaves: seq<MerkleNode>, p: BatchMerkleProof)
    requires MadeFromBytes(H, leaves) && leaves != [] && DistinctIndices(p.indices) && NodesDiffer(H, leaves)
    requires BatchValid(H, p, RootHash(TreeOf(H, leaves))) && NoBatchCollisions(H, leaves, p)
    ensures AlignedProof(H, p) <==> exists t: nat :: InPlace(H, leaves, p, t)
  {
    hide Validate, SortByIndex, RootHash, TreeOf, CheckNoCollisions, Aligned, NodeHash, StrictlyAscending, NodesDiffer,
      TreeDepth, HashesOf, AtLevel;
    if AlignedProof(H, p) {
      var t := EntriesAreAtTheirIndex(H, leaves, p);
      assert InPlace(H, leaves, p, t);
    }
    if t: nat :| InPlace(H, leaves, p, t) {
      var e := SortByIndex(p.indices);
      DistinctAscend(p.indices);
      SortedInPlace(H, leaves, p, t);
      var (top, _) := Validate(H, IndicesOf(e), HashesIn(e), p.proofs).value;
      assert top == [RootHash(TreeOf(H, leaves))];
      assert e != [] by { SomethingChecked(H, p, RootHash(TreeOf(H, leaves))); }
      CheckAligns(H, leaves, t, IndicesOf(e), HashesIn(e), p.proofs);
    }
  }

  lemma SomethingChecked(H: Hash, p: BatchMerkleProof, root: Digest32)
    requires BatchValid(H, p, root)
    ensures SortByIndex(p.indices) != []
  {
    hide Validate;
    NothingToCheck(H, p.proofs);
    assert IndicesOf([]) == [] && HashesIn([]) == [];
  }

  // ----- A tree's own proofs are aligned -----

  lemma SiblingFits(H: Hash, leaves: seq<Digest32>, t: nat, q: nat)
    requires NodeHash(H, leaves, t, q).Some?
    ensures SideFits(q, ProofNode(H, leaves, t, Sib(q)))
  {
    hide NodeHash;
    if q % 2 == 1 && NodeHash(H, leaves, t, 2 * (q / 2)).None? {
      NoLeftGap(H, leaves, t, q / 2);
    }
  }

  lemma {:induction false} OwnPassFits(H: Hash, leaves: seq<Digest32>, t: nat, a: seq<nat>, rest: seq<LevelNode>)
    requires StrictlyAscending(a) && forall q :: q in a ==> NodeHash(H, leaves, t, q).Some?
    ensures PassFits(a, ProofNodes(H, leaves, t, Missing(a)) + rest)
  {
    hide NodeHash, ProofNodes, SideFits;
    if a != [] {
      AfterFirstGroup(a);
      hide StrictlyAscending;
      if StartsWithPair(a) {
        OwnPassFits(H, leaves, t, a[2..], rest);
      } else {
        assert a[0] in a;
        OwnPassFits(H, leaves, t, a[1..], rest);
        SiblingFits(H, leaves, t, a[0]);
        ProofNodesCons(H, leaves, t, Sib(a[0]), Missing(a[1..]), rest);
        var node, more := ProofNode(H, leaves, t, Sib(a[0])), ProofNodes(H, leaves, t, Missing(a[1..])) + rest;
        assert ([node] + more)[1..] == more;
      }
    }
  }

  lemma {:induction false} OwnProofIsAligned(H: Hash, leaves: seq<Digest32>, d: nat, t: nat, a: seq<nat>)
    requires OnLevel(H, leaves, d, t, a) && t < d
    ensures Aligned(H, a, LevelHashes(H, leaves, t, a), TreeProof(H, leaves, d, t, a))
    decreases d - t
  {
    hide NodeHash, LevelHashes, ProofNodes, Pass, SortDedup, Missing, Halves, PassFits;
    var upper, parents := TreeProof(H, leaves, d, t + 1, Halves(a)), Halves(a);
    PassClimbsTheTree(H, leaves, t, a, upper);
    OwnPassFits(H, leaves, t, a, upper);
    SortedHalves(a);
    ParentsAreNodes(H, leaves, d, t, a);
    hide StrictlyAscending;
    if t + 1 == d {
      SoleIsZero(H, leaves, d, parents);
    } else {
      OwnProofIsAligned(H, leaves, d, t + 1, parents);
      if |parents| == 1 {
        LoneNeedsSibling(H, leaves, d, t + 1, parents);
      }
      assert LevelHashes(H, leaves, t + 1, parents)[..|parents|] == LevelHashes(H, leaves, t + 1, parents);
    }
  }

  /** Every proof the builder makes is aligned and has distinct indices, so the condition costs honest provers nothing. */
  lemma BuiltProofsAreAligned(H: Hash, leaves: seq<MerkleNode>, leafIndices: seq<nat>)
    requires AllLeaves(leaves) && leafIndices != [] && Inside(leafIndices, |leaves|)
    ensures |TreeOf(H, leaves).nodes| % 2 == 1 && ProofByIndices(TreeOf(H, leaves), leafIndices).Some?
    ensures
      var p := ProofByIndices(TreeOf(H, leaves), leafIndices).value;
      DistinctIndices(p.indices) && AlignedProof(H, p)
  {
    hide SortDedup, StrictlyAscending, TreeOf, Validate, LevelHashes, HeapProof, LeafEntries, HashesOf, RootHash, SortByIndex,
      Aligned, NodeHash, TreeDepth, Base, Shift, Pow2, OnLevel, HoldsLevel;
    if leaves == [] {
      NothingInside(leafIndices);
      assert false;
    }
    TreeHasOddLength(H, leaves);
    MultiproofsAreComplete(H, leaves, leafIndices);
    SortDedupMembers(leafIndices);
    SameRange(leafIndices, |leaves|);
    var tree, s := TreeOf(H, leaves), SortDedup(leafIndices);
    var p := ProofByIndices(tree, leafIndices).value;
    assert DistinctIndices(p.indices) by { AscendingAreDistinct(p.indices); }
    SortedStaysSorted(p.indices);
    OwnBuiltIsAligned(H, leaves, s);
    LeafPositionsIff(H, leaves, s);
  }

  lemma AscendingAreDistinct(e: seq<BatchMerkleProofIndex>)
    requires StrictlyAscending(IndicesOf(e))
    ensures DistinctIndices(e)
  {
    forall i, j | 0 <= i < j < |e|
      ensures e[i].index != e[j].index
    {
      assert IndicesOf(e)[i] < IndicesOf(e)[j];
    }
  }

  lemma OwnBuiltIsAligned(H: Hash, leaves: seq<MerkleNode>, s: seq<nat>)
    requires AllLeaves(leaves) && leaves != []
    requires s != [] && StrictlyAscending(s) && Inside(s, |leaves|)
    ensures
      var tree := TreeOf(H, leaves);
      && Climbable(tree.nodes, Shift(s, tree.internalNodes))
      && Aligned(H, s, LevelHashes(H, HashesOf(leaves), 0, s), HeapProof(tree.nodes, Shift(s, tree.internalNodes)))
  {
    hide HeapProof, HoldsLevel, OnLevel, NodeHash, TreeOf, HashesOf, TreeDepth, Base, Pow2, LevelHashes, Aligned;
    var d, nodes := TreeDepth(leaves), TreeOf(H, leaves).nodes;
    TreeHasOddLength(H, leaves);
    EntriesOfLeaves(H, leaves, s);
    ShiftMembers(s, TreeOf(H, leaves).internalNodes);
    hide Shift, StrictlyAscending;
    InternalNodesAreBase(H, leaves);
    LeavesAreOnLevel(H, leaves, s);
    forall t | 0 <= t < d
      ensures HoldsLevel(H, nodes, HashesOf(leaves), d, t)
    {
      TreeHoldsLevel(H, leaves, t);
    }
    BuilderFollowsTheTree(H, nodes, HashesOf(leaves), d, 0, s);
    OwnProofIsAligned(H, HashesOf(leaves), d, 0, s);
  }

  // ----- Without that, an entry can claim any index -----

  lemma LoneParent(q: nat)
    ensures SortDedup(HalfAll([q])) == [q / 2]
  {
    hide SortDedup, StrictlyAscending;
    var halves := HalfAll([q]);
    SortDedupMembers(halves);
    assert halves == [q / 2];
    SingleAscends(q / 2);
    AscendingUnique(SortDedup(halves), [q / 2]);
  }

  /** For a lone entry the claimed position makes no difference to the check. */
  lemma {:induction false} LonePositionIsIgnored(H: Hash, q: nat, r: nat, h: Digest32, m: seq<LevelNode>)
    ensures Validate(H, [q], [h], m) == Validate(H, [r], [h], m)
    decreases |m|
  {
    hide SortDedup, HeadInput;
    if m != [] {
      var node, rest := m[0], m[1..];
      assert m == [node] + rest;
      PassLone(H, q, h, node, rest);
      PassLone(H, r, h, node, rest);
      LoneParent(q);
      LoneParent(r);
      hide Pass;
      var g := H(HeadInput(node, h));
      assert [g][..1] == [g];
      LonePositionIsIgnored(H, q / 2, r / 2, g, rest);
    }
  }

  lemma LoneEntry(e: BatchMerkleProofIndex)
    ensures SortByIndex([e]) == [e] && IndicesOf([e]) == [e.index] && HashesIn([e]) == [e.hash]
  {
    assert [e][..0] == [];
  }

  /** Any leaf passes at any index whatever, with the nodes of its own proof. */
  lemma AnyIndexIsAccepted(H: Hash, leaves: seq<MerkleNode>, i: nat, claimed: nat)
    requires AllLeaves(leaves) && i < |leaves|
    ensures
      var nodes := TreeProof(H, HashesOf(leaves), TreeDepth(leaves), 0, [i]);
      BatchValid(
        H, BatchMerkleProof([BatchMerkleProofIndex(claimed, leaves[i].hash)], nodes), RootHash(TreeOf(H, leaves)))
  {
    hide NodeHash, TreeOf, RootHash, Validate, TreeProof, TreeDepth, OnLevel, StrictlyAscending;
    var d, h := TreeDepth(leaves), leaves[i].hash;
    var nodes := TreeProof(H, HashesOf(leaves), d, 0, [i]);
    SingleAscends(i);
    LeavesAreOnLevel(H, leaves, [i]);
    InternalNodesAreBase(H, leaves);
    ValidateReachesTheRoot(H, HashesOf(leaves), d, 0, [i]);
    RootIsTop(H, leaves);
    LeafNodes(H, leaves, i);
    assert LevelHashes(H, HashesOf(leaves), 0, [i]) == [h];
    LonePositionIsIgnored(H, claimed, i, h, nodes);
    LoneEntry(BatchMerkleProofIndex(claimed, h));
  }

  /** In a tree whose leaves differ, claiming the index of another leaf is therefore accepted, and wrong. */
  lemma WrongIndexIsAccepted(H: Hash, leaves: seq<MerkleNode>, i: nat, claimed: nat)
    requires MadeFromBytes(H, leaves) && i < |leaves| && claimed < |leaves| && leaves[i].hash != leaves[claimed].hash
    ensures
      var nodes := TreeProof(H, HashesOf(leaves), TreeDepth(leaves), 0, [i]);
      var p := BatchMerkleProof([BatchMerkleProofIndex(claimed, leaves[i].hash)], nodes);
      BatchValid(H, p, RootHash(TreeOf(H, leaves))) && !InPlace(H, leaves, p, 0)
  {
    hide TreeOf, RootHash, TreeProof, BatchValid;
    AnyIndexIsAccepted(H, leaves, i, claimed);
    LeafNodes(H, leaves, claimed);
    var nodes := TreeProof(H, HashesOf(leaves), TreeDepth(leaves), 0, [i]);
    var p := BatchMerkleProof([BatchMerkleProofIndex(claimed, leaves[i].hash)], nodes);
    assert NodeHash(H, HashesOf(leaves), 0, p.indices[0].index) == Some(leaves[claimed].hash);
  }
}
