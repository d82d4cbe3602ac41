/** Multi-proofs of a tree: building one, completeness, and soundness of accepted ones. */
module Multiproofs {
  import opened Wrappers
  import opened ChainTypes
  import opened MerkleTypes
  import opened Powers
  import opened SortedInts
  import opened MerkleTree
  import opened MerkleProofs
  import opened BatchProofs

  // ----- Building -----

  /** The entries of the leaf positions whose slot holds a hash. */
  function LeafEntries(nodes: seq<MerkleNode>, s: seq<nat>, internalNodes: nat): seq<BatchMerkleProofIndex>
    requires Inside(Shift(s, internalNodes), |nodes|)
  {
    if s == [] then []
    else
      var init, last := s[..|s| - 1], s[|s| - 1];
      assert Shift(init, internalNodes) == Shift(s, internalNodes)[..|s| - 1];
      assert last + internalNodes == Shift(s, internalNodes)[|s| - 1];
      var rest := LeafEntries(nodes, init, internalNodes);
      match nodes[last + internalNodes].GetHash()
      case Some(h) => rest + [BatchMerkleProofIndex(last, h)]
      case None => rest
  }

  /** Every position is that of a leaf. */
  predicate LeafPositions(tree: Tree, s: seq<nat>) {
    forall i :: 0 <= i < |s| ==> s[i] + tree.internalNodes < |tree.nodes| && tree.nodes[s[i] + tree.internalNodes].Leaf?
  }

  /** The proof for leaf positions in any order, with or without repeats. */
  function ProofByIndices(tree: Tree, leafIndices: seq<nat>): Option<BatchMerkleProof>
    requires |tree.nodes| % 2 == 1 || tree.nodes == []
  {
    var s := SortDedup(leafIndices);
    SortDedupMembers(leafIndices);
    if s == [] || !LeafPositions(tree, s) then None
    else
      ShiftMembers(s, tree.internalNodes);
      assert s[0] + tree.internalNodes < |tree.nodes|;
      Some(BatchMerkleProof(
             LeafEntries(tree.nodes, s, tree.internalNodes),
             HeapProof(tree.nodes, Shift(s, tree.internalNodes))))
  }

  /** Each index of a level together with its sibling. */
  method PairUp(a: seq<nat>) returns (bPruned: seq<nat>)
    requires 0 !in a
    ensures bPruned == WithSiblings(a)
  {
    bPruned := [];
    for i := 0 to |a|
      invariant bPruned == WithSiblings(a[..i])
    {
      assert a[..i + 1][..i] == a[..i] && a[i] in a;
      bPruned := Add(a[i], bPruned);
      bPruned := Add(GetSibling(a[i]).value, bPruned);
    }
    assert a[..|a|] == a;
  }

  method NodesFor(nodes: seq<MerkleNode>, diff: seq<nat>) returns (proofNodes: seq<LevelNode>)
    requires Inside(diff, |nodes|) && 0 !in diff
    ensures proofNodes == HeapProofNodes(nodes, diff)
  {
    proofNodes := [];
    for i := 0 to |diff|
      invariant |proofNodes| == i
      invariant forall j :: 0 <= j < i ==> proofNodes[j] == HeapProofNode(nodes, diff[j])
    {
      assert diff[i] in diff;
      var side := if GetSibling(diff[i]) == Some(diff[i] - 1) then Right else Left;
      proofNodes := proofNodes + [LevelNode(nodes[diff[i]].GetHash(), side)];
    }
  }

  lemma MissingIsNotRoot(a: seq<nat>)
    requires 0 !in a
    ensures 0 !in MissingIndices(a)
  {
    hide MissingIndices;
    MissingIndicesMembers(a);
    assert 0 in MissingIndices(a) <==> 0 in Members(MissingIndices(a));
  }

  /** One level: the nodes to send and the set of parents. */
  method ClimbLevel(nodes: seq<MerkleNode>, a: seq<nat>) returns (proofNodes: seq<LevelNode>, parents: seq<nat>)
    requires Climbable(nodes, a) && 0 !in a
    ensures Inside(MissingIndices(a), |nodes|)
    ensures proofNodes == HeapProofNodes(nodes, MissingIndices(a)) && parents == NextIndices(a)
  {
    MissingInside(a, |nodes|);
    MissingIsNotRoot(a);
    WithSiblingsMembers(a);
    var bPruned := PairUp(a);
    proofNodes := NodesFor(nodes, Without(bPruned, a));
    parents := SortDedup(ParentAll(bPruned));
  }

  method CollectEntries(nodes: seq<MerkleNode>, s: seq<nat>, internalNodes: nat)
    returns (entries: seq<BatchMerkleProofIndex>)
    requires Inside(Shift(s, internalNodes), |nodes|)
    ensures entries == LeafEntries(nodes, s, internalNodes)
  {
    entries := [];
    for i := 0 to |s|
      invariant Inside(Shift(s[..i], internalNodes), |nodes|)
      invariant entries == LeafEntries(nodes, s[..i], internalNodes)
    {
      assert s[..i + 1][..i] == s[..i];
      assert s[i] + internalNodes == Shift(s, internalNodes)[i];
      var h := nodes[s[i] + internalNodes].GetHash();
      if h.Some? {
        entries := entries + [BatchMerkleProofIndex(s[i], h.value)];
      }
      assert Shift(s[..i + 1], internalNodes) == Shift(s, internalNodes)[..i + 1];
    }
    assert s[..|s|] == s;
  }

  /** Climbs from a set of heap indices to the root, collecting the missing siblings of every level. */
  method BuildMultiproof(nodes: seq<MerkleNode>, leaves: seq<nat>) returns (multiproof: seq<LevelNode>)
    requires Climbable(nodes, leaves)
    ensures multiproof == HeapProof(nodes, leaves)
  {
    hide Climbable, HeapProof, NextIndices, MissingIndices, HeapProofNodes;
    multiproof := [];
    var a := leaves;
    ClimbableIsNotEmpty(nodes, a);
    while 0 !in a
      invariant a != [] && Climbable(nodes, a)
      invariant HeapProof(nodes, leaves) == multiproof + HeapProof(nodes, a)
      decreases if a == [] then 0 else a[|a| - 1]
    {
      HeapProofUnfolds(nodes, a);
      NextIsClimbable(nodes, a);
      var proofNodes, parents := ClimbLevel(nodes, a);
      multiproof := multiproof + proofNodes;
      a := parents;
      assert a != [] by { ClimbableIsNotEmpty(nodes, a); }
    }
    assert HeapProof(nodes, a) == [] by { HeapProofAtRoot(nodes, a); }
  }

  lemma ClimbableIsNotEmpty(nodes: seq<MerkleNode>, a: seq<nat>)
    requires Climbable(nodes, a)
    ensures a != []
  {
  }

  lemma HeapProofAtRoot(nodes: seq<MerkleNode>, a: seq<nat>)
    requires Climbable(nodes, a) && 0 in a
    ensures HeapProof(nodes, a) == []
  {
  }

  method ProveIndices(tree: Tree, leafIndices: seq<nat>) returns (r: Option<BatchMerkleProof>)
    requires |tree.nodes| % 2 == 1 || tree.nodes == []
    ensures r == ProofByIndices(tree, leafIndices)
  {
    hide HeapProof, LeafEntries;
    var s := SortDedup(leafIndices);
    SortDedupMembers(leafIndices);
    if s == [] || !LeafPositions(tree, s) { return None; }
    ShiftMembers(s, tree.internalNodes);
    var a := SortDedup(Shift(s, tree.internalNodes));
    AlreadySorted(Shift(s, tree.internalNodes));
    hide SortDedup;
    var multiproof := BuildMultiproof(tree.nodes, a);
    var entries := CollectEntries(tree.nodes, s, tree.internalNodes);
    r := Some(BatchMerkleProof(entries, multiproof));
  }

  lemma AlreadySorted(s: seq<nat>)
    requires StrictlyAscending(s)
    ensures SortDedup(s) == s
  {
    SortDedupMembers(s);
    AscendingUnique(SortDedup(s), s);
  }

  // ----- Completeness -----

  lemma {:induction false} SortedStaysSorted(e: seq<BatchMerkleProofIndex>)
    requires StrictlyAscending(IndicesOf(e))
    ensures SortByIndex(e) == e
  {
    if e != [] {
      var init := e[..|e| - 1];
      assert IndicesOf(init) == IndicesOf(e)[..|e| - 1];
      SortedStaysSorted(init);
      assert e == init + [e[|e| - 1]];
      if init != [] {
        assert IndicesOf(e)[|e| - 2] < IndicesOf(e)[|e| - 1];
      }
    }
  }

  lemma TreeHoldsLevel(H: Hash, leaves: seq<MerkleNode>, t: nat)
    requires AllLeaves(leaves) && leaves != [] && t <= TreeDepth(leaves)
    ensures HoldsLevel(H, TreeOf(H, leaves).nodes, HashesOf(leaves), TreeDepth(leaves), t)
  {
    hide NodeHash, TreeOf, HashesOf, TreeDepth, Pow2;
    var d, nodes := TreeDepth(leaves), TreeOf(H, leaves).nodes;
    forall q: nat | q < Pow2(d - t) && q + Base(d, t) < |nodes|
      ensures nodes[q + Base(d, t)].GetHash() == NodeHash(H, HashesOf(leaves), t, q)
    {
      TreeNode(H, leaves, t, q);
      assert Index(d, t, q) == q + Base(d, t);
    }
  }

  /** Leaf positions are exactly the positions of the leaves. */
  lemma LeafPositionsIff(H: Hash, leaves: seq<MerkleNode>, s: seq<nat>)
    requires AllLeaves(leaves) && leaves != []
    ensures LeafPositions(TreeOf(H, leaves), s) <==> Inside(s, |leaves|)
  {
    hide TreeOf, NodeHash, HashesOf, Index;
    forall i | 0 <= i < |s|
      ensures
        var tree := TreeOf(H, leaves);
        s[i] + tree.internalNodes < |tree.nodes| && tree.nodes[s[i] + tree.internalNodes].Leaf? <==> s[i] < |leaves|
    {
      LeafNodes(H, leaves, s[i]);
    }
  }

  lemma {:induction false} EntriesOfLeaves(H: Hash, leaves: seq<MerkleNode>, s: seq<nat>)
    requires AllLeaves(leaves) && leaves != [] && Inside(s, |leaves|)
    ensures
      var tree := TreeOf(H, leaves);
      && Inside(Shift(s, tree.internalNodes), |tree.nodes|)
      && IndicesOf(LeafEntries(tree.nodes, s, tree.internalNodes)) == s
      && HashesIn(LeafEntries(tree.nodes, s, tree.internalNodes)) == LevelHashes(H, HashesOf(leaves), 0, s)
  {
    hide TreeOf, NodeHash, HashesOf, Index;
    if s != [] {
      var init, last := s[..|s| - 1], s[|s| - 1];
      EntriesOfLeaves(H, leaves, init);
      LeafNodes(H, leaves, last);
      assert s == init + [last];
    }
  }

  lemma InternalNodesAreBase(H: Hash, leaves: seq<MerkleNode>)
    requires AllLeaves(leaves) && leaves != []
    ensures TreeOf(H, leaves).internalNodes == Base(TreeDepth(leaves), 0)
    ensures TreeDepth(leaves) >= 1
  {
    hide Depth, Pow2;
    SlotsFit(|leaves|);
  }

  lemma LeavesAreOnLevel(H: Hash, leaves: seq<MerkleNode>, s: seq<nat>)
    requires AllLeaves(leaves) && leaves != []
    requires s != [] && StrictlyAscending(s) && Inside(s, |leaves|)
    ensures OnLevel(H, HashesOf(leaves), TreeDepth(leaves), 0, s)
    ensures Inside(s, Pow2(TreeDepth(leaves)))
  {
    hide NodeHash, TreeOf, HashesOf, TreeDepth, Index, StrictlyAscending, Pow2;
    forall q | q in s
      ensures q < Pow2(TreeDepth(leaves)) && NodeHash(H, HashesOf(leaves), 0, q).Some?
    {
      LeafInRange(leaves, q);
      LeafNodes(H, leaves, q);
    }
    assert forall i :: 0 <= i < |s| ==> s[i] in s;
  }

  lemma RootIsTop(H: Hash, leaves: seq<MerkleNode>)
    requires AllLeaves(leaves) && leaves != []
    ensures HashAt(H, HashesOf(leaves), TreeDepth(leaves), 0) == RootHash(TreeOf(H, leaves))
  {
    hide NodeHash, TreeOf, HashesOf, TreeDepth;
    RootNode(H, leaves);
  }

  /** Checking the leaves at positions `s` with the nodes built for them gives the root, with no node left over. */
  lemma PositionsReachTheRoot(H: Hash, leaves: seq<MerkleNode>, s: seq<nat>)
    requires AllLeaves(leaves) && leaves != []
    requires s != [] && StrictlyAscending(s) && Inside(s, |leaves|)
    requires
      var tree := TreeOf(H, leaves);
      Climbable(tree.nodes, Shift(s, tree.internalNodes))
    ensures
      var tree := TreeOf(H, leaves);
      Validate(H, s, LevelHashes(H, HashesOf(leaves), 0, s), HeapProof(tree.nodes, Shift(s, tree.internalNodes)))
      == Some(([RootHash(tree)], []))
  {
    hide HeapProof, Validate, HoldsLevel, OnLevel, NodeHash, TreeOf, HashesOf, TreeDepth, Base, Shift, Pow2, LevelHashes, HashAt, RootHash;
    var d, nodes := TreeDepth(leaves), TreeOf(H, leaves).nodes;
    InternalNodesAreBase(H, leaves);
    LeavesAreOnLevel(H, leaves, s);
    forall t | 0 <= t < d
      ensures HoldsLevel(H, nodes, HashesOf(leaves), d, t)
    {
      TreeHoldsLevel(H, leaves, t);
    }
    BuilderFollowsTheTree(H, nodes, HashesOf(leaves), d, 0, s);
    ValidateReachesTheRoot(H, HashesOf(leaves), d, 0, s);
    RootIsTop(H, leaves);
  }

  lemma SameRange(xs: seq<nat>, n: nat)
    ensures SortDedup(xs) == [] <==> xs == []
    ensures Inside(SortDedup(xs), n) <==> Inside(xs, n)
  {
    hide SortDedup, StrictlyAscending;
    SortDedupMembers(xs);
    var s := SortDedup(xs);
    NoMembers(xs);
    NoMembers(s);
    if Inside(s, n) {
      assert forall x :: x in Members(s) ==> x < n;
      InsideMembers(xs, n);
    }
    if Inside(xs, n) {
      assert forall x :: x in Members(xs) ==> x < n;
      InsideMembers(s, n);
    }
  }

  /**
   * A proof exists for every non-empty list of leaf positions, in any order and with repeats, and for no other.
   * It names each position once with its leaf's hash, checks against the root and leaves no proof node over.
   */
  lemma MultiproofsAreComplete(H: Hash, leaves: seq<MerkleNode>, leafIndices: seq<nat>)
    requires AllLeaves(leaves)
    ensures |TreeOf(H, leaves).nodes| % 2 == 1 || TreeOf(H, leaves).nodes == []
    ensures
      var tree := TreeOf(H, leaves);
      match ProofByIndices(tree, leafIndices)
      case None => leafIndices == [] || !Inside(leafIndices, |leaves|)
      case Some(p) =>
        && leafIndices != [] && Inside(leafIndices, |leaves|)
        && IndicesOf(p.indices) == SortDedup(leafIndices)
        && HashesIn(p.indices) == LevelHashes(H, HashesOf(leaves), 0, SortDedup(leafIndices))
        && Validate(H, IndicesOf(p.indices), HashesIn(p.indices), p.proofs) == Some(([RootHash(tree)], []))
        && BatchValid(H, p, RootHash(tree))
  {
    hide SortDedup, StrictlyAscending, TreeOf, Validate, LevelHashes, HeapProof, LeafEntries, HashesOf, IndicesOf, HashesIn, RootHash, SortByIndex;
    TreeHasOddLength(H, leaves);
    SortDedupMembers(leafIndices);
    var tree, s := TreeOf(H, leaves), SortDedup(leafIndices);
    SameRange(leafIndices, |leaves|);
    if leaves == [] {
      NothingInside(leafIndices);
      assert ProofByIndices(tree, leafIndices).None?;
    } else {
      LeafPositionsIff(H, leaves, s);
      if s != [] && Inside(s, |leaves|) {
        ShiftMembers(s, tree.internalNodes);
        EntriesOfLeaves(H, leaves, s);
        PositionsReachTheRoot(H, leaves, s);
        SortedStaysSorted(LeafEntries(tree.nodes, s, tree.internalNodes));
      }
    }
  }

  lemma NothingInside(xs: seq<nat>)
    ensures Inside(xs, 0) <==> xs == []
  {
    if xs != [] {
      assert xs[0] >= 0;
    }
  }

  // ----- Soundness -----

  ghost predicate NodeHashes(H: Hash, leaves: seq<MerkleNode>, hs: seq<Digest32>)
    requires AllLeaves(leaves)
  {
    forall i :: 0 <= i < |hs| ==> IsNodeHash(H, leaves, hs[i])
  }

  /** Every hash the proof nodes carry is that of a node of the tree. */
  ghost predicate NodesOfTree(H: Hash, leaves: seq<MerkleNode>, m: seq<LevelNode>)
    requires AllLeaves(leaves)
  {
    forall i :: 0 <= i < |m| && m[i].hash.Some? ==> IsNodeHash(H, leaves, m[i].hash.value)
  }

  /** The tree collides with none of the inputs that one pass hashes. */
  ghost predicate PassNoCollisions(H: Hash, leaves: seq<MerkleNode>, a: seq<nat>, e: seq<Digest32>, m: seq<LevelNode>)
    requires AllLeaves(leaves) && |a| == |e|
  {
    if a == [] then true
    else if StartsWithPair(a) then
      && NoCollisionWith(H, leaves, InnerInput(Some(e[0]), Some(e[1])))
      && PassNoCollisions(H, leaves, a[2..], e[2..], m)
    else
      m != [] ==>
        && NoCollisionWith(H, leaves, HeadInput(m[0], e[0]))
        && PassNoCollisions(H, leaves, a[1..], e[1..], m[1..])
  }

  /** The tree collides with none of the inputs that checking hashes, on any level. */
  ghost predicate CheckNoCollisions(H: Hash, leaves: seq<MerkleNode>, a: seq<nat>, e: seq<Digest32>, m: seq<LevelNode>)
    requires AllLeaves(leaves)
    decreases |m| + |a|
  {
    |e| == |a| ==>
      && PassNoCollisions(H, leaves, a, e, m)
      && match Pass(H, a, e, m)
         case None => true
         case Some((eNew, mNew)) =>
           var aNew := SortDedup(HalfAll(a));
           if (mNew != [] || |eNew| > 1) && aNew != [] then
             NextLevelIsSmaller(H, a, e, m);
             CheckNoCollisions(H, leaves, aNew, eNew[..|aNew|], mNew)
           else true
  }

  /** The parts of the input that gives node `(t, q)` are its children. */
  lemma NodeParts(H: Hash, leaves: seq<MerkleNode>, t: nat, q: nat, l: Option<Digest32>, r: Option<Digest32>)
    requires MadeFromBytes(H, leaves) && t <= TreeDepth(leaves) && (l.Some? || r.Some?)
    requires NoCollisionWith(H, leaves, InnerInput(l, r))
    requires NodeHash(H, HashesOf(leaves), t, q) == Some(H(InnerInput(l, r)))
    ensures t > 0
    ensures NodeHash(H, HashesOf(leaves), t - 1, 2 * q) == if l.Some? then l else r
    ensures l.Some? && r.Some? ==> NodeHash(H, HashesOf(leaves), t - 1, 2 * q + 1) == r
  {
    hide NodeHash, InnerInput, HashesOf;
    var hashes := HashesOf(leaves);
    NodeIsHashOfInput(H, leaves, t, q);
    assert NodeInput(H, leaves, t, q) == InnerInput(l, r);
    NodeHashUnfolds(H, hashes, t, q);
    assert t > 0 by { InnerInputPrefix(l, r); }
    InnerInputSplits(l, r, NodeHash(H, hashes, t - 1, 2 * q), NodeHash(H, hashes, t - 1, 2 * q + 1));
  }

  lemma HeadParts(H: Hash, leaves: seq<MerkleNode>, head: LevelNode, h: Digest32)
    requires MadeFromBytes(H, leaves)
    requires NoCollisionWith(H, leaves, HeadInput(head, h)) && IsNodeHash(H, leaves, H(HeadInput(head, h)))
    ensures IsNodeHash(H, leaves, h)
    ensures head.hash.Some? ==> IsNodeHash(H, leaves, head.hash.value)
  {
    hide IsNodeHash, NoCollisionWith, InnerInput;
    if head.side == Left {
      PartsAreNodes(H, leaves, head.hash, Some(h));
    } else {
      PartsAreNodes(H, leaves, Some(h), head.hash);
    }
  }

  /** If the parents a pass computes are nodes of the tree, so is everything it used. */
  lemma {:induction false} PassIsSound(H: Hash, leaves: seq<MerkleNode>, a: seq<nat>, e: seq<Digest32>, m: seq<LevelNode>)
    requires MadeFromBytes(H, leaves) && |a| == |e|
    requires Pass(H, a, e, m).Some? && PassNoCollisions(H, leaves, a, e, m)
    requires NodeHashes(H, leaves, Pass(H, a, e, m).value.0) && NodesOfTree(H, leaves, Pass(H, a, e, m).value.1)
    ensures NodeHashes(H, leaves, e) && NodesOfTree(H, leaves, m)
  {
    hide IsNodeHash, NoCollisionWith, InnerInput, HeadInput;
    if a != [] {
      var k := if StartsWithPair(a) then 2 else 1;
      var m' := if k == 2 then m else m[1..];
      var hs, hs' := Pass(H, a, e, m).value.0, Pass(H, a[k..], e[k..], m').value.0;
      assert hs[1..] == hs';
      assert IsNodeHash(H, leaves, hs[0]);
      PassIsSound(H, leaves, a[k..], e[k..], m');
      if k == 2 {
        PartsAreNodes(H, leaves, Some(e[0]), Some(e[1]));
        assert e == [e[0], e[1]] + e[2..];
      } else {
        HeadParts(H, leaves, m[0], e[0]);
        assert e == [e[0]] + e[1..] && m == [m[0]] + m[1..];
      }
    }
  }

  // ----- At most two entries under one parent -----

  /** In ascending order, repeats allowed, and never three under one parent. */
  predicate PairsOnly(a: seq<nat>) {
    && (forall i, j :: 0 <= i < j < |a| ==> a[i] <= a[j])
    && forall i, j, k :: 0 <= i < j < k < |a| ==> a[i] / 2 != a[k] / 2 || a[j] / 2 != a[k] / 2
  }

  lemma AscendingIsPairsOnly(a: seq<nat>)
    requires StrictlyAscending(a)
    ensures PairsOnly(a)
  {
  }

  lemma AfterGroup(a: seq<nat>, k: nat)
    requires PairsOnly(a) && a != [] && k == if StartsWithPair(a) then 2 else 1
    ensures PairsOnly(a[k..])
    ensures forall x :: x in a[k..] ==> x / 2 > a[0] / 2
  {
    forall x | x in a[k..]
      ensures x / 2 > a[0] / 2
    {
      var i :| 0 <= i < |a| - k && a[k..][i] == x;
      assert x == a[i + k];
      if k == 1 {
        assert a[1] / 2 != a[0] / 2 && a[1] <= x;
      }
    }
  }

  /** A pass makes one hash per group. */
  lemma {:induction false} OneHashPerHalf(H: Hash, a: seq<nat>, e: seq<Digest32>, m: seq<LevelNode>)
    requires |a| == |e| && Pass(H, a, e, m).Some?
    ensures |Pass(H, a, e, m).value.0| == |Halves(a)|
  {
    if a != [] {
      var k := if StartsWithPair(a) then 2 else 1;
      OneHashPerHalf(H, a[k..], e[k..], if k == 2 then m else m[1..]);
    }
  }

  /** On such positions a pass computes one hash per parent, so none is cut off. */
  lemma {:induction false} OneHashPerParent(H: Hash, a: seq<nat>, e: seq<Digest32>, m: seq<LevelNode>)
    requires |a| == |e| && Pass(H, a, e, m).Some? && PairsOnly(a)
    ensures |Pass(H, a, e, m).value.0| == |Members(HalfAll(a))|
  {
    hide PairsOnly;
    if a == [] {
      NoMembers(HalfAll(a));
    } else {
      var k := if StartsWithPair(a) then 2 else 1;
      AfterGroup(a, k);
      OneHashPerParent(H, a[k..], e[k..], if k == 2 then m else m[1..]);
      HalvesOfGroup(a, k);
      HalfIsNew(a, k);
    }
  }

  lemma HalfIsNew(a: seq<nat>, k: nat)
    requires a != [] && k <= |a| && forall x :: x in a[k..] ==> x / 2 > a[0] / 2
    ensures a[0] / 2 !in Members(HalfAll(a[k..]))
  {
    var rest := a[k..];
    forall i | 0 <= i < |rest|
      ensures HalfAll(rest)[i] != a[0] / 2
    {
      assert rest[i] in rest;
    }
  }

  lemma {:induction false} CheckIsSound(H: Hash, leaves: seq<MerkleNode>, a: seq<nat>, e: seq<Digest32>, m: seq<LevelNode>)
    requires MadeFromBytes(H, leaves) && PairsOnly(a) && a != []
    requires CheckNoCollisions(H, leaves, a, e, m)
    requires Validate(H, a, e, m).Some? && NodeHashes(H, leaves, Validate(H, a, e, m).value.0)
    ensures Validate(H, a, e, m).value.1 == []
    ensures NodeHashes(H, leaves, e) && NodesOfTree(H, leaves, m)
    decreases |m| + |a|
  {
    hide Pass, PassNoCollisions, SortDedup, NodeHashes, HalfAll, PairsOnly, Members, StrictlyAscending;
    var (eNew, mNew) := Pass(H, a, e, m).value;
    var aNew := SortDedup(HalfAll(a));
    ParentsOfSome(a);
    OneHashPerParent(H, a, e, m);
    NextLevelIsSmaller(H, a, e, m);
    assert eNew[..|aNew|] == eNew;
    if mNew != [] || |eNew| > 1 {
      CheckIsSound(H, leaves, aNew, eNew, mNew);
    }
    PassIsSound(H, leaves, a, e, m);
  }

  lemma ParentsOfSome(a: seq<nat>)
    requires a != []
    ensures SortDedup(HalfAll(a)) != [] && PairsOnly(SortDedup(HalfAll(a)))
    ensures |SortDedup(HalfAll(a))| == |Members(HalfAll(a))|
  {
    hide SortDedup, PairsOnly;
    SortDedupMembers(HalfAll(a));
    AscendingCardinality(SortDedup(HalfAll(a)));
    AscendingIsPairsOnly(SortDedup(HalfAll(a)));
    NoMembers(HalfAll(a));
    NoMembers(SortDedup(HalfAll(a)));
  }

  /** How many entries lie under parent `y`. */
  function UnderParent(e: seq<BatchMerkleProofIndex>, y: nat): nat {
    if e == [] then 0
    else UnderParent(e[..|e| - 1], y) + if e[|e| - 1].index / 2 == y then 1 else 0
  }

  /** No three entries under one parent; repeated indices are allowed. */
  ghost predicate AtMostTwoPerParent(e: seq<BatchMerkleProofIndex>) {
    forall y: nat :: UnderParent(e, y) <= 2
  }

  lemma UnderParentAppend(e: seq<BatchMerkleProofIndex>, x: BatchMerkleProofIndex, y: nat)
    ensures UnderParent(e + [x], y) == UnderParent(e, y) + if x.index / 2 == y then 1 else 0
  {
    assert (e + [x])[..|e|] == e;
  }

  lemma {:induction false} InsertKeepsCounts(x: BatchMerkleProofIndex, e: seq<BatchMerkleProofIndex>, y: nat)
    ensures UnderParent(InsertByIndex(x, e), y) == UnderParent(e, y) + if x.index / 2 == y then 1 else 0
  {
    if e == [] {
      UnderParentAppend([], x, y);
    } else if x.index < e[|e| - 1].index {
      InsertKeepsCounts(x, e[..|e| - 1], y);
      UnderParentAppend(InsertByIndex(x, e[..|e| - 1]), e[|e| - 1], y);
    } else {
      UnderParentAppend(e, x, y);
    }
  }

  lemma {:induction false} SortKeepsCounts(e: seq<BatchMerkleProofIndex>, y: nat)
    ensures UnderParent(SortByIndex(e), y) == UnderParent(e, y)
  {
    if e != [] {
      SortKeepsCounts(e[..|e| - 1], y);
      InsertKeepsCounts(e[|e| - 1], SortByIndex(e[..|e| - 1]), y);
    }
  }

  predicate Ordered(e: seq<BatchMerkleProofIndex>) {
    forall i, j :: 0 <= i < j < |e| ==> e[i].index <= e[j].index
  }

  lemma {:induction false} InsertKeepsEntries(x: BatchMerkleProofIndex, e: seq<BatchMerkleProofIndex>)
    requires Ordered(e)
    ensures Ordered(InsertByIndex(x, e))
    ensures forall y :: y in InsertByIndex(x, e) <==> y == x || y in e
  {
    if e != [] {
      var init, last := e[..|e| - 1], e[|e| - 1];
      assert e == init + [last];
      if x.index < last.index {
        InsertKeepsEntries(x, init);
        var r := InsertByIndex(x, init);
        forall i | 0 <= i < |r|
          ensures r[i].index <= last.index
        {
          assert r[i] in r;
        }
      }
    }
  }

  lemma {:induction false} SortKeepsEntries(e: seq<BatchMerkleProofIndex>)
    ensures Ordered(SortByIndex(e))
    ensures forall y :: y in SortByIndex(e) <==> y in e
  {
    if e != [] {
      var init, last := e[..|e| - 1], e[|e| - 1];
      assert e == init + [last];
      SortKeepsEntries(init);
      hide Ordered;
      InsertKeepsEntries(last, SortByIndex(init));
    }
  }

  /** Three positions with the same parent make a count of three. */
  lemma {:induction false} CountAtLeastThree(e: seq<BatchMerkleProofIndex>, i: nat, j: nat, k: nat)
    requires i < j < k < |e| && e[i].index / 2 == e[j].index / 2 == e[k].index / 2
    ensures UnderParent(e, e[k].index / 2) >= 3
  {
    CountMonotone(e, k + 1, e[k].index / 2);
    assert e[..k + 1][..k] == e[..k];
    CountMonotone(e[..k], j + 1, e[k].index / 2);
    assert e[..k][..j + 1] == e[..j + 1] && e[..j + 1][..j] == e[..j];
    CountMonotone(e[..j], i + 1, e[k].index / 2);
    assert e[..j][..i + 1] == e[..i + 1] && e[..i + 1][..i] == e[..i];
  }

  lemma {:induction false} CountMonotone(e: seq<BatchMerkleProofIndex>, n: nat, y: nat)
    requires n <= |e|
    ensures UnderParent(e[..n], y) <= UnderParent(e, y)
  {
    if n < |e| {
      CountMonotone(e[..|e| - 1], n, y);
      assert e[..|e| - 1][..n] == e[..n];
    } else {
      assert e[..n] == e;
    }
  }

  lemma SortedIsPairsOnly(e: seq<BatchMerkleProofIndex>)
    requires AtMostTwoPerParent(e)
    ensures PairsOnly(IndicesOf(SortByIndex(e)))
  {
    hide UnderParent, SortByIndex;
    var s := SortByIndex(e);
    var a := IndicesOf(s);
    SortKeepsEntries(e);
    forall i, j, k | 0 <= i < j < k < |a|
      ensures a[i] / 2 != a[k] / 2 || a[j] / 2 != a[k] / 2
    {
      if a[i] / 2 == a[k] / 2 == a[j] / 2 {
        CountAtLeastThree(s, i, j, k);
        SortKeepsCounts(e, a[k] / 2);
        assert false;
      }
    }
  }

  predicate DistinctIndices(e: seq<BatchMerkleProofIndex>) {
    forall i, j :: 0 <= i < j < |e| ==> e[i].index != e[j].index
  }

  /** Distinct indices leave at most the two children under a parent. */
  lemma DistinctIsPairsOnly(e: seq<BatchMerkleProofIndex>)
    requires DistinctIndices(e)
    ensures AtMostTwoPerParent(e)
  {
    forall y: nat
      ensures UnderParent(e, y) <= 2
    {
      DistinctCounts(e, y);
    }
  }

  function HasIndex(e: seq<BatchMerkleProofIndex>, x: nat): nat {
    if exists i :: 0 <= i < |e| && e[i].index == x then 1 else 0
  }

  lemma {:induction false} DistinctCounts(e: seq<BatchMerkleProofIndex>, y: nat)
    requires DistinctIndices(e)
    ensures UnderParent(e, y) <= HasIndex(e, 2 * y) + HasIndex(e, 2 * y + 1)
  {
    if e != [] {
      var init, last := e[..|e| - 1], e[|e| - 1];
      DistinctCounts(init, y);
      assert e[|e| - 1] == last;
      assert forall i :: 0 <= i < |init| ==> init[i] == e[i];
    }
  }

  /** The tree collides with none of the inputs hashed while `p` is checked. */
  ghost predicate NoBatchCollisions(H: Hash, leaves: seq<MerkleNode>, p: BatchMerkleProof)
    requires AllLeaves(leaves)
  {
    var e := SortByIndex(p.indices);
    CheckNoCollisions(H, leaves, IndicesOf(e), HashesIn(e), p.proofs)
  }

  lemma SortedIsSound(H: Hash, leaves: seq<MerkleNode>, p: BatchMerkleProof)
    requires MadeFromBytes(H, leaves) && leaves != [] && PairsOnly(IndicesOf(SortByIndex(p.indices)))
    requires BatchValid(H, p, RootHash(TreeOf(H, leaves))) && NoBatchCollisions(H, leaves, p)
    ensures forall i :: 0 <= i < |p.indices| ==> IsNodeHash(H, leaves, p.indices[i].hash)
    ensures NodesOfTree(H, leaves, p.proofs)
  {
    hide Validate, SortByIndex, IsNodeHash, RootHash, TreeOf, CheckNoCollisions, PairsOnly;
    var e := SortByIndex(p.indices);
    SortKeepsEntries(p.indices);
    RootIsNode(H, leaves);
    var (top, _) := Validate(H, IndicesOf(e), HashesIn(e), p.proofs).value;
    assert top == [RootHash(TreeOf(H, leaves))];
    if e == [] {
      assert IndicesOf(e) == [] && HashesIn(e) == [];
      NothingToCheck(H, p.proofs);
      assert false;
    }
    CheckIsSound(H, leaves, IndicesOf(e), HashesIn(e), p.proofs);
    forall i | 0 <= i < |p.indices|
      ensures IsNodeHash(H, leaves, p.indices[i].hash)
    {
      assert p.indices[i] in e;
      var j :| 0 <= j < |e| && e[j] == p.indices[i];
      assert HashesIn(e)[j] == p.indices[i].hash;
    }
  }

  /**
   * Without collisions, an accepted multi-proof with at most two entries under each parent carries only hashes of
   * nodes of the tree.
   */
  lemma MultiproofsAreSound(H: Hash, leaves: seq<MerkleNode>, p: BatchMerkleProof)
    requires MadeFromBytes(H, leaves) && leaves != [] && AtMostTwoPerParent(p.indices)
    requires BatchValid(H, p, RootHash(TreeOf(H, leaves))) && NoBatchCollisions(H, leaves, p)
    ensures forall i :: 0 <= i < |p.indices| ==> IsNodeHash(H, leaves, p.indices[i].hash)
    ensures NodesOfTree(H, leaves, p.proofs)
  {
    hide BatchValid, NoBatchCollisions, IsNodeHash, RootHash, TreeOf, AtMostTwoPerParent, PairsOnly;
    SortedIsPairsOnly(p.indices);
    SortedIsSound(H, leaves, p);
  }

  lemma NothingToCheck(H: Hash, m: seq<LevelNode>)
    ensures Validate(H, [], [], m) == Some(([], m))
  {
    SortDedupMembers(HalfAll([]));
    NoMembers(HalfAll([]));
    NoMembers(SortDedup(HalfAll([])));
  }

  // ----- Lone entries -----

  lemma PassLone(H: Hash, q: nat, h: Digest32, node: LevelNode, m: seq<LevelNode>)
    ensures Pass(H, [q], [h], [node] + m) == Some(([H(HeadInput(node, h))], m))
  {
    hide HeadInput;
    var a: seq<nat>, e: seq<Digest32> := [q], [h];
    PassHead(H, a, e, node, m);
    assert a[1..] == [] && e[1..] == [];
    PassOfNothing(H, m);
    var hh := H(HeadInput(node, h));
    assert Pass(H, a, e, [node] + m) == Push(hh, Some(([], m)));
    assert [hh] + [] == [hh];
  }

  lemma SingleAscends(x: nat)
    ensures StrictlyAscending([x])
  {
  }
}
