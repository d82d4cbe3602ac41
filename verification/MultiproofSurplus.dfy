/**
 * Which position lists a multi-proof can be trusted with.  A pass makes one hash per pair or lone entry, but one
 * position per parent; with three entries under a parent there are more hashes than positions, and the surplus is cut
 * off unchecked.
 */
module MultiproofSurplus {
  import opened Wrappers
  import opened ChainTypes
  import opened MerkleTypes
  import opened Powers
  import opened SortedInts
  import opened MerkleTree
  import opened MerkleProofs
  import opened BatchProofs
  import opened Multiproofs

  // ----- More groups than parents -----

  predicate NonDescending(a: seq<nat>) {
    forall i, j :: 0 <= i < j < |a| ==> a[i] <= a[j]
  }

  predicate UnderOneParent(a: seq<nat>, i: nat, j: nat, k: nat) {
    i < j < k < |a| && a[i] / 2 == a[j] / 2 == a[k] / 2
  }

  lemma HalfIsMember(a: seq<nat>, i: nat)
    requires i < |a|
    ensures a[i] / 2 in Members(HalfAll(a))
  {
    assert HalfAll(a)[i] == a[i] / 2;
  }

  function FirstGroupSize(a: seq<nat>): nat {
    if StartsWithPair(a) then 2 else 1
  }

  /** The first group adds one hash, and a parent unless it comes back. */
  lemma OneMoreGroup(a: seq<nat>)
    requires a != []
    ensures
      var rest := a[FirstGroupSize(a)..];
      && |Halves(a)| == 1 + |Halves(rest)|
      && |Members(HalfAll(a))| <= 1 + |Members(HalfAll(rest))|
      && (a[0] / 2 in Members(HalfAll(rest)) ==> |Members(HalfAll(a))| == |Members(HalfAll(rest))|)
  {
    hide Members, HalfAll;
    var rest := a[FirstGroupSize(a)..];
    HalvesOfGroup(a, FirstGroupSize(a));
    var parents := Members(HalfAll(rest));
    if a[0] / 2 in parents {
      assert {a[0] / 2} + parents == parents;
    } else {
      assert |{a[0] / 2} + parents| == 1 + |parents|;
    }
  }

  lemma {:induction false} NoFewerGroups(a: seq<nat>)
    ensures |Members(HalfAll(a))| <= |Halves(a)|
  {
    if a == [] {
      NoMembers(HalfAll(a));
    } else {
      hide Members, HalfAll, Halves;
      NoFewerGroups(a[FirstGroupSize(a)..]);
      OneMoreGroup(a);
    }
  }

  /** If the first group holds the first of the three, its parent comes back. */
  lemma ParentComesBack(a: seq<nat>, i: nat, j: nat, k: nat)
    requires UnderOneParent(a, i, j, k) && i < FirstGroupSize(a)
    ensures a[0] / 2 in Members(HalfAll(a[FirstGroupSize(a)..]))
  {
    var g := FirstGroupSize(a);
    var l := if g == 2 then k else j;
    assert a[l] / 2 == a[0] / 2 && a[g..][l - g] == a[l];
    HalfIsMember(a[g..], l - g);
  }

  /** Three entries under one parent make more groups than parents. */
  lemma {:induction false} MoreGroups(a: seq<nat>, i: nat, j: nat, k: nat)
    requires UnderOneParent(a, i, j, k)
    ensures |Members(HalfAll(a))| < |Halves(a)|
  {
    hide Members, HalfAll, Halves;
    var g := FirstGroupSize(a);
    OneMoreGroup(a);
    if i < g {
      ParentComesBack(a, i, j, k);
      NoFewerGroups(a[g..]);
    } else {
      assert UnderOneParent(a[g..], i - g, j - g, k - g);
      MoreGroups(a[g..], i - g, j - g, k - g);
    }
  }

  // ----- Feeding the groups -----

  /** The left and right child of node `(1, q)`. */
  function LeftOf(H: Hash, leaves: seq<Digest32>, q: nat): Digest32 {
    HashAt(H, leaves, 0, 2 * q)
  }

  function RightOf(H: Hash, leaves: seq<Digest32>, q: nat): Digest32 {
    HashAt(H, leaves, 0, 2 * q + 1)
  }

  function Others(targets: seq<nat>): seq<nat> {
    if targets == [] then [] else targets[1..]
  }

  /** Hashes for the entries: the children of `targets`, group by group, and `x` for the groups left over. */
  function FedHashes(H: Hash, leaves: seq<Digest32>, a: seq<nat>, targets: seq<nat>, x: Digest32): (e: seq<Digest32>)
    ensures |e| == |a|
  {
    if a == [] then []
    else
      var left := if targets == [] then x else LeftOf(H, leaves, targets[0]);
      var right := if targets == [] then x else RightOf(H, leaves, targets[0]);
      if StartsWithPair(a) then [left, right] + FedHashes(H, leaves, a[2..], Others(targets), x)
      else [left] + FedHashes(H, leaves, a[1..], Others(targets), x)
  }

  /** The node beside a lone entry: a right child, or an empty node in a group left over. */
  function FedNode(H: Hash, leaves: seq<Digest32>, targets: seq<nat>): LevelNode {
    LevelNode(if targets == [] then None else Some(RightOf(H, leaves, targets[0])), Right)
  }

  function FedNodes(H: Hash, leaves: seq<Digest32>, a: seq<nat>, targets: seq<nat>): seq<LevelNode> {
    if a == [] then []
    else if StartsWithPair(a) then FedNodes(H, leaves, a[2..], Others(targets))
    else [FedNode(H, leaves, targets)] + FedNodes(H, leaves, a[1..], Others(targets))
  }

  /** Both children of the node at `q` of level 1 are there. */
  ghost predicate FullParent(H: Hash, leaves: seq<Digest32>, q: nat) {
    NodeHash(H, leaves, 0, 2 * q).Some? && NodeHash(H, leaves, 0, 2 * q + 1).Some?
  }

  lemma ParentFromChildren(H: Hash, leaves: seq<Digest32>, q: nat)
    requires FullParent(H, leaves, q)
    ensures HashAt(H, leaves, 1, q) == H(InnerInput(Some(LeftOf(H, leaves, q)), Some(RightOf(H, leaves, q))))
  {
    hide NodeHash;
    PairGivesParent(H, leaves, 0, q);
  }

  /** The hash made of the first group: its target, if there is one left. */
  function FirstTop(H: Hash, leaves: seq<Digest32>, pair: bool, targets: seq<nat>, x: Digest32): Digest32 {
    if targets != [] then HashAt(H, leaves, 1, targets[0]) else H(InnerInput(Some(x), if pair then Some(x) else None))
  }

  lemma FirstPair(H: Hash, leaves: seq<Digest32>, a: seq<nat>, targets: seq<nat>, x: Digest32, m: seq<LevelNode>)
    requires StartsWithPair(a) && (targets != [] ==> FullParent(H, leaves, targets[0]))
    ensures
      Pass(H, a, FedHashes(H, leaves, a, targets, x), m)
      == Push(FirstTop(H, leaves, true, targets, x),
              Pass(H, a[2..], FedHashes(H, leaves, a[2..], Others(targets), x), m))
  {
    hide InnerInput, LeftOf, RightOf, HashAt, FullParent;
    if targets != [] {
      ParentFromChildren(H, leaves, targets[0]);
    }
    var e := FedHashes(H, leaves, a, targets, x);
    assert e[2..] == FedHashes(H, leaves, a[2..], Others(targets), x);
    assert H(InnerInput(Some(e[0]), Some(e[1]))) == FirstTop(H, leaves, true, targets, x);
  }

  lemma FirstLone(H: Hash, leaves: seq<Digest32>, a: seq<nat>, targets: seq<nat>, x: Digest32, m: seq<LevelNode>)
    requires a != [] && !StartsWithPair(a) && (targets != [] ==> FullParent(H, leaves, targets[0]))
    ensures
      Pass(H, a, FedHashes(H, leaves, a, targets, x), [FedNode(H, leaves, targets)] + m)
      == Push(FirstTop(H, leaves, false, targets, x),
              Pass(H, a[1..], FedHashes(H, leaves, a[1..], Others(targets), x), m))
  {
    hide InnerInput, LeftOf, RightOf, HashAt, FullParent, Pass;
    if targets != [] {
      ParentFromChildren(H, leaves, targets[0]);
    }
    var e := FedHashes(H, leaves, a, targets, x);
    var node := FedNode(H, leaves, targets);
    PassHead(H, a, e, node, m);
    assert e[1..] == FedHashes(H, leaves, a[1..], Others(targets), x);
    assert HeadInput(node, e[0]) == InnerInput(Some(e[0]), node.hash);
    assert H(HeadInput(node, e[0])) == FirstTop(H, leaves, false, targets, x);
  }

  /** A pass over the fed entries is its first hash, then the pass over the rest. */
  lemma FedStep(H: Hash, leaves: seq<Digest32>, a: seq<nat>, targets: seq<nat>, x: Digest32, rest: seq<LevelNode>)
    requires a != [] && (targets != [] ==> FullParent(H, leaves, targets[0]))
    ensures
      var k := FirstGroupSize(a);
      Pass(H, a, FedHashes(H, leaves, a, targets, x), FedNodes(H, leaves, a, targets) + rest)
      == Push(FirstTop(H, leaves, StartsWithPair(a), targets, x),
              Pass(H, a[k..], FedHashes(H, leaves, a[k..], Others(targets), x),
                   FedNodes(H, leaves, a[k..], Others(targets)) + rest))
  {
    hide FullParent, FirstTop, FedHashes, FedNode, Pass, Push, Others;
    var more := FedNodes(H, leaves, a[FirstGroupSize(a)..], Others(targets)) + rest;
    if StartsWithPair(a) {
      FirstPair(H, leaves, a, targets, x, more);
    } else {
      FirstLone(H, leaves, a, targets, x, more);
      assert FedNodes(H, leaves, a, targets) + rest == [FedNode(H, leaves, targets)] + more;
    }
  }

  lemma LevelHashesNone(H: Hash, leaves: seq<Digest32>)
    ensures LevelHashes(H, leaves, 1, []) == []
  {
  }

  lemma TopsOfTargets(H: Hash, leaves: seq<Digest32>, pair: bool, targets: seq<nat>, x: Digest32, tops: seq<Digest32>)
    requires |Others(targets)| <= |tops| && tops[..|Others(targets)|] == LevelHashes(H, leaves, 1, Others(targets))
    ensures ([FirstTop(H, leaves, pair, targets, x)] + tops)[..|targets|] == LevelHashes(H, leaves, 1, targets)
  {
    hide LevelHashes, HashAt;
    var all := [FirstTop(H, leaves, pair, targets, x)] + tops;
    if targets == [] {
      LevelHashesNone(H, leaves);
    } else {
      LevelHashesCons(H, leaves, 1, targets[0], Others(targets));
      assert [targets[0]] + Others(targets) == targets;
      assert all[..|targets|] == [all[0]] + tops[..|Others(targets)|];
    }
  }

  /** A pass over the fed entries gives the targets, then what comes of the surplus, and consumes exactly its nodes. */
  lemma {:induction false} FedPass(
    H: Hash, leaves: seq<Digest32>, a: seq<nat>, targets: seq<nat>, x: Digest32, rest: seq<LevelNode>)
    requires |targets| <= |Halves(a)|
    requires forall i :: 0 <= i < |targets| ==> FullParent(H, leaves, targets[i])
    ensures
      var r := Pass(H, a, FedHashes(H, leaves, a, targets, x), FedNodes(H, leaves, a, targets) + rest);
      && r.Some? && r.value.1 == rest && |r.value.0| == |Halves(a)|
      && r.value.0[..|targets|] == LevelHashes(H, leaves, 1, targets)
  {
    if a == [] {
      hide FullParent, LevelHashes, FedHashes, Pass;
      assert FedNodes(H, leaves, a, targets) + rest == rest;
      assert FedHashes(H, leaves, a, targets, x) == [];
      PassOfNothing(H, rest);
      LevelHashesNone(H, leaves);
    } else {
      hide FullParent, LevelHashes, FedHashes, FedNodes, Pass, FirstTop;
      var others, later := Others(targets), a[FirstGroupSize(a)..];
      FedPass(H, leaves, later, others, x, rest);
      FedStep(H, leaves, a, targets, x, rest);
      var e, m := FedHashes(H, leaves, later, others, x), FedNodes(H, leaves, later, others) + rest;
      TopsOfTargets(H, leaves, StartsWithPair(a), targets, x, Pass(H, later, e, m).value.0);
    }
  }

  /** If there are more groups than targets, `x` is among the hashes. */
  lemma {:induction false} SurplusCarries(H: Hash, leaves: seq<Digest32>, a: seq<nat>, targets: seq<nat>, x: Digest32)
    requires |targets| < |Halves(a)|
    ensures x in FedHashes(H, leaves, a, targets, x)
  {
    var e := FedHashes(H, leaves, a, targets, x);
    if targets == [] {
      assert e[0] == x;
    } else {
      var k := if StartsWithPair(a) then 2 else 1;
      SurplusCarries(H, leaves, a[k..], Others(targets), x);
      assert e[k..] == FedHashes(H, leaves, a[k..], Others(targets), x);
      assert forall y :: y in e[k..] ==> y in e;
    }
  }

  // ----- Full trees -----

  lemma DepthOfFull(leaves: seq<MerkleNode>, d: nat)
    requires |leaves| == Pow2(d) && d >= 1
    ensures TreeDepth(leaves) == d
  {
    assert Pow2(d) == 2 * Pow2(d - 1);
    hide Pow2, Depth;
    var t := TreeDepth(leaves);
    if t < d {
      Pow2Monotone(t, d - 1);
    } else if t > d {
      Pow2Monotone(d, t - 1);
    }
  }

  /** The parents of positions inside a full tree have both children. */
  lemma ParentsAreFull(H: Hash, leaves: seq<MerkleNode>, d: nat, a: seq<nat>, q: nat)
    requires AllLeaves(leaves) && |leaves| == Pow2(d) && d >= 1 && Inside(a, |leaves|) && q in Members(HalfAll(a))
    ensures q < Pow2(d - 1) && FullParent(H, HashesOf(leaves), q)
  {
    var i :| 0 <= i < |a| && HalfAll(a)[i] == q;
    assert a[i] < Pow2(d) == 2 * Pow2(d - 1);
    hide Pow2;
    assert 2 * q + 1 < |leaves|;
  }

  lemma ParentsOnLevel(H: Hash, leaves: seq<MerkleNode>, d: nat, a: seq<nat>)
    requires AllLeaves(leaves) && |leaves| == Pow2(d) && d >= 2 && Inside(a, |leaves|) && a != []
    ensures OnLevel(H, HashesOf(leaves), d, 1, SortDedup(HalfAll(a)))
    ensures forall i :: 0 <= i < |SortDedup(HalfAll(a))| ==> FullParent(H, HashesOf(leaves), SortDedup(HalfAll(a))[i])
  {
    hide NodeHash, SortDedup, HashesOf, FullParent, Pow2, HalfAll;
    var parents := SortDedup(HalfAll(a));
    SortDedupMembers(HalfAll(a));
    ParentsOfSome(a);
    forall q | q in parents
      ensures q < Pow2(d - 1) && NodeHash(H, HashesOf(leaves), 1, q).Some? && FullParent(H, HashesOf(leaves), q)
    {
      assert q in Members(parents);
      ParentsAreFull(H, leaves, d, a, q);
      FullIsNode(H, HashesOf(leaves), q);
    }
  }

  lemma FullIsNode(H: Hash, leaves: seq<Digest32>, q: nat)
    requires FullParent(H, leaves, q)
    ensures NodeHash(H, leaves, 1, q).Some?
  {
    hide NodeHash;
    PairGivesParent(H, leaves, 0, q);
  }

  function Entries(a: seq<nat>, e: seq<Digest32>): (es: seq<BatchMerkleProofIndex>)
    requires |a| == |e|
    ensures IndicesOf(es) == a && HashesIn(es) == e
  {
    var es := seq(|a|, i requires 0 <= i < |a| => BatchMerkleProofIndex(a[i], e[i]));
    assert IndicesOf(es) == a && HashesIn(es) == e;
    es
  }

  lemma {:induction false} OrderedStays(e: seq<BatchMerkleProofIndex>)
    requires Ordered(e)
    ensures SortByIndex(e) == e
  {
    if e != [] {
      var init := e[..|e| - 1];
      OrderedStays(init);
      assert e == init + [e[|e| - 1]];
      if init != [] {
        assert e[|e| - 2].index <= e[|e| - 1].index;
      }
    }
  }

  lemma OrderedPositions(e: seq<BatchMerkleProofIndex>)
    requires NonDescending(IndicesOf(e))
    ensures Ordered(e)
  {
    forall i, j | 0 <= i < j < |e|
      ensures e[i].index <= e[j].index
    {
      assert IndicesOf(e)[i] <= IndicesOf(e)[j];
    }
  }

  ghost predicate Carries(p: BatchMerkleProof, x: Digest32) {
    exists i :: 0 <= i < |p.indices| && p.indices[i].hash == x
  }

  /** The proof that carries `x`: tree nodes for one group per parent, and `x` in the surplus. */
  function SurplusProof(H: Hash, leaves: seq<Digest32>, d: nat, a: seq<nat>, x: Digest32): BatchMerkleProof
    requires d >= 1
  {
    var parents := SortDedup(HalfAll(a));
    BatchMerkleProof(
      Entries(a, FedHashes(H, leaves, a, parents, x)),
      FedNodes(H, leaves, a, parents) + TreeProof(H, leaves, d, 1, parents))
  }

  lemma SurplusReachesTheRoot(
    H: Hash, leaves: seq<MerkleNode>, d: nat, a: seq<nat>, i: nat, j: nat, k: nat, x: Digest32)
    requires AllLeaves(leaves) && |leaves| == Pow2(d) && d >= 2
    requires Inside(a, |leaves|) && UnderOneParent(a, i, j, k)
    ensures
      var p := SurplusProof(H, HashesOf(leaves), d, a, x);
      Validate(H, a, HashesIn(p.indices), p.proofs) == Some(([HashAt(H, HashesOf(leaves), d, 0)], []))
  {
    var hashes, parents := HashesOf(leaves), SortDedup(HalfAll(a));
    hide NodeHash, HashAt, HashesOf, Pow2, SortDedup, HalfAll, Halves, FullParent, OnLevel, TreeProof, LevelHashes,
      Members, Inside, FedHashes, FedNodes, Pass;
    MoreGroups(a, i, j, k);
    ParentsOfSome(a);
    ParentsOnLevel(H, leaves, d, a);
    FedPass(H, hashes, a, parents, x, TreeProof(H, hashes, d, 1, parents));
    ValidateReachesTheRoot(H, hashes, d, 1, parents);
  }

  lemma SurplusIsCarried(H: Hash, leaves: seq<Digest32>, d: nat, a: seq<nat>, i: nat, j: nat, k: nat, x: Digest32)
    requires d >= 1 && UnderOneParent(a, i, j, k)
    ensures Carries(SurplusProof(H, leaves, d, a, x), x)
  {
    hide SortDedup, HalfAll, Halves, TreeProof, Members, FedHashes, FedNodes;
    var parents := SortDedup(HalfAll(a));
    MoreGroups(a, i, j, k);
    ParentsOfSome(a);
    SurplusCarries(H, leaves, a, parents, x);
    var e, p := FedHashes(H, leaves, a, parents, x), SurplusProof(H, leaves, d, a, x);
    var n :| 0 <= n < |e| && e[n] == x;
    assert HashesIn(p.indices)[n] == p.indices[n].hash;
  }

  /** With three entries under one parent, every hash can be carried by an accepted proof for those positions. */
  lemma SurplusIsUnchecked(
    H: Hash, leaves: seq<MerkleNode>, d: nat, a: seq<nat>, i: nat, j: nat, k: nat, x: Digest32)
    returns (p: BatchMerkleProof)
    requires AllLeaves(leaves) && |leaves| == Pow2(d) && d >= 2
    requires NonDescending(a) && Inside(a, |leaves|) && UnderOneParent(a, i, j, k)
    ensures IndicesOf(p.indices) == a && BatchValid(H, p, RootHash(TreeOf(H, leaves))) && Carries(p, x)
  {
    p := SurplusProof(H, HashesOf(leaves), d, a, x);
    assert IndicesOf(p.indices) == a;
    SurplusReachesTheRoot(H, leaves, d, a, i, j, k, x);
    SurplusIsCarried(H, HashesOf(leaves), d, a, i, j, k, x);
    hide SurplusProof, TreeOf, HashesOf, RootHash, TreeDepth, Validate, Carries, HashAt, Pow2;
    DepthOfFull(leaves, d);
    RootIsTop(H, leaves);
    OrderedPositions(p.indices);
    OrderedStays(p.indices);
  }

  // ----- The exact condition -----

  /** No input at all collides with an input of the tree. */
  ghost predicate Sealed(H: Hash, leaves: seq<MerkleNode>)
    requires AllLeaves(leaves)
  {
    forall input: seq<byte> :: NoCollisionWith(H, leaves, input)
  }

  lemma {:induction false} SealedPass(
    H: Hash, leaves: seq<MerkleNode>, a: seq<nat>, e: seq<Digest32>, m: seq<LevelNode>)
    requires AllLeaves(leaves) && |a| == |e| && Sealed(H, leaves)
    ensures PassNoCollisions(H, leaves, a, e, m)
  {
    hide NoCollisionWith, InnerInput, HeadInput;
    if a != [] {
      var k := if StartsWithPair(a) then 2 else 1;
      if k == 2 || m != [] {
        SealedPass(H, leaves, a[k..], e[k..], if k == 2 then m else m[1..]);
      }
    }
  }

  lemma {:induction false} SealedCheck(
    H: Hash, leaves: seq<MerkleNode>, a: seq<nat>, e: seq<Digest32>, m: seq<LevelNode>)
    requires AllLeaves(leaves) && Sealed(H, leaves)
    ensures CheckNoCollisions(H, leaves, a, e, m)
    decreases |m| + |a|
  {
    hide Sealed, PassNoCollisions, Pass, SortDedup, HalfAll;
    if |a| == |e| {
      SealedPass(H, leaves, a, e, m);
      if Pass(H, a, e, m).Some? {
        var (eNew, mNew) := Pass(H, a, e, m).value;
        var aNew := SortDedup(HalfAll(a));
        if (mNew != [] || |eNew| > 1) && aNew != [] {
          NextLevelIsSmaller(H, a, e, m);
          SealedCheck(H, leaves, aNew, eNew[..|aNew|], mNew);
        }
      }
    }
  }

  /** Proofs for positions `a` that are accepted carry only hashes of nodes. */
  ghost predicate Trusted(H: Hash, leaves: seq<MerkleNode>, a: seq<nat>)
    requires AllLeaves(leaves)
  {
    forall p: BatchMerkleProof, x ::
      IndicesOf(p.indices) == a && BatchValid(H, p, RootHash(TreeOf(H, leaves))) && Carries(p, x)
      ==> IsNodeHash(H, leaves, x)
  }

  lemma PairsAreTrusted(H: Hash, leaves: seq<MerkleNode>, a: seq<nat>)
    requires MadeFromBytes(H, leaves) && leaves != [] && Sealed(H, leaves) && PairsOnly(a)
    ensures Trusted(H, leaves, a)
  {
    hide BatchValid, IsNodeHash, RootHash, TreeOf, Sealed, CheckNoCollisions;
    forall p: BatchMerkleProof, x |
      IndicesOf(p.indices) == a && BatchValid(H, p, RootHash(TreeOf(H, leaves))) && Carries(p, x)
      ensures IsNodeHash(H, leaves, x)
    {
      OrderedPositions(p.indices);
      OrderedStays(p.indices);
      SealedCheck(H, leaves, IndicesOf(p.indices), HashesIn(p.indices), p.proofs);
      SortedIsSound(H, leaves, p);
    }
  }

  /** Nothing in the tree hashes the empty input. */
  lemma OutsideHash(H: Hash, leaves: seq<MerkleNode>)
    requires MadeFromBytes(H, leaves) && Sealed(H, leaves)
    ensures !IsNodeHash(H, leaves, H([]))
  {
    hide NodeHash, TreeDepth;
    if IsNodeHash(H, leaves, H([])) {
      var t: nat, q: nat :| t <= TreeDepth(leaves) && NodeHash(H, HashesOf(leaves), t, q) == Some(H([]));
      NodeIsHashOfInput(H, leaves, t, q);
      assert NoCollisionWith(H, leaves, []);
      InputIsNotEmpty(H, leaves, t, q);
      assert false;
    }
  }

  lemma InputIsNotEmpty(H: Hash, leaves: seq<MerkleNode>, t: nat, q: nat)
    requires AllLeaves(leaves) && NodeHash(H, HashesOf(leaves), t, q).Some?
    ensures NodeInput(H, leaves, t, q) != []
  {
  }

  lemma ThreeUnderOne(a: seq<nat>) returns (i: nat, j: nat, k: nat)
    requires NonDescending(a) && !PairsOnly(a)
    ensures UnderOneParent(a, i, j, k)
  {
    i, j, k :| 0 <= i < j < k < |a| && a[i] / 2 == a[k] / 2 && a[j] / 2 == a[k] / 2;
  }

  lemma SurplusIsNotTrusted(H: Hash, leaves: seq<MerkleNode>, d: nat, a: seq<nat>)
    requires MadeFromBytes(H, leaves) && Sealed(H, leaves) && |leaves| == Pow2(d) && d >= 2
    requires NonDescending(a) && Inside(a, |leaves|) && !PairsOnly(a)
    ensures !Trusted(H, leaves, a)
  {
    hide BatchValid, IsNodeHash, RootHash, TreeOf, Sealed, Pow2, PairsOnly, NonDescending;
    OutsideHash(H, leaves);
    var i, j, k := ThreeUnderOne(a);
    var p := SurplusIsUnchecked(H, leaves, d, a, i, j, k, H([]));
  }

  // ----- Trees of depth 1 -----

  /** On a tree of depth 1 only leaves have a parent. */
  lemma PartIsLeaf(H: Hash, leaves: seq<MerkleNode>, node: LevelNode, h: Digest32) returns (q: nat)
    requires MadeFromBytes(H, leaves) && TreeDepth(leaves) == 1 && Sealed(H, leaves)
    requires IsNodeHash(H, leaves, H(HeadInput(node, h)))
    ensures NodeHash(H, HashesOf(leaves), 0, q) == Some(h)
  {
    hide NodeHash, InnerInput, HashesOf, TreeDepth, NoCollisionWith;
    var l, r := if node.side == Left then node.hash else Some(h), if node.side == Left then Some(h) else node.hash;
    assert HeadInput(node, h) == InnerInput(l, r);
    var t: nat, p: nat :| t <= 1 && NodeHash(H, HashesOf(leaves), t, p) == Some(H(InnerInput(l, r)));
    NodeParts(H, leaves, t, p, l, r);
    q := if node.side == Left && node.hash.Some? then 2 * p + 1 else 2 * p;
  }

  lemma LeafIsNotMade(H: Hash, leaves: seq<MerkleNode>, q: nat, h: Digest32, l: Option<Digest32>, r: Option<Digest32>)
    requires MadeFromBytes(H, leaves) && Sealed(H, leaves) && (l.Some? || r.Some?)
    requires NodeHash(H, HashesOf(leaves), 0, q) == Some(h)
    ensures h != H(InnerInput(l, r))
  {
    hide NodeHash, InnerInput, HashesOf, TreeDepth, NoCollisionWith;
    if h == H(InnerInput(l, r)) {
      NodeParts(H, leaves, 0, q, l, r);
      assert false;
    }
  }

  /** One entry at position 0: its first step gives a node. */
  lemma LoneStep(H: Hash, leaves: seq<MerkleNode>, h: Digest32, m: seq<LevelNode>)
    requires MadeFromBytes(H, leaves) && Sealed(H, leaves)
    requires Validate(H, [0], [h], m).Some? && NodeHashes(H, leaves, Validate(H, [0], [h], m).value.0)
    ensures m != [] && IsNodeHash(H, leaves, H(HeadInput(m[0], h)))
  {
    hide IsNodeHash, HeadInput, Sealed, Pass, SortDedup, CheckNoCollisions;
    NoLonePass(H, h);
    var next := H(HeadInput(m[0], h));
    assert m == [m[0]] + m[1..];
    PassLone(H, 0, h, m[0], m[1..]);
    OnlyParent([0]);
    assert [next][..1] == [next];
    if m[1..] != [] {
      SealedCheck(H, leaves, [0], [next], m[1..]);
      CheckIsSound(H, leaves, [0], [next], m[1..]);
    }
    assert [next][0] == next;
  }

  lemma NoLonePass(H: Hash, h: Digest32)
    ensures Pass(H, [0], [h], []) == None
  {
  }

  lemma OnlyParent(a: seq<nat>)
    requires a != [] && Inside(a, 2)
    ensures SortDedup(HalfAll(a)) == [0]
  {
    hide SortDedup;
    var s := SortDedup(HalfAll(a));
    SortDedupMembers(HalfAll(a));
    ParentsOfSome(a);
    assert |s| > 1 ==> s[0] < s[1];
    forall i | 0 <= i < |s|
      ensures s[i] == 0
    {
      assert s[i] in Members(s);
      var j :| 0 <= j < |a| && HalfAll(a)[j] == s[i];
    }
  }

  lemma FirstIsMade(H: Hash, a: seq<nat>, e: seq<Digest32>, m: seq<LevelNode>)
    returns (l: Option<Digest32>, r: Option<Digest32>)
    requires a != [] && |a| == |e| && Pass(H, a, e, m).Some?
    ensures l.Some? || r.Some?
    ensures Pass(H, a, e, m).value.0 != [] && Pass(H, a, e, m).value.0[0] == H(InnerInput(l, r))
  {
    hide InnerInput;
    if StartsWithPair(a) {
      l, r := Some(e[0]), Some(e[1]);
    } else {
      l, r := if m[0].side == Left then m[0].hash else Some(e[0]), if m[0].side == Left then Some(e[0]) else m[0].hash;
    }
  }

  /** On a tree of depth 1 nothing is accepted with three entries under its one parent. */
  lemma ShallowSurplusFails(
    H: Hash, leaves: seq<MerkleNode>, a: seq<nat>, e: seq<Digest32>, m: seq<LevelNode>, i: nat, j: nat, k: nat)
    requires MadeFromBytes(H, leaves) && TreeDepth(leaves) == 1 && Sealed(H, leaves)
    requires Inside(a, 2) && UnderOneParent(a, i, j, k)
    ensures Validate(H, a, e, m).Some? ==> !NodeHashes(H, leaves, Validate(H, a, e, m).value.0)
  {
    hide IsNodeHash, Sealed, Pass, SortDedup, HalfAll, TreeDepth, InnerInput, HeadInput, NodeHash;
    if Validate(H, a, e, m).Some? && NodeHashes(H, leaves, Validate(H, a, e, m).value.0) {
      var (eNew, mNew) := Pass(H, a, e, m).value;
      MoreGroups(a, i, j, k);
      OneHashPerHalf(H, a, e, m);
      OnlyParent(a);
      ParentsOfSome(a);
      assert eNew[..1] == [eNew[0]];
      LoneStep(H, leaves, eNew[0], mNew);
      var q := PartIsLeaf(H, leaves, mNew[0], eNew[0]);
      var l, r := FirstIsMade(H, a, e, m);
      LeafIsNotMade(H, leaves, q, eNew[0], l, r);
      assert false;
    }
  }

  lemma ShallowIsTrusted(H: Hash, leaves: seq<MerkleNode>, a: seq<nat>)
    requires MadeFromBytes(H, leaves) && leaves != [] && TreeDepth(leaves) == 1 && Sealed(H, leaves)
    requires NonDescending(a) && Inside(a, 2)
    ensures Trusted(H, leaves, a)
  {
    hide IsNodeHash, RootHash, TreeOf, Sealed, TreeDepth, Validate, PairsOnly;
    if PairsOnly(a) {
      PairsAreTrusted(H, leaves, a);
    } else {
      var i, j, k := ThreeUnderOne(a);
      RootIsNode(H, leaves);
      forall p: BatchMerkleProof | IndicesOf(p.indices) == a
        ensures !BatchValid(H, p, RootHash(TreeOf(H, leaves)))
      {
        OrderedPositions(p.indices);
        OrderedStays(p.indices);
        ShallowSurplusFails(H, leaves, a, HashesIn(p.indices), p.proofs, i, j, k);
      }
    }
  }

  /**
   * Which positions can be trusted on a full tree, the hash being free of collisions: those with at most two entries
   * under each parent, and all positions if there are at most two leaves.
   */
  lemma TrustedIff(H: Hash, leaves: seq<MerkleNode>, d: nat, a: seq<nat>)
    requires MadeFromBytes(H, leaves) && |leaves| == Pow2(d) && Sealed(H, leaves)
    requires NonDescending(a) && Inside(a, |leaves|)
    ensures Trusted(H, leaves, a) <==> PairsOnly(a) || d <= 1
  {
    hide Sealed, Trusted, PairsOnly, NonDescending, TreeDepth;
    if PairsOnly(a) {
      PairsAreTrusted(H, leaves, a);
    } else if d <= 1 {
      ShallowDepth(leaves, d);
      ShallowIsTrusted(H, leaves, a);
    } else {
      SurplusIsNotTrusted(H, leaves, d, a);
    }
  }

  lemma ShallowDepth(leaves: seq<MerkleNode>, d: nat)
    requires |leaves| == Pow2(d) && d <= 1
    ensures 1 <= |leaves| <= 2 && TreeDepth(leaves) == 1
  {
    assert Pow2(1) == 2 * Pow2(0) == 2;
    if d == 1 {
      DepthOfFull(leaves, 1);
    }
  }

  // ----- A hash and a tree that it does not collide with -----

  function Both(l: Digest32, r: Digest32): seq<byte> {
    InnerInput(Some(l), Some(r))
  }

  /** Numbers the inputs of a tree over four leaves 1 to 7, and every other input 0. */
  function NumberedHash(input: seq<byte>): Digest32 {
    if |input| == 2 && input[0] == LEAF_PREFIX && input[1] < 4 then input[1] + 1
    else if input == Both(1, 2) then 5
    else if input == Both(3, 4) then 6
    else if input == Both(5, 6) then 7
    else 0
  }

  function NumberedInput(n: nat): seq<byte> {
    if 1 <= n <= 4 then [LEAF_PREFIX, n - 1]
    else if n == 5 then Both(1, 2)
    else if n == 6 then Both(3, 4)
    else Both(5, 6)
  }

  function NumberedLeaves(): (leaves: seq<MerkleNode>)
    ensures |leaves| == 4 && MadeFromBytes(NumberedHash, leaves)
    ensures forall i :: 0 <= i < 4 ==> leaves[i] == Leaf(i + 1, [i])
  {
    seq(4, i requires 0 <= i < 4 => FromBytes(NumberedHash, [i]))
  }

  lemma BothDiffer(l: Digest32, r: Digest32, a: Digest32, b: Digest32)
    requires l != a
    ensures Both(l, r) != Both(a, b) && |Both(l, r)| == 65
  {
    if Both(l, r) == Both(a, b) {
      InnerInputSplits(Some(l), Some(r), Some(a), Some(b));
      assert false;
    }
  }

  lemma NumbersAreUnique(n: nat, input: seq<byte>)
    requires 1 <= n <= 7
    ensures NumberedHash(input) == n <==> input == NumberedInput(n)
  {
    hide Both;
    BothDiffer(1, 2, 3, 4);
    BothDiffer(1, 2, 5, 6);
    BothDiffer(3, 4, 5, 6);
    BothDiffer(5, 6, 1, 2);
  }

  lemma NumberedNodes(t: nat, q: nat)
    requires t <= 2
    ensures
      var hashes := HashesOf(NumberedLeaves());
      NodeHash(NumberedHash, hashes, t, q)
      == if t == 0 && q < 4 then Some(q + 1)
         else if t == 1 && q < 2 then Some(q + 5)
         else if t == 2 && q == 0 then Some(7)
         else None
  {
    hide NodeHash, NumberedHash, NumberedLeaves, InnerInput;
    var hashes := HashesOf(NumberedLeaves());
    NodeHashUnfolds(NumberedHash, hashes, t, q);
    if t > 0 {
      NumberedNodes(t - 1, 2 * q);
      NumberedNodes(t - 1, 2 * q + 1);
      JoinOfBoth(1, 2);
      JoinOfBoth(3, 4);
      JoinOfBoth(5, 6);
      NumbersAreUnique(5, Both(1, 2));
      NumbersAreUnique(6, Both(3, 4));
      NumbersAreUnique(7, Both(5, 6));
    }
  }

  lemma JoinOfBoth(l: Digest32, r: Digest32)
    ensures Join(NumberedHash, Some(l), Some(r)) == Some(NumberedHash(Both(l, r)))
  {
    hide NumberedHash;
  }

  lemma InputsAreNumbered(t: nat, q: nat)
    requires t <= 2 && NodeHash(NumberedHash, HashesOf(NumberedLeaves()), t, q).Some?
    ensures
      var n := NodeHash(NumberedHash, HashesOf(NumberedLeaves()), t, q).value;
      1 <= n <= 7 && NodeInput(NumberedHash, NumberedLeaves(), t, q) == NumberedInput(n)
  {
    hide NodeHash, NumberedHash, NumberedLeaves, InnerInput;
    NumberedNodes(t, q);
    if t > 0 {
      NumberedNodes(t - 1, 2 * q);
      NumberedNodes(t - 1, 2 * q + 1);
    }
  }

  /** So there is a full tree of depth 2 with which nothing collides. */
  lemma SealedTree()
    ensures |NumberedLeaves()| == Pow2(2) && Sealed(NumberedHash, NumberedLeaves())
  {
    var leaves := NumberedLeaves();
    assert Pow2(2) == 2 * Pow2(1) == 4 * Pow2(0) == 4;
    DepthOfFull(leaves, 2);
    hide NodeHash, NumberedHash, NumberedLeaves, InnerInput, NodeInput, NumberedInput, TreeDepth, HashesOf;
    forall input: seq<byte>, t: nat, q: nat |
      && t <= TreeDepth(leaves) && NodeHash(NumberedHash, HashesOf(leaves), t, q).Some?
      && NumberedHash(NodeInput(NumberedHash, leaves, t, q)) == NumberedHash(input)
      ensures NodeInput(NumberedHash, leaves, t, q) == input
    {
      InputsAreNumbered(t, q);
      var n := NodeHash(NumberedHash, HashesOf(leaves), t, q).value;
      NumbersAreUnique(n, NodeInput(NumberedHash, leaves, t, q));
      NumbersAreUnique(n, input);
    }
  }
}
