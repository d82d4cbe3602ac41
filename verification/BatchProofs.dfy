/**
 * Compact multi-proofs.  The builder collects, level by level, the siblings missing from a set of heap
 * indices; the verifier works with positions relative to the level and consumes the proof in order.
 */
module BatchProofs {
  import opened Wrappers
  import opened ChainTypes
  import opened MerkleTypes
  import opened Powers
  import opened SortedInts
  import opened MerkleTree
  import opened MerkleProofs

  // ----- Positions on one level -----

  predicate StartsWithPair(a: seq<nat>) {
    |a| >= 2 && a[0] / 2 == a[1] / 2
  }

  /** The siblings that `a` lacks, in order. */
  function Missing(a: seq<nat>): seq<nat> {
    if a == [] then []
    else if StartsWithPair(a) then Missing(a[2..])
    else [Sib(a[0])] + Missing(a[1..])
  }

  /** The parents of `a`, in order. */
  function Halves(a: seq<nat>): seq<nat> {
    if a == [] then []
    else [a[0] / 2] + Halves(if StartsWithPair(a) then a[2..] else a[1..])
  }

  /** What follows the first group of `a` lies under later parents. */
  lemma AfterFirstGroup(a: seq<nat>)
    requires StrictlyAscending(a) && a != []
    ensures
      var rest := if StartsWithPair(a) then a[2..] else a[1..];
      && StrictlyAscending(rest)
      && (forall x :: x in rest ==> x / 2 > a[0] / 2)
      && (forall x :: x in a <==> x == a[0] || (StartsWithPair(a) && x == a[1]) || x in rest)
    ensures StartsWithPair(a) ==> a[1] == a[0] + 1 && a[0] % 2 == 0
  {
    var rest := if StartsWithPair(a) then a[2..] else a[1..];
    forall x | x in rest
      ensures x / 2 > a[0] / 2
    {
      var i :| 0 <= i < |rest| && rest[i] == x;
      assert x == a[i + |a| - |rest|];
    }
    assert a == a[..|a| - |rest|] + rest;
  }

  lemma SibFacts(x: nat)
    ensures Sib(Sib(x)) == x && Sib(x) / 2 == x / 2 && Sib(x) != x
    ensures forall y: nat :: y / 2 == x / 2 ==> y == x || y == Sib(x)
  {
  }

  lemma {:induction false} MissingHas(a: seq<nat>, x: nat)
    requires StrictlyAscending(a)
    ensures x in Missing(a) <==> x !in a && Sib(x) in a
  {
    if a != [] {
      AfterFirstGroup(a);
      hide StrictlyAscending;
      var rest := if StartsWithPair(a) then a[2..] else a[1..];
      MissingHas(rest, x);
      SibFacts(a[0]);
      SibFacts(x);
      hide Sib;
      if x / 2 == a[0] / 2 {
        assert x !in rest && Sib(x) !in rest;
      }
    }
  }

  lemma MissingBeyond(a: seq<nat>, p: nat)
    requires StrictlyAscending(a) && forall x :: x in a ==> x / 2 > p
    ensures forall y :: y in Members(Missing(a)) ==> y / 2 > p
  {
    forall y | y in Members(Missing(a))
      ensures y / 2 > p
    {
      MissingHas(a, y);
      SibFacts(y);
    }
  }

  lemma {:induction false} MissingAscending(a: seq<nat>)
    requires StrictlyAscending(a)
    ensures StrictlyAscending(Missing(a))
  {
    if a != [] {
      AfterFirstGroup(a);
      var rest := if StartsWithPair(a) then a[2..] else a[1..];
      MissingAscending(rest);
      if !StartsWithPair(a) {
        MissingBeyond(rest, a[0] / 2);
        SibFacts(a[0]);
        hide Members, StrictlyAscending;
        ConsKeepsOrder(Sib(a[0]), Missing(rest));
      }
    }
  }

  lemma MissingMembers(a: seq<nat>)
    requires StrictlyAscending(a)
    ensures StrictlyAscending(Missing(a))
    ensures forall x :: x in Members(Missing(a)) <==> x !in a && Sib(x) in a
  {
    MissingAscending(a);
    forall x: nat
      ensures x in Missing(a) <==> x !in a && Sib(x) in a
    {
      MissingHas(a, x);
    }
  }

  lemma {:induction false} HalvesHas(a: seq<nat>, y: nat)
    requires StrictlyAscending(a)
    ensures y in Halves(a) <==> 2 * y in a || 2 * y + 1 in a
  {
    if a != [] {
      AfterFirstGroup(a);
      hide StrictlyAscending;
      HalvesHas(if StartsWithPair(a) then a[2..] else a[1..], y);
    }
  }

  lemma HalvesBeyond(a: seq<nat>, p: nat)
    requires StrictlyAscending(a) && forall x :: x in a ==> x / 2 > p
    ensures forall y :: y in Members(Halves(a)) ==> y > p
  {
    forall y | y in Members(Halves(a))
      ensures y > p
    {
      HalvesHas(a, y);
    }
  }

  lemma {:induction false} HalvesAscending(a: seq<nat>)
    requires StrictlyAscending(a)
    ensures StrictlyAscending(Halves(a))
  {
    if a != [] {
      AfterFirstGroup(a);
      var rest := if StartsWithPair(a) then a[2..] else a[1..];
      HalvesAscending(rest);
      HalvesBeyond(rest, a[0] / 2);
      hide Members, StrictlyAscending;
      ConsKeepsOrder(a[0] / 2, Halves(rest));
    }
  }

  lemma HalvesMembers(a: seq<nat>)
    requires StrictlyAscending(a)
    ensures StrictlyAscending(Halves(a))
    ensures forall y :: y in Members(Halves(a)) <==> 2 * y in a || 2 * y + 1 in a
    ensures a != [] ==> Halves(a) != []
  {
    HalvesAscending(a);
    forall y: nat
      ensures y in Halves(a) <==> 2 * y in a || 2 * y + 1 in a
    {
      HalvesHas(a, y);
    }
  }

  function HalfAll(a: seq<nat>): (h: seq<nat>)
    ensures |h| == |a|
  {
    seq(|a|, i requires 0 <= i < |a| => a[i] / 2)
  }

  lemma HalfAllMembers(a: seq<nat>)
    ensures forall y: nat :: y in Members(HalfAll(a)) <==> 2 * y in a || 2 * y + 1 in a
  {
    forall y: nat
      ensures y in HalfAll(a) <==> 2 * y in a || 2 * y + 1 in a
    {
      if y in HalfAll(a) {
        var i :| 0 <= i < |a| && HalfAll(a)[i] == y;
        assert a[i] == 2 * y || a[i] == 2 * y + 1;
      }
      if x :| (x == 2 * y || x == 2 * y + 1) && x in a {
        var i :| 0 <= i < |a| && a[i] == x;
        assert HalfAll(a)[i] == y;
      }
    }
  }

  /** On strictly ascending positions, sorting and deduplicating the halves gives the parents. */
  lemma SortedHalves(a: seq<nat>)
    requires StrictlyAscending(a)
    ensures SortDedup(HalfAll(a)) == Halves(a)
  {
    SortDedupMembers(HalfAll(a));
    HalvesMembers(a);
    HalfAllMembers(a);
    hide Members, StrictlyAscending;
    assert Members(HalfAll(a)) == Members(Halves(a));
    AscendingUnique(SortDedup(HalfAll(a)), Halves(a));
  }

  // ----- Checking -----

  /** One level: hashes of the parents, and the proof nodes left over. */
  function Pass(H: Hash, a: seq<nat>, e: seq<Digest32>, m: seq<LevelNode>): Option<(seq<Digest32>, seq<LevelNode>)>
    requires |a| == |e|
  {
    if a == [] then Some(([], m))
    else if StartsWithPair(a) then
      Push(H(InnerInput(Some(e[0]), Some(e[1]))), Pass(H, a[2..], e[2..], m))
    else if m == [] then None
    else Push(H(HeadInput(m[0], e[0])), Pass(H, a[1..], e[1..], m[1..]))
  }

  function HeadInput(head: LevelNode, h: Digest32): seq<byte> {
    if head.side == Left then InnerInput(head.hash, Some(h)) else InnerInput(Some(h), head.hash)
  }

  function Push(h: Digest32, r: Option<(seq<Digest32>, seq<LevelNode>)>): Option<(seq<Digest32>, seq<LevelNode>)> {
    match r
    case None => None
    case Some((hs, m)) => Some(([h] + hs, m))
  }

  /** The halves of `a` are at most as many as the hashes a pass computes, and a pass never stands still. */
  lemma {:induction false} PassShrinks(H: Hash, a: seq<nat>, e: seq<Digest32>, m: seq<LevelNode>)
    requires |a| == |e| && Pass(H, a, e, m).Some?
    ensures
      var (eNew, mNew) := Pass(H, a, e, m).value;
      && |Members(HalfAll(a))| <= |eNew| <= |a|
      && |mNew| <= |m|
      && (a != [] ==> |mNew| + |eNew| < |m| + |a|)
      && (a != [] ==> eNew != [])
  {
    if a == [] {
      NoMembers(HalfAll(a));
    } else {
      var k := if StartsWithPair(a) then 2 else 1;
      PassShrinks(H, a[k..], e[k..], if k == 2 then m else m[1..]);
      assert Members(HalfAll(a)) == {a[0] / 2} + Members(HalfAll(a[k..])) by {
        HalvesOfGroup(a, k);
      }
    }
  }

  lemma HalvesOfGroup(a: seq<nat>, k: nat)
    requires a != [] && k == if StartsWithPair(a) then 2 else 1
    ensures Members(HalfAll(a)) == {a[0] / 2} + Members(HalfAll(a[k..]))
  {
    var h := HalfAll(a);
    assert h[k..] == HalfAll(a[k..]);
    MembersOfTail(h, k);
    assert Members(h[..k]) == {a[0] / 2} by {
      assert h[0] == a[0] / 2 && h[0] in h[..k];
    }
  }

  lemma NextLevelIsSmaller(H: Hash, a: seq<nat>, e: seq<Digest32>, m: seq<LevelNode>)
    requires |a| == |e| && Pass(H, a, e, m).Some? && SortDedup(HalfAll(a)) != []
    ensures
      var (eNew, mNew) := Pass(H, a, e, m).value;
      var aNew := SortDedup(HalfAll(a));
      |aNew| <= |eNew| && |mNew| + |aNew| < |m| + |a|
  {
    hide Pass, SortDedup;
    SortDedupMembers(HalfAll(a));
    AscendingCardinality(SortDedup(HalfAll(a)));
    if a == [] {
      NoMembers(SortDedup(HalfAll(a)));
      NoMembers(HalfAll(a));
      assert false;
    }
    PassShrinks(H, a, e, m);
  }

  /** The hashes at the top and the proof nodes left over; `None` when the shape does not work out. */
  function Validate(H: Hash, a: seq<nat>, e: seq<Digest32>, m: seq<LevelNode>): Option<(seq<Digest32>, seq<LevelNode>)>
    decreases |m| + |a|
  {
    if |e| != |a| then None
    else
      match Pass(H, a, e, m)
      case None => None
      case Some((eNew, mNew)) =>
        var aNew := SortDedup(HalfAll(a));
        if (mNew != [] || |eNew| > 1) && aNew != [] then
          NextLevelIsSmaller(H, a, e, m);
          Validate(H, aNew, eNew[..|aNew|], mNew)
        else Some((eNew, mNew))
  }

  function InsertByIndex(x: BatchMerkleProofIndex, s: seq<BatchMerkleProofIndex>): (r: seq<BatchMerkleProofIndex>)
    ensures |r| == |s| + 1
  {
    if s == [] then [x]
    else if x.index < s[|s| - 1].index then InsertByIndex(x, s[..|s| - 1]) + [s[|s| - 1]]
    else s + [x]
  }

  /** Stable sort by index. */
  function SortByIndex(s: seq<BatchMerkleProofIndex>): (r: seq<BatchMerkleProofIndex>)
    ensures |r| == |s|
  {
    if s == [] then [] else InsertByIndex(s[|s| - 1], SortByIndex(s[..|s| - 1]))
  }

  function IndicesOf(e: seq<BatchMerkleProofIndex>): (a: seq<nat>)
    ensures |a| == |e|
  {
    seq(|e|, i requires 0 <= i < |e| => e[i].index)
  }

  function HashesIn(e: seq<BatchMerkleProofIndex>): (hs: seq<Digest32>)
    ensures |hs| == |e|
  {
    seq(|e|, i requires 0 <= i < |e| => e[i].hash)
  }

  /** Whether the proof's hashes combine to exactly one hash, the expected root. */
  predicate BatchValid(H: Hash, p: BatchMerkleProof, expectedRoot: Digest32) {
    var e := SortByIndex(p.indices);
    match Validate(H, IndicesOf(e), HashesIn(e), p.proofs)
    case Some((top, _)) => |top| == 1 && top[0] == expectedRoot
    case None => false
  }

  lemma PassAt(H: Hash, a: seq<nat>, e: seq<Digest32>, i: nat, m: seq<LevelNode>)
    requires i < |a| == |e|
    ensures StartsWithPair(a[i..]) <==> i + 1 < |a| && a[i] / 2 == a[i + 1] / 2
    ensures StartsWithPair(a[i..])
            ==> Pass(H, a[i..], e[i..], m)
                == Push(H(InnerInput(Some(e[i]), Some(e[i + 1]))), Pass(H, a[i + 2..], e[i + 2..], m))
    ensures !StartsWithPair(a[i..]) && m == [] ==> Pass(H, a[i..], e[i..], m) == None
    ensures !StartsWithPair(a[i..]) && m != []
            ==> Pass(H, a[i..], e[i..], m) == Push(H(HeadInput(m[0], e[i])), Pass(H, a[i + 1..], e[i + 1..], m[1..]))
  {
    assert a[i..][1..] == a[i + 1..] && e[i..][1..] == e[i + 1..];
    if StartsWithPair(a[i..]) {
      assert a[i..][2..] == a[i + 2..] && e[i..][2..] == e[i + 2..];
    }
  }

  lemma PassOfNothing(H: Hash, m: seq<LevelNode>)
    ensures Pass(H, [], [], m) == Some(([], m))
  {
  }

  /** One level, as the loop runs it. */
  method PassLevel(H: Hash, a: seq<nat>, e: seq<Digest32>, m: seq<LevelNode>)
    returns (r: Option<(seq<Digest32>, seq<LevelNode>)>)
    requires |a| == |e|
    ensures r == Pass(H, a, e, m)
  {
    hide Pass, InnerInput, Push, Prefix, StartsWithPair;
    var b := seq(|a|, i requires 0 <= i < |a| => if a[i] % 2 == 0 then (a[i], a[i] + 1) else (a[i] - 1, a[i]));
    var eNew: seq<Digest32> := [];
    var mNew := m;
    var i := 0;
    PrefixEdges(Pass(H, a, e, m));
    assert a[0..] == a && e[0..] == e;
    while i < |b|
      invariant 0 <= i <= |b|
      invariant Pass(H, a, e, m) == Prefix(eNew, Pass(H, a[i..], e[i..], mNew))
    {
      PassAt(H, a, e, i, mNew);
      if |b| > 1 && i + 1 < |b| && b[i] == b[i + 1] {
        var h := H(InnerInput(Some(e[i]), Some(e[i + 1])));
        PrefixStep(eNew, h, Pass(H, a[i + 2..], e[i + 2..], mNew));
        eNew := eNew + [h];
        i := i + 2;
      } else {
        if mNew == [] {
          PrefixOfNone(eNew);
          return None;
        }
        var head := mNew[0];
        mNew := mNew[1..];
        var h := if head.side == Left then H(InnerInput(head.hash, Some(e[i]))) else H(InnerInput(Some(e[i]), head.hash));
        PrefixStep(eNew, h, Pass(H, a[i + 1..], e[i + 1..], mNew));
        eNew := eNew + [h];
        i := i + 1;
      }
    }
    assert a[i..] == [] && e[i..] == [];
    PassOfNothing(H, mNew);
    PrefixOfAll(eNew, mNew);
    r := Some((eNew, mNew));
  }

  lemma PrefixOfNone(hs: seq<Digest32>)
    ensures Prefix(hs, None) == None
  {
  }

  lemma PrefixOfAll(hs: seq<Digest32>, m: seq<LevelNode>)
    ensures Prefix(hs, Some(([], m))) == Some((hs, m))
  {
    assert hs + [] == hs;
  }

  function Prefix(hs: seq<Digest32>, r: Option<(seq<Digest32>, seq<LevelNode>)>): Option<(seq<Digest32>, seq<LevelNode>)> {
    match r
    case None => None
    case Some((rest, m)) => Some((hs + rest, m))
  }

  lemma PrefixEdges(r: Option<(seq<Digest32>, seq<LevelNode>)>)
    ensures Prefix([], r) == r
  {
    if r.Some? {
      assert [] + r.value.0 == r.value.0;
    }
  }

  lemma PrefixStep(hs: seq<Digest32>, h: Digest32, r: Option<(seq<Digest32>, seq<LevelNode>)>)
    ensures Prefix(hs, Push(h, r)) == Prefix(hs + [h], r)
  {
    if r.Some? {
      assert hs + ([h] + r.value.0) == hs + [h] + r.value.0;
    }
  }

  method ValidateLevels(H: Hash, a: seq<nat>, e: seq<Digest32>, m: seq<LevelNode>)
    returns (r: Option<(seq<Digest32>, seq<LevelNode>)>)
    ensures r == Validate(H, a, e, m)
    decreases |m| + |a|
  {
    hide Pass;
    if |e| != |a| { return None; }
    var pass := PassLevel(H, a, e, m);
    if pass.None? { return None; }
    var (eNew, mNew) := pass.value;
    var aNew := SortDedup(HalfAll(a));
    if (mNew != [] || |eNew| > 1) && aNew != [] {
      NextLevelIsSmaller(H, a, e, m);
      r := ValidateLevels(H, aNew, eNew[..|aNew|], mNew);
    } else {
      r := Some((eNew, mNew));
    }
  }

  method CheckBatch(H: Hash, p: BatchMerkleProof, expectedRoot: Digest32) returns (valid: bool)
    ensures valid == BatchValid(H, p, expectedRoot)
  {
    hide Validate;
    var e := SortByIndex(p.indices);
    var r := ValidateLevels(H, IndicesOf(e), HashesIn(e), p.proofs);
    valid := r.Some? && |r.value.0| == 1 && r.value.0[0] == expectedRoot;
  }

  // ----- Checking against a tree -----

  ghost predicate OnLevel(H: Hash, leaves: seq<Digest32>, d: nat, t: nat, a: seq<nat>) {
    && t <= d && a != [] && StrictlyAscending(a)
    && forall q :: q in a ==> q < Pow2(d - t) && NodeHash(H, leaves, t, q).Some?
  }

  function HashAt(H: Hash, leaves: seq<Digest32>, t: nat, q: nat): Digest32 {
    match NodeHash(H, leaves, t, q)
    case Some(h) => h
    case None => 0
  }

  /** Hashes of the nodes at positions `a` of level `t`. */
  function LevelHashes(H: Hash, leaves: seq<Digest32>, t: nat, a: seq<nat>): (hs: seq<Digest32>)
    ensures |hs| == |a|
    ensures forall i :: 0 <= i < |a| ==> hs[i] == HashAt(H, leaves, t, a[i])
  {
    seq(|a|, i requires 0 <= i < |a| => HashAt(H, leaves, t, a[i]))
  }

  lemma LevelHashesSplit(H: Hash, leaves: seq<Digest32>, t: nat, a: seq<nat>, k: nat)
    requires k <= |a|
    ensures LevelHashes(H, leaves, t, a)[k..] == LevelHashes(H, leaves, t, a[k..])
  {
  }

  lemma LevelHashesCons(H: Hash, leaves: seq<Digest32>, t: nat, x: nat, a: seq<nat>)
    ensures LevelHashes(H, leaves, t, [x] + a) == [HashAt(H, leaves, t, x)] + LevelHashes(H, leaves, t, a)
  {
  }

  /** The proof node for position `q` of level `t`. */
  function ProofNode(H: Hash, leaves: seq<Digest32>, t: nat, q: nat): LevelNode {
    LevelNode(NodeHash(H, leaves, t, q), if q % 2 == 0 then Left else Right)
  }

  function ProofNodes(H: Hash, leaves: seq<Digest32>, t: nat, a: seq<nat>): (ns: seq<LevelNode>)
    ensures |ns| == |a|
    ensures forall i :: 0 <= i < |a| ==> ns[i] == ProofNode(H, leaves, t, a[i])
  {
    seq(|a|, i requires 0 <= i < |a| => ProofNode(H, leaves, t, a[i]))
  }

  lemma PairGivesParent(H: Hash, leaves: seq<Digest32>, t: nat, q: nat)
    requires NodeHash(H, leaves, t, 2 * q).Some? && NodeHash(H, leaves, t, 2 * q + 1).Some?
    ensures NodeHash(H, leaves, t + 1, q)
            == Some(H(InnerInput(NodeHash(H, leaves, t, 2 * q), NodeHash(H, leaves, t, 2 * q + 1))))
  {
    NodeHashUnfolds(H, leaves, t + 1, q);
  }

  lemma HeadGivesParent(H: Hash, leaves: seq<Digest32>, t: nat, q: nat)
    requires NodeHash(H, leaves, t, q).Some?
    ensures NodeHash(H, leaves, t + 1, q / 2)
            == Some(H(HeadInput(ProofNode(H, leaves, t, Sib(q)), NodeHash(H, leaves, t, q).value)))
  {
    hide NodeHash;
    NodeHashUnfolds(H, leaves, t + 1, q / 2);
    var l, r := NodeHash(H, leaves, t, 2 * (q / 2)), NodeHash(H, leaves, t, 2 * (q / 2) + 1);
    if l.None? {
      NoLeftGap(H, leaves, t, q / 2);
    }
    assert [INTERNAL_PREFIX] + OrEmpty(l) + [] == [INTERNAL_PREFIX] + OrEmpty(l);
  }

  lemma ParentIsNode(H: Hash, leaves: seq<Digest32>, d: nat, t: nat, a: seq<nat>, y: nat)
    requires OnLevel(H, leaves, d, t, a) && t < d
    requires y in Halves(a)
    ensures y < Pow2(d - (t + 1)) && NodeHash(H, leaves, t + 1, y).Some?
  {
    hide NodeHash;
    HalvesHas(a, y);
    var x := if 2 * y in a then 2 * y else 2 * y + 1;
    HeadGivesParent(H, leaves, t, x);
    assert Pow2(d - t) == 2 * Pow2(d - (t + 1));
  }

  lemma ParentsAreNodes(H: Hash, leaves: seq<Digest32>, d: nat, t: nat, a: seq<nat>)
    requires OnLevel(H, leaves, d, t, a) && t < d
    ensures OnLevel(H, leaves, d, t + 1, Halves(a))
  {
    hide NodeHash, Pow2;
    HalvesMembers(a);
    forall y | y in Halves(a)
      ensures y < Pow2(d - (t + 1)) && NodeHash(H, leaves, t + 1, y).Some?
    {
      ParentIsNode(H, leaves, d, t, a, y);
    }
  }

  lemma ProofNodesCons(H: Hash, leaves: seq<Digest32>, t: nat, x: nat, a: seq<nat>, rest: seq<LevelNode>)
    ensures ProofNodes(H, leaves, t, [x] + a) + rest
            == [ProofNode(H, leaves, t, x)] + (ProofNodes(H, leaves, t, a) + rest)
  {
  }

  /** A pass over nodes of the tree consumes exactly the missing siblings and gives the parents. */
  lemma {:induction false} PassClimbsTheTree(H: Hash, leaves: seq<Digest32>, t: nat, a: seq<nat>, rest: seq<LevelNode>)
    requires StrictlyAscending(a) && forall q :: q in a ==> NodeHash(H, leaves, t, q).Some?
    ensures Pass(H, a, LevelHashes(H, leaves, t, a), ProofNodes(H, leaves, t, Missing(a)) + rest)
            == Some((LevelHashes(H, leaves, t + 1, Halves(a)), rest))
  {
    hide NodeHash, LevelHashes, ProofNodes, HeadInput, InnerInput;
    var e := LevelHashes(H, leaves, t, a);
    if a == [] {
      assert ProofNodes(H, leaves, t, []) + rest == rest;
      assert LevelHashes(H, leaves, t + 1, []) == [];
    } else if StartsWithPair(a) {
      AfterFirstGroup(a);
      hide StrictlyAscending;
      assert a[0] in a && a[1] in a;
      PassClimbsTheTree(H, leaves, t, a[2..], rest);
      LevelHashesSplit(H, leaves, t, a, 2);
      PairGivesParent(H, leaves, t, a[0] / 2);
      LevelHashesCons(H, leaves, t + 1, a[0] / 2, Halves(a[2..]));
    } else {
      AfterFirstGroup(a);
      hide StrictlyAscending;
      assert a[0] in a;
      PassClimbsTheTree(H, leaves, t, a[1..], rest);
      LevelHashesSplit(H, leaves, t, a, 1);
      HeadGivesParent(H, leaves, t, a[0]);
      LevelHashesCons(H, leaves, t + 1, a[0] / 2, Halves(a[1..]));
      ProofNodesCons(H, leaves, t, Sib(a[0]), Missing(a[1..]), rest);
      PassHead(H, a, e, ProofNode(H, leaves, t, Sib(a[0])), ProofNodes(H, leaves, t, Missing(a[1..])) + rest);
    }
  }

  lemma PassHead(H: Hash, a: seq<nat>, e: seq<Digest32>, head: LevelNode, m: seq<LevelNode>)
    requires |a| == |e| && a != [] && !StartsWithPair(a)
    ensures Pass(H, a, e, [head] + m) == Push(H(HeadInput(head, e[0])), Pass(H, a[1..], e[1..], m))
  {
    assert ([head] + m)[1..] == m;
  }

  /** The proof for positions `a` of level `t`: the missing siblings of every level up to the root. */
  function TreeProof(H: Hash, leaves: seq<Digest32>, d: nat, t: nat, a: seq<nat>): seq<LevelNode>
    requires t <= d
    decreases d - t
  {
    if t == d then [] else ProofNodes(H, leaves, t, Missing(a)) + TreeProof(H, leaves, d, t + 1, Halves(a))
  }

  lemma SoleIsZero(H: Hash, leaves: seq<Digest32>, d: nat, a: seq<nat>)
    requires OnLevel(H, leaves, d, d, a)
    ensures a == [0]
  {
    assert Pow2(0) == 1;
    assert a[0] in a;
    assert Members(a) == {0} == Members([0]);
    AscendingUnique(a, [0]);
  }

  lemma LoneNeedsSibling(H: Hash, leaves: seq<Digest32>, d: nat, t: nat, a: seq<nat>)
    requires t < d && |a| == 1
    ensures TreeProof(H, leaves, d, t, a) != []
  {
  }

  /** Below the root, checking a tree's own nodes with a tree's own proof gives the root and leaves no node over. */
  lemma {:induction false} ValidateReachesTheRoot(H: Hash, leaves: seq<Digest32>, d: nat, t: nat, a: seq<nat>)
    requires OnLevel(H, leaves, d, t, a) && t < d
    ensures Validate(H, a, LevelHashes(H, leaves, t, a), TreeProof(H, leaves, d, t, a))
            == Some(([HashAt(H, leaves, d, 0)], []))
    decreases d - t
  {
    hide NodeHash, LevelHashes, ProofNodes, Pass, SortDedup, Missing, Halves;
    var upper, parents := TreeProof(H, leaves, d, t + 1, Halves(a)), Halves(a);
    PassClimbsTheTree(H, leaves, t, a, upper);
    SortedHalves(a);
    ParentsAreNodes(H, leaves, d, t, a);
    hide StrictlyAscending;
    if t + 1 == d {
      SoleIsZero(H, leaves, d, parents);
      assert LevelHashes(H, leaves, d, [0]) == [HashAt(H, leaves, d, 0)];
    } else {
      ValidateReachesTheRoot(H, leaves, d, t + 1, parents);
      if |parents| == 1 {
        LoneNeedsSibling(H, leaves, d, t + 1, parents);
      }
      assert LevelHashes(H, leaves, t + 1, parents)[..|parents|] == LevelHashes(H, leaves, t + 1, parents);
    }
  }

  // ----- Building -----

  predicate Inside(a: seq<nat>, n: nat) {
    forall i :: 0 <= i < |a| ==> a[i] < n
  }

  lemma InsideMembers(a: seq<nat>, n: nat)
    requires forall x :: x in Members(a) ==> x < n
    ensures Inside(a, n)
  {
    assert forall i :: 0 <= i < |a| ==> a[i] in Members(a);
  }

  /** `a` together with all siblings; no element of `a` is the root. */
  function WithSiblings(a: seq<nat>): seq<nat>
    requires 0 !in a
  {
    if a == [] then []
    else
      var last := a[|a| - 1];
      Add(GetSibling(last).value, Add(last, WithSiblings(a[..|a| - 1])))
  }

  lemma SiblingInvolution(x: nat)
    requires x >= 1
    ensures GetSibling(x).value >= 1 && GetSibling(x).value != x
    ensures GetSibling(GetSibling(x).value) == Some(x)
    ensures (GetSibling(x).value - 1) / 2 == (x - 1) / 2
  {
  }

  lemma {:induction false} WithSiblingsMembers(a: seq<nat>)
    requires 0 !in a
    ensures StrictlyAscending(WithSiblings(a)) && 0 !in WithSiblings(a)
    ensures forall x :: x in Members(WithSiblings(a)) <==> x in a || (x >= 1 && GetSibling(x).value in a)
  {
    if a == [] {
      NoMembers([]);
    } else {
      var init, last := a[..|a| - 1], a[|a| - 1];
      assert a == init + [last];
      WithSiblingsMembers(init);
      var sib := GetSibling(last).value;
      var s0 := WithSiblings(init);
      AddKeepsOrder(last, s0);
      AddKeepsOrder(sib, Add(last, s0));
      SiblingInvolution(last);
      forall x: nat
        ensures x in Members(WithSiblings(a)) <==> x in a || (x >= 1 && GetSibling(x).value in a)
      {
        if x >= 1 {
          SiblingInvolution(x);
        }
      }
      assert 0 !in Members(WithSiblings(a));
    }
  }

  /** The elements of `b` that are not in `a`. */
  function Without(b: seq<nat>, a: seq<nat>): seq<nat> {
    if b == [] then []
    else
      var init, last := b[..|b| - 1], b[|b| - 1];
      if last in a then Without(init, a) else Without(init, a) + [last]
  }

  lemma {:induction false} WithoutMembers(b: seq<nat>, a: seq<nat>)
    requires StrictlyAscending(b)
    ensures StrictlyAscending(Without(b, a))
    ensures forall x :: x in Members(Without(b, a)) <==> x in b && x !in a
  {
    if b == [] {
      NoMembers([]);
    } else {
      var init, last := b[..|b| - 1], b[|b| - 1];
      assert b == init + [last];
      InitBelowLast(b);
      WithoutMembers(init, a);
      MembersOfAppend(Without(init, a), last);
      if last !in a {
        AppendKeepsOrder(Without(init, a), last);
      }
    }
  }

  function ParentAll(b: seq<nat>): (ps: seq<nat>)
    requires 0 !in b
    ensures |ps| == |b|
    ensures forall i :: 0 <= i < |b| ==> ps[i] == (b[i] - 1) / 2
  {
    seq(|b|, i requires 0 <= i < |b| => assert b[i] in b; (b[i] - 1) / 2)
  }

  function NextIndices(a: seq<nat>): seq<nat>
    requires 0 !in a
  {
    WithSiblingsMembers(a);
    SortDedup(ParentAll(WithSiblings(a)))
  }

  lemma NextIndicesMembers(a: seq<nat>)
    requires 0 !in a
    ensures StrictlyAscending(NextIndices(a))
    ensures forall y: nat :: y in Members(NextIndices(a)) <==> 2 * y + 1 in a || 2 * y + 2 in a
  {
    hide WithSiblings, StrictlyAscending, SortDedup, GetSibling;
    WithSiblingsMembers(a);
    var b := WithSiblings(a);
    SortDedupMembers(ParentAll(b));
    forall y: nat
      ensures y in Members(ParentAll(b)) <==> 2 * y + 1 in a || 2 * y + 2 in a
    {
      ParentOf(a, b, y);
    }
  }

  lemma ParentOf(a: seq<nat>, b: seq<nat>, y: nat)
    requires 0 !in a && 0 !in b
    requires forall x :: x in Members(b) <==> x in a || (x >= 1 && GetSibling(x).value in a)
    ensures y in ParentAll(b) <==> 2 * y + 1 in a || 2 * y + 2 in a
  {
    assert GetSibling(2 * y + 1) == Some(2 * y + 2) && GetSibling(2 * y + 2) == Some(2 * y + 1);
    if y in ParentAll(b) {
      var i :| 0 <= i < |b| && ParentAll(b)[i] == y;
      assert b[i] in Members(b);
      assert b[i] == 2 * y + 1 || b[i] == 2 * y + 2;
    }
    if 2 * y + 1 in a || 2 * y + 2 in a {
      assert 2 * y + 1 in Members(b);
      var i :| 0 <= i < |b| && b[i] == 2 * y + 1;
      assert ParentAll(b)[i] == y;
    }
  }

  /** Indices of one level, above the root, inside the heap. */
  ghost predicate Climbable(nodes: seq<MerkleNode>, a: seq<nat>) {
    |nodes| % 2 == 1 && a != [] && StrictlyAscending(a) && Inside(a, |nodes|)
  }

  lemma NextIsClimbable(nodes: seq<MerkleNode>, a: seq<nat>)
    requires Climbable(nodes, a) && 0 !in a
    ensures Climbable(nodes, NextIndices(a))
    ensures NextIndices(a)[|NextIndices(a)| - 1] < a[|a| - 1]
  {
    hide NextIndices;
    NextIndicesMembers(a);
    AscendingTop(a);
    var next, last := NextIndices(a), a[|a| - 1];
    var first := (a[0] - 1) / 2;
    assert first in Members(next) by {
      assert a[0] in a && (a[0] == 2 * first + 1 || a[0] == 2 * first + 2);
    }
    NoMembers(next);
    InsideMembers(next, last);
    assert next[|next| - 1] < last < |nodes|;
  }

  lemma SiblingsInside(a: seq<nat>, n: nat)
    requires 0 !in a && Inside(a, n) && n % 2 == 1
    ensures Inside(WithSiblings(a), n)
  {
    hide WithSiblings, StrictlyAscending;
    WithSiblingsMembers(a);
    forall x | x in Members(WithSiblings(a))
      ensures x < n
    {
      if x !in a {
        SiblingInvolution(x);
        SiblingBelow(GetSibling(x).value, n);
      }
    }
    InsideMembers(WithSiblings(a), n);
  }

  lemma AscendingTop(a: seq<nat>)
    requires StrictlyAscending(a) && a != []
    ensures forall x :: x in a ==> x <= a[|a| - 1]
  {
  }

  function HeapProofNode(nodes: seq<MerkleNode>, i: nat): LevelNode
    requires i < |nodes|
  {
    var isRight := i >= 1 && GetSibling(i).value + 1 == i;
    LevelNode(nodes[i].GetHash(), if isRight then Right else Left)
  }

  function HeapProofNodes(nodes: seq<MerkleNode>, s: seq<nat>): (ns: seq<LevelNode>)
    requires Inside(s, |nodes|)
    ensures |ns| == |s|
    ensures forall i :: 0 <= i < |s| ==> ns[i] == HeapProofNode(nodes, s[i])
  {
    seq(|s|, i requires 0 <= i < |s| => HeapProofNode(nodes, s[i]))
  }

  /** The proof nodes for a set of heap indices, level by level up to the root. */
  function HeapProof(nodes: seq<MerkleNode>, a: seq<nat>): seq<LevelNode>
    requires Climbable(nodes, a)
    decreases a[|a| - 1]
  {
    if 0 in a then []
    else
      NextIsClimbable(nodes, a);
      MissingInside(a, |nodes|);
      HeapProofNodes(nodes, MissingIndices(a)) + HeapProof(nodes, NextIndices(a))
  }

  /** The siblings that a set of heap indices lacks. */
  function MissingIndices(a: seq<nat>): seq<nat>
    requires 0 !in a
  {
    Without(WithSiblings(a), a)
  }

  lemma MissingIndicesMembers(a: seq<nat>)
    requires 0 !in a
    ensures StrictlyAscending(MissingIndices(a))
    ensures forall x: nat :: x in Members(MissingIndices(a)) <==> x !in a && x >= 1 && GetSibling(x).value in a
  {
    hide Without, WithSiblings, GetSibling;
    WithSiblingsMembers(a);
    WithoutMembers(WithSiblings(a), a);
    assert forall x :: x in WithSiblings(a) <==> x in Members(WithSiblings(a));
  }

  lemma MissingInside(a: seq<nat>, n: nat)
    requires 0 !in a && Inside(a, n) && n % 2 == 1
    ensures Inside(MissingIndices(a), n)
  {
    hide WithSiblings, Without;
    SiblingsInside(a, n);
    WithSiblingsMembers(a);
    WithoutMembers(WithSiblings(a), a);
    InsideMembers(MissingIndices(a), n);
  }

  // ----- The builder follows the tree -----

  function Shift(a: seq<nat>, base: nat): (s: seq<nat>)
    ensures |s| == |a|
    ensures forall i :: 0 <= i < |a| ==> s[i] == a[i] + base
  {
    seq(|a|, i requires 0 <= i < |a| => a[i] + base)
  }

  lemma ShiftMembers(a: seq<nat>, base: nat)
    ensures forall x: nat :: x in Members(Shift(a, base)) <==> x >= base && x - base in a
    ensures StrictlyAscending(a) ==> StrictlyAscending(Shift(a, base))
  {
    forall x: nat | x >= base && x - base in a
      ensures x in Shift(a, base)
    {
      var i :| 0 <= i < |a| && a[i] == x - base;
      assert Shift(a, base)[i] == x;
    }
  }

  /** Heap index of the first node of level `t`. */
  function Base(d: nat, t: nat): nat
    requires t <= d
  {
    Pow2(d - t) - 1
  }

  lemma BaseFacts(d: nat, t: nat)
    requires t < d
    ensures Base(d, t) == 2 * Base(d, t + 1) + 1
  {
  }

  /** Siblings and parents of heap indices are those of positions. */
  lemma ShiftedNeighbours(base: nat, upper: nat, q: nat)
    requires base == 2 * upper + 1
    ensures GetSibling(q + base) == Some(Sib(q) + base)
    ensures (q + base - 1) / 2 == q / 2 + upper
    ensures GetSibling(q + base).value + 1 == q + base <==> q % 2 == 1
  {
  }

  lemma MissingShifts(base: nat, upper: nat, a: seq<nat>)
    requires StrictlyAscending(a) && base == 2 * upper + 1
    ensures 0 !in Shift(a, base)
    ensures MissingIndices(Shift(a, base)) == Shift(Missing(a), base)
  {
    var sa := Shift(a, base);
    ShiftMembers(a, base);
    MissingMembers(a);
    ShiftMembers(Missing(a), base);
    MissingIndicesMembers(sa);
    hide StrictlyAscending, Shift, Missing, MissingIndices, GetSibling, Sib;
    forall x: nat
      ensures x in Members(MissingIndices(sa)) <==> x in Members(Shift(Missing(a), base))
    {
      MissingShiftsAt(base, upper, a, x);
    }
    assert Members(MissingIndices(sa)) == Members(Shift(Missing(a), base));
    AscendingUnique(MissingIndices(sa), Shift(Missing(a), base));
  }

  lemma MissingShiftsAt(base: nat, upper: nat, a: seq<nat>, x: nat)
    requires StrictlyAscending(a) && base == 2 * upper + 1
    requires 0 !in Shift(a, base)
    ensures x in Members(MissingIndices(Shift(a, base))) <==> x in Members(Shift(Missing(a), base))
  {
    hide StrictlyAscending, Shift, Missing, MissingIndices;
    var sa := Shift(a, base);
    ShiftMembers(a, base);
    MissingMembers(a);
    ShiftMembers(Missing(a), base);
    MissingIndicesMembers(sa);
    assert x in sa <==> x in Members(sa);
    if x >= base {
      var q := x - base;
      ShiftedNeighbours(base, upper, q);
      assert Sib(q) + base in sa <==> Sib(q) + base in Members(sa);
      assert q in Missing(a) <==> q in Members(Missing(a));
    } else if x >= 1 {
      SiblingBelowBase(base, upper, x);
      assert GetSibling(x).value in sa <==> GetSibling(x).value in Members(sa);
    }
  }

  lemma SiblingBelowBase(base: nat, upper: nat, x: nat)
    requires base == 2 * upper + 1 && 1 <= x < base
    ensures GetSibling(x).value < base
  {
  }

  lemma HalvesShiftAt(base: nat, upper: nat, a: seq<nat>, y: nat)
    requires StrictlyAscending(a) && base == 2 * upper + 1
    requires 0 !in Shift(a, base)
    ensures y in Members(NextIndices(Shift(a, base))) <==> y in Members(Shift(Halves(a), upper))
  {
    hide StrictlyAscending, Shift, Halves, NextIndices;
    var sa := Shift(a, base);
    assert y in Members(NextIndices(sa)) <==> 2 * y + 1 in sa || 2 * y + 2 in sa by { NextIndicesMembers(sa); }
    assert forall x: nat :: x in sa <==> x >= base && x - base in a by { ShiftMembers(a, base); }
    assert y in Members(Shift(Halves(a), upper)) <==> y >= upper && y - upper in Halves(a) by {
      ShiftMembers(Halves(a), upper);
    }
    if y >= upper {
      HalvesHas(a, y - upper);
      assert 2 * y + 1 - base == 2 * (y - upper) && 2 * y + 2 - base == 2 * (y - upper) + 1;
    }
  }

  lemma HalvesShift(base: nat, upper: nat, a: seq<nat>)
    requires StrictlyAscending(a) && base == 2 * upper + 1
    ensures 0 !in Shift(a, base)
    ensures NextIndices(Shift(a, base)) == Shift(Halves(a), upper)
  {
    var sa := Shift(a, base);
    hide StrictlyAscending, Halves, NextIndices, Members;
    forall y: nat
      ensures y in Members(NextIndices(sa)) <==> y in Members(Shift(Halves(a), upper))
    {
      HalvesShiftAt(base, upper, a, y);
    }
    assert Members(NextIndices(sa)) == Members(Shift(Halves(a), upper));
    assert StrictlyAscending(Shift(Halves(a), upper)) by {
      HalvesAscending(a);
      ShiftMembers(Halves(a), upper);
    }
    assert StrictlyAscending(NextIndices(sa)) by { NextIndicesMembers(sa); }
    AscendingUnique(NextIndices(sa), Shift(Halves(a), upper));
  }

  /** Every position of level `t` has its node in the heap, or none at all. */
  ghost predicate HoldsLevel(H: Hash, nodes: seq<MerkleNode>, leaves: seq<Digest32>, d: nat, t: nat)
    requires t <= d
  {
    forall q: nat :: q < Pow2(d - t) && q + Base(d, t) < |nodes|
                     ==> nodes[q + Base(d, t)].GetHash() == NodeHash(H, leaves, t, q)
  }

  lemma ShiftedProofNodes(H: Hash, nodes: seq<MerkleNode>, leaves: seq<Digest32>, d: nat, t: nat, s: seq<nat>)
    requires t < d && HoldsLevel(H, nodes, leaves, d, t)
    requires Inside(Shift(s, Base(d, t)), |nodes|) && Inside(s, Pow2(d - t))
    ensures HeapProofNodes(nodes, Shift(s, Base(d, t))) == ProofNodes(H, leaves, t, s)
  {
    hide NodeHash, Pow2;
    BaseFacts(d, t);
    forall i | 0 <= i < |s|
      ensures HeapProofNode(nodes, Shift(s, Base(d, t))[i]) == ProofNode(H, leaves, t, s[i])
    {
      ShiftedNeighbours(Base(d, t), Base(d, t + 1), s[i]);
    }
  }

  lemma MissingInRange(a: seq<nat>, n: nat)
    requires StrictlyAscending(a) && Inside(a, 2 * n)
    ensures Inside(Missing(a), 2 * n)
  {
    MissingMembers(a);
    forall x | x in Members(Missing(a))
      ensures x < 2 * n
    {
      SibFacts(x);
      assert Sib(x) in a;
    }
    InsideMembers(Missing(a), 2 * n);
  }

  lemma HalvesInRange(a: seq<nat>, n: nat)
    requires StrictlyAscending(a) && Inside(a, 2 * n)
    ensures Inside(Halves(a), n)
  {
    HalvesMembers(a);
    InsideMembers(Halves(a), n);
  }

  lemma HeapProofUnfolds(nodes: seq<MerkleNode>, a: seq<nat>)
    requires Climbable(nodes, a) && 0 !in a
    ensures Climbable(nodes, NextIndices(a)) && Inside(MissingIndices(a), |nodes|)
    ensures HeapProof(nodes, a) == HeapProofNodes(nodes, MissingIndices(a)) + HeapProof(nodes, NextIndices(a))
  {
    hide NextIndices, MissingIndices, HeapProofNodes;
    NextIsClimbable(nodes, a);
    MissingInside(a, |nodes|);
  }

  /** Positions of level `t`: their missing siblings and parents, as heap indices and as positions. */
  lemma LevelShifts(d: nat, t: nat, a: seq<nat>)
    requires t < d && StrictlyAscending(a) && Inside(a, Pow2(d - t))
    ensures 0 !in Shift(a, Base(d, t))
    ensures MissingIndices(Shift(a, Base(d, t))) == Shift(Missing(a), Base(d, t))
    ensures NextIndices(Shift(a, Base(d, t))) == Shift(Halves(a), Base(d, t + 1))
    ensures Inside(Missing(a), Pow2(d - t))
    ensures StrictlyAscending(Halves(a)) && Inside(Halves(a), Pow2(d - (t + 1)))
  {
    BaseFacts(d, t);
    var half := Pow2(d - (t + 1));
    assert Pow2(d - t) == 2 * half;
    hide Base, Pow2, StrictlyAscending;
    MissingShifts(Base(d, t), Base(d, t + 1), a);
    HalvesShift(Base(d, t), Base(d, t + 1), a);
    MissingInRange(a, half);
    HalvesInRange(a, half);
    HalvesAscending(a);
  }

  lemma BuilderAtTheRoot(H: Hash, nodes: seq<MerkleNode>, leaves: seq<Digest32>, d: nat, a: seq<nat>)
    requires Inside(a, Pow2(0)) && Climbable(nodes, Shift(a, Base(d, d)))
    ensures HeapProof(nodes, Shift(a, Base(d, d))) == TreeProof(H, leaves, d, d, a)
  {
    hide StrictlyAscending;
    var sa := Shift(a, Base(d, d));
    assert Pow2(0) == 1;
    assert sa[0] == 0 && sa[0] in sa;
  }

  lemma TreeProofUnfolds(H: Hash, leaves: seq<Digest32>, d: nat, t: nat, a: seq<nat>)
    requires t < d
    ensures TreeProof(H, leaves, d, t, a)
            == ProofNodes(H, leaves, t, Missing(a)) + TreeProof(H, leaves, d, t + 1, Halves(a))
  {
  }

  /** The heap-index builder produces exactly the tree's proof. */
  lemma {:induction false} BuilderFollowsTheTree(
    H: Hash, nodes: seq<MerkleNode>, leaves: seq<Digest32>, d: nat, t: nat, a: seq<nat>)
    requires t <= d && StrictlyAscending(a) && Inside(a, Pow2(d - t))
    requires Climbable(nodes, Shift(a, Base(d, t)))
    requires forall u :: t <= u < d ==> HoldsLevel(H, nodes, leaves, d, u)
    ensures HeapProof(nodes, Shift(a, Base(d, t))) == TreeProof(H, leaves, d, t, a)
    decreases d - t
  {
    hide *;
    if t == d {
      BuilderAtTheRoot(H, nodes, leaves, d, a);
    } else {
      LevelShifts(d, t, a);
      HeapProofUnfolds(nodes, Shift(a, Base(d, t)));
      ShiftedProofNodes(H, nodes, leaves, d, t, Missing(a));
      TreeProofUnfolds(H, leaves, d, t, a);
      BuilderFollowsTheTree(H, nodes, leaves, d, t + 1, Halves(a));
    }
  }
}
