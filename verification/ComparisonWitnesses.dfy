/**
 * Proofs that show where the comparison stops being an order: mutually better proofs for every two different `m`,
 * and three proofs with the same `m`, each better than the next in a circle.
 */
module ComparisonWitnesses {
  import opened Wrappers
  import opened ChainTypes
  import opened MerkleTypes
  import opened Powers
  import opened Interlinks
  import opened NipopowProofs
  import opened NipopowScoring
  import opened NipopowComparison

  const START := PoPowHeader(Header(BlockId(1), BlockId(0), 1, Some(0), 0), [], BatchMerkleProof([], []))

  // ----- Branches -----

  /** The `h`-th block of branch `salt`; branches differ in the last digit of their ids. */
  function BranchId(h: nat, salt: nat): BlockId
    requires h <= U32_MAX && salt < 8
  {
    BlockId(8 * h + salt)
  }

  /** A branch of blocks with the given levels on top of `prev`. */
  function Branch(prev: Header, levels: seq<i32>, salt: nat): (hs: seq<Header>)
    requires prev.height + |levels| <= U32_MAX && salt < 8
    ensures |hs| == |levels|
  {
    seq(|levels|, i requires 0 <= i < |levels| =>
          var h := prev.height + 1 + i;
          Header(BranchId(h, salt), if i == 0 then prev.id else BranchId(h - 1, salt), h, Some(levels[i]), 0))
  }

  /** Heights and parents continue from `prev`. */
  ghost predicate Continues(prev: Header, hs: seq<Header>) {
    forall i :: 0 <= i < |hs|
                ==> hs[i].height == prev.height + 1 + i && hs[i].parentId == if i == 0 then prev.id else hs[i - 1].id
  }

  lemma BranchContinues(prev: Header, levels: seq<i32>, salt: nat)
    requires prev.height + |levels| <= U32_MAX && salt < 8
    ensures Continues(prev, Branch(prev, levels, salt))
    ensures forall u :: u in Branch(prev, levels, salt) ==> u.id.digest % 8 == salt
  {
    var hs := Branch(prev, levels, salt);
    forall u | u in hs
      ensures u.id.digest % 8 == salt
    {
      var i :| 0 <= i < |hs| && hs[i] == u;
      assert u.id.digest == 8 * (prev.height + 1 + i) + salt;
    }
  }

  /** The proof that lists genesis and everything above it. */
  function Listing(m: u32, above: seq<Header>): NipopowProof {
    NipopowProof(DEFAULT_USE_LAST_EPOCHS, m, 1, [], START, above)
  }

  /** An `m` that a valid proof can have. */
  predicate Usable(m: u32) {
    1 <= m && m + 1 <= I32_MAX
  }

  lemma ListingIsValid(H: Hash, m: u32, above: seq<Header>)
    requires Usable(m) && Continues(START.header, above)
    ensures IsValid(H, Listing(m, above))
    ensures HeadersChain(Listing(m, above)) == [START.header] + above
    ensures Increasing([START.header] + above)
  {
    var p, chain := Listing(m, above), [START.header] + above;
    assert HeadersOf([]) == [];
    assert [] + [START.header] + above == chain;
    forall i | 1 <= i < |chain|
      ensures chain[i - 1].height < chain[i].height && chain[i].parentId == chain[i - 1].id
    {
      var j := i - 1;
      assert chain[i] == above[j];
      assert above[j].parentId == if j == 0 then START.header.id else above[j - 1].id;
      assert chain[j] == if j == 0 then START.header else above[j - 1];
    }
    assert p.prefix + [p.suffixHead] == [START];
    assert HasValidConnections(p) && HasValidHeights(p) && HasValidProofs(H, p);
  }

  /** Two chains that share `pre` and then part: the last shared header is their lowest common ancestor. */
  lemma PartingPoint(pre: seq<Header>, x: seq<Header>, y: seq<Header>)
    requires pre != [] && Increasing(pre + x) && Increasing(pre + y)
    requires forall u, v :: u in x && v in y ==> u.id != v.id
    ensures Lca(pre + x, pre + y) == Some(pre[|pre| - 1])
  {
    var a, b, last := pre + x, pre + y, pre[|pre| - 1];
    LcaIsHighestCommon(a, b);
    assert last == a[|pre| - 1] == b[|pre| - 1];
    forall h | h in a && h in b
      ensures h.height <= last.height
    {
      assert (h in pre || h in x) && (h in pre || h in y);
      var i :| 0 <= i < |pre| && pre[i] == h;
      if i < |pre| - 1 {
        IncreasingPairs(a, i, |pre| - 1);
      }
    }
    HighestCommonUnique(a, b, Lca(a, b).value, last);
  }

  lemma {:induction false} AboveIsTail(pre: seq<Header>, x: seq<Header>, h: u32)
    requires forall u :: u in pre ==> u.height <= h
    requires forall u :: u in x ==> u.height > h
    ensures HeadersAbove(pre + x, h) == x
  {
    if x == [] {
      assert pre + x == pre;
      NothingAbove(pre, h);
    } else {
      var init, last := x[..|x| - 1], x[|x| - 1];
      assert (pre + x)[..|pre + x| - 1] == pre + init;
      assert last in x && x == init + [last];
      AboveIsTail(pre, init, h);
    }
  }

  lemma SplitHeights(pre: seq<Header>, x: seq<Header>)
    requires pre != [] && Increasing(pre + x)
    ensures forall u :: u in pre ==> u.height <= pre[|pre| - 1].height
    ensures forall u :: u in x ==> u.height > pre[|pre| - 1].height
  {
    var a, n := pre + x, |pre|;
    forall u | u in pre
      ensures u.height <= pre[n - 1].height
    {
      var i :| 0 <= i < n && pre[i] == u;
      if i < n - 1 {
        IncreasingPairs(a, i, n - 1);
        assert a[i] == u && a[n - 1] == pre[n - 1];
      }
    }
    forall u | u in x
      ensures u.height > pre[n - 1].height
    {
      var i :| 0 <= i < |x| && x[i] == u;
      IncreasingPairs(a, n - 1, n + i);
      assert a[n + i] == u && a[n - 1] == pre[n - 1];
    }
  }

  /** Comparing two listings that part after `pre` compares the scores of what follows. */
  lemma CompareListings(H: Hash, m: u32, n: u32, pre: seq<Header>, x: seq<Header>, y: seq<Header>)
    requires Usable(m) && Usable(n)
    requires Continues(START.header, pre + x) && Continues(START.header, pre + y)
    requires forall u, v :: u in x && v in y ==> u.id != v.id
    ensures IsBetterThan(H, Listing(m, pre + x), Listing(n, pre + y)) == Greater(BestArgResult(x, m), BestArgResult(y, m))
  {
    hide IsValid, HeadersChain, HeadersAbove, BestArgResult, Lca, Continues, Greater;
    ListingIsValid(H, m, pre + x);
    ListingIsValid(H, n, pre + y);
    var whole := [START.header] + pre;
    assert [START.header] + (pre + x) == whole + x && [START.header] + (pre + y) == whole + y;
    PartingPoint(whole, x, y);
    var last := whole[|whole| - 1];
    SplitHeights(whole, x);
    SplitHeights(whole, y);
    AboveIsTail(whole, x, last.height);
    AboveIsTail(whole, y, last.height);
  }

  // ----- Scores -----

  predicate AllOfLevel(x: seq<Header>, l: i32) {
    forall i :: 0 <= i < |x| ==> MaxLevelOf(x[i]) == Success(l)
  }

  predicate AllKnown(x: seq<Header>) {
    forall h :: h in x ==> LevelKnown(h)
  }

  lemma {:induction false} CountUniform(x: seq<Header>, l: i32, mu: nat)
    requires AllOfLevel(x, l) && l >= 0
    ensures CountAtLeast(x, mu) == if l >= mu then |x| else 0
  {
    if x != [] {
      CountUniform(x[..|x| - 1], l, mu);
    }
  }

  lemma {:induction false} CountSplit(x: seq<Header>, y: seq<Header>, mu: nat)
    ensures CountAtLeast(x + y, mu) == CountAtLeast(x, mu) + CountAtLeast(y, mu)
  {
    if y == [] {
      assert x + y == x;
    } else {
      assert (x + y)[..|x + y| - 1] == x + y[..|y| - 1];
      CountSplit(x, y[..|y| - 1], mu);
    }
  }

  lemma UniformIsKnown(x: seq<Header>, l: i32)
    requires AllOfLevel(x, l)
    ensures AllKnown(x)
  {
    forall h | h in x
      ensures LevelKnown(h)
    {
      var i :| 0 <= i < |x| && x[i] == h;
    }
  }

  /** With fewer than `m` headers at level 1, the score is the number of headers. */
  lemma ScoreOfShort(x: seq<Header>, m: nat)
    requires AllKnown(x) && CountAtLeast(x, 1) < m
    ensures BestArgResult(x, m) == Success(|x|)
  {
  }

  lemma {:induction false} BestFromUniform(x: seq<Header>, l: i32, m: nat, level: nat, best: nat)
    requires AllOfLevel(x, l) && 0 <= l < I32_MAX && |x| >= m && |x| >= 1
    requires 1 <= level <= l + 1 && best <= Score(x, l) <= USIZE_MAX
    ensures BestFrom(x, m, level, best) == Success(if level <= l then Score(x, l) else best)
    decreases l + 1 - level
  {
    CountUniform(x, l, level);
    CountUniform(x, l, l);
    if level <= l {
      Pow2Monotone(level, l);
      MulMonotone(Pow2(level), Pow2(l), |x|, |x|);
      hide Pow2, CountAtLeast;
      BestFromUniform(x, l, m, level + 1, Max(best, Score(x, level)));
    }
  }

  /** At least `m` headers of one level `l` score 2^l each. */
  lemma ScoreOfUniform(x: seq<Header>, l: i32, m: nat)
    requires AllOfLevel(x, l) && 1 <= l < I32_MAX && |x| >= m && |x| >= 1 && Pow2(l) * |x| <= USIZE_MAX
    ensures BestArgResult(x, m) == Success(Pow2(l) * |x|)
  {
    CountUniform(x, l, l);
    UniformIsKnown(x, l);
    Pow2Monotone(0, l);
    MulMonotone(1, Pow2(l), |x|, |x|);
    hide Pow2, CountAtLeast;
    BestFromUniform(x, l, m, 1, |x|);
  }

  // ----- Different `m` -----

  function Repeated(l: i32, n: nat): (levels: seq<i32>)
    ensures |levels| == n && forall i :: 0 <= i < n ==> levels[i] == l
  {
    seq(n, _ => l)
  }

  function TallBlocks(m: u32): seq<Header>
    requires Usable(m)
  {
    Branch(START.header, Repeated(2, m), 1)
  }

  function WideBlocks(m: u32): seq<Header>
    requires Usable(m)
  {
    Branch(START.header, Repeated(0, m + 1), 2)
  }

  /** `m` blocks of level 2 on genesis. */
  function Tall(m: u32): NipopowProof
    requires Usable(m)
  {
    Listing(m, TallBlocks(m))
  }

  /** `m + 1` blocks of level 0 on genesis, in a proof with parameter `n`. */
  function Wide(m: u32, n: u32): NipopowProof
    requires Usable(m)
  {
    Listing(n, WideBlocks(m))
  }

  lemma BlocksContinue(m: u32)
    requires Usable(m)
    ensures Continues(START.header, TallBlocks(m)) && AllOfLevel(TallBlocks(m), 2) && |TallBlocks(m)| == m
    ensures Continues(START.header, WideBlocks(m)) && AllOfLevel(WideBlocks(m), 0) && |WideBlocks(m)| == m + 1
    ensures forall u, v :: u in TallBlocks(m) && v in WideBlocks(m) ==> u.id != v.id
  {
    BranchContinues(START.header, Repeated(2, m), 1);
    BranchContinues(START.header, Repeated(0, m + 1), 2);
  }

  lemma TallAndWideScores(m: u32, n: u32)
    requires Usable(m) && m < n
    ensures BestArgResult(TallBlocks(m), m) == Success(4 * m) && BestArgResult(TallBlocks(m), n) == Success(m)
    ensures BestArgResult(WideBlocks(m), m) == Success(m + 1) && BestArgResult(WideBlocks(m), n) == Success(m + 1)
  {
    BlocksContinue(m);
    assert Pow2(2) == 4 by { assert Pow2(1) == 2; }
    hide TallBlocks, WideBlocks, BestArgResult, Continues;
    ScoreOfUniform(TallBlocks(m), 2, m);
    CountUniform(TallBlocks(m), 2, 1);
    UniformIsKnown(TallBlocks(m), 2);
    ScoreOfShort(TallBlocks(m), n);
    CountUniform(WideBlocks(m), 0, 1);
    UniformIsKnown(WideBlocks(m), 0);
    ScoreOfShort(WideBlocks(m), m);
    ScoreOfShort(WideBlocks(m), n);
  }

  /** For every two different `m` there are two valid proofs, each better than the other. */
  lemma MutuallyBetter(H: Hash, m: u32, n: u32)
    requires Usable(m) && Usable(n) && m < n
    ensures IsValid(H, Tall(m)) && IsValid(H, Wide(m, n))
    ensures IsBetterThan(H, Tall(m), Wide(m, n)) == Success(true)
    ensures IsBetterThan(H, Wide(m, n), Tall(m)) == Success(true)
  {
    hide IsValid, IsBetterThan, BestArgResult, TallBlocks, WideBlocks, Continues;
    BlocksContinue(m);
    TallAndWideScores(m, n);
    var x, y := TallBlocks(m), WideBlocks(m);
    ListingIsValid(H, m, x);
    ListingIsValid(H, n, y);
    assert [] + x == x && [] + y == y;
    CompareListings(H, m, n, [], x, y);
    CompareListings(H, n, m, [], y, x);
  }

  /** If a proof with `m1` is better than one with `m2`, that one is not better. */
  ghost predicate Asymmetric(H: Hash, m1: u32, m2: u32) {
    forall p: NipopowProof, q: NipopowProof ::
      p.m == m1 && q.m == m2 && IsBetterThan(H, p, q) == Success(true) ==> IsBetterThan(H, q, p) == Success(false)
  }

  lemma UnusableIsInvalid(H: Hash, p: NipopowProof)
    requires !Usable(p.m)
    ensures !IsValid(H, p)
  {
  }

  /** The comparison is asymmetric between `m1` and `m2` exactly when they are equal, or one is that of no valid proof. */
  lemma AsymmetricIff(H: Hash, m1: u32, m2: u32)
    ensures Asymmetric(H, m1, m2) <==> m1 == m2 || !Usable(m1) || !Usable(m2)
  {
    if m1 == m2 || !Usable(m1) || !Usable(m2) {
      forall p: NipopowProof, q: NipopowProof | p.m == m1 && q.m == m2 && IsBetterThan(H, p, q) == Success(true)
        ensures IsBetterThan(H, q, p) == Success(false)
      {
        if m1 == m2 {
          BetterIsAsymmetric(H, p, q);
        } else {
          OneIsInvalid(H, p, q);
        }
      }
    } else if m1 < m2 {
      hide IsBetterThan, Tall, Wide;
      MutuallyBetter(H, m1, m2);
      assert Tall(m1).m == m1 && Wide(m1, m2).m == m2 by { WitnessParameters(m1, m2); }
    } else {
      hide IsBetterThan, Tall, Wide;
      MutuallyBetter(H, m2, m1);
      assert Tall(m2).m == m2 && Wide(m2, m1).m == m1 by { WitnessParameters(m2, m1); }
    }
  }

  lemma OneIsInvalid(H: Hash, p: NipopowProof, q: NipopowProof)
    requires !Usable(p.m) || !Usable(q.m)
    requires IsBetterThan(H, p, q) == Success(true)
    ensures IsBetterThan(H, q, p) == Success(false)
  {
    hide IsValid, Usable;
    if !Usable(p.m) {
      UnusableIsInvalid(H, p);
    } else {
      UnusableIsInvalid(H, q);
    }
  }

  lemma WitnessParameters(m: u32, n: u32)
    requires Usable(m)
    ensures Tall(m).m == m && Wide(m, n).m == n
  {
  }

  // ----- The same `m` -----

  const SHARED := Branch(START.header, [3], 0)[0]

  const LONG_TAIL := Branch(SHARED, [0, 0, 0], 1)
  const HIGH_TAIL := Branch(SHARED, [3], 2)
  const FLAT := Branch(START.header, [0, 0, 0, 0, 0], 3)

  /** Genesis, a level-3 block, three level-0 blocks. */
  const CYCLE_A := Listing(2, [SHARED] + LONG_TAIL)

  /** Genesis, the same level-3 block, another level-3 block. */
  const CYCLE_B := Listing(2, [SHARED] + HIGH_TAIL)

  /** Genesis, five level-0 blocks. */
  const CYCLE_C := Listing(2, FLAT)

  lemma CycleBlocks()
    ensures Continues(START.header, [SHARED] + LONG_TAIL) && Continues(START.header, [SHARED] + HIGH_TAIL)
    ensures Continues(START.header, FLAT)
    ensures AllOfLevel([SHARED] + HIGH_TAIL, 3) && AllOfLevel([SHARED], 3) && AllOfLevel(HIGH_TAIL, 3)
    ensures AllOfLevel(LONG_TAIL, 0) && AllOfLevel(FLAT, 0)
    ensures |LONG_TAIL| == 3 && |HIGH_TAIL| == 1 && |FLAT| == 5
  {
    BranchContinues(START.header, [3], 0);
    BranchContinues(SHARED, [0, 0, 0], 1);
    BranchContinues(SHARED, [3], 2);
    BranchContinues(START.header, [0, 0, 0, 0, 0], 3);
  }

  lemma CycleIds()
    ensures forall u, v :: u in LONG_TAIL && v in HIGH_TAIL ==> u.id != v.id
    ensures forall u, v :: u in [SHARED] + HIGH_TAIL && v in FLAT ==> u.id != v.id
    ensures forall u, v :: u in FLAT && v in [SHARED] + LONG_TAIL ==> u.id != v.id
  {
    BranchContinues(START.header, [3], 0);
    BranchContinues(SHARED, [0, 0, 0], 1);
    BranchContinues(SHARED, [3], 2);
    BranchContinues(START.header, [0, 0, 0, 0, 0], 3);
  }

  lemma CycleScores()
    ensures BestArgResult(LONG_TAIL, 2) == Success(3) && BestArgResult(HIGH_TAIL, 2) == Success(1)
    ensures BestArgResult([SHARED] + HIGH_TAIL, 2) == Success(16) && BestArgResult(FLAT, 2) == Success(5)
    ensures BestArgResult([SHARED] + LONG_TAIL, 2) == Success(4)
  {
    CycleBlocks();
    assert Pow2(3) == 8 by { assert Pow2(1) == 2 && Pow2(2) == 4; }
    hide BestArgResult, Continues, CountAtLeast;
    CountUniform(LONG_TAIL, 0, 1);
    UniformIsKnown(LONG_TAIL, 0);
    ScoreOfShort(LONG_TAIL, 2);
    CountUniform(HIGH_TAIL, 3, 1);
    UniformIsKnown(HIGH_TAIL, 3);
    ScoreOfShort(HIGH_TAIL, 2);
    ScoreOfUniform([SHARED] + HIGH_TAIL, 3, 2);
    CountUniform(FLAT, 0, 1);
    UniformIsKnown(FLAT, 0);
    ScoreOfShort(FLAT, 2);
    CountUniform([SHARED], 3, 1);
    UniformIsKnown([SHARED], 3);
    CountSplit([SHARED], LONG_TAIL, 1);
    ScoreOfShort([SHARED] + LONG_TAIL, 2);
  }

  /** Three valid proofs with the same `m`: the first beats the second, the second the third, and the third the first. */
  lemma ThreeInACircle(H: Hash)
    ensures IsValid(H, CYCLE_A) && IsValid(H, CYCLE_B) && IsValid(H, CYCLE_C)
    ensures IsBetterThan(H, CYCLE_A, CYCLE_B) == Success(true)
    ensures IsBetterThan(H, CYCLE_B, CYCLE_C) == Success(true)
    ensures IsBetterThan(H, CYCLE_C, CYCLE_A) == Success(true)
  {
    hide IsValid, IsBetterThan, BestArgResult, Continues, AllOfLevel;
    CycleBlocks();
    CycleIds();
    CycleScores();
    ListingIsValid(H, 2, [SHARED] + LONG_TAIL);
    ListingIsValid(H, 2, [SHARED] + HIGH_TAIL);
    ListingIsValid(H, 2, FLAT);
    CompareListings(H, 2, 2, [SHARED], LONG_TAIL, HIGH_TAIL);
    assert [] + ([SHARED] + HIGH_TAIL) == [SHARED] + HIGH_TAIL && [] + FLAT == FLAT;
    assert [] + ([SHARED] + LONG_TAIL) == [SHARED] + LONG_TAIL;
    CompareListings(H, 2, 2, [], [SHARED] + HIGH_TAIL, FLAT);
    CompareListings(H, 2, 2, [], FLAT, [SHARED] + LONG_TAIL);
  }
}
