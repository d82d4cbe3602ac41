/** The two ingredients of comparing proofs: the best superchain score and the lowest common ancestor. */
module NipopowScoring {
  import opened Wrappers
  import opened ChainTypes
  import opened Interlinks
  import opened NipopowProofs
  import opened Powers

  const USIZE_MAX: nat := 0xffff_ffff_ffff_ffff

  // ----- Best argument -----

  /** The unsigned cast of a level. */
  function AsU32(level: i32): u32 {
    if level < 0 then level + 0x1_0000_0000 else level
  }

  predicate LevelKnown(h: Header) {
    MaxLevelOf(h).Success?
  }

  /** How many headers reach level `mu`, as the cast sees levels. */
  function CountAtLeast(chain: seq<Header>, mu: nat): (n: nat)
    ensures n <= |chain|
  {
    if chain == [] then 0
    else
      var init, h := chain[..|chain| - 1], chain[|chain| - 1];
      CountAtLeast(init, mu) + if LevelKnown(h) && AsU32(MaxLevelOf(h).value) >= mu then 1 else 0
  }

  function Score(chain: seq<Header>, mu: nat): nat {
    Pow2(mu) * CountAtLeast(chain, mu)
  }

  function Max(a: nat, b: nat): nat { if a >= b then a else b }

  /** A level that yields an argument: level 0 always, another one if enough headers reach it. */
  predicate IsArgument(chain: seq<Header>, m: nat, mu: nat) {
    mu == 0 || (CountAtLeast(chain, mu) >= m && CountAtLeast(chain, mu) > 0)
  }

  /** The best score from level `level` up, stopping at the first level that yields no argument. */
  function BestFrom(chain: seq<Header>, m: nat, level: nat, best: nat): Result<nat, NipopowError>
    requires 1 <= level <= U32_MAX
    decreases U32_MAX - level
  {
    if !IsArgument(chain, m, level) then Success(best)
    else if Score(chain, level) > USIZE_MAX || level == U32_MAX then Failure(Aborted)
    else BestFrom(chain, m, level + 1, Max(best, Score(chain, level)))
  }

  /** What `BestArg` returns on any input. */
  function BestArgResult(chain: seq<Header>, m: nat): Result<nat, NipopowError> {
    if exists h :: h in chain && !LevelKnown(h) then Failure(AutolykosPowSchemeError)
    else BestFrom(chain, m, 1, |chain|)
  }

  method CountLevel(chain: seq<Header>, level: u32) returns (r: Result<nat, NipopowError>)
    ensures r.Failure? <==> exists h :: h in chain && !LevelKnown(h)
    ensures r.Failure? ==> r.error == AutolykosPowSchemeError
    ensures r.Success? ==> r.value == CountAtLeast(chain, level)
  {
    var args: seq<Header> := [];
    for i := 0 to |chain|
      invariant |args| == CountAtLeast(chain[..i], level)
      invariant forall h :: h in chain[..i] ==> LevelKnown(h)
    {
      var h := chain[i];
      var l := MaxLevelOf(h);
      if l.Failure? {
        assert h in chain;
        return Failure(l.error);
      }
      assert chain[..i + 1][..i] == chain[..i];
      assert chain[..i + 1] == chain[..i] + [h];
      if AsU32(l.value) >= level {
        args := args + [h];
      }
    }
    assert chain[..|chain|] == chain;
    r := Success(|args|);
  }

  /** The largest of the scores 2^level * size, or an abort when one does not fit a machine word. */
  function MaxScore(acc: seq<(u32, nat)>): Result<nat, NipopowError> {
    if acc == [] then Success(0)
    else
      var score := Pow2(acc[0].0) * acc[0].1;
      match MaxScore(acc[1..])
      case Failure(e) => Failure(e)
      case Success(best) => if score > USIZE_MAX then Failure(Aborted) else Success(Max(best, score))
  }

  method TakeMax(acc: seq<(u32, nat)>) returns (r: Result<nat, NipopowError>)
    ensures r == MaxScore(acc)
  {
    var best := 0;
    for i := |acc| downto 0
      invariant MaxScore(acc[i..]) == Success(best)
    {
      assert acc[i..][1..] == acc[i + 1..];
      var score := Pow2(acc[i].0) * acc[i].1;
      if score > USIZE_MAX {
        AbortStays(acc, i);
        return Failure(Aborted);
      }
      best := Max(best, score);
    }
    assert acc[0..] == acc;
    r := Success(best);
  }

  lemma {:induction false} AbortStays(acc: seq<(u32, nat)>, i: nat)
    requires i <= |acc| && MaxScore(acc[i..]) == Failure(Aborted)
    ensures MaxScore(acc) == Failure(Aborted)
  {
    if i > 0 {
      assert acc[i - 1..][1..] == acc[i..];
      AbortStays(acc, i - 1);
    } else {
      assert acc[0..] == acc;
    }
  }

  /** Scores recorded up to `level`, continued from there. */
  ghost predicate ScoresContinue(chain: seq<Header>, m: nat, level: nat, acc: seq<(u32, nat)>)
    requires 1 <= level <= U32_MAX
  {
    match MaxScore(acc)
    case Success(best) => BestFrom(chain, m, 1, |chain|) == BestFrom(chain, m, level, best)
    case Failure(e) => e == Aborted && BestFrom(chain, m, 1, |chain|) == Failure(Aborted)
  }

  method BestArg(chain: seq<Header>, m: u32) returns (r: Result<nat, NipopowError>)
    requires |chain| <= USIZE_MAX
    ensures r == BestArgResult(chain, m)
  {
    var level: u32 := 1;
    var acc: seq<(u32, nat)> := [(0, |chain|)];
    while true
      invariant 1 <= level <= U32_MAX
      invariant level == 1 || forall h :: h in chain ==> LevelKnown(h)
      invariant ScoresContinue(chain, m, level, acc)
      decreases U32_MAX - level
    {
      var args := CountLevel(chain, level);
      if args.Failure? { return Failure(args.error); }
      if args.value >= m && args.value != 0 {
        assert ([(level, args.value)] + acc)[1..] == acc;
        acc := [(level, args.value)] + acc;
        if level == U32_MAX { return Failure(Aborted); }
        level := level + 1;
      } else {
        break;
      }
    }
    r := TakeMax(acc);
  }

  // ----- What the score means -----

  lemma {:induction false} CountsShrink(chain: seq<Header>, mu: nat, nu: nat)
    requires mu <= nu
    ensures CountAtLeast(chain, nu) <= CountAtLeast(chain, mu)
  {
    if chain != [] {
      CountsShrink(chain[..|chain| - 1], mu, nu);
    }
  }

  /** The levels that yield an argument form an initial segment, so nothing lies beyond the first short level. */
  lemma ArgumentsAreInitial(chain: seq<Header>, m: nat, mu: nat, nu: nat)
    requires mu <= nu && IsArgument(chain, m, nu)
    ensures IsArgument(chain, m, mu)
  {
    CountsShrink(chain, mu, nu);
  }

  ghost predicate IsMaxFrom(chain: seq<Header>, m: nat, from: nat, best: nat, v: nat) {
    && best <= v
    && (forall mu: nat :: mu >= from && IsArgument(chain, m, mu) ==> Score(chain, mu) <= v)
    && (v == best || exists mu: nat :: mu >= from && IsArgument(chain, m, mu) && Score(chain, mu) == v)
  }

  lemma {:induction false} BestFromIsMax(chain: seq<Header>, m: nat, level: nat, best: nat)
    requires 1 <= level <= U32_MAX
    requires BestFrom(chain, m, level, best).Success?
    ensures IsMaxFrom(chain, m, level, best, BestFrom(chain, m, level, best).value)
    decreases U32_MAX - level
  {
    if !IsArgument(chain, m, level) {
      forall mu: nat | mu >= level
        ensures !IsArgument(chain, m, mu)
      {
        if IsArgument(chain, m, mu) {
          ArgumentsAreInitial(chain, m, level, mu);
        }
      }
    } else {
      BestFromIsMax(chain, m, level + 1, Max(best, Score(chain, level)));
    }
  }

  /** `v` is the largest 2^mu * |C at level mu| over level 0 and the levels that enough headers reach. */
  ghost predicate IsBestArgument(chain: seq<Header>, m: nat, v: nat) {
    && (forall mu: nat :: IsArgument(chain, m, mu) ==> Score(chain, mu) <= v)
    && exists mu: nat :: IsArgument(chain, m, mu) && Score(chain, mu) == v
  }

  lemma {:induction false} AllReachZero(chain: seq<Header>)
    requires forall h :: h in chain ==> LevelKnown(h)
    ensures CountAtLeast(chain, 0) == |chain|
  {
    if chain != [] {
      assert chain[|chain| - 1] in chain;
      AllReachZero(chain[..|chain| - 1]);
    }
  }

  /** Stopping at the first short level loses nothing. */
  lemma BestArgIsMaximum(chain: seq<Header>, m: nat)
    requires BestArgResult(chain, m).Success?
    ensures IsBestArgument(chain, m, BestArgResult(chain, m).value)
  {
    var v := BestArgResult(chain, m).value;
    AllReachZero(chain);
    BestFromIsMax(chain, m, 1, |chain|);
    assert Score(chain, 0) == |chain|;
    assert IsArgument(chain, m, 0);
    if v != |chain| {
      var mu: nat :| mu >= 1 && IsArgument(chain, m, mu) && Score(chain, mu) == v;
    }
  }

  ghost predicate ScoresFit(chain: seq<Header>, m: nat, from: nat) {
    forall mu: nat :: mu >= from && IsArgument(chain, m, mu) ==> Score(chain, mu) <= USIZE_MAX
  }

  lemma {:induction false} BestFromSucceedsIff(chain: seq<Header>, m: nat, level: nat, best: nat)
    requires 1 <= level <= U32_MAX
    ensures BestFrom(chain, m, level, best).Success? <==> ScoresFit(chain, m, level)
    ensures BestFrom(chain, m, level, best).Failure? ==> BestFrom(chain, m, level, best) == Failure(Aborted)
    decreases U32_MAX - level
  {
    if !IsArgument(chain, m, level) {
      forall mu: nat | mu >= level
        ensures !IsArgument(chain, m, mu)
      {
        if IsArgument(chain, m, mu) {
          ArgumentsAreInitial(chain, m, level, mu);
        }
      }
    } else if level == U32_MAX {
      Pow2Of64();
      Pow2Monotone(64, level);
      MulMonotone(Pow2(level), Pow2(level), 1, CountAtLeast(chain, level));
    } else {
      BestFromSucceedsIff(chain, m, level + 1, Max(best, Score(chain, level)));
    }
  }

  /** There is a result exactly when every level is known and no argument's score exceeds the word size. */
  lemma BestArgSucceedsIff(chain: seq<Header>, m: nat)
    ensures BestArgResult(chain, m).Success?
            <==> (forall h :: h in chain ==> LevelKnown(h)) && ScoresFit(chain, m, 1)
  {
    BestFromSucceedsIff(chain, m, 1, |chain|);
  }

  lemma MulMonotone(a: nat, a': nat, b: nat, b': nat)
    requires a <= a' && b <= b'
    ensures a * b <= a' * b'
  {
    assert a * b <= a' * b;
    assert a' * b <= a' * b';
  }

  /** How many headers are of level at least `mu`, levels taken as the signed numbers they are. */
  function CountSigned(chain: seq<Header>, mu: int): nat {
    if chain == [] then 0
    else
      var init, h := chain[..|chain| - 1], chain[|chain| - 1];
      CountSigned(init, mu) + if LevelKnown(h) && MaxLevelOf(h).value >= mu then 1 else 0
  }

  /** A header of negative level that the cast counts at level `mu`: the cast adds 2^32. */
  ghost predicate MiscountedAt(chain: seq<Header>, mu: nat) {
    exists h :: h in chain && LevelKnown(h) && MaxLevelOf(h).value < 0 && MaxLevelOf(h).value + 0x1_0000_0000 >= mu
  }

  /** The cast never counts too little, and exactly what the definition of the score asks for unless it miscounts. */
  lemma {:induction false} CastCountsFaithfullyIff(chain: seq<Header>, mu: nat)
    ensures CountAtLeast(chain, mu) >= CountSigned(chain, mu)
    ensures CountAtLeast(chain, mu) == CountSigned(chain, mu) <==> !MiscountedAt(chain, mu)
  {
    if chain != [] {
      var init, last := chain[..|chain| - 1], chain[|chain| - 1];
      assert chain == init + [last];
      CastCountsFaithfullyIff(init, mu);
    }
  }

  /** No header above the ancestor: score 0. */
  lemma BestArgOfNothing(m: nat)
    ensures BestArgResult([], m) == Success(0)
  {
  }

  // ----- Lowest common ancestor -----

  /** One past the last position of `h` in `right[start..n]`, or `start` if it does not occur. */
  function AfterLastMatch(h: Header, right: seq<Header>, start: nat, n: nat): (e: nat)
    requires start <= |right| && n <= |right|
    ensures start <= e <= |right|
    ensures e > start ==> right[e - 1] == h
    ensures e == start ==> forall i :: start <= i < n ==> right[i] != h
  {
    if n <= start then start
    else if right[n - 1] == h then n
    else AfterLastMatch(h, right, start, n - 1)
  }

  /** Where the next search starts in `right` after the first `n` headers of `left`, and the last header matched. */
  function LcaState(left: seq<Header>, right: seq<Header>, n: nat): (s: (nat, Option<Header>))
    requires n <= |left|
    ensures s.0 <= |right|
  {
    if n == 0 then (0, None)
    else
      var (start, last) := LcaState(left, right, n - 1);
      var e := AfterLastMatch(left[n - 1], right, start, |right|);
      if e > start then (e, Some(left[n - 1])) else (start, last)
  }

  function Lca(left: seq<Header>, right: seq<Header>): Option<Header> {
    if left != [] && right != [] && left[0] != right[0] then None
    else LcaState(left, right, |left|).1
  }

  method LowestCommonAncestor(left: seq<Header>, right: seq<Header>) returns (r: Option<Header>)
    ensures r == Lca(left, right)
  {
    if |left| > 0 && |right| > 0 && left[0] != right[0] {
      return None;
    }
    var common: seq<Header> := [];
    var rightIxStart := 0;
    for n := 0 to |left|
      invariant rightIxStart <= |right|
      invariant LcaState(left, right, n) == (rightIxStart, if common == [] then None else Some(common[|common| - 1]))
    {
      var startIx := rightIxStart;
      ghost var before := common;
      for i := startIx to |right|
        invariant startIx <= rightIxStart <= i
        invariant rightIxStart == AfterLastMatch(left[n], right, startIx, i)
        invariant rightIxStart == startIx ==> common == before
        invariant rightIxStart > startIx ==> common != [] && common[|common| - 1] == left[n]
      {
        if left[n] == right[i] {
          rightIxStart := i + 1;
          common := common + [left[n]];
        }
      }
    }
    r := if common == [] then None else Some(common[|common| - 1]);
  }

  /** `h` is in both chains, and nothing higher is. */
  ghost predicate IsHighestCommon(left: seq<Header>, right: seq<Header>, h: Header) {
    && h in left && h in right
    && forall x :: x in left && x in right ==> x.height <= h.height
  }

  /** What is not found from `start` on is not in `right` at all: everything before is lower. */
  lemma NotMatchedBefore(left: seq<Header>, right: seq<Header>, j: nat, t: nat, start: nat)
    requires Increasing(left) && Increasing(right)
    requires j < t < |left| && 1 <= start <= |right| && right[start - 1] == left[j]
    requires forall i :: start <= i < |right| ==> right[i] != left[t]
    ensures left[t] !in right
  {
    IncreasingPairs(left, j, t);
    forall i | 0 <= i < start
      ensures right[i] != left[t]
    {
      if i < start - 1 {
        IncreasingPairs(right, i, start - 1);
      }
    }
  }

  /** After `n >= 1` headers of `left`: the last one common to both chains, found in `right` just before the start. */
  lemma {:induction false} LcaStateTracks(left: seq<Header>, right: seq<Header>, n: nat) returns (j: nat)
    requires Increasing(left) && Increasing(right)
    requires 1 <= n <= |left| && right != [] && left[0] == right[0]
    ensures
      var (start, last) := LcaState(left, right, n);
      && j < n && last == Some(left[j])
      && start >= 1 && right[start - 1] == left[j]
    ensures forall t :: j < t < n ==> left[t] !in right
  {
    if n == 1 {
      j := 0;
      assert right[0] == left[0];
    } else {
      j := LcaStateTracks(left, right, n - 1);
      var start := LcaState(left, right, n - 1).0;
      var e := AfterLastMatch(left[n - 1], right, start, |right|);
      if e > start {
        j := n - 1;
      } else {
        NotMatchedBefore(left, right, j, n - 1, start);
      }
    }
  }

  /** On increasing chains with a common head the result is the highest common header. */
  lemma LcaIsHighestCommon(left: seq<Header>, right: seq<Header>)
    requires Increasing(left) && Increasing(right)
    requires left != [] && right != [] && left[0] == right[0]
    ensures Lca(left, right).Some? && IsHighestCommon(left, right, Lca(left, right).value)
  {
    var j := LcaStateTracks(left, right, |left|);
    forall x | x in left && x in right
      ensures x.height <= left[j].height
    {
      var t :| 0 <= t < |left| && left[t] == x;
      if t < j {
        IncreasingPairs(left, t, j);
      }
    }
  }

  lemma HighestCommonUnique(left: seq<Header>, right: seq<Header>, g: Header, h: Header)
    requires Increasing(left)
    requires IsHighestCommon(left, right, g) && IsHighestCommon(left, right, h)
    ensures g == h
  {
    var i :| 0 <= i < |left| && left[i] == g;
    var j :| 0 <= j < |left| && left[j] == h;
    if i < j {
      IncreasingPairs(left, i, j);
    } else if j < i {
      IncreasingPairs(left, j, i);
    }
  }

  lemma LcaSymmetric(left: seq<Header>, right: seq<Header>)
    requires Increasing(left) && Increasing(right)
    requires left != [] && right != []
    ensures Lca(left, right) == Lca(right, left)
  {
    if left[0] == right[0] {
      LcaIsHighestCommon(left, right);
      LcaIsHighestCommon(right, left);
      HighestCommonUnique(left, right, Lca(left, right).value, Lca(right, left).value);
    }
  }
}
