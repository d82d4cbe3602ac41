/**
 * The in-memory prover: it scans the whole chain before the suffix, level by level from the top,
 * with an anchor that moves to the `m`-th most recent block of each well-populated level.
 */
module NipopowProver {
  import opened Wrappers
  import opened ChainTypes
  import opened Superchain
  import opened Interlinks
  import opened NipopowProofs
  import opened SortedInts

  // ----- Sorting by height -----

  function InsertByHeight(p: PoPowHeader, sorted: seq<PoPowHeader>): seq<PoPowHeader> {
    if sorted == [] then [p]
    else if p.header.height < sorted[|sorted| - 1].header.height then
      InsertByHeight(p, sorted[..|sorted| - 1]) + [sorted[|sorted| - 1]]
    else sorted + [p]
  }

  /** Stable sort by height. */
  function SortByHeight(ps: seq<PoPowHeader>): seq<PoPowHeader> {
    if ps == [] then [] else InsertByHeight(ps[|ps| - 1], SortByHeight(ps[..|ps| - 1]))
  }

  // ----- The scan -----

  /** C[:-k]{anchor:} at level `level`: the blocks of `chain[..n]` reaching the level, from the anchor height on. */
  function SubChain(chain: seq<PoPowHeader>, n: nat, level: int, anchorHeight: int): Result<seq<PoPowHeader>, NipopowError>
    requires n <= |chain|
  {
    if n == 0 then Success([])
    else
      match SubChain(chain, n - 1, level, anchorHeight)
      case Failure(e) => Failure(e)
      case Success(sub) =>
        var p := chain[n - 1];
        match MaxLevelOf(p.header)
        case Failure(e) => Failure(e)
        case Success(l) => Success(if l >= level && p.header.height >= anchorHeight then sub + [p] else sub)
  }

  /** Appends the entries of `sub` that `prefix` does not hold yet. */
  function AppendNew<T(==)>(prefix: seq<T>, sub: seq<T>): seq<T> {
    if sub == [] then prefix
    else
      var sofar := AppendNew(prefix, sub[..|sub| - 1]);
      var p := sub[|sub| - 1];
      if p in sofar then sofar else sofar + [p]
  }

  function Scan(chain: seq<PoPowHeader>, n: nat, m: nat, anchorHeight: int, level: int, prefix: seq<PoPowHeader>)
    : Result<seq<PoPowHeader>, NipopowError>
    requires m >= 1 && n <= |chain|
    decreases level
  {
    if level < 0 then Success(prefix)
    else
      match SubChain(chain, n, level, anchorHeight)
      case Failure(e) => Failure(e)
      case Success(sub) =>
        var anchor := if m < |sub| then sub[|sub| - m].header.height else anchorHeight;
        Scan(chain, n, m, anchor, level - 1, AppendNew(prefix, sub))
  }

  /** The proof from a finished scan in front of position `n`. */
  function Finish(chain: seq<PoPowHeader>, n: nat, k: u32, m: u32, scan: Result<seq<PoPowHeader>, NipopowError>)
    : Result<NipopowProof, NipopowError>
    requires n < |chain|
  {
    match scan
    case Failure(e) => Failure(e)
    case Success(prefix) => NewProof(m, k, SortByHeight(prefix), chain[n], HeadersOf(chain[n + 1..]))
  }

  /** What `Prove` returns on any input. */
  function ProveResult(chain: seq<PoPowHeader>, k: u32, m: u32): Result<NipopowProof, NipopowError> {
    if k == 0 then Failure(ZeroKParameter)
    else if m == 0 then Failure(ZeroMParameter)
    else if k + m > U32_MAX then Failure(Aborted)
    else if |chain| < k + m then Failure(ChainTooShort)
    else if chain[0].header.height != 1 then Failure(NonAnchoredChain)
    else
      var n := |chain| - k;
      if chain[n - 1].interlinks == [] then Failure(Aborted)
      else Finish(chain, n, k, m, Scan(chain, n, m, 1, |chain[n - 1].interlinks| - 1, []))
  }

  method CollectSubChain(chain: seq<PoPowHeader>, n: nat, level: int, anchorHeight: int)
    returns (r: Result<seq<PoPowHeader>, NipopowError>)
    requires n <= |chain|
    ensures r == SubChain(chain, n, level, anchorHeight)
  {
    var subChain: seq<PoPowHeader> := [];
    for i := 0 to n
      invariant SubChain(chain, i, level, anchorHeight) == Success(subChain)
    {
      var p := chain[i];
      var l := MaxLevelOf(p.header);
      if l.Failure? {
        SubChainFailure(chain, i + 1, n, level, anchorHeight);
        return Failure(l.error);
      }
      if l.value >= level && p.header.height >= anchorHeight {
        subChain := subChain + [p];
      }
    }
    r := Success(subChain);
  }

  method ExtendPrefix(before: seq<PoPowHeader>, subChain: seq<PoPowHeader>) returns (prefix: seq<PoPowHeader>)
    ensures prefix == AppendNew(before, subChain)
  {
    prefix := before;
    for i := 0 to |subChain|
      invariant prefix == AppendNew(before, subChain[..i])
    {
      assert subChain[..i + 1][..i] == subChain[..i];
      if subChain[i] !in prefix {
        prefix := prefix + [subChain[i]];
      }
    }
    assert subChain[..|subChain|] == subChain;
  }

  method ScanLevels(chain: seq<PoPowHeader>, n: nat, m: u32, maxLevel: int)
    returns (r: Result<seq<PoPowHeader>, NipopowError>)
    requires 1 <= n <= |chain| && m >= 1 && maxLevel >= 0
    ensures r == Scan(chain, n, m, chain[0].header.height, maxLevel, [])
  {
    hide SubChain, AppendNew;
    ghost var goal := Scan(chain, n, m, chain[0].header.height, maxLevel, []);
    var prefix: seq<PoPowHeader> := [];
    var stack: seq<(PoPowHeader, int)> := [(chain[0], maxLevel)];
    while |stack| > 0
      invariant |stack| <= 1
      invariant |stack| == 1 ==> stack[0].1 >= -1
      invariant |stack| == 1 ==> goal == Scan(chain, n, m, stack[0].0.header.height, stack[0].1, prefix)
      invariant |stack| == 0 ==> goal == Success(prefix)
      decreases if |stack| == 1 then stack[0].1 + 2 else 0
    {
      var (anchoringPoint, level) := stack[|stack| - 1];
      stack := stack[..|stack| - 1];
      if level >= 0 {
        var sub := CollectSubChain(chain, n, level, anchoringPoint.header.height);
        if sub.Failure? { return Failure(sub.error); }
        var subChain := sub.value;
        if m < |subChain| {
          stack := stack + [(subChain[|subChain| - m], level - 1)];
        } else {
          stack := stack + [(anchoringPoint, level - 1)];
        }
        prefix := ExtendPrefix(prefix, subChain);
      }
    }
    r := Success(prefix);
  }

  method Prove(chain: seq<PoPowHeader>, k: u32, m: u32) returns (r: Result<NipopowProof, NipopowError>)
    ensures r == ProveResult(chain, k, m)
  {
    if k == 0 { return Failure(ZeroKParameter); }
    if m == 0 { return Failure(ZeroMParameter); }
    if k + m > U32_MAX { return Failure(Aborted); }
    if |chain| < k + m { return Failure(ChainTooShort); }
    if chain[0].header.height != 1 { return Failure(NonAnchoredChain); }

    var n := |chain| - k;
    var suffixHead, suffixTail := chain[n], HeadersOf(chain[n + 1..]);
    if |chain[n - 1].interlinks| == 0 { return Failure(Aborted); }
    var maxLevel := |chain[n - 1].interlinks| - 1;
    var prefix := ScanLevels(chain, n, m, maxLevel);
    if prefix.Failure? { return Failure(prefix.error); }
    r := NewProof(m, k, SortByHeight(prefix.value), suffixHead, suffixTail);
  }

  lemma {:induction false} SubChainFailure(chain: seq<PoPowHeader>, i: nat, n: nat, level: int, anchorHeight: int)
    requires i <= n <= |chain|
    requires SubChain(chain, i, level, anchorHeight).Failure?
    ensures SubChain(chain, n, level, anchorHeight) == SubChain(chain, i, level, anchorHeight)
  {
    if i < n {
      SubChainFailure(chain, i, n - 1, level, anchorHeight);
    }
  }

  // ----- When there is a proof, for any chain at all -----

  ghost predicate LevelsKnown(chain: seq<PoPowHeader>, n: nat)
    requires n <= |chain|
  {
    forall t :: 0 <= t < n ==> chain[t].header.height == 1 || chain[t].header.powLevel.Some?
  }

  lemma {:induction false} SubChainSucceedsIff(chain: seq<PoPowHeader>, n: nat, level: int, anchorHeight: int)
    requires n <= |chain|
    ensures SubChain(chain, n, level, anchorHeight).Success? <==> LevelsKnown(chain, n)
    ensures SubChain(chain, n, level, anchorHeight).Failure?
            ==> SubChain(chain, n, level, anchorHeight) == Failure(AutolykosPowSchemeError)
  {
    if n > 0 {
      SubChainSucceedsIff(chain, n - 1, level, anchorHeight);
    }
  }

  lemma {:induction false} ScanSucceedsIff(
    chain: seq<PoPowHeader>, n: nat, m: nat, anchorHeight: int, level: int, prefix: seq<PoPowHeader>)
    requires m >= 1 && n <= |chain|
    ensures Scan(chain, n, m, anchorHeight, level, prefix).Success? <==> level < 0 || LevelsKnown(chain, n)
    ensures Scan(chain, n, m, anchorHeight, level, prefix).Failure?
            ==> Scan(chain, n, m, anchorHeight, level, prefix) == Failure(AutolykosPowSchemeError)
    decreases level
  {
    hide SubChain, AppendNew, LevelsKnown;
    if level >= 0 {
      SubChainSucceedsIff(chain, n, level, anchorHeight);
      if SubChain(chain, n, level, anchorHeight).Success? {
        var sub := SubChain(chain, n, level, anchorHeight).value;
        var anchor := if m < |sub| then sub[|sub| - m].header.height else anchorHeight;
        ScanSucceedsIff(chain, n, m, anchor, level - 1, AppendNew(prefix, sub));
      }
    }
  }

  /** Why a request is refused, the first reason that applies; `None` if it is not. */
  ghost function Refusal(chain: seq<PoPowHeader>, k: u32, m: u32): Option<NipopowError> {
    if k == 0 then Some(ZeroKParameter)
    else if m == 0 then Some(ZeroMParameter)
    else if k + m > U32_MAX then Some(Aborted)
    else if |chain| < k + m then Some(ChainTooShort)
    else if chain[0].header.height != 1 then Some(NonAnchoredChain)
    else if |chain[|chain| - k - 1].interlinks| == 0 then Some(Aborted)
    else if !LevelsKnown(chain, |chain| - k) then Some(AutolykosPowSchemeError)
    else None
  }

  /**
   * Every chain and every request: there is a proof exactly when none of seven reasons applies, otherwise the error of
   * the first that does.  The proof carries the parameters and the last `k` headers of the chain.
   */
  lemma ProveOutcome(chain: seq<PoPowHeader>, k: u32, m: u32)
    ensures
      match ProveResult(chain, k, m)
      case Failure(e) => Refusal(chain, k, m) == Some(e)
      case Success(p) =>
        && Refusal(chain, k, m) == None && |chain| >= k
        && p.m == m && p.k == k && p.useLastEpochs == 8
        && p.suffixHead == chain[|chain| - k]
        && [p.suffixHead.header] + p.suffixTail == HeadersOf(chain[|chain| - k..])
  {
    hide Scan, SortByHeight, LevelsKnown;
    if k >= 1 && m >= 1 && k + m <= U32_MAX && |chain| >= k + m && chain[0].header.height == 1 {
      var n := |chain| - k;
      if chain[n - 1].interlinks != [] {
        ScanSucceedsIff(chain, n, m, 1, |chain[n - 1].interlinks| - 1, []);
        assert [chain[n].header] + HeadersOf(chain[n + 1..]) == HeadersOf(chain[n..]);
      }
    }
  }

  // ----- The sub-chain of a well-formed chain -----

  lemma PickAppend(c: seq<PoPowHeader>, pos: seq<nat>, t: nat)
    requires t < |c| && forall i :: 0 <= i < |pos| ==> pos[i] < |c|
    ensures Pick(c, pos + [t]) == Pick(c, pos) + [c[t]]
  {
  }

  lemma SubChainUnfolds(chain: seq<PoPowHeader>, n: nat, level: int, anchorHeight: int, sub: seq<PoPowHeader>, l: i32)
    requires 1 <= n <= |chain|
    requires SubChain(chain, n - 1, level, anchorHeight) == Success(sub)
    requires MaxLevelOf(chain[n - 1].header) == Success(l)
    ensures SubChain(chain, n, level, anchorHeight)
            == Success(if l >= level && chain[n - 1].header.height >= anchorHeight then sub + [chain[n - 1]] else sub)
  {
  }

  lemma SubChainOfNothing(c: seq<PoPowHeader>, level: int, a: nat)
    ensures Above(LevelsOf(c), a, 0, level) == []
    ensures SubChain(c, 0, level, a + 1) == Success(Pick(c, []))
  {
    hide LevelsOf, MaxLevelOf;
    assert Pick(c, []) == [];
  }

  lemma {:induction false} SubChainSelects(c: seq<PoPowHeader>, n: nat, level: int, a: nat)
    requires WellFormed(c) && n <= |c|
    ensures SubChain(c, n, level, a + 1) == Success(Pick(c, Above(LevelsOf(c), a, n, level)))
  {
    hide LevelsOf, WellFormed, MaxLevelOf, Pick, SubChain, Above;
    if n == 0 {
      SubChainOfNothing(c, level, a);
    } else {
      SubChainSelects(c, n - 1, level, a);
      SubChainStep(c, n, level, a, Above(LevelsOf(c), a, n - 1, level));
    }
  }

  lemma LevelIs(c: seq<PoPowHeader>, t: nat) returns (l: i32)
    requires WellFormed(c) && t < |c|
    ensures MaxLevelOf(c[t].header) == Success(l) && LevelsOf(c)[t] == l
  {
    hide LevelsOf, WellFormed;
    WellFormedLevels(c);
    l := MaxLevelOf(c[t].header).value;
  }

  lemma SubChainStep(c: seq<PoPowHeader>, n: nat, level: int, a: nat, found: seq<nat>)
    requires WellFormed(c) && 1 <= n <= |c| && found == Above(LevelsOf(c), a, n - 1, level)
    requires SubChain(c, n - 1, level, a + 1) == Success(Pick(c, found))
    ensures SubChain(c, n, level, a + 1) == Success(Pick(c, Above(LevelsOf(c), a, n, level)))
  {
    hide LevelsOf, WellFormed, MaxLevelOf, Pick, SubChain, Above;
    var l := LevelIs(c, n - 1);
    HeightAt(c, n - 1);
    SubChainUnfolds(c, n, level, a + 1, Pick(c, found), l);
    AboveUnfolds(LevelsOf(c), a, n, level);
    if n > a && l >= level {
      PickAppend(c, found, n - 1);
      assert SubChain(c, n, level, a + 1) == Success(Pick(c, found) + [c[n - 1]]);
    } else {
      assert SubChain(c, n, level, a + 1) == Success(Pick(c, found));
    }
  }

  // ----- Lists of a well-formed chain's blocks, as lists of positions -----

  ghost predicate Positions(c: seq<PoPowHeader>, pos: seq<nat>) {
    forall i :: 0 <= i < |pos| ==> pos[i] < |c|
  }

  /** Distinct positions hold distinct blocks. */
  lemma PickedMember(c: seq<PoPowHeader>, pos: seq<nat>, t: nat)
    requires WellFormed(c) && Positions(c, pos) && t < |c|
    ensures c[t] in Pick(c, pos) <==> t in pos
  {
    if t in pos {
      var i :| 0 <= i < |pos| && pos[i] == t;
      assert Pick(c, pos)[i] == c[t];
    }
    if c[t] in Pick(c, pos) {
      var i :| 0 <= i < |pos| && Pick(c, pos)[i] == c[t];
      HeightAt(c, t);
      HeightAt(c, pos[i]);
    }
  }

  lemma PickInit(c: seq<PoPowHeader>, pos: seq<nat>)
    requires pos != [] && Positions(c, pos)
    ensures Pick(c, pos)[..|pos| - 1] == Pick(c, pos[..|pos| - 1])
  {
  }

  lemma {:induction false} AppendNewPositions(c: seq<PoPowHeader>, pos: seq<nat>, more: seq<nat>)
    requires WellFormed(c) && Positions(c, pos) && Positions(c, more)
    ensures Positions(c, AppendNew(pos, more))
    ensures AppendNew(Pick(c, pos), Pick(c, more)) == Pick(c, AppendNew(pos, more))
  {
    hide WellFormed, Pick;
    if more != [] {
      var init, t := more[..|more| - 1], more[|more| - 1];
      AppendNewPositions(c, pos, init);
      PickInit(c, more);
      var sofar := AppendNew(pos, init);
      PickedMember(c, sofar, t);
      PickAppend(c, sofar, t);
    }
  }

  lemma {:induction false} AppendNewMembers(pos: seq<nat>, more: seq<nat>)
    requires Distinct(pos)
    ensures Members(AppendNew(pos, more)) == Members(pos) + Members(more)
    ensures Distinct(AppendNew(pos, more))
  {
    if more != [] {
      var init, t := more[..|more| - 1], more[|more| - 1];
      AppendNewMembers(pos, init);
      MembersOfInit(more);
      MembersOfAppend(AppendNew(pos, init), t);
    }
  }

  lemma {:induction false} InsertPosition(c: seq<PoPowHeader>, t: nat, pos: seq<nat>)
    requires WellFormed(c) && Positions(c, pos) && t < |c|
    ensures Positions(c, InsertSorted(t, pos))
    ensures InsertByHeight(c[t], Pick(c, pos)) == Pick(c, InsertSorted(t, pos))
  {
    hide WellFormed, Pick;
    if pos == [] {
      PickAppend(c, [], t);
    } else {
      var init, last := pos[..|pos| - 1], pos[|pos| - 1];
      HeightAt(c, t);
      HeightAt(c, last);
      PickInit(c, pos);
      if t < last {
        InsertPosition(c, t, init);
        PickAppend(c, InsertSorted(t, init), last);
      } else {
        PickAppend(c, pos, t);
      }
    }
  }

  /** Sorting blocks by height is sorting their positions. */
  lemma {:induction false} SortPositions(c: seq<PoPowHeader>, pos: seq<nat>)
    requires WellFormed(c) && Positions(c, pos)
    ensures Positions(c, Sort(pos))
    ensures SortByHeight(Pick(c, pos)) == Pick(c, Sort(pos))
  {
    hide WellFormed, Pick;
    if pos != [] {
      PickInit(c, pos);
      SortPositions(c, pos[..|pos| - 1]);
      InsertPosition(c, pos[|pos| - 1], Sort(pos[..|pos| - 1]));
    }
  }

  lemma {:induction false} AscendingMembers(kept: set<nat>, n: nat)
    requires forall t :: t in kept ==> t < n
    ensures StrictlyAscending(Ascending(kept, n)) && Members(Ascending(kept, n)) == kept
  {
    forall t | t in kept
      ensures t in Ascending(kept, n)
    {
      AscendingHas(kept, n, t);
    }
  }

  /** Sorting by height any list of a selection's blocks gives the selection in chain order. */
  lemma SortedSelection(c: seq<PoPowHeader>, n: nat, kept: set<nat>, pos: seq<nat>)
    requires WellFormed(c) && n <= |c| && Positions(c, pos)
    requires Distinct(pos) && Members(pos) == kept
    requires forall t :: t in kept ==> t < n
    ensures SortByHeight(Pick(c, pos)) == Pick(c, Ascending(kept, n))
  {
    hide WellFormed, SortByHeight, Sort, Pick, Ascending, Members;
    SortPositions(c, pos);
    SortOfDistinct(pos);
    AscendingMembers(kept, n);
    AscendingUnique(Sort(pos), Ascending(kept, n));
  }

  // ----- What the scan selects from a well-formed chain -----

  /** One level of the scan: what it appends, and where it moves the anchor. */
  lemma ScanLevel(c: seq<PoPowHeader>, n: nat, m: nat, mu: int, a: nat, pos: seq<nat>)
    requires WellFormed(c) && 1 <= n <= |c| && m >= 1 && mu >= 0
    requires Positions(c, pos)
    ensures
      var found := Above(LevelsOf(c), a, n, mu);
      && Positions(c, AppendNew(pos, found))
      && Scan(c, n, m, a + 1, mu, Pick(c, pos))
         == Scan(c, n, m, NextAnchor(LevelsOf(c), a, a, n, mu, m) + 1, mu - 1, Pick(c, AppendNew(pos, found)))
  {
    hide SubChain, AppendNew, Above, Pick, LevelsOf, WellFormed;
    var found := Above(LevelsOf(c), a, n, mu);
    var sub := Pick(c, found);
    SubChainSelects(c, n, mu, a);
    AppendNewPositions(c, pos, found);
    var next := if m < |sub| then sub[|sub| - m].header.height else a + 1;
    assert next == NextAnchor(LevelsOf(c), a, a, n, mu, m) + 1 by {
      if m < |found| {
        HeightAt(c, found[|found| - m]);
      }
    }
    assert Scan(c, n, m, a + 1, mu, Pick(c, pos)) == Scan(c, n, m, next, mu - 1, AppendNew(Pick(c, pos), sub));
  }

  /** The scan's state when level `mu` is next: the closed-form anchor, and the closed-form selection so far. */
  ghost predicate ScanState(lev: seq<int>, n: nat, m: nat, top: int, mu: int, a: nat, pos: seq<nat>)
    requires 1 <= n <= |lev| && m >= 1
  {
    && a == ScanAnchor(lev, n, top, m, mu + 1)
    && Members(pos) == ScanSet(lev, n, top, m, mu + 1)
    && Distinct(pos)
  }

  lemma ScanStateStep(lev: seq<int>, n: nat, m: nat, top: int, mu: int, a: nat, pos: seq<nat>)
    requires ChainLevels(lev) && 1 <= n <= |lev|
    requires m >= 1 && mu <= top <= MAX_LEVEL
    requires ScanState(lev, n, m, top, mu, a, pos)
    ensures ScanState(lev, n, m, top, mu - 1, NextAnchor(lev, a, a, n, mu, m), AppendNew(pos, Above(lev, a, n, mu)))
  {
    hide AppendNew, Above, AboveSet, NextAnchor, ScanAnchor, ScanSet;
    ScanAnchorStep(lev, n, top, m, mu);
    AppendNewMembers(pos, Above(lev, a, n, mu));
    AboveElements(lev, a, n, mu);
    ScanSetStep(lev, n, top, m, mu);
  }

  /** From level `mu` down, the scan completes the closed-form selection. */
  lemma {:induction false} ScanSelects(c: seq<PoPowHeader>, n: nat, m: nat, top: int, mu: int, a: nat, pos: seq<nat>)
    returns (final: seq<nat>)
    requires WellFormed(c) && 1 <= n <= |c|
    requires m >= 1 && -1 <= mu <= top <= MAX_LEVEL
    requires Positions(c, pos) && ScanState(LevelsOf(c), n, m, top, mu, a, pos)
    ensures Positions(c, final)
    ensures Scan(c, n, m, a + 1, mu, Pick(c, pos)) == Success(Pick(c, final))
    ensures Distinct(final) && Members(final) == ScanSet(LevelsOf(c), n, top, m, 0)
    decreases mu
  {
    hide NextAnchor, AppendNew, Above, LevelsOf, WellFormed, Pick, ScanAnchor, ScanSet;
    if mu < 0 {
      final := pos;
    } else {
      var lev := LevelsOf(c);
      WellFormedLevels(c);
      ScanLevel(c, n, m, mu, a, pos);
      ScanStateStep(lev, n, m, top, mu, a, pos);
      final := ScanSelects(c, n, m, top, mu - 1, NextAnchor(lev, a, a, n, mu, m), AppendNew(pos, Above(lev, a, n, mu)));
    }
  }

  // ----- What is proved -----

  /** The positions `Prove` keeps in front of position `n`. */
  function Scanned(c: seq<PoPowHeader>, n: nat, m: nat): set<nat>
    requires 2 <= n <= |c| && m >= 1
  {
    ScanSet(LevelsOf(c), n, TopLevel(LevelsOf(c), n - 1), m, 0)
  }

  ghost predicate Provable(c: seq<PoPowHeader>, k: u32, m: u32) {
    WellFormed(c) && k >= 1 && m >= 1 && k + m <= U32_MAX && |c| >= k + m && |c| >= k + 2
  }

  lemma ScannedPrefix(c: seq<PoPowHeader>, n: nat, m: nat) returns (prefix: seq<PoPowHeader>)
    requires WellFormed(c) && 2 <= n <= |c| && m >= 1
    ensures Scan(c, n, m, 1, TopLevel(LevelsOf(c), n - 1), []) == Success(prefix)
    ensures SortByHeight(prefix) == Pick(c, Ascending(Scanned(c, n, m), n))
  {
    hide Scan, SortByHeight, Sort, Pick, Ascending, TopLevel, MthLast, LevelsOf, WellFormed;
    var lev := LevelsOf(c);
    var top := TopLevel(lev, n - 1);
    WellFormedLevels(c);
    TopLevelBound(lev, n - 1);
    assert ScanSet(lev, n, top, m, top + 1) == {};
    assert Pick(c, []) == [];
    var final := ScanSelects(c, n, m, top, top, 0, []);
    prefix := Pick(c, final);
    SortedSelection(c, n, Scanned(c, n, m), final);
  }

  /** On a well-formed chain the prover succeeds, with the closed-form selection in chain order. */
  lemma ProveSelects(c: seq<PoPowHeader>, k: u32, m: u32)
    requires Provable(c, k, m)
    ensures ProveResult(c, k, m) == Success(ProofOf(c, |c| - k, m, k, Scanned(c, |c| - k, m)))
  {
    hide Scan, SubChain, SortByHeight, Ascending, Pick, Scanned, TopLevel;
    var n := |c| - k;
    HeightAt(c, 0);
    assert |c[n - 1].interlinks| == 1 + TopLevel(LevelsOf(c), n - 1) by {
      InterlinksIndexTheChain(c, n - 1);
    }
    var prefix := ScannedPrefix(c, n, m);
    assert c[n + 1..] == c[n + 1..Min(n + k, |c|)];
    assert ProveResult(c, k, m) == Finish(c, n, k, m, Success(prefix));
  }

  lemma ScannedIsClosed(c: seq<PoPowHeader>, n: nat, m: nat)
    requires WellFormed(c) && 2 <= n <= |c| && m >= 1
    ensures UpwardClosed(LevelsOf(c), n, Scanned(c, n, m)) && 0 in Scanned(c, n, m)
  {
    hide LevelsOf, WellFormed, MthLast;
    var lev := LevelsOf(c);
    var top := TopLevel(lev, n - 1);
    WellFormedLevels(c);
    TopLevelBound(lev, n - 1);
    ScanUpwardClosed(lev, n, top, m);
    assert Scanned(c, n, m) == set t: nat | t < n && InScan(lev, n, top, m, t);
  }

  /**
   * What the prover builds, the structural checks accept: the prefix starts at genesis, each entry
   * and the suffix head name the entry just before them, and heights increase throughout.
   */
  lemma ProveIsAccepted(c: seq<PoPowHeader>, k: u32, m: u32, epochs: u32)
    requires Provable(c, k, m)
    ensures
      var r := ProveResult(c, k, m);
      && r.Success?
      && HasValidConnections(r.value.(useLastEpochs := epochs))
      && HasValidHeights(r.value)
      && |r.value.prefix| >= 1 && r.value.prefix[0] == c[0]
      && forall i :: 1 <= i <= |r.value.prefix| ==> NamesPrevious(r.value, i)
  {
    hide WellFormed, LevelsOf, Scanned, ProveResult, HasValidConnections, HasValidHeights;
    var n := |c| - k;
    var kept := Scanned(c, n, m);
    ProveSelects(c, k, m);
    ScannedIsClosed(c, n, m);
    SelectionIsConnected(c, n, m, k, kept, epochs);
    SelectionHeights(c, n, m, k, kept);
    SelectionStartsAtGenesis(c, n, kept);
    forall i | 1 <= i <= |ProofOf(c, n, m, k, kept).prefix|
      ensures NamesPrevious(ProofOf(c, n, m, k, kept), i)
    {
      KeptBlocksAreNamed(c, n, kept, i);
    }
  }

  /** On a well-formed chain long enough for `k` and `m`, only a suffix starting right after genesis fails. */
  lemma ProveSucceedsIff(c: seq<PoPowHeader>, k: u32, m: u32)
    requires WellFormed(c) && k >= 1 && m >= 1 && k + m <= U32_MAX && |c| >= k + m
    ensures ProveResult(c, k, m).Success? <==> |c| >= k + 2
  {
    hide WellFormed, Scan, Finish;
    HeightAt(c, 0);
    if |c| >= k + 2 {
      ProveSelects(c, k, m);
    } else {
      GenesisLinks(c);
    }
  }
}
