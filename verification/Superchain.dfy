/**
 * Superblock positions, seen through the levels of a chain's blocks.
 *
 * `lev[t]` is the level of the block at height `t + 1`; position 0 is genesis, whose level is
 * maximal.  Everything the interlink index, the scanning prover and the walking prover select
 * is a set of such positions, so the combinatorics shared by the three lives here.
 */
module Superchain {

  const MAX_LEVEL: int := 0x7fff_ffff

  /** Levels of a well-formed chain: genesis is maximal, every other block is at least at level 0. */
  ghost predicate ChainLevels(lev: seq<int>) {
    && |lev| >= 1
    && lev[0] == MAX_LEVEL
    && forall t :: 1 <= t < |lev| ==> 0 <= lev[t] <= MAX_LEVEL
  }

  function Min(a: int, b: int): int { if a <= b then a else b }

  /** The highest positive level among the blocks `1 .. n`, or 0. */
  function TopLevel(lev: seq<int>, n: nat): (r: int)
    requires n <= |lev|
    ensures r >= 0
    ensures forall t :: 1 <= t < n ==> lev[t] <= r
    ensures r > 0 ==> exists t :: 1 <= t < n && lev[t] == r
  {
    if n <= 1 then 0
    else
      var r := TopLevel(lev, n - 1);
      if lev[n - 1] > r then lev[n - 1] else r
  }

  /** The most recent non-genesis block below `n` of level at least `mu`, else genesis. */
  function LastAt(lev: seq<int>, n: nat, mu: int): (r: nat)
    requires 1 <= n <= |lev|
    ensures r < n
    ensures r == 0 || lev[r] >= mu
    ensures forall t :: r < t < n ==> lev[t] < mu
  {
    if n == 1 then 0
    else if lev[n - 1] >= mu then n - 1
    else LastAt(lev, n - 1, mu)
  }

  /** The `m`-th most recent non-genesis block below `n` of level at least `mu`, else genesis. */
  function MthLast(lev: seq<int>, n: nat, mu: int, m: nat): (r: nat)
    requires 1 <= n <= |lev|
    requires m >= 1
    ensures r < n
    ensures r == 0 || lev[r] >= mu
  {
    if n == 1 then 0
    else if lev[n - 1] < mu then MthLast(lev, n - 1, mu, m)
    else if m == 1 then n - 1
    else MthLast(lev, n - 1, mu, m - 1)
  }

  /** The positions in `a .. n` of level at least `mu`, ascending. */
  function Above(lev: seq<int>, a: nat, n: nat, mu: int): (s: seq<nat>)
    requires n <= |lev|
    ensures forall i :: 0 <= i < |s| ==> a <= s[i] < n && lev[s[i]] >= mu
    ensures forall i, j :: 0 <= i < j < |s| ==> s[i] < s[j]
  {
    if n <= a then []
    else if lev[n - 1] >= mu then Above(lev, a, n - 1, mu) + [n - 1]
    else Above(lev, a, n - 1, mu)
  }

  lemma AboveUnfolds(lev: seq<int>, a: nat, n: nat, mu: int)
    requires 1 <= n <= |lev|
    ensures Above(lev, a, n, mu)
            == if n > a && lev[n - 1] >= mu then Above(lev, a, n - 1, mu) + [n - 1] else Above(lev, a, n - 1, mu)
  {
  }

  /** Nothing of that level is left out. */
  lemma {:induction false} AboveHas(lev: seq<int>, a: nat, n: nat, mu: int, t: nat)
    requires a <= t < n <= |lev|
    requires lev[t] >= mu
    ensures t in Above(lev, a, n, mu)
  {
    if t == n - 1 {
      assert Above(lev, a, n, mu)[|Above(lev, a, n, mu)| - 1] == t;
    } else {
      AboveHas(lev, a, n - 1, mu, t);
    }
  }

  /** How many non-genesis blocks below `n` reach level `mu`. */
  function Count(lev: seq<int>, n: nat, mu: int): nat
    requires n <= |lev|
  {
    |Above(lev, 1, n, mu)|
  }

  lemma {:induction false} MthLastMonotone(lev: seq<int>, n: nat, mu: int, mu': int, m: nat, m': nat)
    requires 1 <= n <= |lev|
    requires mu <= mu' && 1 <= m <= m'
    ensures MthLast(lev, n, mu', m') <= MthLast(lev, n, mu, m)
  {
    if n > 1 {
      if lev[n - 1] < mu {
        MthLastMonotone(lev, n - 1, mu, mu', m, m');
      } else if m > 1 {
        MthLastMonotone(lev, n - 1, mu, mu', m - 1, if lev[n - 1] < mu' then m' else m' - 1);
      }
    }
  }

  lemma {:induction false} CountAntitone(lev: seq<int>, n: nat, mu: int, mu': int)
    requires n <= |lev|
    requires mu <= mu'
    ensures Count(lev, n, mu') <= Count(lev, n, mu)
  {
    if n > 1 {
      CountAntitone(lev, n - 1, mu, mu');
    }
  }

  /** With more than `m` selected blocks, the `m`-th from the end is the `m`-th most recent one. */
  lemma {:induction false} MthFromEnd(lev: seq<int>, a: nat, n: nat, mu: int, m: nat)
    requires 1 <= n <= |lev|
    requires m >= 1
    requires m < |Above(lev, a, n, mu)| || (a >= 1 && m == |Above(lev, a, n, mu)|)
    ensures var s := Above(lev, a, n, mu); s[|s| - m] == MthLast(lev, n, mu, m)
  {
    if n == 1 {
    } else if lev[n - 1] < mu {
      MthFromEnd(lev, a, n - 1, mu, m);
    } else if m > 1 {
      MthFromEnd(lev, a, n - 1, mu, m - 1);
    }
  }

  /** With at most `m` selected blocks from `a` on, the `m`-th most recent one is not above `a`. */
  lemma {:induction false} MthNotAbove(lev: seq<int>, a: nat, n: nat, mu: int, m: nat)
    requires a < n <= |lev|
    requires lev[a] >= mu
    requires 1 <= m && |Above(lev, a, n, mu)| <= m
    ensures MthLast(lev, n, mu, m) <= a
  {
    if n > a + 1 {
      if lev[n - 1] < mu {
        MthNotAbove(lev, a, n - 1, mu, m);
      } else {
        assert |Above(lev, a, n - 1, mu)| >= 1 by {
          AboveHas(lev, a, n - 1, mu, a);
        }
        MthNotAbove(lev, a, n - 1, mu, m - 1);
      }
    }
  }

  /** Where the anchor moves after a level whose blocks from `from` on were found, coming from `a`. */
  function NextAnchor(lev: seq<int>, a: nat, from: nat, n: nat, mu: int, m: nat): nat
    requires n <= |lev| && m >= 1
  {
    var s := Above(lev, from, n, mu);
    if m < |s| then s[|s| - m] else a
  }

  // ----- Closed form of the two provers' anchors -----

  /** Anchor of the scanning prover once every level down to `mu` has been scanned. */
  function ScanAnchor(lev: seq<int>, n: nat, top: int, m: nat, mu: int): nat
    requires 1 <= n <= |lev|
    requires m >= 1
  {
    if mu > top then 0 else MthLast(lev, n, mu, m)
  }

  /** Anchor of the walking prover once every level down to `mu` has been walked. */
  function WalkAnchor(lev: seq<int>, n: nat, m: nat, mu: int): nat
    requires 1 <= n <= |lev|
    requires m >= 1
  {
    if Count(lev, n, mu) > m then MthLast(lev, n, mu, m) else 0
  }

  /** One scanned level moves the closed-form anchor one level down. */
  lemma ScanAnchorStep(lev: seq<int>, n: nat, top: int, m: nat, mu: int)
    requires ChainLevels(lev) && 1 <= n <= |lev|
    requires m >= 1 && mu <= top <= MAX_LEVEL
    ensures
      var a := ScanAnchor(lev, n, top, m, mu + 1);
      NextAnchor(lev, a, a, n, mu, m) == ScanAnchor(lev, n, top, m, mu)
  {
    var a := ScanAnchor(lev, n, top, m, mu + 1);
    var s := Above(lev, a, n, mu);
    if m < |s| {
      MthFromEnd(lev, a, n, mu, m);
    } else {
      MthNotAbove(lev, a, n, mu, m);
      MthLastMonotone(lev, n, mu, mu + 1, m, m);
    }
  }

  /** One walked level moves the closed-form anchor one level down; genesis is never walked. */
  lemma WalkAnchorStep(lev: seq<int>, n: nat, m: nat, mu: int)
    requires ChainLevels(lev) && 1 <= n <= |lev|
    requires m >= 1
    ensures
      var a := WalkAnchor(lev, n, m, mu + 1);
      NextAnchor(lev, a, WalkFrom(a), n, mu, m) == WalkAnchor(lev, n, m, mu)
  {
    var a := WalkAnchor(lev, n, m, mu + 1);
    var s := Above(lev, WalkFrom(a), n, mu);
    if m < |s| {
      MthFromEnd(lev, WalkFrom(a), n, mu, m);
      if a > 0 {
        CountAntitone(lev, n, mu, mu + 1);
      }
    } else if a > 0 {
      CountAntitone(lev, n, mu, mu + 1);
      MthNotAbove(lev, a, n, mu, m);
      MthLastMonotone(lev, n, mu, mu + 1, m, m);
    }
  }

  lemma ScanAnchorMonotone(lev: seq<int>, n: nat, top: int, m: nat, mu: int, mu': int)
    requires 1 <= n <= |lev|
    requires m >= 1 && mu <= mu'
    ensures ScanAnchor(lev, n, top, m, mu') <= ScanAnchor(lev, n, top, m, mu)
  {
    MthLastMonotone(lev, n, mu, mu', m, m);
  }

  lemma WalkAnchorMonotone(lev: seq<int>, n: nat, m: nat, mu: int, mu': int)
    requires 1 <= n <= |lev|
    requires m >= 1 && mu <= mu'
    ensures WalkAnchor(lev, n, m, mu') <= WalkAnchor(lev, n, m, mu)
  {
    MthLastMonotone(lev, n, mu, mu', m, m);
    CountAntitone(lev, n, mu, mu');
  }

  // ----- Closed form of the two provers' prefixes -----

  /** The scanning prover keeps `t` iff it is not below the anchor left by the levels above its own. */
  predicate InScan(lev: seq<int>, n: nat, top: int, m: nat, t: nat)
    requires 1 <= n <= |lev|
    requires m >= 1
  {
    t < n && t >= ScanAnchor(lev, n, top, m, Min(lev[t], top) + 1)
  }

  /** The walking prover keeps genesis, and `t` of positive level under the same rule. */
  predicate InWalk(lev: seq<int>, n: nat, m: nat, t: nat)
    requires 1 <= n <= |lev|
    requires m >= 1
  {
    t == 0 || (t < n && lev[t] >= 1 && t >= WalkAnchor(lev, n, m, lev[t] + 1))
  }

  /** The part of the scanned selection found by the levels from `mu` up. */
  function ScanSet(lev: seq<int>, n: nat, top: int, m: nat, mu: int): set<nat>
    requires 1 <= n <= |lev|
    requires m >= 1
  {
    set t: nat | t < n && InScan(lev, n, top, m, t) && Min(lev[t], top) >= mu
  }

  /** The part of the walked selection found by the levels from `mu` up. */
  function WalkSet(lev: seq<int>, n: nat, m: nat, mu: int): set<nat>
    requires 1 <= n <= |lev|
    requires m >= 1
  {
    set t: nat | 1 <= t < n && InWalk(lev, n, m, t) && lev[t] >= mu
  }

  function AboveSet(lev: seq<int>, a: nat, n: nat, mu: int): set<nat>
    requires n <= |lev|
  {
    set t: nat | a <= t < n && lev[t] >= mu
  }

  lemma AboveElements(lev: seq<int>, a: nat, n: nat, mu: int)
    requires n <= |lev|
    ensures AboveSet(lev, a, n, mu) == set t | t in Above(lev, a, n, mu)
  {
    forall t | t in AboveSet(lev, a, n, mu)
      ensures t in Above(lev, a, n, mu)
    {
      AboveHas(lev, a, n, mu, t);
    }
  }

  lemma InScanStep(lev: seq<int>, n: nat, top: int, m: nat, mu: int, t: nat)
    requires 1 <= n <= |lev| && t < n
    requires m >= 1 && mu <= top
    requires Min(lev[t], top) >= mu
    ensures InScan(lev, n, top, m, t)
            <==> (InScan(lev, n, top, m, t) && Min(lev[t], top) >= mu + 1) || t >= ScanAnchor(lev, n, top, m, mu + 1)
  {
    var l := Min(lev[t], top);
    if l > mu {
      ScanAnchorMonotone(lev, n, top, m, mu + 1, l + 1);
    }
  }

  /** Scanning level `mu` adds exactly the blocks of that level from the current anchor on. */
  lemma ScanSetStep(lev: seq<int>, n: nat, top: int, m: nat, mu: int)
    requires 1 <= n <= |lev|
    requires m >= 1 && mu <= top
    ensures ScanSet(lev, n, top, m, mu)
            == ScanSet(lev, n, top, m, mu + 1) + AboveSet(lev, ScanAnchor(lev, n, top, m, mu + 1), n, mu)
  {
    forall t: nat | t < n && Min(lev[t], top) >= mu
      ensures InScan(lev, n, top, m, t)
              <==> (InScan(lev, n, top, m, t) && Min(lev[t], top) >= mu + 1) || t >= ScanAnchor(lev, n, top, m, mu + 1)
    {
      InScanStep(lev, n, top, m, mu, t);
    }
  }

  /** The walk starts above genesis. */
  function WalkFrom(anchor: nat): nat { if anchor == 0 then 1 else anchor }

  lemma InWalkStep(lev: seq<int>, n: nat, m: nat, mu: int, t: nat)
    requires 1 <= t < n <= |lev|
    requires m >= 1 && 1 <= mu <= lev[t]
    ensures InWalk(lev, n, m, t)
            <==> (InWalk(lev, n, m, t) && lev[t] >= mu + 1) || t >= WalkFrom(WalkAnchor(lev, n, m, mu + 1))
  {
    if lev[t] > mu {
      WalkAnchorMonotone(lev, n, m, mu + 1, lev[t] + 1);
    }
  }

  /** Walking level `mu >= 1` adds exactly the non-genesis blocks of that level from the current anchor on. */
  lemma WalkSetStep(lev: seq<int>, n: nat, m: nat, mu: int)
    requires 1 <= n <= |lev|
    requires m >= 1 && mu >= 1
    ensures WalkSet(lev, n, m, mu)
            == WalkSet(lev, n, m, mu + 1) + AboveSet(lev, WalkFrom(WalkAnchor(lev, n, m, mu + 1)), n, mu)
  {
    forall t: nat | 1 <= t < n && lev[t] >= mu
      ensures InWalk(lev, n, m, t)
              <==> (InWalk(lev, n, m, t) && lev[t] >= mu + 1) || t >= WalkFrom(WalkAnchor(lev, n, m, mu + 1))
    {
      InWalkStep(lev, n, m, mu, t);
    }
  }

  // ----- Linked selections -----

  /** `t`'s parent, genesis, or the target of one of `t`'s interlinks. */
  ghost predicate Reachable(lev: seq<int>, s: nat, t: nat)
    requires 1 <= t <= |lev|
  {
    s == 0 || s + 1 == t || exists mu :: 1 <= mu <= TopLevel(lev, t) && LastAt(lev, t, mu) == s
  }

  /** Whatever is kept, every later block of at least the same level is kept too. */
  ghost predicate UpwardClosed(lev: seq<int>, n: nat, kept: set<nat>)
    requires n <= |lev|
  {
    && (forall s :: s in kept ==> s < n)
    && forall s, u :: s in kept && s < u < n && lev[u] >= lev[s] ==> u in kept
  }

  /** In an upward closed selection the nearest kept block below `t` is reachable from `t`. */
  lemma NearestKeptIsReachable(lev: seq<int>, n: nat, kept: set<nat>, s: nat, t: nat)
    requires ChainLevels(lev) && n <= |lev|
    requires UpwardClosed(lev, n, kept)
    requires s in kept && s < t <= n
    requires forall u :: s < u < t ==> u !in kept
    ensures Reachable(lev, s, t)
  {
    if s != 0 && s + 1 != t {
      assert forall u :: s < u < t ==> lev[u] < lev[s];
      assert lev[s] > lev[s + 1] >= 0;
      assert LastAt(lev, t, lev[s]) == s;
    }
  }

  lemma ScanUpwardClosed(lev: seq<int>, n: nat, top: int, m: nat)
    requires ChainLevels(lev) && 1 <= n <= |lev|
    requires m >= 1
    ensures UpwardClosed(lev, n, set t: nat | t < n && InScan(lev, n, top, m, t))
  {
    forall s: nat, u: nat | s < u < n && InScan(lev, n, top, m, s) && lev[u] >= lev[s]
      ensures InScan(lev, n, top, m, u)
    {
      ScanAnchorMonotone(lev, n, top, m, Min(lev[s], top) + 1, Min(lev[u], top) + 1);
    }
  }

  lemma WalkUpwardClosed(lev: seq<int>, n: nat, m: nat)
    requires ChainLevels(lev) && 1 <= n <= |lev|
    requires m >= 1
    ensures UpwardClosed(lev, n, set t: nat | t < n && InWalk(lev, n, m, t))
  {
    forall s: nat, u: nat | s < u < n && InWalk(lev, n, m, s) && lev[u] >= lev[s]
      ensures InWalk(lev, n, m, u)
    {
      if s == 0 {
        CountAntitone(lev, n, MAX_LEVEL + 1, lev[u] + 1);
        NoneAbove(lev, n, lev[u] + 1);
      } else {
        WalkAnchorMonotone(lev, n, m, lev[s] + 1, lev[u] + 1);
      }
    }
  }

  lemma {:induction false} NoneAbove(lev: seq<int>, n: nat, mu: int)
    requires ChainLevels(lev) && n <= |lev|
    requires mu > MAX_LEVEL
    ensures Count(lev, n, mu) == 0
  {
    if n > 1 {
      NoneAbove(lev, n - 1, mu);
    }
  }

  // ----- When the two provers keep the same blocks -----

  /** A level-0 block that survives the last scanned level; the walk never visits one. */
  predicate OnlyScanned(lev: seq<int>, n: nat, m: nat, t: nat)
    requires 2 <= n <= |lev|
    requires m >= 1
  {
    1 <= t < n && lev[t] == 0 && t >= ScanAnchor(lev, n, TopLevel(lev, n - 1), m, 1)
  }

  /** A block of level `mu - 1` before the only `m` blocks of level `mu`; only the scan moves past it. */
  predicate OnlyWalked(lev: seq<int>, n: nat, m: nat, mu: int, t: nat)
    requires 2 <= n <= |lev|
    requires m >= 1
  {
    && 2 <= mu <= TopLevel(lev, n - 1)
    && Count(lev, n, mu) == m
    && 1 <= t < MthLast(lev, n, mu, m)
    && lev[t] == mu - 1
  }

  /** A condition on the levels alone, which a caller can evaluate before proving anything. */
  ghost predicate ProversAgree(lev: seq<int>, n: nat, m: nat)
    requires 2 <= n <= |lev|
    requires m >= 1
  {
    && (forall t :: !OnlyScanned(lev, n, m, t))
    && (forall mu, t :: !OnlyWalked(lev, n, m, mu, t))
  }

  lemma {:induction false} MthOfTooFew(lev: seq<int>, n: nat, mu: int, m: nat)
    requires 1 <= n <= |lev|
    requires Count(lev, n, mu) < m
    ensures MthLast(lev, n, mu, m) == 0
  {
    if n > 1 {
      MthOfTooFew(lev, n - 1, mu, if lev[n - 1] < mu then m else m - 1);
    }
  }

  lemma {:induction false} NoneAboveTop(lev: seq<int>, n: nat, mu: int)
    requires n <= |lev|
    requires mu > TopLevel(lev, n)
    ensures Count(lev, n, mu) == 0
  {
    if n > 1 {
      NoneAboveTop(lev, n - 1, mu);
    }
  }

  /** Away from levels reached by exactly `m` blocks the two anchors coincide. */
  lemma AnchorsCoincide(lev: seq<int>, n: nat, m: nat, mu: int)
    requires ChainLevels(lev) && 2 <= n <= |lev|
    requires m >= 1
    requires mu > TopLevel(lev, n - 1) || Count(lev, n, mu) != m
    ensures ScanAnchor(lev, n, TopLevel(lev, n - 1), m, mu) == WalkAnchor(lev, n, m, mu)
  {
    if mu > TopLevel(lev, n - 1) {
      NoneAboveTop(lev, n - 1, mu);
    } else if Count(lev, n, mu) < m {
      MthOfTooFew(lev, n, mu, m);
    }
  }

  lemma AgreementDecides(lev: seq<int>, n: nat, m: nat, t: nat)
    requires ChainLevels(lev) && 2 <= n <= |lev|
    requires m >= 1 && t < n
    requires ProversAgree(lev, n, m)
    ensures InScan(lev, n, TopLevel(lev, n - 1), m, t) <==> InWalk(lev, n, m, t)
  {
    var top := TopLevel(lev, n - 1);
    assert !OnlyScanned(lev, n, m, t);
    assert !OnlyWalked(lev, n, m, lev[t] + 1, t);
    if t == 0 {
      TopLevelBound(lev, n - 1);
    } else if 1 <= lev[t] <= top && (lev[t] == top || Count(lev, n, lev[t] + 1) != m) {
      AnchorsCoincide(lev, n, m, lev[t] + 1);
    }
  }

  lemma TopLevelBound(lev: seq<int>, n: nat)
    requires ChainLevels(lev) && n <= |lev|
    ensures TopLevel(lev, n) <= MAX_LEVEL
  {
  }

  /** The two selections are the same exactly when the levels satisfy `ProversAgree`. */
  lemma SelectionsAgreeIff(lev: seq<int>, n: nat, m: nat)
    requires ChainLevels(lev) && 2 <= n <= |lev|
    requires m >= 1
    ensures ProversAgree(lev, n, m)
            <==> forall t: nat :: t < n ==> (InScan(lev, n, TopLevel(lev, n - 1), m, t) <==> InWalk(lev, n, m, t))
  {
    var top := TopLevel(lev, n - 1);
    if ProversAgree(lev, n, m) {
      forall t: nat | t < n
        ensures InScan(lev, n, top, m, t) <==> InWalk(lev, n, m, t)
      {
        AgreementDecides(lev, n, m, t);
      }
    } else if t: nat :| OnlyScanned(lev, n, m, t) {
      assert InScan(lev, n, top, m, t) && !InWalk(lev, n, m, t);
    } else {
      var mu, t: nat :| OnlyWalked(lev, n, m, mu, t);
      assert !InScan(lev, n, top, m, t) && InWalk(lev, n, m, t);
    }
  }

  /** The condition the chain generator's tests rely on: positive levels, none reached by exactly `m` blocks. */
  lemma DenseChainsAgree(lev: seq<int>, n: nat, m: nat)
    requires ChainLevels(lev) && 2 <= n <= |lev|
    requires m >= 1
    requires forall t :: 1 <= t < n ==> lev[t] >= 1
    requires forall mu :: mu >= 1 ==> Count(lev, n, mu) != m
    ensures ProversAgree(lev, n, m)
  {
  }
}
