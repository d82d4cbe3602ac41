/**
 * What the reader-backed prover selects when its store exposes a well-formed chain, and exactly
 * when that is what the in-memory prover selects.
 */
module ProverEquivalence {
  import opened Wrappers
  import opened ChainTypes
  import opened Superchain
  import opened SortedInts
  import opened Interlinks
  import opened NipopowProofs
  import opened NipopowProver
  import opened NipopowReader

  ghost predicate ExposesBlock(reader: Reader, c: seq<PoPowHeader>, t: nat)
    requires t < |c|
  {
    && reader.byId(c[t].header.id) == Some(c[t])
    && reader.atHeight(c[t].header.height) == Some(c[t])
    && forall j: nat :: reader.bestHeadersAfter(c[t].header, j) == HeadersOf(c[t + 1..Min(t + 1 + j, |c|)])
  }

  /** The store serves the chain `c`, and possibly other blocks, about which nothing is assumed. */
  ghost predicate Exposes(reader: Reader, c: seq<PoPowHeader>) {
    && reader.headersHeight == |c|
    && (forall t :: 0 <= t < |c| ==> ExposesBlock(reader, c, t))
    && (forall j: nat :: j <= |c| ==> reader.lastHeaders(j) == HeadersOf(c[|c| - j..]))
  }

  lemma StoredAt(reader: Reader, c: seq<PoPowHeader>, t: nat)
    requires Exposes(reader, c) && t < |c|
    ensures reader.byId(c[t].header.id) == Some(c[t])
    ensures reader.atHeight(c[t].header.height) == Some(c[t])
  {
    assert ExposesBlock(reader, c, t);
  }

  // ----- One level -----

  lemma TopIsReached(lev: seq<int>, s: nat, mu: int)
    requires 1 <= s <= |lev| && mu >= 1
    ensures mu <= TopLevel(lev, s) <==> LastAt(lev, s, mu) >= 1
  {
  }

  /** A block's interlink at an index leads to its most recent ancestor of that level. */
  lemma PreviousIsLastAt(c: seq<PoPowHeader>, s: nat, mu: int)
    requires WellFormed(c) && 1 <= s < |c| && mu >= 1
    ensures
      var t := LastAt(LevelsOf(c), s, mu);
      PreviousHeaderIdAtLevel(mu - 1, c[s]) == if t >= 1 then Some(c[t].header.id) else None
  {
    hide WellFormed, LevelsOf;
    InterlinksIndexTheChain(c, s);
    TopIsReached(LevelsOf(c), s, mu);
    IdAt(c, LastAt(LevelsOf(c), s, mu));
  }

  lemma IdAt(c: seq<PoPowHeader>, t: nat)
    requires t < |c|
    ensures IdsOf(c)[t] == c[t].header.id
  {
  }

  lemma {:induction false} AboveFromLast(lev: seq<int>, a: nat, n: nat, mu: int)
    requires 1 <= a && 1 <= n <= |lev|
    ensures
      var s := LastAt(lev, n, mu);
      Above(lev, a, n, mu) == if s < a then [] else Above(lev, a, s, mu) + [s]
  {
    if n > 1 && lev[n - 1] < mu {
      AboveFromLast(lev, a, n - 1, mu);
    }
    assert n <= a ==> Above(lev, a, n - 1, mu) == [];
  }

  lemma CollectAtBlock(reader: Reader, h: PoPowHeader, level: nat, anchoringHeight: int)
    requires reader.byId(h.header.id) == Some(h)
    ensures
      var next := PreviousHeaderIdAtLevel(level, h);
      var r := Collect(reader, h.header.id, level, anchoringHeight);
      && (h.header.height < anchoringHeight ==> r == Success([]))
      && (h.header.height >= anchoringHeight && next.None? ==> r == Success([h]))
      && (h.header.height >= anchoringHeight && next.Some?
          ==> r == Below(Collect(reader, next.value, level, anchoringHeight), [h]))
  {
    hide Collect, PreviousHeaderIdAtLevel;
    CollectUnfolds(reader, h.header.id, level, anchoringHeight);
  }

  /** The walk at index `mu - 1` visits exactly the non-genesis ancestors of level `mu` from the anchor on. */
  lemma {:induction false} CollectWalksTheLevel(reader: Reader, c: seq<PoPowHeader>, n: nat, mu: int, a: nat)
    requires WellFormed(c) && Exposes(reader, c) && 1 <= n <= |c| && mu >= 1
    requires LastAt(LevelsOf(c), n, mu) >= 1
    ensures Collect(reader, c[LastAt(LevelsOf(c), n, mu)].header.id, mu - 1, a + 1)
            == Success(Pick(c, Above(LevelsOf(c), WalkFrom(a), n, mu)))
    decreases LastAt(LevelsOf(c), n, mu)
  {
    hide WellFormed, LevelsOf, Collect, Pick, Above, Exposes, PreviousHeaderIdAtLevel;
    var lev := LevelsOf(c);
    var s, from := LastAt(lev, n, mu), WalkFrom(a);
    StoredAt(reader, c, s);
    HeightAt(c, s);
    PreviousIsLastAt(c, s, mu);
    CollectAtBlock(reader, c[s], mu - 1, a + 1);
    AboveFromLast(lev, from, n, mu);
    hide LastAt;
    if s < from {
      assert Pick(c, []) == [];
    } else if LastAt(lev, s, mu) >= 1 {
      CollectWalksTheLevel(reader, c, s, mu, a);
      PickAppend(c, Above(lev, from, s, mu), s);
    } else {
      AboveFromLast(lev, from, s, mu);
      assert Above(lev, from, n, mu) == [s];
      assert Pick(c, [s]) == [c[s]];
    }
  }

  // ----- The collected map, as a list of positions -----

  /** The blocks' ids as numbers; a store that finds every block by its id tells them apart. */
  function Keys(c: seq<PoPowHeader>): (ks: seq<nat>)
    ensures |ks| == |c|
  {
    seq(|c|, t requires 0 <= t < |c| => c[t].header.id.digest)
  }

  ghost predicate DistinctKeys(ks: seq<nat>) {
    forall s, t :: 0 <= s < |ks| && 0 <= t < |ks| && ks[s] == ks[t] ==> s == t
  }

  lemma ExposedKeys(reader: Reader, c: seq<PoPowHeader>)
    requires WellFormed(c) && Exposes(reader, c)
    ensures DistinctKeys(Keys(c))
  {
    forall s, t | 0 <= s < |c| && 0 <= t < |c| && Keys(c)[s] == Keys(c)[t]
      ensures s == t
    {
      StoredAt(reader, c, s);
      StoredAt(reader, c, t);
      assert c[s].header.id == c[t].header.id;
      HeightAt(c, s);
      HeightAt(c, t);
    }
  }

  function InsertByKey(ks: seq<nat>, t: nat, pos: seq<nat>): seq<nat>
    requires t < |ks| && forall i :: 0 <= i < |pos| ==> pos[i] < |ks|
  {
    if pos == [] then [t]
    else
      var init, last := pos[..|pos| - 1], pos[|pos| - 1];
      if ks[t] < ks[last] then InsertByKey(ks, t, init) + [last]
      else if ks[t] == ks[last] then init + [t]
      else pos + [t]
  }

  /** The map's order: strictly ascending keys. */
  ghost predicate KeyOrdered(ks: seq<nat>, pos: seq<nat>) {
    && (forall i :: 0 <= i < |pos| ==> pos[i] < |ks|)
    && forall i, j :: 0 <= i < j < |pos| ==> ks[pos[i]] < ks[pos[j]]
  }

  lemma KeyOrderedAppend(ks: seq<nat>, pos: seq<nat>, t: nat)
    requires KeyOrdered(ks, pos) && t < |ks|
    requires forall x :: x in Members(pos) ==> x < |ks| && ks[x] < ks[t]
    ensures KeyOrdered(ks, pos + [t])
  {
    assert forall i :: 0 <= i < |pos| ==> pos[i] in Members(pos);
  }

  /** The last position carries the largest key. */
  lemma KeyOrderedInit(ks: seq<nat>, pos: seq<nat>)
    requires KeyOrdered(ks, pos) && pos != []
    ensures KeyOrdered(ks, pos[..|pos| - 1])
    ensures forall x :: x in Members(pos[..|pos| - 1]) ==> x < |ks| && ks[x] < ks[pos[|pos| - 1]]
  {
    var init := pos[..|pos| - 1];
    forall x | x in init
      ensures x < |ks| && ks[x] < ks[pos[|pos| - 1]]
    {
      var i :| 0 <= i < |init| && init[i] == x;
      assert pos[i] == x;
    }
  }

  lemma {:induction false} InsertByKeyMembers(ks: seq<nat>, t: nat, pos: seq<nat>)
    requires DistinctKeys(ks) && KeyOrdered(ks, pos) && t < |ks|
    ensures KeyOrdered(ks, InsertByKey(ks, t, pos))
    ensures Members(InsertByKey(ks, t, pos)) == Members(pos) + {t}
  {
    if pos == [] {
      MembersOfAppend([], t);
    } else {
      hide Members;
      var init, last := pos[..|pos| - 1], pos[|pos| - 1];
      KeyOrderedInit(ks, pos);
      MembersOfInit(pos);
      if ks[t] < ks[last] {
        InsertByKeyMembers(ks, t, init);
        var r := InsertByKey(ks, t, init);
        assert InsertByKey(ks, t, pos) == r + [last];
        hide InsertByKey, KeyOrdered, DistinctKeys;
        MembersOfAppend(r, last);
        KeyOrderedAppend(ks, r, last);
      } else if ks[t] == ks[last] {
        assert t == last && init + [t] == pos;
      } else {
        MembersOfAppend(pos, t);
        KeyOrderedAppend(ks, pos, t);
      }
    }
  }

  lemma {:induction false} InsertByIdPosition(c: seq<PoPowHeader>, t: nat, pos: seq<nat>)
    requires Positions(c, pos) && t < |c|
    ensures Positions(c, InsertByKey(Keys(c), t, pos))
    ensures InsertById(c[t], Pick(c, pos)) == Pick(c, InsertByKey(Keys(c), t, pos))
  {
    hide Pick;
    if pos == [] {
      PickAppend(c, [], t);
    } else {
      var init, last := pos[..|pos| - 1], pos[|pos| - 1];
      PickInit(c, pos);
      assert Keys(c)[t] == c[t].header.id.digest && Keys(c)[last] == c[last].header.id.digest;
      hide Keys;
      if c[t].header.id.digest < c[last].header.id.digest {
        InsertByIdPosition(c, t, init);
        PickAppend(c, InsertByKey(Keys(c), t, init), last);
      } else if c[t].header.id == c[last].header.id {
        PickAppend(c, init, t);
      } else {
        PickAppend(c, pos, t);
      }
    }
  }

  /** Collecting a level adds its positions to the map. */
  lemma {:induction false} InsertAllPositions(c: seq<PoPowHeader>, pos: seq<nat>, found: seq<nat>)
    returns (pos': seq<nat>)
    requires DistinctKeys(Keys(c)) && KeyOrdered(Keys(c), pos) && Positions(c, found)
    ensures KeyOrdered(Keys(c), pos') && Members(pos') == Members(pos) + Members(found)
    ensures InsertAll(Pick(c, pos), Pick(c, found)) == Pick(c, pos')
  {
    hide Pick, InsertById, InsertByKey, Keys;
    if found == [] {
      pos' := pos;
    } else {
      var init, t := found[..|found| - 1], found[|found| - 1];
      var sofar := InsertAllPositions(c, pos, init);
      PickInit(c, found);
      MembersOfInit(found);
      InsertByKeyMembers(Keys(c), t, sofar);
      InsertByIdPosition(c, t, sofar);
      pos' := InsertByKey(Keys(c), t, sofar);
    }
  }

  // ----- Every level -----

  /** The walk's state when the levels below `mu` remain: closed-form anchor and closed-form selection so far. */
  ghost predicate WalkState(lev: seq<int>, n: nat, m: nat, mu: int, a: nat, pos: seq<nat>)
    requires 1 <= n <= |lev| && m >= 1
  {
    && a == WalkAnchor(lev, n, m, mu)
    && Members(pos) == WalkSet(lev, n, m, mu)
  }

  lemma LinkAt(c: seq<PoPowHeader>, n: nat, mu: nat)
    requires WellFormed(c) && 1 <= n < |c| && 1 <= mu <= TopLevel(LevelsOf(c), n)
    ensures |LinksWithIndexes(c[n])| == TopLevel(LevelsOf(c), n)
    ensures LastAt(LevelsOf(c), n, mu) >= 1
    ensures LinksWithIndexes(c[n])[mu - 1] == (c[LastAt(LevelsOf(c), n, mu)].header.id, mu - 1)
  {
    hide WellFormed, LevelsOf;
    InterlinksIndexTheChain(c, n);
    TopIsReached(LevelsOf(c), n, mu);
    IdAt(c, LastAt(LevelsOf(c), n, mu));
  }

  /** One walked level: what is collected, and where the anchor moves. */
  lemma WalkLevel(reader: Reader, c: seq<PoPowHeader>, n: nat, m: nat, mu: nat, a: nat, pos: seq<nat>)
    returns (pos': seq<nat>)
    requires WellFormed(c) && Exposes(reader, c) && 1 <= n < |c| && m >= 1
    requires 1 <= mu <= TopLevel(LevelsOf(c), n) == |LinksWithIndexes(c[n])|
    requires DistinctKeys(Keys(c)) && KeyOrdered(Keys(c), pos)
    ensures KeyOrdered(Keys(c), pos')
    ensures Members(pos') == Members(pos) + Members(Above(LevelsOf(c), WalkFrom(a), n, mu))
    ensures WalkLevels(reader, c[n], m, mu, a + 1, Pick(c, pos))
            == WalkLevels(reader, c[n], m, mu - 1, NextAnchor(LevelsOf(c), a, WalkFrom(a), n, mu, m) + 1, Pick(c, pos'))
  {
    hide WellFormed, LevelsOf, Collect, Pick, Above, LinksWithIndexes, InsertAll, ExposesBlock, Keys, KeyOrdered, DistinctKeys;
    var found := Above(LevelsOf(c), WalkFrom(a), n, mu);
    LinkAt(c, n, mu);
    CollectWalksTheLevel(reader, c, n, mu, a);
    pos' := InsertAllPositions(c, pos, found);
    var level := Pick(c, found);
    var next := if m < |level| then level[|level| - m].header.height else a + 1;
    assert next == NextAnchor(LevelsOf(c), a, WalkFrom(a), n, mu, m) + 1 by {
      if m < |found| {
        HeightAt(c, found[|found| - m]);
      }
    }
  }

  lemma WalkStateStep(lev: seq<int>, n: nat, m: nat, mu: int, a: nat, pos: seq<nat>, pos': seq<nat>)
    requires ChainLevels(lev) && 1 <= n <= |lev|
    requires m >= 1 && mu >= 1
    requires WalkState(lev, n, m, mu + 1, a, pos)
    requires Members(pos') == Members(pos) + Members(Above(lev, WalkFrom(a), n, mu))
    ensures WalkState(lev, n, m, mu, NextAnchor(lev, a, WalkFrom(a), n, mu, m), pos')
  {
    hide Above, AboveSet, NextAnchor, WalkAnchor, WalkSet, WalkFrom;
    WalkAnchorStep(lev, n, m, mu);
    AboveElements(lev, WalkFrom(a), n, mu);
    WalkSetStep(lev, n, m, mu);
  }

  /** From level `mu` down, the walk completes the closed-form selection. */
  lemma {:induction false} WalkSelects(reader: Reader, c: seq<PoPowHeader>, n: nat, m: nat, mu: nat, a: nat, pos: seq<nat>)
    returns (final: seq<nat>)
    requires WellFormed(c) && Exposes(reader, c) && 1 <= n < |c| && m >= 1
    requires mu <= TopLevel(LevelsOf(c), n) == |LinksWithIndexes(c[n])|
    requires DistinctKeys(Keys(c)) && KeyOrdered(Keys(c), pos)
    requires WalkState(LevelsOf(c), n, m, mu + 1, a, pos)
    ensures KeyOrdered(Keys(c), final) && Members(final) == WalkSet(LevelsOf(c), n, m, 1)
    ensures WalkLevels(reader, c[n], m, mu, a + 1, Pick(c, pos)) == Success(Pick(c, final))
    decreases mu
  {
    hide WellFormed, LevelsOf, Pick, Above, LinksWithIndexes, NextAnchor, WalkAnchor, WalkSet, Exposes, Keys, KeyOrdered, DistinctKeys;
    if mu == 0 {
      final := pos;
    } else {
      var lev := LevelsOf(c);
      WellFormedLevels(c);
      var pos' := WalkLevel(reader, c, n, m, mu, a, pos);
      WalkStateStep(lev, n, m, mu, a, pos, pos');
      final := WalkSelects(reader, c, n, m, mu - 1, NextAnchor(lev, a, WalkFrom(a), n, mu, m), pos');
    }
  }

  // ----- What the reader-backed prover builds -----

  /** The positions `ProveWithReader` keeps in front of position `n`. */
  function Walked(c: seq<PoPowHeader>, n: nat, m: nat): set<nat>
    requires 1 <= n <= |c| && m >= 1
  {
    {0} + WalkSet(LevelsOf(c), n, m, 1)
  }

  lemma {:induction false} NewHeightsPositions(c: seq<PoPowHeader>, pos: seq<nat>)
    requires WellFormed(c) && Positions(c, pos) && 0 !in pos && Distinct(pos)
    ensures NewHeights(Pick(c, pos)) == Pick(c, pos)
  {
    hide WellFormed, Pick, HasHeight;
    if pos != [] {
      var init, t := pos[..|pos| - 1], pos[|pos| - 1];
      NewHeightsPositions(c, init);
      PickInit(c, pos);
      assert t !in init;
      hide Distinct;
      NoSuchHeight(c, init, t);
      HeightAt(c, t);
      PickAppend(c, init, t);
      assert pos == init + [t];
    }
  }

  lemma NoSuchHeight(c: seq<PoPowHeader>, pos: seq<nat>, t: nat)
    requires WellFormed(c) && Positions(c, pos) && t !in pos
    ensures !HasHeight(Pick(c, pos), t + 1)
  {
    forall i | 0 <= i < |pos|
      ensures Pick(c, pos)[i].header.height != t + 1
    {
      HeightAt(c, pos[i]);
    }
  }

  lemma KeyOrderedDistinct(ks: seq<nat>, pos: seq<nat>)
    requires KeyOrdered(ks, pos)
    ensures Distinct(pos) && forall i :: 0 <= i < |pos| ==> pos[i] < |ks|
  {
  }

  /** The collected map, completed by genesis and sorted by height, is the closed-form selection in chain order. */
  lemma WalkedPrefix(reader: Reader, c: seq<PoPowHeader>, n: nat, m: nat) returns (collected: seq<PoPowHeader>)
    requires WellFormed(c) && Exposes(reader, c) && 1 <= n < |c| && m >= 1
    ensures WalkLevels(reader, c[n], m, |LinksWithIndexes(c[n])|, 1, []) == Success(collected)
    ensures SortByHeight([c[0]] + NewHeights(collected)) == Pick(c, Ascending(Walked(c, n, m), n))
  {
    hide WellFormed, LevelsOf, Pick, Ascending, SortByHeight, Sort, NewHeights, WalkLevels, Exposes, Keys, KeyOrdered, DistinctKeys;
    var lev := LevelsOf(c);
    var top := TopLevel(lev, n);
    assert |LinksWithIndexes(c[n])| == top by { InterlinksIndexTheChain(c, n); }
    hide LinksWithIndexes, TopLevel;
    assert WalkState(lev, n, m, top + 1, 0, []) by { WalkStarts(lev, n, m); }
    assert Pick(c, []) == [];
    ExposedKeys(reader, c);
    KeyOrderedEmpty(Keys(c));
    var final := WalkSelects(reader, c, n, m, top, 0, []);
    KeyOrderedDistinct(Keys(c), final);
    assert 0 !in Members(final);
    collected := Pick(c, final);
    NewHeightsPositions(c, final);
    WithGenesis(c, final);
    SortedSelection(c, n, Walked(c, n, m), [0] + final);
  }

  lemma WalkStarts(lev: seq<int>, n: nat, m: nat)
    requires 1 <= n <= |lev| && m >= 1
    ensures WalkState(lev, n, m, TopLevel(lev, n) + 1, 0, [])
  {
    NoneAboveTop(lev, n, TopLevel(lev, n) + 1);
    assert WalkSet(lev, n, m, TopLevel(lev, n) + 1) == {};
  }

  lemma KeyOrderedEmpty(ks: seq<nat>)
    ensures KeyOrdered(ks, [])
  {
  }

  lemma WithGenesis(c: seq<PoPowHeader>, pos: seq<nat>)
    requires |c| >= 1 && Positions(c, pos) && Distinct(pos) && 0 !in pos
    ensures Distinct([0] + pos) && Members([0] + pos) == {0} + Members(pos)
    ensures Positions(c, [0] + pos) && Pick(c, [0] + pos) == [c[0]] + Pick(c, pos)
  {
    assert forall x :: x in [0] + pos <==> x == 0 || x in pos;
  }

  /** The request names a suffix head at position `n`: by its id, or as the first of the last `k` blocks. */
  ghost predicate AsksFor(c: seq<PoPowHeader>, headerId: Option<BlockId>, k: nat, n: nat) {
    && n < |c|
    && (headerId == Some(c[n].header.id) || (headerId == None && n + k == |c|))
  }

  ghost predicate Walkable(reader: Reader, c: seq<PoPowHeader>, k: u32, m: u32) {
    WellFormed(c) && Exposes(reader, c) && k >= 1 && m >= 1 && k + m <= |c|
  }

  lemma SuffixOfRequest(reader: Reader, c: seq<PoPowHeader>, headerId: Option<BlockId>, n: nat, k: nat)
    requires Exposes(reader, c) && AsksFor(c, headerId, k, n) && 1 <= k <= |c|
    ensures Suffix(reader, headerId, k) == Success((c[n], SuffixTail(c, n, k)))
  {
    assert ExposesBlock(reader, c, n);
    if headerId.None? {
      var last := HeadersOf(c[|c| - k..]);
      assert reader.lastHeaders(k) == last;
      assert last[0] == c[n].header;
      assert last[1..] == SuffixTail(c, n, k);
    }
  }

  /** The reader-backed prover succeeds, with the closed-form selection in chain order. */
  lemma ReaderSelects(reader: Reader, c: seq<PoPowHeader>, headerId: Option<BlockId>, n: nat, k: u32, m: u32)
    requires Walkable(reader, c, k, m) && AsksFor(c, headerId, k, n) && n >= 1
    ensures ReaderResult(reader, headerId, k, m) == Success(ProofOf(c, n, m, k, Walked(c, n, m)))
  {
    hide WellFormed, WalkLevels, LinksWithIndexes, Suffix, SortByHeight, NewHeights, Pick, Ascending, Walked, SuffixTail, ExposesBlock;
    SuffixOfRequest(reader, c, headerId, n, k);
    HeightAt(c, 0);
    StoredAt(reader, c, 0);
    var collected := WalkedPrefix(reader, c, n, m);
    assert ReaderResult(reader, headerId, k, m)
        == FinishWalk(c[0], Success(collected), k, m, c[n], SuffixTail(c, n, k));
  }

  lemma WalkedIsClosed(c: seq<PoPowHeader>, n: nat, m: nat)
    requires WellFormed(c) && 1 <= n <= |c| && m >= 1
    ensures UpwardClosed(LevelsOf(c), n, Walked(c, n, m))
  {
    hide LevelsOf, WellFormed, MthLast, WalkAnchor;
    var lev := LevelsOf(c);
    WellFormedLevels(c);
    WalkUpwardClosed(lev, n, m);
    assert Walked(c, n, m) == set t: nat | t < n && InWalk(lev, n, m, t);
  }

  /** Every proof the reader-backed prover builds in front of a non-genesis suffix head passes the structural checks. */
  lemma ReaderIsAccepted(
    reader: Reader, c: seq<PoPowHeader>, headerId: Option<BlockId>, n: nat, k: u32, m: u32, epochs: u32)
    requires Walkable(reader, c, k, m) && AsksFor(c, headerId, k, n) && n >= 1
    ensures
      var r := ReaderResult(reader, headerId, k, m);
      && r.Success?
      && HasValidConnections(r.value.(useLastEpochs := epochs))
      && HasValidHeights(r.value)
      && |r.value.prefix| >= 1 && r.value.prefix[0] == c[0]
      && forall i :: 1 <= i <= |r.value.prefix| ==> NamesPrevious(r.value, i)
  {
    hide WellFormed, Exposes, LevelsOf, ReaderResult, HasValidConnections, HasValidHeights;
    var kept := Walked(c, n, m);
    ReaderSelects(reader, c, headerId, n, k, m);
    WalkedIsClosed(c, n, m);
    SelectionIsConnected(c, n, m, k, kept, epochs);
    SelectionHeights(c, n, m, k, kept);
    SelectionStartsAtGenesis(c, n, kept);
    forall i | 1 <= i <= |ProofOf(c, n, m, k, kept).prefix|
      ensures NamesPrevious(ProofOf(c, n, m, k, kept), i)
    {
      KeptBlocksAreNamed(c, n, kept, i);
    }
  }

  /** Asking for genesis itself gives a proof that lists genesis twice, which the height check rejects. */
  lemma ReaderAtGenesis(reader: Reader, c: seq<PoPowHeader>, k: u32, m: u32)
    requires Walkable(reader, c, k, m)
    ensures
      var r := ReaderResult(reader, Some(c[0].header.id), k, m);
      r.Success? && r.value.prefix == [c[0]] && r.value.suffixHead == c[0] && !HasValidHeights(r.value)
  {
    hide WellFormed, Suffix, SuffixTail, ExposesBlock;
    SuffixOfRequest(reader, c, Some(c[0].header.id), 0, k);
    HeightAt(c, 0);
    StoredAt(reader, c, 0);
    GenesisLinks(c);
    assert SortByHeight([c[0]] + NewHeights([])) == [c[0]];
    var p := ReaderResult(reader, Some(c[0].header.id), k, m).value;
    var hs := HeadersChain(p);
    assert hs[0] == hs[1] == c[0].header;
  }

  // ----- When the two provers agree -----

  lemma SelectionsDetermined(c: seq<PoPowHeader>, n: nat, a: set<nat>, b: set<nat>)
    requires WellFormed(c) && n <= |c|
    requires (forall t :: t in a ==> t < n) && (forall t :: t in b ==> t < n)
    requires Pick(c, Ascending(a, n)) == Pick(c, Ascending(b, n))
    ensures a == b
  {
    hide WellFormed, Ascending;
    AscendingMembers(a, n);
    AscendingMembers(b, n);
    forall t | t in a + b
      ensures t in a && t in b
    {
      PickedMember(c, Ascending(a, n), t);
      PickedMember(c, Ascending(b, n), t);
      assert t in Members(Ascending(a, n)) <==> t in Ascending(a, n);
      assert t in Members(Ascending(b, n)) <==> t in Ascending(b, n);
    }
  }

  /** The in-memory and the reader-backed prover return the same proof exactly when the levels agree. */
  lemma ProversReturnTheSameIff(reader: Reader, c: seq<PoPowHeader>, k: u32, m: u32)
    requires Provable(c, k, m) && Exposes(reader, c)
    ensures ProveResult(c, k, m) == ReaderResult(reader, None, k, m)
            <==> ProversAgree(LevelsOf(c), |c| - k, m)
  {
    hide WellFormed, LevelsOf, ExposesBlock, ProveResult, ReaderResult, ProversAgree, InScan, InWalk, Ascending, Pick, SuffixTail;
    var n := |c| - k;
    var lev := LevelsOf(c);
    WellFormedLevels(c);
    ProveSelects(c, k, m);
    ReaderSelects(reader, c, None, n, k, m);
    SelectionsAgreeIff(lev, n, m);
    ScannedIs(c, n, m);
    WalkedIs(c, n, m);
    if ProveResult(c, k, m) == ReaderResult(reader, None, k, m) {
      SelectionsDetermined(c, n, Scanned(c, n, m), Walked(c, n, m));
    }
    if ProversAgree(lev, n, m) {
      assert Scanned(c, n, m) == Walked(c, n, m);
    }
  }

  lemma ScannedIs(c: seq<PoPowHeader>, n: nat, m: nat)
    requires WellFormed(c) && 2 <= n <= |c| && m >= 1
    ensures forall t: nat :: t in Scanned(c, n, m)
                             <==> t < n && InScan(LevelsOf(c), n, TopLevel(LevelsOf(c), n - 1), m, t)
  {
    hide WellFormed, LevelsOf, InScan;
    WellFormedLevels(c);
  }

  lemma WalkedIs(c: seq<PoPowHeader>, n: nat, m: nat)
    requires WellFormed(c) && 1 <= n <= |c| && m >= 1
    ensures forall t: nat :: t in Walked(c, n, m) <==> t < n && InWalk(LevelsOf(c), n, m, t)
  {
    hide WellFormed, LevelsOf;
  }

  /** Positive levels, none reached by exactly `m` blocks: the two provers return the same proof. */
  lemma ProversAgreeOnDenseChains(reader: Reader, c: seq<PoPowHeader>, n: nat, k: u32, m: u32)
    requires Provable(c, k, m) && Exposes(reader, c) && n == |c| - k
    requires forall t :: 1 <= t < n ==> LevelsOf(c)[t] >= 1
    requires forall mu :: mu >= 1 ==> Count(LevelsOf(c), n, mu) != m
    ensures ProveResult(c, k, m) == ReaderResult(reader, None, k, m)
  {
    hide ProveResult, ReaderResult;
    WellFormedLevels(c);
    DenseChainsAgree(LevelsOf(c), n, m);
    ProversReturnTheSameIff(reader, c, k, m);
  }
}
