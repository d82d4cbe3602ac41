/**
 * The interlink index: how each block's interlink vector follows from its predecessor's, and
 * what the vector holds in every chain grown that way.
 */
module Interlinks {
  import opened Wrappers
  import opened ChainTypes
  import opened MerkleTypes
  import opened Superchain

  datatype NipopowError =
    | AutolykosPowSchemeError
    | ZeroKParameter
    | ZeroMParameter
    | NonAnchoredChain
    | ChainTooShort
    | MissingPopowHeader
    | EmptyInterlinks
    | Aborted  // overflow of a machine integer, or an index out of range
    | Diverges  // not an outcome of the program: stands for a walk that never ends

  datatype PoPowHeader = PoPowHeader(header: Header, interlinks: seq<BlockId>, interlinksProof: BatchMerkleProof)

  function MaxLevelOf(h: Header): Result<i32, NipopowError> {
    if h.height == 1 then Success(I32_MAX)
    else
      match h.powLevel
      case Some(level) => Success(level)
      case None => Failure(AutolykosPowSchemeError)
  }

  /** The interlink vector of the block that follows `prev`. */
  function UpdateInterlinks(prev: Header, links: seq<BlockId>): Result<seq<BlockId>, NipopowError> {
    if prev.height == 1 then Success([prev.id])
    else if links == [] then Failure(EmptyInterlinks)
    else
      match MaxLevelOf(prev)
      case Failure(e) => Failure(e)
      case Success(level) =>
        if level <= 0 then Success(links)
        else if |links| > level then
          Success([links[0]] + links[1..|links| - level] + seq(level, _ => prev.id))
        else
          Success([links[0]] + seq(level, _ => prev.id))
  }

  /** For which inputs there is an updated vector, and with which error there is none. */
  lemma UpdateSucceedsIff(prev: Header, links: seq<BlockId>)
    ensures UpdateInterlinks(prev, links).Success?
            <==> prev.height == 1 || (links != [] && prev.powLevel.Some?)
    ensures UpdateInterlinks(prev, links).Failure?
            ==> UpdateInterlinks(prev, links) == Failure(if links == [] then EmptyInterlinks else AutolykosPowSchemeError)
  {
  }

  /**
   * The updated vector after a block that is not genesis, entry by entry, for any vector before it: the first entry
   * stays, the last ones, as many as the block's level, name the block, and those between stay.
   */
  lemma UpdatedEntries(prev: Header, links: seq<BlockId>, updated: seq<BlockId>)
    requires prev.height != 1 && UpdateInterlinks(prev, links) == Success(updated)
    ensures
      var level := prev.powLevel.value;
      && |updated| == (if level >= |links| then level + 1 else |links|)
      && updated[0] == links[0]
      && forall t :: 1 <= t < |updated| ==> updated[t] == if |updated| - t <= level then prev.id else links[t]
  {
  }

  function LevelAt(c: seq<PoPowHeader>, t: nat): int
    requires t < |c|
  {
    match MaxLevelOf(c[t].header)
    case Success(level) => level
    case Failure(_) => 0
  }

  function LevelsOf(c: seq<PoPowHeader>): (lev: seq<int>)
    ensures |lev| == |c|
  {
    seq(|c|, t requires 0 <= t < |c| => LevelAt(c, t))
  }

  /** Block `t` of a well-formed chain: its height, parent, level and interlinks. */
  ghost predicate GoodBlock(c: seq<PoPowHeader>, t: nat)
    requires t < |c|
  {
    && c[t].header.height == t + 1
    && (t == 0 ==> c[t].interlinks == [])
    && (t > 0 ==>
          && c[t].header.parentId == c[t - 1].header.id
          && c[t].header.powLevel.Some? && c[t].header.powLevel.value >= 0
          && UpdateInterlinks(c[t - 1].header, c[t - 1].interlinks) == Success(c[t].interlinks))
  }

  /** Heights 1, 2, .., parent-linked, non-negative levels, interlinks grown by `UpdateInterlinks`. */
  ghost predicate WellFormed(c: seq<PoPowHeader>) {
    |c| >= 1 && forall t :: 0 <= t < |c| ==> GoodBlock(c, t)
  }

  lemma HeightAt(c: seq<PoPowHeader>, t: nat)
    requires WellFormed(c) && t < |c|
    ensures c[t].header.height == t + 1
  {
    assert GoodBlock(c, t);
  }

  lemma GenesisLinks(c: seq<PoPowHeader>)
    requires WellFormed(c)
    ensures c[0].interlinks == []
  {
    assert GoodBlock(c, 0);
  }

  lemma ParentAt(c: seq<PoPowHeader>, t: nat)
    requires WellFormed(c) && 1 <= t < |c|
    ensures c[t].header.parentId == c[t - 1].header.id
  {
    assert GoodBlock(c, t);
  }

  lemma WellFormedLevels(c: seq<PoPowHeader>)
    requires WellFormed(c)
    ensures ChainLevels(LevelsOf(c))
    ensures forall t :: 0 <= t < |c| ==> MaxLevelOf(c[t].header) == Success(LevelsOf(c)[t])
  {
    forall t | 0 <= t < |c|
      ensures MaxLevelOf(c[t].header) == Success(LevelsOf(c)[t])
      ensures if t == 0 then LevelsOf(c)[t] == MAX_LEVEL else 0 <= LevelsOf(c)[t] <= MAX_LEVEL
    {
      assert GoodBlock(c, t);
    }
  }

  function IdsOf(c: seq<PoPowHeader>): (ids: seq<BlockId>)
    ensures |ids| == |c|
  {
    seq(|c|, t requires 0 <= t < |c| => c[t].header.id)
  }

  /**
   * What the vector of block `i` holds: genesis first, then one entry per positive level reached
   * by an ancestor, the `mu`-th from the end naming the most recent ancestor of level `mu` or more.
   */
  ghost predicate Indexes(ids: seq<BlockId>, lev: seq<int>, i: nat, links: seq<BlockId>)
    requires 1 <= i < |ids| == |lev|
  {
    && |links| == 1 + TopLevel(lev, i)
    && links[0] == ids[0]
    && forall mu :: 1 <= mu <= TopLevel(lev, i) ==> links[|links| - mu] == ids[LastAt(lev, i, mu)]
  }

  lemma UpdateKeepsIndex(ids: seq<BlockId>, lev: seq<int>, n: nat, prev: Header, links: seq<BlockId>, updated: seq<BlockId>)
    requires 2 <= n < |ids| == |lev|
    requires Indexes(ids, lev, n - 1, links)
    requires prev.height != 1 && prev.id == ids[n - 1]
    requires MaxLevelOf(prev) == Success(lev[n - 1]) && lev[n - 1] >= 0
    requires UpdateInterlinks(prev, links) == Success(updated)
    ensures Indexes(ids, lev, n, updated)
  {
    forall mu | 1 <= mu <= TopLevel(lev, n)
      ensures updated[|updated| - mu] == ids[LastAt(lev, n, mu)]
    {
      if mu > lev[n - 1] {
        assert updated[|updated| - mu] == links[|links| - mu] == ids[LastAt(lev, n - 1, mu)];
      }
    }
  }

  /** Every non-genesis block of a well-formed chain carries the index. */
  lemma {:induction false} InterlinksIndexTheChain(c: seq<PoPowHeader>, i: nat)
    requires WellFormed(c)
    requires 1 <= i < |c|
    ensures Indexes(IdsOf(c), LevelsOf(c), i, c[i].interlinks)
  {
    var ids, lev, prev := IdsOf(c), LevelsOf(c), c[i - 1];
    assert UpdateInterlinks(prev.header, prev.interlinks) == Success(c[i].interlinks) && prev.header.height == i by {
      assert GoodBlock(c, i - 1) && GoodBlock(c, i);
    }
    if i == 1 {
      assert c[1].interlinks == [ids[0]];
    } else {
      InterlinksIndexTheChain(c, i - 1);
      assert MaxLevelOf(prev.header) == Success(lev[i - 1]) && lev[i - 1] >= 0 by {
        WellFormedLevels(c);
      }
      UpdateKeepsIndex(ids, lev, i, prev.header, prev.interlinks, c[i].interlinks);
    }
  }

  /** `next` names `prev` in its interlinks or as its parent. */
  predicate Names(next: PoPowHeader, prev: PoPowHeader) {
    prev.header.id in next.interlinks || next.header.parentId == prev.header.id
  }

  lemma ReachableIsNamed(c: seq<PoPowHeader>, s: nat, t: nat)
    requires WellFormed(c)
    requires s < t < |c|
    requires Reachable(LevelsOf(c), s, t)
    ensures c[s].header.id in c[t].interlinks || c[t].header.parentId == c[s].header.id
  {
    InterlinksIndexTheChain(c, t);
    ParentAt(c, t);
    var lev, links := LevelsOf(c), c[t].interlinks;
    if s == 0 {
      assert links[0] == IdsOf(c)[0] == c[0].header.id;
    } else if s + 1 != t {
      var mu :| 1 <= mu <= TopLevel(lev, t) && LastAt(lev, t, mu) == s;
      assert links[|links| - mu] == IdsOf(c)[s] == c[s].header.id;
    }
  }
}
