/** Chains with any given levels, and their stores: every case of the provers' agreement occurs. */
module ChainWitnesses {
  import opened Wrappers
  import opened ChainTypes
  import opened MerkleTypes
  import opened Superchain
  import opened Interlinks
  import opened NipopowProofs
  import opened NipopowProver
  import opened NipopowReader
  import opened ProverEquivalence

  // ----- The store of a chain -----

  function FindById(c: seq<PoPowHeader>, id: BlockId): (r: Option<PoPowHeader>)
    ensures r.Some? ==> r.value in c && r.value.header.id == id
    ensures r.None? ==> forall p :: p in c ==> p.header.id != id
  {
    if c == [] then None
    else if c[|c| - 1].header.id == id then Some(c[|c| - 1])
    else FindById(c[..|c| - 1], id)
  }

  /** The store that holds the blocks of `c` and nothing else. */
  function StoreOf(c: seq<PoPowHeader>): Reader
    requires |c| <= U32_MAX
  {
    Reader(
      |c|,
      (id: BlockId) => FindById(c, id),
      (height: u32) => if 1 <= height <= |c| then Some(c[height - 1]) else None,
      (k: nat) => if k <= |c| then HeadersOf(c[|c| - k..]) else HeadersOf(c),
      (header: Header, n: nat) =>
        if 1 <= header.height <= |c| then HeadersOf(c[header.height..Min(header.height + n, |c|)]) else [])
  }

  ghost predicate DistinctIds(c: seq<PoPowHeader>) {
    forall i, j :: 0 <= i < j < |c| ==> c[i].header.id != c[j].header.id
  }

  lemma {:induction false} FindsEveryBlock(c: seq<PoPowHeader>, t: nat)
    requires DistinctIds(c) && t < |c|
    ensures FindById(c, c[t].header.id) == Some(c[t])
  {
    if t < |c| - 1 {
      FindsEveryBlock(c[..|c| - 1], t);
    }
  }

  lemma LengthFits(c: seq<PoPowHeader>)
    requires WellFormed(c)
    ensures |c| <= U32_MAX
  {
    HeightAt(c, |c| - 1);
  }

  /** The store of a well-formed chain with distinct ids serves that chain. */
  lemma StoreExposes(c: seq<PoPowHeader>)
    requires WellFormed(c) && DistinctIds(c)
    ensures |c| <= U32_MAX && Exposes(StoreOf(c), c)
  {
    LengthFits(c);
    forall t | 0 <= t < |c|
      ensures ExposesBlock(StoreOf(c), c, t)
    {
      FindsEveryBlock(c, t);
      HeightAt(c, t);
    }
  }

  // ----- A chain with given levels -----

  function LinksAfter(prev: PoPowHeader): seq<BlockId> {
    match UpdateInterlinks(prev.header, prev.interlinks)
    case Success(links) => links
    case Failure(_) => []
  }

  /** Block `t` above `prev`, of the given level, with its height as id. */
  function BlockAbove(prev: PoPowHeader, t: nat, level: i32): PoPowHeader
    requires t < U32_MAX
  {
    PoPowHeader(
      Header(BlockId(t + 1), prev.header.id, t + 1, Some(level), 0), LinksAfter(prev), BatchMerkleProof([], []))
  }

  function GenesisBlock(): PoPowHeader {
    PoPowHeader(Header(BlockId(1), BlockId(0), 1, Some(0), 0), [], BatchMerkleProof([], []))
  }

  function ChainOf(lev: seq<int>): (c: seq<PoPowHeader>)
    requires |lev| <= U32_MAX && forall t :: 0 <= t < |lev| ==> 0 <= lev[t] <= I32_MAX
    ensures |c| == |lev|
  {
    var n := |lev|;
    if n == 0 then []
    else if n == 1 then [GenesisBlock()]
    else
      var below := ChainOf(lev[..n - 1]);
      below + [BlockAbove(below[n - 2], n - 1, lev[n - 1])]
  }

  lemma GenesisIsAChain(c: seq<PoPowHeader>)
    requires c == [GenesisBlock()]
    ensures WellFormed(c) && LevelsOf(c) == [MAX_LEVEL]
  {
    assert GoodBlock(c, 0);
  }

  /** The block above the last one extends a well-formed chain. */
  lemma ExtendChain(below: seq<PoPowHeader>, level: i32)
    requires WellFormed(below) && |below| < U32_MAX && level >= 0
    requires |below| >= 2 ==> below[|below| - 1].interlinks != []
    ensures
      var n := |below|;
      var b := BlockAbove(below[n - 1], n, level);
      b.interlinks != [] && WellFormed(below + [b]) && LevelsOf(below + [b]) == LevelsOf(below) + [level]
  {
    var n := |below|;
    var b := BlockAbove(below[n - 1], n, level);
    var c := below + [b];
    assert GoodBlock(below, n - 1);
    assert GoodBlock(c, n);
    forall t | 0 <= t < n
      ensures GoodBlock(c, t)
    {
      assert GoodBlock(below, t);
    }
  }

  lemma ChainUnfolds(lev: seq<int>)
    requires 1 <= |lev| <= U32_MAX && forall t :: 0 <= t < |lev| ==> 0 <= lev[t] <= I32_MAX
    ensures |lev| == 1 ==> ChainOf(lev) == [GenesisBlock()]
    ensures |lev| >= 2 ==>
              var n, below := |lev|, ChainOf(lev[..|lev| - 1]);
              ChainOf(lev) == below + [BlockAbove(below[n - 2], n - 1, lev[n - 1])]
  {
  }

  lemma IdAbove(prev: PoPowHeader, t: nat, level: i32)
    requires t < U32_MAX
    ensures BlockAbove(prev, t, level).header.id == BlockId(t + 1)
  {
  }

  /** Every list of levels is that of a well-formed chain with distinct ids. */
  lemma {:induction false} ChainHasLevels(lev: seq<int>)
    requires ChainLevels(lev) && 1 <= |lev| <= U32_MAX
    ensures WellFormed(ChainOf(lev)) && LevelsOf(ChainOf(lev)) == lev
    ensures forall t :: 0 <= t < |lev| ==> ChainOf(lev)[t].header.id == BlockId(t + 1)
    ensures |lev| >= 2 ==> ChainOf(lev)[|lev| - 1].interlinks != []
  {
    hide WellFormed, LevelsOf, ChainOf, BlockAbove;
    var n := |lev|;
    ChainUnfolds(lev);
    if n == 1 {
      GenesisIsAChain(ChainOf(lev));
      assert lev == [MAX_LEVEL];
    } else {
      var init := lev[..n - 1];
      ChainHasLevels(init);
      ExtendChain(ChainOf(init), lev[n - 1]);
      IdAbove(ChainOf(init)[n - 2], n - 1, lev[n - 1]);
      assert lev == init + [lev[n - 1]];
    }
  }

  // ----- Every case occurs -----

  /** On the chain with given levels and its store, the provers agree exactly when the levels satisfy the condition. */
  lemma LevelsDecideAgreement(lev: seq<int>, k: u32, m: u32)
    requires ChainLevels(lev) && |lev| <= U32_MAX && k >= 1 && m >= 1 && |lev| >= k + m && |lev| >= k + 2
    ensures
      var c := ChainOf(lev);
      && Provable(c, k, m) && Exposes(StoreOf(c), c)
      && (ProveResult(c, k, m) == ReaderResult(StoreOf(c), None, k, m) <==> ProversAgree(lev, |lev| - k, m))
  {
    hide WellFormed, LevelsOf, ProveResult, ReaderResult, ProversAgree, ExposesBlock, StoreOf, ChainOf;
    var c := ChainOf(lev);
    ChainHasLevels(lev);
    assert DistinctIds(c) by {
      assert forall t :: 0 <= t < |c| ==> c[t].header.id == BlockId(t + 1);
    }
    StoreExposes(c);
    ProversReturnTheSameIff(StoreOf(c), c, k, m);
  }

  const WALKED_ONLY: seq<int> := [MAX_LEVEL, 1, 2, 2, 0]
  const SCANNED_ONLY: seq<int> := [MAX_LEVEL, 0, 0]

  /** With m = 2 the two level-2 blocks move the scan's anchor past the level-1 block, which the walk keeps. */
  lemma WalkKeepsMore()
    ensures ProveResult(ChainOf(WALKED_ONLY), 1, 2) != ReaderResult(StoreOf(ChainOf(WALKED_ONLY)), None, 1, 2)
  {
    var lev := WALKED_ONLY;
    hide ProveResult, ReaderResult, ChainOf, StoreOf;
    LevelsDecideAgreement(lev, 1, 2);
    assert !ProversAgree(lev, 4, 2) by { WalkedOnlyLevels(lev); }
  }

  lemma WalkedOnlyLevels(lev: seq<int>)
    requires lev == [MAX_LEVEL, 1, 2, 2, 0]
    ensures OnlyWalked(lev, 4, 2, 2, 1)
  {
    assert TopLevel(lev, 1) == 0 && TopLevel(lev, 2) == 1 && TopLevel(lev, 3) == 2;
    assert Above(lev, 1, 1, 2) == [] && Above(lev, 1, 2, 2) == [] && Above(lev, 1, 3, 2) == [2];
    assert Above(lev, 1, 4, 2) == [2, 3];
    assert MthLast(lev, 3, 2, 1) == 2 && MthLast(lev, 4, 2, 2) == 2;
  }

  /** The scan keeps a level-0 block in front of the suffix, which no interlink leads to. */
  lemma ScanKeepsMore()
    ensures ProveResult(ChainOf(SCANNED_ONLY), 1, 1) != ReaderResult(StoreOf(ChainOf(SCANNED_ONLY)), None, 1, 1)
  {
    var lev := SCANNED_ONLY;
    hide ProveResult, ReaderResult, ChainOf, StoreOf;
    LevelsDecideAgreement(lev, 1, 1);
    assert !ProversAgree(lev, 2, 1) by { ScannedOnlyLevels(lev); }
  }

  lemma ScannedOnlyLevels(lev: seq<int>)
    requires lev == [MAX_LEVEL, 0, 0]
    ensures OnlyScanned(lev, 2, 1, 1)
  {
    assert TopLevel(lev, 1) == 0;
  }
}
