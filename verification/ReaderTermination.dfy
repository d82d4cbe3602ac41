/** When the reader-backed prover ends: exactly when no walk it gets to comes back to an id it has visited. */
module ReaderTermination {
  import opened Wrappers
  import opened ChainTypes
  import opened MerkleTypes
  import opened Counting
  import opened Interlinks
  import opened NipopowProver
  import opened NipopowReader

  // ----- Stores on which every walk ends -----

  function HeightOf(reader: Reader, id: BlockId): nat {
    match reader.byId(id)
    case Some(p) => p.header.height + 1
    case None => 0
  }

  /** Stored interlinks lead to lower blocks. */
  ghost predicate Descending(reader: Reader) {
    forall id, link :: reader.byId(id).Some? && link in reader.byId(id).value.interlinks
                       ==> HeightOf(reader, link) < HeightOf(reader, id)
  }

  lemma {:induction false} DescendingWalksEnd(reader: Reader, id: BlockId, level: nat, anchoringHeight: int)
    requires Descending(reader)
    ensures Collect(reader, id, level, anchoringHeight) != Failure(Diverges)
    decreases HeightOf(reader, id)
  {
    hide Collect;
    CollectUnfolds(reader, id, level, anchoringHeight);
    if reader.byId(id).Some? && PreviousHeaderIdAtLevel(level, reader.byId(id).value).Some? {
      var next := PreviousHeaderIdAtLevel(level, reader.byId(id).value).value;
      assert next in reader.byId(id).value.interlinks;
      DescendingWalksEnd(reader, next, level, anchoringHeight);
    }
  }

  lemma {:induction false} DescendingLevelsEnd(
    reader: Reader, h: PoPowHeader, m: nat, count: nat, anchoringHeight: int, collected: seq<PoPowHeader>)
    requires Descending(reader) && count <= |LinksWithIndexes(h)|
    ensures WalkLevels(reader, h, m, count, anchoringHeight, collected) != Failure(Diverges)
    decreases count
  {
    hide Collect, Descending, LinksWithIndexes, InsertAll;
    if count > 0 {
      var (id, level) := LinksWithIndexes(h)[count - 1];
      DescendingWalksEnd(reader, id, level, anchoringHeight);
      var found := Collect(reader, id, level, anchoringHeight);
      if found.Success? && !(m == 0 && |found.value| > 0) {
        var anchor := if m < |found.value| then found.value[|found.value| - m].header.height else anchoringHeight;
        DescendingLevelsEnd(reader, h, m, count - 1, anchor, InsertAll(collected, found.value));
      }
    }
  }

  /** On a store whose interlinks lead to lower blocks the prover ends on every request. */
  lemma DescendingStoresEnd(reader: Reader, headerId: Option<BlockId>, k: u32, m: u32)
    requires Descending(reader)
    ensures ReaderResult(reader, headerId, k, m) != Failure(Diverges)
  {
    hide WalkLevels, Descending, LinksWithIndexes, SortByHeight;
    if k >= 1 && Suffix(reader, headerId, k).Success? {
      var (head, _) := Suffix(reader, headerId, k).value;
      DescendingLevelsEnd(reader, head, m, |LinksWithIndexes(head)|, GENESIS_HEIGHT, []);
    }
  }

  // ----- Exactly when a walk never ends -----

  /** Where the walk goes from `id`: nowhere if nothing is stored there, it is below the anchor, or has no such link. */
  function NextId(reader: Reader, id: BlockId, level: nat, anchoringHeight: int): Option<BlockId> {
    match reader.byId(id)
    case None => None
    case Some(h) => if h.header.height < anchoringHeight then None else PreviousHeaderIdAtLevel(level, h)
  }

  /** The id the walk from `id` visits after `n` steps, if it gets that far. */
  function Visited(reader: Reader, id: BlockId, level: nat, anchoringHeight: int, n: nat): Option<BlockId> {
    if n == 0 then Some(id)
    else
      match Visited(reader, id, level, anchoringHeight, n - 1)
      case None => None
      case Some(at) => NextId(reader, at, level, anchoringHeight)
  }

  /** The walk comes back to an id it has visited. */
  ghost predicate GoesRound(reader: Reader, id: BlockId, level: nat, anchoringHeight: int) {
    exists i: nat, j: nat :: i < j && SameVisit(reader, id, level, anchoringHeight, i, j)
  }

  ghost predicate SameVisit(reader: Reader, id: BlockId, level: nat, anchoringHeight: int, i: nat, j: nat) {
    var at := Visited(reader, id, level, anchoringHeight, i);
    at.Some? && at == Visited(reader, id, level, anchoringHeight, j)
  }

  lemma {:induction false} VisitedFromNext(reader: Reader, id: BlockId, level: nat, anchoringHeight: int, n: nat)
    ensures Visited(reader, id, level, anchoringHeight, n + 1)
            == match NextId(reader, id, level, anchoringHeight)
               case None => None
               case Some(next) => Visited(reader, next, level, anchoringHeight, n)
  {
    hide NextId;
    if n > 0 {
      VisitedFromNext(reader, id, level, anchoringHeight, n - 1);
    } else {
      assert Visited(reader, id, level, anchoringHeight, 0) == Some(id);
    }
  }

  /** `n` steps suffice exactly when the walk does not get that far. */
  lemma {:induction false} EndsWhenNotVisited(reader: Reader, id: BlockId, level: nat, anchoringHeight: int, n: nat)
    ensures EndsWithin(reader, id, level, anchoringHeight, n) <==> Visited(reader, id, level, anchoringHeight, n).None?
    decreases n
  {
    hide PreviousHeaderIdAtLevel;
    if n > 0 {
      VisitedFromNext(reader, id, level, anchoringHeight, n - 1);
      if NextId(reader, id, level, anchoringHeight).Some? {
        EndsWhenNotVisited(reader, NextId(reader, id, level, anchoringHeight).value, level, anchoringHeight, n - 1);
      }
    }
  }

  ghost predicate NeverStops(reader: Reader, id: BlockId, level: nat, anchoringHeight: int) {
    forall n: nat :: Visited(reader, id, level, anchoringHeight, n).Some?
  }

  lemma DivergesWhenItNeverStops(reader: Reader, id: BlockId, level: nat, anchoringHeight: int)
    ensures Collect(reader, id, level, anchoringHeight) == Failure(Diverges) <==> NeverStops(reader, id, level, anchoringHeight)
  {
    hide CollectWithin, Visited;
    if n: nat :| Visited(reader, id, level, anchoringHeight, n).None? {
      EndsWhenNotVisited(reader, id, level, anchoringHeight, n);
      CollectIs(reader, id, level, anchoringHeight, n);
    } else {
      forall n: nat
        ensures !EndsWithin(reader, id, level, anchoringHeight, n)
      {
        EndsWhenNotVisited(reader, id, level, anchoringHeight, n);
      }
    }
  }

  lemma {:induction false} VisitedEarlier(reader: Reader, id: BlockId, level: nat, anchoringHeight: int, n: nat, k: nat)
    requires k <= n && Visited(reader, id, level, anchoringHeight, n).Some?
    ensures Visited(reader, id, level, anchoringHeight, k).Some?
  {
    if k < n {
      VisitedEarlier(reader, id, level, anchoringHeight, n - 1, k);
    }
  }

  /** After coming back once the walk repeats itself. */
  lemma {:induction false} Repeats(reader: Reader, id: BlockId, level: nat, anchoringHeight: int, i: nat, j: nat, n: nat)
    requires i < j && SameVisit(reader, id, level, anchoringHeight, i, j)
    ensures Visited(reader, id, level, anchoringHeight, i + n) == Visited(reader, id, level, anchoringHeight, j + n)
  {
    if n > 0 {
      Repeats(reader, id, level, anchoringHeight, i, j, n - 1);
    }
  }

  lemma {:induction false} RoundIsAlwaysVisited(
    reader: Reader, id: BlockId, level: nat, anchoringHeight: int, i: nat, j: nat, n: nat)
    requires i < j && SameVisit(reader, id, level, anchoringHeight, i, j)
    ensures Visited(reader, id, level, anchoringHeight, n).Some?
    decreases n
  {
    if n <= j {
      VisitedEarlier(reader, id, level, anchoringHeight, j, n);
    } else {
      Repeats(reader, id, level, anchoringHeight, i, j, n - j);
      RoundIsAlwaysVisited(reader, id, level, anchoringHeight, i, j, n - (j - i));
    }
  }

  const DIGESTS: nat := 0x1_0000000000000000_0000000000000000_0000000000000000_0000000000000000

  function DigestAt(reader: Reader, id: BlockId, level: nat, anchoringHeight: int, n: nat): (d: nat)
    ensures d < DIGESTS
  {
    match Visited(reader, id, level, anchoringHeight, n)
    case Some(at) => at.digest
    case None => 0
  }

  lemma NeverStopsGoesRound(reader: Reader, id: BlockId, level: nat, anchoringHeight: int)
    requires NeverStops(reader, id, level, anchoringHeight)
    ensures GoesRound(reader, id, level, anchoringHeight)
  {
    hide Visited;
    var i, j := Pigeonhole((n: nat) => DigestAt(reader, id, level, anchoringHeight, n), DIGESTS);
    assert DigestAt(reader, id, level, anchoringHeight, i) == DigestAt(reader, id, level, anchoringHeight, j);
    assert SameVisit(reader, id, level, anchoringHeight, i, j);
  }

  lemma GoesRoundNeverStops(reader: Reader, id: BlockId, level: nat, anchoringHeight: int)
    requires GoesRound(reader, id, level, anchoringHeight)
    ensures NeverStops(reader, id, level, anchoringHeight)
  {
    hide Visited;
    var i: nat, j: nat :| i < j && SameVisit(reader, id, level, anchoringHeight, i, j);
    forall n: nat
      ensures Visited(reader, id, level, anchoringHeight, n).Some?
    {
      RoundIsAlwaysVisited(reader, id, level, anchoringHeight, i, j, n);
    }
  }

  /** A walk never ends if and only if it comes back to an id it has visited: there are only so many ids. */
  lemma DivergesIffGoesRound(reader: Reader, id: BlockId, level: nat, anchoringHeight: int)
    ensures Collect(reader, id, level, anchoringHeight) == Failure(Diverges) <==> GoesRound(reader, id, level, anchoringHeight)
  {
    hide *;
    DivergesWhenItNeverStops(reader, id, level, anchoringHeight);
    if GoesRound(reader, id, level, anchoringHeight) {
      GoesRoundNeverStops(reader, id, level, anchoringHeight);
    }
    if NeverStops(reader, id, level, anchoringHeight) {
      NeverStopsGoesRound(reader, id, level, anchoringHeight);
    }
  }

  /** On some level the prover gets to, of the `count` lowest of `h`, the walk goes round. */
  ghost predicate LevelsGoRound(reader: Reader, h: PoPowHeader, m: nat, count: nat, anchoringHeight: int)
    requires count <= |LinksWithIndexes(h)|
  {
    count > 0 &&
    var (id, level) := LinksWithIndexes(h)[count - 1];
    match Collect(reader, id, level, anchoringHeight)
    case Failure(_) => GoesRound(reader, id, level, anchoringHeight)
    case Success(found) =>
      && !(m == 0 && |found| > 0)
      && var anchor := if m < |found| then found[|found| - m].header.height else anchoringHeight;
         LevelsGoRound(reader, h, m, count - 1, anchor)
  }

  lemma {:induction false} LevelsDivergeIff(
    reader: Reader, h: PoPowHeader, m: nat, count: nat, anchoringHeight: int, collected: seq<PoPowHeader>)
    requires count <= |LinksWithIndexes(h)|
    ensures WalkLevels(reader, h, m, count, anchoringHeight, collected) == Failure(Diverges)
            <==> LevelsGoRound(reader, h, m, count, anchoringHeight)
    decreases count
  {
    hide Collect, LinksWithIndexes, InsertAll, GoesRound;
    if count > 0 {
      var (id, level) := LinksWithIndexes(h)[count - 1];
      DivergesIffGoesRound(reader, id, level, anchoringHeight);
      var r := Collect(reader, id, level, anchoringHeight);
      if r.Success? && !(m == 0 && |r.value| > 0) {
        var anchor := if m < |r.value| then r.value[|r.value| - m].header.height else anchoringHeight;
        LevelsDivergeIff(reader, h, m, count - 1, anchor, InsertAll(collected, r.value));
      }
    }
  }

  /** The request is long enough and finds its suffix and genesis, and a walk from its suffix head goes round. */
  ghost predicate RequestGoesRound(reader: Reader, headerId: Option<BlockId>, k: u32, m: u32) {
    && k >= 1 && k + m <= U32_MAX && reader.headersHeight >= k + m
    && Suffix(reader, headerId, k).Success? && reader.atHeight(GENESIS_HEIGHT).Some?
    && var head := Suffix(reader, headerId, k).value.0;
       LevelsGoRound(reader, head, m, |LinksWithIndexes(head)|, GENESIS_HEIGHT)
  }

  /** The reader-backed prover never ends exactly when a walk it gets to comes back to where it was. */
  lemma ReaderDivergesIff(reader: Reader, headerId: Option<BlockId>, k: u32, m: u32)
    ensures ReaderResult(reader, headerId, k, m) == Failure(Diverges) <==> RequestGoesRound(reader, headerId, k, m)
  {
    hide WalkLevels, LevelsGoRound, LinksWithIndexes, SortByHeight;
    if k >= 1 && Suffix(reader, headerId, k).Success? {
      var (head, _) := Suffix(reader, headerId, k).value;
      LevelsDivergeIff(reader, head, m, |LinksWithIndexes(head)|, GENESIS_HEIGHT, []);
    }
  }

  /** Block `n` of the store below, at height `n`, naming genesis and block `other`. */
  function RoundBlock(n: u32, other: u32): PoPowHeader {
    PoPowHeader(Header(BlockId(n), BlockId(1), n, Some(1), 0), [BlockId(1), BlockId(other)], BatchMerkleProof([], []))
  }

  /** Genesis and two blocks that name each other. */
  function RoundStore(): Reader {
    Reader(
      3,
      (id: BlockId) => if 1 <= id.digest <= 3 then Some(RoundBlock(id.digest, 5 - id.digest)) else None,
      (height: u32) => if 1 <= height <= 3 then Some(RoundBlock(height, 5 - height)) else None,
      (k: nat) => [RoundBlock(3, 2).header],
      (header: Header, n: nat) => [])
  }

  /** On that store the prover does not end. */
  lemma RoundStoreDiverges()
    ensures ReaderResult(RoundStore(), None, 1, 1) == Failure(Diverges)
  {
    var reader, head := RoundStore(), RoundBlock(3, 2);
    var id := BlockId(2);
    hide ReaderResult, Collect;
    assert NextId(reader, id, 0, 1) == Some(BlockId(3)) && NextId(reader, BlockId(3), 0, 1) == Some(id);
    assert Visited(reader, id, 0, 1, 0) == Some(id) && Visited(reader, id, 0, 1, 1) == Some(BlockId(3));
    assert SameVisit(reader, id, 0, 1, 0, 2);
    DivergesIffGoesRound(reader, id, 0, 1);
    assert LinksWithIndexes(head) == [(id, 0)];
    assert LevelsGoRound(reader, head, 1, 1, 1);
    ReaderDivergesIff(reader, None, 1, 1);
  }
}
