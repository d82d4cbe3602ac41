/**
 * The reader-backed prover: it never sees the whole chain, but walks the interlinks of the suffix
 * head level by level through lookups in an external store.
 */
module NipopowReader {
  import opened Wrappers
  import Superchain
  import opened ChainTypes
  import opened Interlinks
  import opened NipopowProofs
  import opened NipopowProver

  /** The lookups a header store offers. */
  datatype Reader = Reader(
    headersHeight: u32,
    byId: BlockId -> Option<PoPowHeader>,
    atHeight: u32 -> Option<PoPowHeader>,
    lastHeaders: nat -> seq<Header>,
    bestHeadersAfter: (Header, nat) -> seq<Header>)

  // ----- Walking one level -----

  function LinksWithIndexes(h: PoPowHeader): (r: seq<(BlockId, nat)>)
  {
    var n := |h.interlinks|;
    if n < 2 then [] else seq(n - 1, i requires 0 <= i < n - 1 => (h.interlinks[n - 1 - i], i))
  }

  function PreviousHeaderIdAtLevel(level: nat, h: PoPowHeader): Option<BlockId> {
    var n := |h.interlinks|;
    if n < 2 || level > n - 2 then None else Some(h.interlinks[n - 1 - level])
  }

  /** At most `n` steps of the walk along one level, in ascending order. */
  function CollectWithin(reader: Reader, id: BlockId, level: nat, anchoringHeight: int, n: nat)
    : Result<seq<PoPowHeader>, NipopowError>
    decreases n
  {
    if n == 0 then Failure(Diverges)
    else
      match reader.byId(id)
      case None => Failure(MissingPopowHeader)
      case Some(h) =>
        if h.header.height < anchoringHeight then Success([])
        else
          match PreviousHeaderIdAtLevel(level, h)
          case None => Success([h])
          case Some(next) => Below(CollectWithin(reader, next, level, anchoringHeight, n - 1), [h])
  }

  function Below(r: Result<seq<PoPowHeader>, NipopowError>, above: seq<PoPowHeader>): Result<seq<PoPowHeader>, NipopowError> {
    match r
    case Failure(e) => Failure(e)
    case Success(below) => Success(below + above)
  }

  ghost predicate EndsWithin(reader: Reader, id: BlockId, level: nat, anchoringHeight: int, n: nat) {
    CollectWithin(reader, id, level, anchoringHeight, n) != Failure(Diverges)
  }

  /** What the walk along one level collects; `Diverges` if it goes round in the store for ever. */
  ghost function Collect(reader: Reader, id: BlockId, level: nat, anchoringHeight: int): Result<seq<PoPowHeader>, NipopowError> {
    if n: nat :| EndsWithin(reader, id, level, anchoringHeight, n)
    then CollectWithin(reader, id, level, anchoringHeight, n)
    else Failure(Diverges)
  }

  lemma {:induction false} MoreStepsChangeNothing(reader: Reader, id: BlockId, level: nat, anchoringHeight: int, n: nat, k: nat)
    requires n <= k && EndsWithin(reader, id, level, anchoringHeight, n)
    ensures CollectWithin(reader, id, level, anchoringHeight, k) == CollectWithin(reader, id, level, anchoringHeight, n)
    decreases n
  {
    if reader.byId(id).Some? && PreviousHeaderIdAtLevel(level, reader.byId(id).value).Some?
       && reader.byId(id).value.header.height >= anchoringHeight {
      var next := PreviousHeaderIdAtLevel(level, reader.byId(id).value).value;
      MoreStepsChangeNothing(reader, next, level, anchoringHeight, n - 1, k - 1);
    }
  }

  /** Any number of steps that suffices gives what the walk collects. */
  lemma CollectIs(reader: Reader, id: BlockId, level: nat, anchoringHeight: int, n: nat)
    requires EndsWithin(reader, id, level, anchoringHeight, n)
    ensures Collect(reader, id, level, anchoringHeight) == CollectWithin(reader, id, level, anchoringHeight, n)
  {
    hide CollectWithin;
    var k: nat :| EndsWithin(reader, id, level, anchoringHeight, k)
                  && Collect(reader, id, level, anchoringHeight) == CollectWithin(reader, id, level, anchoringHeight, k);
    MoreStepsChangeNothing(reader, id, level, anchoringHeight, Superchain.Min(n, k), n);
    MoreStepsChangeNothing(reader, id, level, anchoringHeight, Superchain.Min(n, k), k);
  }

  /** What the walk collects, by its first step. */
  lemma CollectUnfolds(reader: Reader, id: BlockId, level: nat, anchoringHeight: int)
    ensures
      var r := Collect(reader, id, level, anchoringHeight);
      match reader.byId(id)
      case None => r == Failure(MissingPopowHeader)
      case Some(h) =>
        if h.header.height < anchoringHeight then r == Success([])
        else
          match PreviousHeaderIdAtLevel(level, h)
          case None => r == Success([h])
          case Some(next) => r == Below(Collect(reader, next, level, anchoringHeight), [h])
  {
    hide PreviousHeaderIdAtLevel;
    var found := reader.byId(id);
    if found.Some? && found.value.header.height >= anchoringHeight && PreviousHeaderIdAtLevel(level, found.value).Some? {
      var next := PreviousHeaderIdAtLevel(level, found.value).value;
      if n: nat :| EndsWithin(reader, next, level, anchoringHeight, n) {
        CollectIs(reader, next, level, anchoringHeight, n);
        CollectIs(reader, id, level, anchoringHeight, n + 1);
      } else {
        forall n: nat
          ensures !EndsWithin(reader, id, level, anchoringHeight, n)
        {
          assert n == 0 || !EndsWithin(reader, next, level, anchoringHeight, n - 1);
        }
      }
    } else {
      CollectIs(reader, id, level, anchoringHeight, 1);
    }
  }

  function Reverse(s: seq<PoPowHeader>): seq<PoPowHeader> {
    if s == [] then [] else [s[|s| - 1]] + Reverse(s[..|s| - 1])
  }

  lemma BelowEdges(r: Result<seq<PoPowHeader>, NipopowError>, above: seq<PoPowHeader>)
    ensures Below(r, []) == r
    ensures Below(Success([]), above) == Success(above)
  {
    if r.Success? {
      assert r.value + [] == r.value;
    }
    assert [] + above == above;
  }

  lemma BelowStep(r: Result<seq<PoPowHeader>, NipopowError>, h: PoPowHeader, above: seq<PoPowHeader>)
    ensures Below(Below(r, [h]), above) == Below(r, [h] + above)
  {
    if r.Success? {
      assert r.value + [h] + above == r.value + ([h] + above);
    }
  }

  /** The loop ends exactly when the walk does, which is all it asks for. */
  method CollectLevel(reader: Reader, startId: BlockId, level: nat, anchoringHeight: u32)
    returns (r: Result<seq<PoPowHeader>, NipopowError>)
    requires Collect(reader, startId, level, anchoringHeight) != Failure(Diverges)
    ensures r == Collect(reader, startId, level, anchoringHeight)
  {
    hide Collect, PreviousHeaderIdAtLevel;
    var walked: seq<PoPowHeader> := [];
    var currentId := startId;
    BelowEdges(Collect(reader, startId, level, anchoringHeight), []);
    ghost var n := StepsOf(reader, startId, level, anchoringHeight);
    while true
      invariant EndsWithin(reader, currentId, level, anchoringHeight, n)
      invariant Collect(reader, startId, level, anchoringHeight)
                == Below(Collect(reader, currentId, level, anchoringHeight), Reverse(walked))
      decreases n
    {
      CollectUnfolds(reader, currentId, level, anchoringHeight);
      var found := reader.byId(currentId);
      if found.None? { return Failure(MissingPopowHeader); }
      var prevHeader := found.value;
      if prevHeader.header.height < anchoringHeight {
        BelowEdges(Collect(reader, currentId, level, anchoringHeight), Reverse(walked));
        return Success(Reverse(walked));
      }
      var nextLink := PreviousHeaderIdAtLevel(level, prevHeader);
      ghost var above := Reverse(walked);
      walked := walked + [prevHeader];
      assert Reverse(walked) == [prevHeader] + above;
      match nextLink
      case Some(nextId) =>
        BelowStep(Collect(reader, nextId, level, anchoringHeight), prevHeader, above);
        currentId := nextId;
        n := n - 1;
      case None =>
        return Success(Reverse(walked));
    }
  }

  ghost function StepsOf(reader: Reader, id: BlockId, level: nat, anchoringHeight: int): (n: nat)
    requires Collect(reader, id, level, anchoringHeight) != Failure(Diverges)
    ensures EndsWithin(reader, id, level, anchoringHeight, n)
  {
    var n: nat :| EndsWithin(reader, id, level, anchoringHeight, n);
    n
  }

  // ----- Walking every level -----

  /** Insertion into a map keyed and ordered by block id. */
  function InsertById(p: PoPowHeader, sorted: seq<PoPowHeader>): seq<PoPowHeader> {
    if sorted == [] then [p]
    else
      var init, last := sorted[..|sorted| - 1], sorted[|sorted| - 1];
      if p.header.id.digest < last.header.id.digest then InsertById(p, init) + [last]
      else if p.header.id == last.header.id then init + [p]
      else sorted + [p]
  }

  function InsertAll(collected: seq<PoPowHeader>, found: seq<PoPowHeader>): seq<PoPowHeader> {
    if found == [] then collected
    else InsertById(found[|found| - 1], InsertAll(collected, found[..|found| - 1]))
  }

  /** The walk along the `count` lowest levels of `h`, from the highest of them down. */
  ghost function WalkLevels(
    reader: Reader, h: PoPowHeader, m: nat, count: nat, anchoringHeight: int, collected: seq<PoPowHeader>)
    : Result<seq<PoPowHeader>, NipopowError>
    requires count <= |LinksWithIndexes(h)|
  {
    if count == 0 then Success(collected)
    else
      var (id, level) := LinksWithIndexes(h)[count - 1];
      match Collect(reader, id, level, anchoringHeight)
      case Failure(e) => Failure(e)
      case Success(found) =>
        if m == 0 && |found| > 0 then Failure(Aborted)
        else
          var anchor := if m < |found| then found[|found| - m].header.height else anchoringHeight;
          WalkLevels(reader, h, m, count - 1, anchor, InsertAll(collected, found))
  }

  method CollectAll(before: seq<PoPowHeader>, levelHeaders: seq<PoPowHeader>) returns (collected: seq<PoPowHeader>)
    ensures collected == InsertAll(before, levelHeaders)
  {
    collected := before;
    for i := 0 to |levelHeaders|
      invariant collected == InsertAll(before, levelHeaders[..i])
    {
      assert levelHeaders[..i + 1][..i] == levelHeaders[..i];
      collected := InsertById(levelHeaders[i], collected);
    }
    assert levelHeaders[..|levelHeaders|] == levelHeaders;
  }

  method ProvePrefix(reader: Reader, initAnchoringHeight: u32, lastHeader: PoPowHeader, m: u32)
    returns (r: Result<seq<PoPowHeader>, NipopowError>)
    requires WalkLevels(reader, lastHeader, m, |LinksWithIndexes(lastHeader)|, initAnchoringHeight, []) != Failure(Diverges)
    ensures r == WalkLevels(reader, lastHeader, m, |LinksWithIndexes(lastHeader)|, initAnchoringHeight, [])
  {
    hide Collect, LinksWithIndexes, InsertAll;
    var collected: seq<PoPowHeader> := [];
    var levels := LinksWithIndexes(lastHeader);
    var anchoringHeight := initAnchoringHeight;
    var count := |levels|;
    while count > 0
      invariant 0 <= count <= |levels|
      invariant WalkLevels(reader, lastHeader, m, |levels|, initAnchoringHeight, [])
                == WalkLevels(reader, lastHeader, m, count, anchoringHeight, collected)
    {
      var (prevHeaderId, levelIdx) := levels[count - 1];
      var found := CollectLevel(reader, prevHeaderId, levelIdx, anchoringHeight);
      if found.Failure? { return Failure(found.error); }
      var levelHeaders := found.value;
      collected := CollectAll(collected, levelHeaders);
      if m < |levelHeaders| {
        if m == 0 { return Failure(Aborted); }
        anchoringHeight := levelHeaders[|levelHeaders| - m].header.height;
      }
      count := count - 1;
    }
    r := Success(collected);
  }

  // ----- The reader-backed prover -----

  const GENESIS_HEIGHT: u32 := 1

  predicate HasHeight(prefix: seq<PoPowHeader>, height: int) {
    exists p :: p in prefix && p.header.height == height
  }

  /** The entries that bring a new height, the height of genesis being stored from the start. */
  function NewHeights(more: seq<PoPowHeader>): seq<PoPowHeader> {
    if more == [] then []
    else
      var init, p := more[..|more| - 1], more[|more| - 1];
      if p.header.height == GENESIS_HEIGHT || HasHeight(init, p.header.height) then NewHeights(init)
      else NewHeights(init) + [p]
  }

  /** Suffix head and tail: rooted at the requested header, or the last `k` headers. */
  function Suffix(reader: Reader, headerId: Option<BlockId>, k: nat): Result<(PoPowHeader, seq<Header>), NipopowError>
    requires k >= 1
  {
    match headerId
    case Some(id) =>
      (match reader.byId(id)
       case None => Failure(MissingPopowHeader)
       case Some(head) => Success((head, reader.bestHeadersAfter(head.header, k - 1))))
    case None =>
      var suffix := reader.lastHeaders(k);
      if suffix == [] then Failure(MissingPopowHeader)
      else
        match reader.byId(suffix[0].id)
        case None => Failure(MissingPopowHeader)
        case Some(head) => Success((head, suffix[1..]))
  }

  /** The proof for a suffix, from what the walk collected in front of it. */
  function FinishWalk(
    genesis: PoPowHeader, collected: Result<seq<PoPowHeader>, NipopowError>, k: u32, m: u32,
    head: PoPowHeader, tail: seq<Header>)
    : Result<NipopowProof, NipopowError>
  {
    match collected
    case Failure(e) => Failure(e)
    case Success(more) => NewProof(m, k, SortByHeight([genesis] + NewHeights(more)), head, tail)
  }

  method AddCollected(genesis: PoPowHeader, collected: seq<PoPowHeader>) returns (prefixBuilder: seq<PoPowHeader>)
    ensures prefixBuilder == [genesis] + NewHeights(collected)
  {
    prefixBuilder := [genesis];
    var storedHeights: set<u32> := {GENESIS_HEIGHT};
    for i := 0 to |collected|
      invariant prefixBuilder == [genesis] + NewHeights(collected[..i])
      invariant forall height :: height in storedHeights
                                 <==> height == GENESIS_HEIGHT || HasHeight(collected[..i], height)
    {
      assert collected[..i + 1][..i] == collected[..i];
      assert collected[..i + 1] == collected[..i] + [collected[i]];
      var ph := collected[i];
      if ph.header.height !in storedHeights {
        storedHeights := storedHeights + {ph.header.height};
        prefixBuilder := prefixBuilder + [ph];
      }
    }
    assert collected[..|collected|] == collected;
  }

  /** What `ProveWithReader` returns on any store and request on which it ends; `Diverges` on the others. */
  ghost function ReaderResult(reader: Reader, headerId: Option<BlockId>, k: u32, m: u32): Result<NipopowProof, NipopowError> {
    if k == 0 then Failure(ZeroKParameter)
    else if k + m > U32_MAX then Failure(Aborted)
    else if reader.headersHeight < k + m then Failure(ChainTooShort)
    else
      match Suffix(reader, headerId, k)
      case Failure(e) => Failure(e)
      case Success((head, tail)) =>
        match reader.atHeight(GENESIS_HEIGHT)
        case None => Failure(MissingPopowHeader)
        case Some(genesis) =>
          var collected := WalkLevels(reader, head, m, |LinksWithIndexes(head)|, GENESIS_HEIGHT, []);
          FinishWalk(genesis, collected, k, m, head, tail)
  }

  method ProveWithReader(reader: Reader, headerId: Option<BlockId>, k: u32, m: u32)
    returns (r: Result<NipopowProof, NipopowError>)
    requires ReaderResult(reader, headerId, k, m) != Failure(Diverges)
    ensures r == ReaderResult(reader, headerId, k, m)
  {
    hide Collect, WalkLevels, LinksWithIndexes, SortByHeight;
    if k == 0 { return Failure(ZeroKParameter); }
    if k + m > U32_MAX { return Failure(Aborted); }
    if reader.headersHeight < k + m { return Failure(ChainTooShort); }
    var suffix := Suffix(reader, headerId, k);
    if suffix.Failure? { return Failure(suffix.error); }
    var (suffixHead, suffixTail) := suffix.value;

    var genesis := reader.atHeight(GENESIS_HEIGHT);
    if genesis.None? { return Failure(MissingPopowHeader); }
    var prefixCollected := ProvePrefix(reader, GENESIS_HEIGHT, suffixHead, m);
    if prefixCollected.Failure? { return Failure(prefixCollected.error); }

    var prefixBuilder := AddCollected(genesis.value, prefixCollected.value);
    r := NewProof(m, k, SortByHeight(prefixBuilder), suffixHead, suffixTail);
  }

  // ----- What the two accumulators hold -----

  predicate OrderedById(s: seq<PoPowHeader>) {
    forall i, j :: 0 <= i < j < |s| ==> s[i].header.id.digest < s[j].header.id.digest
  }

  lemma OrderedAppend(s: seq<PoPowHeader>, x: PoPowHeader)
    requires OrderedById(s) && forall y :: y in s ==> y.header.id.digest < x.header.id.digest
    ensures OrderedById(s + [x])
  {
    assert forall i :: 0 <= i < |s| ==> s[i] in s;
  }

  lemma OrderedInit(s: seq<PoPowHeader>)
    requires OrderedById(s) && s != []
    ensures OrderedById(s[..|s| - 1])
    ensures forall y :: y in s[..|s| - 1] ==> y.header.id.digest < s[|s| - 1].header.id.digest
  {
  }

  /** Inserting replaces the entry with the same id, keeps all others and the order. */
  lemma {:induction false} InsertByIdReplaces(p: PoPowHeader, s: seq<PoPowHeader>)
    requires OrderedById(s)
    ensures OrderedById(InsertById(p, s))
    ensures forall x :: x in InsertById(p, s) <==> x == p || (x in s && x.header.id != p.header.id)
  {
    if s != [] {
      OrderedInit(s);
      hide OrderedById;
      var init, last := s[..|s| - 1], s[|s| - 1];
      assert s == init + [last];
      if p.header.id.digest < last.header.id.digest {
        InsertByIdReplaces(p, init);
        OrderedAppend(InsertById(p, init), last);
      } else if p.header.id == last.header.id {
        OrderedAppend(init, p);
      } else {
        OrderedAppend(s, p);
      }
    }
  }

  /** Entry `i` is the first of its height, and that is not the height of genesis. */
  predicate BringsNewHeight(more: seq<PoPowHeader>, i: nat) {
    && i < |more| && more[i].header.height != 1
    && forall j :: 0 <= j < i ==> more[j].header.height != more[i].header.height
  }

  /** Exactly the entries that bring a new height are kept, and no two of them have the same. */
  lemma {:induction false} NewHeightsAre(more: seq<PoPowHeader>)
    ensures forall p :: p in NewHeights(more) <==> exists i: nat :: BringsNewHeight(more, i) && more[i] == p
    ensures forall i, j :: 0 <= i < j < |NewHeights(more)|
                           ==> NewHeights(more)[i].header.height != NewHeights(more)[j].header.height
  {
    if more != [] {
      var n := |more| - 1;
      var init, last := more[..n], more[n];
      assert more == init + [last];
      NewHeightsAre(init);
      NewHeightsStep(more);
      hide NewHeights;
      forall p | p in NewHeights(init) && BringsNewHeight(more, n)
        ensures p.header.height != last.header.height
      {
        var i: nat :| BringsNewHeight(init, i) && init[i] == p;
      }
      forall p
        ensures p in NewHeights(more) <==> exists i: nat :: BringsNewHeight(more, i) && more[i] == p
      {
        if i: nat :| BringsNewHeight(init, i) && init[i] == p {
          assert BringsNewHeight(more, i) && more[i] == p;
        }
        if i: nat :| BringsNewHeight(more, i) && more[i] == p {
          assert i < n ==> BringsNewHeight(init, i) && init[i] == p;
        }
      }
    }
  }

  lemma HasHeightAt(s: seq<PoPowHeader>, height: int)
    ensures HasHeight(s, height) <==> exists j :: 0 <= j < |s| && s[j].header.height == height
  {
    if j :| 0 <= j < |s| && s[j].header.height == height {
      assert s[j] in s;
    }
  }

  lemma NewHeightsStep(more: seq<PoPowHeader>)
    requires more != []
    ensures
      var n := |more| - 1;
      NewHeights(more) == NewHeights(more[..n]) + if BringsNewHeight(more, n) then [more[n]] else []
  {
    hide HasHeight;
    var n := |more| - 1;
    var init := more[..n];
    HasHeightAt(init, more[n].header.height);
    assert forall j :: 0 <= j < n ==> init[j] == more[j];
    assert BringsNewHeight(more, n)
           <==> more[n].header.height != GENESIS_HEIGHT && !HasHeight(init, more[n].header.height);
    hide BringsNewHeight;
    assert NewHeights(init) + [] == NewHeights(init);
  }

  // ----- When it is refused, and what the suffix is -----

  /** Head and tail of the suffix are what the store gives for the request. */
  ghost predicate IsSuffix(reader: Reader, headerId: Option<BlockId>, k: u32, head: PoPowHeader, tail: seq<Header>) {
    match headerId
    case Some(id) => k >= 1 && reader.byId(id) == Some(head) && tail == reader.bestHeadersAfter(head.header, k - 1)
    case None =>
      && |reader.lastHeaders(k)| >= 1
      && reader.byId(reader.lastHeaders(k)[0].id) == Some(head) && tail == reader.lastHeaders(k)[1..]
  }

  /**
   * On every store and request: the errors that come before the walk, each exactly when its condition holds, and what a
   * proof carries besides the prefix.
   */
  lemma ReaderOutcome(reader: Reader, headerId: Option<BlockId>, k: u32, m: u32)
    ensures
      var r := ReaderResult(reader, headerId, k, m);
      && (r == Failure(ZeroKParameter) <==> k == 0)
      && (r == Failure(ChainTooShort) <==> k >= 1 && k + m <= U32_MAX && reader.headersHeight < k + m)
      && (k >= 1 && k + m > U32_MAX ==> r == Failure(Aborted))
      && (&& k >= 1 && k + m <= reader.headersHeight
          && (reader.atHeight(1).None? || forall head, tail :: !IsSuffix(reader, headerId, k, head, tail))
          ==> r == Failure(MissingPopowHeader))
      && (r.Success?
          ==> && 1 <= k && 1 <= m && k + m <= reader.headersHeight && reader.atHeight(1).Some?
              && r.value.k == k && r.value.m == m && r.value.useLastEpochs == 8
              && IsSuffix(reader, headerId, k, r.value.suffixHead, r.value.suffixTail))
  {
    hide Collect, LinksWithIndexes, SortByHeight, InsertAll;
    if k >= 1 && k + m <= reader.headersHeight {
      match Suffix(reader, headerId, k)
      case Failure(_) =>
      case Success((head, tail)) =>
        assert IsSuffix(reader, headerId, k, head, tail);
        WalkErrors(reader, head, m, |LinksWithIndexes(head)|, GENESIS_HEIGHT, []);
    }
  }

  lemma {:induction false} CollectErrors(reader: Reader, id: BlockId, level: nat, anchoringHeight: int, n: nat)
    ensures
      var r := CollectWithin(reader, id, level, anchoringHeight, n);
      r.Failure? ==> r.error in {MissingPopowHeader, Diverges}
    decreases n
  {
    hide PreviousHeaderIdAtLevel;
    if n > 0 && reader.byId(id).Some? {
      var next := PreviousHeaderIdAtLevel(level, reader.byId(id).value);
      if next.Some? {
        CollectErrors(reader, next.value, level, anchoringHeight, n - 1);
      }
    }
  }

  lemma {:induction false} WalkErrors(
    reader: Reader, h: PoPowHeader, m: nat, count: nat, anchoringHeight: int, collected: seq<PoPowHeader>)
    requires count <= |LinksWithIndexes(h)|
    ensures
      var r := WalkLevels(reader, h, m, count, anchoringHeight, collected);
      r.Failure? ==> r.error in {MissingPopowHeader, Diverges, Aborted}
    decreases count
  {
    hide LinksWithIndexes, CollectWithin, InsertAll;
    if count > 0 {
      var (id, level) := LinksWithIndexes(h)[count - 1];
      var found := Collect(reader, id, level, anchoringHeight);
      if n: nat :| EndsWithin(reader, id, level, anchoringHeight, n) {
        CollectIs(reader, id, level, anchoringHeight, n);
        CollectErrors(reader, id, level, anchoringHeight, n);
      }
      hide Collect;
      if found.Success? && !(m == 0 && |found.value| > 0) {
        var anchor := if m < |found.value| then found.value[|found.value| - m].header.height else anchoringHeight;
        WalkErrors(reader, h, m, count - 1, anchor, InsertAll(collected, found.value));
      }
    }
  }
}
