/** Validity of whole proofs and the comparison between them. */
module NipopowComparison {
  import opened Wrappers
  import opened ChainTypes
  import opened MerkleTypes
  import opened Interlinks
  import opened InterlinkProofs
  import opened NipopowProofs
  import opened NipopowProver
  import opened NipopowReader
  import opened ProverEquivalence
  import opened NipopowScoring

  // ----- Validity -----

  predicate HasValidProofs(H: Hash, p: NipopowProof) {
    && InterlinksProofValid(H, p.suffixHead)
    && forall i :: 0 <= i < |p.prefix| ==> InterlinksProofValid(H, p.prefix[i])
  }

  predicate IsValid(H: Hash, p: NipopowProof) {
    HasValidParams(p) && HasValidConnections(p) && HasValidHeights(p) && HasValidProofs(H, p)
  }

  /** Every block of the chain comes with the Merkle proof of its interlink fields. */
  ghost predicate ProofsIncluded(H: Hash, c: seq<PoPowHeader>) {
    forall t :: 0 <= t < |c| ==> CarriesOwnProof(H, c[t])
  }

  lemma SelectionProofsAreValid(H: Hash, c: seq<PoPowHeader>, n: nat, m: u32, k: u32, kept: set<nat>)
    requires ProofsIncluded(H, c) && 1 <= k && n < |c|
    ensures HasValidProofs(H, ProofOf(c, n, m, k, kept))
  {
    hide InterlinksProofValid, CarriesOwnProof;
    var pos := Ascending(kept, n);
    forall t | 0 <= t < |c|
      ensures InterlinksProofValid(H, c[t])
    {
      OwnProofsAccepted(H, c[t]);
    }
  }

  lemma SelectionIsValid(H: Hash, p: NipopowProof, c: seq<PoPowHeader>, n: nat, m: u32, k: u32, kept: set<nat>)
    requires ProofsIncluded(H, c) && 1 <= k && n < |c| && m >= 1 && k + m <= I32_MAX
    requires p == ProofOf(c, n, m, k, kept)
    requires HasValidConnections(p.(useLastEpochs := DEFAULT_USE_LAST_EPOCHS)) && HasValidHeights(p)
    requires |p.prefix| >= 1 && p.prefix[0] == c[0]
    ensures IsValid(H, p) && HeadersChain(p)[0] == c[0].header
  {
    hide HasValidConnections, HasValidHeights, HasValidProofs, ProofsIncluded;
    assert p.(useLastEpochs := DEFAULT_USE_LAST_EPOCHS) == p;
    SelectionProofsAreValid(H, c, n, m, k, kept);
  }

  /** What the chain-scanning prover builds from a well-formed chain with its Merkle proofs is valid. */
  lemma ProvedIsValid(H: Hash, c: seq<PoPowHeader>, k: u32, m: u32)
    requires Provable(c, k, m) && ProofsIncluded(H, c) && k + m <= I32_MAX
    ensures ProveResult(c, k, m).Success?
    ensures IsValid(H, ProveResult(c, k, m).value)
    ensures HeadersChain(ProveResult(c, k, m).value)[0] == c[0].header
  {
    hide HasValidConnections, HasValidHeights, IsValid, ProveResult, Scanned, WellFormed, NamesPrevious, ProofOf, HeadersChain;
    ProveIsAccepted(c, k, m, DEFAULT_USE_LAST_EPOCHS);
    ProveSelects(c, k, m);
    SelectionIsValid(H, ProveResult(c, k, m).value, c, |c| - k, m, k, Scanned(c, |c| - k, m));
  }

  /** And so is what the reader-backed prover builds in front of any non-genesis suffix head. */
  lemma WalkedIsValid(H: Hash, reader: Reader, c: seq<PoPowHeader>, headerId: Option<BlockId>, n: nat, k: u32, m: u32)
    requires Walkable(reader, c, k, m) && AsksFor(c, headerId, k, n) && n >= 1
    requires ProofsIncluded(H, c) && k + m <= I32_MAX
    ensures ReaderResult(reader, headerId, k, m).Success?
    ensures IsValid(H, ReaderResult(reader, headerId, k, m).value)
    ensures HeadersChain(ReaderResult(reader, headerId, k, m).value)[0] == c[0].header
  {
    hide HasValidConnections, HasValidHeights, IsValid, ReaderResult, Walked, WellFormed, ExposesBlock, NamesPrevious, ProofOf, HeadersChain;
    ReaderIsAccepted(reader, c, headerId, n, k, m, DEFAULT_USE_LAST_EPOCHS);
    ReaderSelects(reader, c, headerId, n, k, m);
    SelectionIsValid(H, ReaderResult(reader, headerId, k, m).value, c, n, m, k, Walked(c, n, m));
  }

  /** What a valid proof is: one ascending chain of headers whose suffix is linked by parent ids. */
  lemma ValidIsAChain(H: Hash, p: NipopowProof, i: nat, j: nat)
    requires IsValid(H, p) && i < j < |HeadersChain(p)|
    ensures HeadersChain(p)[i].height < HeadersChain(p)[j].height && HeadersChain(p)[i] != HeadersChain(p)[j]
    ensures i >= |p.prefix| && j == i + 1 ==> HeadersChain(p)[j].parentId == HeadersChain(p)[i].id
  {
    hide HasValidParams, HasValidProofs, ConnectsBack;
    IncreasingPairs(HeadersChain(p), i, j);
    var suffix := [p.suffixHead.header] + p.suffixTail;
    if i >= |p.prefix| && j == i + 1 {
      assert HeadersChain(p)[i] == suffix[i - |p.prefix|] && HeadersChain(p)[j] == suffix[j - |p.prefix|];
    }
  }

  // ----- Comparison -----

  /** The headers above height `h`. */
  function HeadersAbove(chain: seq<Header>, h: u32): (above: seq<Header>)
    ensures forall x :: x in above <==> x in chain && x.height > h
  {
    if chain == [] then []
    else
      var init, last := chain[..|chain| - 1], chain[|chain| - 1];
      assert chain == init + [last];
      if last.height > h then HeadersAbove(init, h) + [last] else HeadersAbove(init, h)
  }

  function Greater(a: Result<nat, NipopowError>, b: Result<nat, NipopowError>): Result<bool, NipopowError> {
    match a
    case Failure(e) => Failure(e)
    case Success(x) =>
      match b
      case Failure(e) => Failure(e)
      case Success(y) => Success(x > y)
  }

  function IsBetterThan(H: Hash, one: NipopowProof, that: NipopowProof): Result<bool, NipopowError> {
    if IsValid(H, one) && IsValid(H, that) then
      match Lca(HeadersChain(one), HeadersChain(that))
      case None => Success(false)
      case Some(lca) =>
        Greater(
          BestArgResult(HeadersAbove(HeadersChain(one), lca.height), one.m),
          BestArgResult(HeadersAbove(HeadersChain(that), lca.height), one.m))
    else Success(IsValid(H, one))
  }

  lemma {:induction false} NothingAbove(chain: seq<Header>, h: u32)
    requires forall x :: x in chain ==> x.height <= h
    ensures HeadersAbove(chain, h) == []
  {
    if chain != [] {
      assert chain[|chain| - 1] in chain;
      NothingAbove(chain[..|chain| - 1], h);
    }
  }

  lemma LastIsHighest(chain: seq<Header>, x: Header)
    requires Increasing(chain) && x in chain
    ensures x.height <= chain[|chain| - 1].height
  {
    hide Increasing;
    var t :| 0 <= t < |chain| && chain[t] == x;
    if t < |chain| - 1 {
      IncreasingPairs(chain, t, |chain| - 1);
    }
  }

  lemma NothingAboveLast(chain: seq<Header>)
    requires Increasing(chain) && chain != []
    ensures HeadersAbove(chain, chain[|chain| - 1].height) == []
  {
    hide Increasing, HeadersAbove;
    forall x | x in chain
      ensures x.height <= chain[|chain| - 1].height
    {
      LastIsHighest(chain, x);
    }
    NothingAbove(chain, chain[|chain| - 1].height);
  }

  lemma AboveLast(chain: seq<Header>, h: u32)
    requires chain != [] && chain[|chain| - 1].height > h
    ensures HeadersAbove(chain, h) == HeadersAbove(chain[..|chain| - 1], h) + [chain[|chain| - 1]]
  {
  }

  lemma IncreasingInit(chain: seq<Header>)
    requires Increasing(chain) && chain != []
    ensures Increasing(chain[..|chain| - 1])
  {
  }

  /** On an increasing chain the headers above one of them are those after it. */
  lemma {:induction false} AboveIsAfter(chain: seq<Header>, i: nat)
    requires Increasing(chain) && i < |chain|
    ensures HeadersAbove(chain, chain[i].height) == chain[i + 1..]
  {
    hide *;
    if i == |chain| - 1 {
      NothingAboveLast(chain);
    } else {
      var init, last := chain[..|chain| - 1], chain[|chain| - 1];
      IncreasingInit(chain);
      AboveIsAfter(init, i);
      IncreasingPairs(chain, i, |chain| - 1);
      AboveLast(chain, chain[i].height);
      assert chain[i + 1..] == init[i + 1..] + [last];
    }
  }

  /** The highest common header of two chains stands at `i` in one and at `j` in the other. */
  ghost predicate PartAfter(a: seq<Header>, b: seq<Header>, i: nat, j: nat) {
    i < |a| && j < |b| && a[i] == b[j] && IsHighestCommon(a, b, a[i])
  }

  /** Every level is known and no argument's score exceeds a machine word. */
  ghost predicate Scorable(chain: seq<Header>, m: nat) {
    (forall h :: h in chain ==> LevelKnown(h)) && ScoresFit(chain, m, 1)
  }

  /** Past the highest common header both chains can be scored, and `a` has the better argument. */
  ghost predicate Outweighs(a: seq<Header>, b: seq<Header>, m: nat, i: nat, j: nat, v: nat, w: nat) {
    && PartAfter(a, b, i, j)
    && Scorable(a[i + 1..], m) && Scorable(b[j + 1..], m)
    && IsBestArgument(a[i + 1..], m, v) && IsBestArgument(b[j + 1..], m, w)
    && v > w
  }

  /** The score is the best argument, where there is one. */
  lemma ScoreIsBestArgument(chain: seq<Header>, m: nat, v: nat)
    ensures BestArgResult(chain, m).Success? <==> Scorable(chain, m)
    ensures BestArgResult(chain, m) == Success(v) <==> Scorable(chain, m) && IsBestArgument(chain, m, v)
  {
    hide BestArgResult, ScoresFit, IsArgument, Score;
    BestArgSucceedsIff(chain, m);
    if Scorable(chain, m) {
      BestArgIsMaximum(chain, m);
    }
  }

  lemma {:induction false} ValidChain(H: Hash, p: NipopowProof)
    requires IsValid(H, p)
    ensures HeadersChain(p) != [] && Increasing(HeadersChain(p))
  {
    hide HasValidParams, HasValidConnections, HasValidProofs;
  }

  /** Two valid proofs with the same head are compared by what follows their highest common header. */
  lemma ComparedAfterParting(H: Hash, one: NipopowProof, that: NipopowProof, i: nat, j: nat)
    requires IsValid(H, one) && IsValid(H, that) && HeadersChain(one)[0] == HeadersChain(that)[0]
    requires PartAfter(HeadersChain(one), HeadersChain(that), i, j)
    ensures
      IsBetterThan(H, one, that)
      == Greater(BestArgResult(HeadersChain(one)[i + 1..], one.m), BestArgResult(HeadersChain(that)[j + 1..], one.m))
  {
    hide IsValid, HeadersAbove, BestArgResult, Lca, IsHighestCommon, Increasing, HeadersChain;
    var a, b := HeadersChain(one), HeadersChain(that);
    ValidChain(H, one);
    ValidChain(H, that);
    LcaIsHighestCommon(a, b);
    HighestCommonUnique(a, b, a[i], Lca(a, b).value);
    AboveIsAfter(a, i);
    AboveIsAfter(b, j);
  }

  lemma PartingExists(H: Hash, one: NipopowProof, that: NipopowProof) returns (i: nat, j: nat)
    requires IsValid(H, one) && IsValid(H, that) && HeadersChain(one)[0] == HeadersChain(that)[0]
    ensures PartAfter(HeadersChain(one), HeadersChain(that), i, j)
  {
    hide IsValid, Lca, Increasing, HeadersChain;
    var a, b := HeadersChain(one), HeadersChain(that);
    ValidChain(H, one);
    ValidChain(H, that);
    LcaIsHighestCommon(a, b);
    i :| 0 <= i < |a| && a[i] == Lca(a, b).value;
    j :| 0 <= j < |b| && b[j] == Lca(a, b).value;
  }

  /** Proofs with different heads are not better than one another. */
  lemma DifferentHeadsCompare(H: Hash, one: NipopowProof, that: NipopowProof)
    requires IsValid(H, one) && IsValid(H, that) && HeadersChain(one)[0] != HeadersChain(that)[0]
    ensures IsBetterThan(H, one, that) == Success(false)
  {
    hide IsValid, HeadersAbove, BestArgResult, HeadersChain;
    ValidChain(H, one);
    ValidChain(H, that);
    DifferentHeads(HeadersChain(one), HeadersChain(that));
  }

  lemma DifferentHeads(a: seq<Header>, b: seq<Header>)
    requires a != [] && b != [] && a[0] != b[0]
    ensures Lca(a, b) == None
  {
  }

  lemma InvalidIsBeaten(H: Hash, one: NipopowProof, that: NipopowProof)
    requires !IsValid(H, one) || !IsValid(H, that)
    ensures IsBetterThan(H, one, that) == Success(IsValid(H, one))
  {
    hide IsValid;
  }

  /**
   * When one proof is better than another, for all proofs: it is valid, and the other is not, or both have the same
   * head and its best argument past their highest common header is the larger one.
   */
  lemma BetterIff(H: Hash, one: NipopowProof, that: NipopowProof)
    ensures
      IsBetterThan(H, one, that) == Success(true)
      <==> && IsValid(H, one)
           && (IsValid(H, that)
               ==> && HeadersChain(one)[0] == HeadersChain(that)[0]
                   && exists i: nat, j: nat, v: nat, w: nat ::
                        Outweighs(HeadersChain(one), HeadersChain(that), one.m, i, j, v, w))
  {
    hide IsValid, IsBetterThan, BestArgResult, HeadersChain, PartAfter, Scorable, IsBestArgument;
    var a, b, m := HeadersChain(one), HeadersChain(that), one.m;
    if !IsValid(H, one) || !IsValid(H, that) {
      InvalidIsBeaten(H, one, that);
    } else if a[0] != b[0] {
      DifferentHeadsCompare(H, one, that);
    } else {
      if IsBetterThan(H, one, that) == Success(true) {
        var i, j := PartingExists(H, one, that);
        ComparedAfterParting(H, one, that, i, j);
        PartLengths(a, b, i, j);
        var v, w := BestArgResult(a[i + 1..], m).value, BestArgResult(b[j + 1..], m).value;
        ScoreIsBestArgument(a[i + 1..], m, v);
        ScoreIsBestArgument(b[j + 1..], m, w);
        assert Outweighs(a, b, m, i, j, v, w);
      }
      if i: nat, j: nat, v: nat, w: nat :| Outweighs(a, b, m, i, j, v, w) {
        ComparedAfterParting(H, one, that, i, j);
        PartLengths(a, b, i, j);
        ScoreIsBestArgument(a[i + 1..], m, v);
        ScoreIsBestArgument(b[j + 1..], m, w);
      }
    }
  }

  lemma PartLengths(a: seq<Header>, b: seq<Header>, i: nat, j: nat)
    requires PartAfter(a, b, i, j)
    ensures i < |a| && j < |b|
  {
  }

  /** Past the highest common header one of two chains cannot be scored. */
  ghost predicate NotScorable(a: seq<Header>, b: seq<Header>, m: nat, i: nat, j: nat) {
    PartAfter(a, b, i, j) && !(Scorable(a[i + 1..], m) && Scorable(b[j + 1..], m))
  }

  /** When the comparison fails: both proofs are valid with the same head, and a part past the common one has no score. */
  lemma ComparisonFailsIff(H: Hash, one: NipopowProof, that: NipopowProof)
    ensures
      IsBetterThan(H, one, that).Failure?
      <==> && IsValid(H, one) && IsValid(H, that) && HeadersChain(one)[0] == HeadersChain(that)[0]
           && exists i: nat, j: nat :: NotScorable(HeadersChain(one), HeadersChain(that), one.m, i, j)
  {
    hide IsValid, IsBetterThan, BestArgResult, HeadersChain, PartAfter, Scorable, IsBestArgument;
    var a, b, m := HeadersChain(one), HeadersChain(that), one.m;
    if !IsValid(H, one) || !IsValid(H, that) {
      InvalidIsBeaten(H, one, that);
    } else if a[0] != b[0] {
      DifferentHeadsCompare(H, one, that);
    } else {
      if IsBetterThan(H, one, that).Failure? {
        var i, j := PartingExists(H, one, that);
        FailsWhenNotScorable(H, one, that, i, j);
      }
      if i: nat, j: nat :| NotScorable(a, b, m, i, j) {
        FailsWhenNotScorable(H, one, that, i, j);
      }
    }
  }

  lemma FailsWhenNotScorable(H: Hash, one: NipopowProof, that: NipopowProof, i: nat, j: nat)
    requires IsValid(H, one) && IsValid(H, that) && HeadersChain(one)[0] == HeadersChain(that)[0]
    requires PartAfter(HeadersChain(one), HeadersChain(that), i, j)
    ensures IsBetterThan(H, one, that).Failure? <==> NotScorable(HeadersChain(one), HeadersChain(that), one.m, i, j)
  {
    hide IsValid, IsBetterThan, BestArgResult, HeadersChain, Scorable, IsBestArgument, IsHighestCommon;
    ComparedAfterParting(H, one, that, i, j);
    ScoreIsBestArgument(HeadersChain(one)[i + 1..], one.m, 0);
    ScoreIsBestArgument(HeadersChain(that)[j + 1..], one.m, 0);
  }

  /** The error is that of the first chain without a score: an unknown level if it has one, else a score out of range. */
  lemma ComparisonError(H: Hash, one: NipopowProof, that: NipopowProof, i: nat, j: nat)
    requires IsValid(H, one) && IsValid(H, that) && HeadersChain(one)[0] == HeadersChain(that)[0]
    requires NotScorable(HeadersChain(one), HeadersChain(that), one.m, i, j)
    ensures
      var mine, other := HeadersChain(one)[i + 1..], HeadersChain(that)[j + 1..];
      var unscored := if Scorable(mine, one.m) then other else mine;
      IsBetterThan(H, one, that)
      == Failure(if forall h :: h in unscored ==> LevelKnown(h) then Aborted else AutolykosPowSchemeError)
  {
    hide IsValid, IsBetterThan, HeadersChain, IsBestArgument, IsHighestCommon, BestFrom, LevelKnown, ScoresFit;
    var mine, other := HeadersChain(one)[i + 1..], HeadersChain(that)[j + 1..];
    ComparedAfterParting(H, one, that, i, j);
    BestArgSucceedsIff(mine, one.m);
    BestArgSucceedsIff(other, one.m);
    BestFromSucceedsIff(mine, one.m, 1, |mine|);
    BestFromSucceedsIff(other, one.m, 1, |other|);
  }

  /** No proof, valid or not, is better than itself, and the comparison never fails. */
  lemma BetterIsIrreflexive(H: Hash, p: NipopowProof)
    ensures IsBetterThan(H, p, p) == Success(false)
  {
    hide HasValidParams, HasValidConnections, HasValidProofs, HeadersAbove, BestArgResult, Lca, Increasing;
    if IsValid(H, p) {
      var c := HeadersChain(p);
      LcaIsHighestCommon(c, c);
      NothingAbove(c, Lca(c, c).value.height);
      BestArgOfNothing(p.m);
    }
  }

  /** For proofs with the same `m`: if one is better, the other is not. */
  lemma BetterIsAsymmetric(H: Hash, p: NipopowProof, q: NipopowProof)
    requires p.m == q.m && IsBetterThan(H, p, q) == Success(true)
    ensures IsBetterThan(H, q, p) == Success(false)
  {
    hide HasValidParams, HasValidConnections, HasValidProofs, HeadersAbove, BestArgResult, Lca, Increasing;
    if IsValid(H, p) && IsValid(H, q) {
      LcaSymmetric(HeadersChain(p), HeadersChain(q));
    }
  }
}
