/** The verifier: it keeps the best proof seen so far for one genesis block. */
module NipopowVerification {
  import opened Wrappers
  import opened ChainTypes
  import opened MerkleTypes
  import opened Interlinks
  import opened NipopowProofs
  import opened NipopowProver
  import opened Division
  import opened Counting
  import opened NipopowScoring
  import opened NipopowComparison
  import opened ComparisonWitnesses

  predicate RootedAt(p: NipopowProof, genesis: BlockId) {
    HeadersChain(p)[0].id == genesis
  }

  /** The stored proof and the outcome after one call. */
  function Processed(H: Hash, genesis: BlockId, best: Option<NipopowProof>, newProof: NipopowProof)
    : (Option<NipopowProof>, Result<(), NipopowError>)
  {
    if !RootedAt(newProof, genesis) then (best, Success(()))
    else
      match best
      case None => (if IsValid(H, newProof) then Some(newProof) else None, Success(()))
      case Some(p) =>
        match IsBetterThan(H, newProof, p)
        case Failure(e) => (best, Failure(e))
        case Success(better) => (if better then Some(newProof) else best, Success(()))
  }

  class NipopowVerifier {
    var bestProof: Option<NipopowProof>
    const genesisBlockId: BlockId

    constructor (genesisBlockId: BlockId)
      ensures bestProof == None && this.genesisBlockId == genesisBlockId
    {
      bestProof := None;
      this.genesisBlockId := genesisBlockId;
    }

    method Process(H: Hash, newProof: NipopowProof) returns (r: Result<(), NipopowError>)
      modifies this`bestProof
      ensures (bestProof, r) == Processed(H, genesisBlockId, old(bestProof), newProof)
      ensures HeadersChain(newProof)[0].id != genesisBlockId ==> bestProof == old(bestProof) && r == Success(())
      ensures HeadersChain(newProof)[0].id == genesisBlockId && old(bestProof).None?
              ==> bestProof == (if IsValid(H, newProof) then Some(newProof) else None) && r == Success(())
      ensures HeadersChain(newProof)[0].id == genesisBlockId && old(bestProof).Some?
              ==> var better := IsBetterThan(H, newProof, old(bestProof).value);
                  && bestProof == (if better == Success(true) then Some(newProof) else old(bestProof))
                  && r == (if better.Failure? then Failure(better.error) else Success(()))
    {
      r := Success(());
      var h := HeadersChain(newProof)[0];
      if h.id == genesisBlockId {
        match bestProof {
          case Some(p) =>
            var better := IsBetterThan(H, newProof, p);
            if better.Failure? { return Failure(better.error); }
            if better.value {
              bestProof := Some(newProof);
            }
          case None =>
            if IsValid(H, newProof) {
              bestProof := Some(newProof);
            }
        }
      }
    }
  }

  // ----- Runs -----

  /** What a new verifier holds after a run of calls. */
  function After(H: Hash, genesis: BlockId, run: seq<NipopowProof>): Option<NipopowProof> {
    if run == [] then None
    else Processed(H, genesis, After(H, genesis, run[..|run| - 1]), run[|run| - 1]).0
  }

  lemma AfterOneMore(H: Hash, genesis: BlockId, run: seq<NipopowProof>, p: NipopowProof)
    ensures After(H, genesis, run + [p]) == Processed(H, genesis, After(H, genesis, run), p).0
  {
    assert (run + [p])[..|run|] == run;
  }

  /** The outcome of the last call of a run. */
  function LastOutcome(H: Hash, genesis: BlockId, run: seq<NipopowProof>): Result<(), NipopowError>
    requires run != []
  {
    Processed(H, genesis, After(H, genesis, run[..|run| - 1]), run[|run| - 1]).1
  }

  lemma OutcomeOfOneMore(H: Hash, genesis: BlockId, run: seq<NipopowProof>, p: NipopowProof)
    ensures LastOutcome(H, genesis, run + [p]) == Processed(H, genesis, After(H, genesis, run), p).1
  {
    assert (run + [p])[..|run|] == run;
  }

  ghost predicate Acceptable(H: Hash, genesis: BlockId, p: NipopowProof) {
    IsValid(H, p) && RootedAt(p, genesis)
  }

  lemma BetterIsValid(H: Hash, p: NipopowProof, q: NipopowProof)
    requires IsBetterThan(H, p, q) == Success(true)
    ensures IsValid(H, p)
  {
  }

  /** After any run the stored proof is one of those given, valid and rooted at the genesis block. */
  lemma {:induction false} StoredIsAcceptable(H: Hash, genesis: BlockId, run: seq<NipopowProof>)
    ensures
      match After(H, genesis, run)
      case None => true
      case Some(p) => p in run && IsValid(H, p) && HeadersChain(p)[0].id == genesis
  {
    hide IsValid, IsBetterThan, HeadersChain;
    if run != [] {
      var init, last := run[..|run| - 1], run[|run| - 1];
      StoredIsAcceptable(H, genesis, init);
      var best := After(H, genesis, init);
      assert last in run;
      if best.Some? && IsBetterThan(H, last, best.value) == Success(true) {
        BetterIsValid(H, last, best.value);
      }
    }
  }

  /** A proof is stored exactly when a valid one with the genesis id was given; once there is one, there always is. */
  lemma {:induction false} StoredIff(H: Hash, genesis: BlockId, run: seq<NipopowProof>)
    ensures After(H, genesis, run).Some?
            <==> exists p :: p in run && IsValid(H, p) && HeadersChain(p)[0].id == genesis
  {
    hide IsValid, IsBetterThan, HeadersChain;
    if run != [] {
      var init, last := run[..|run| - 1], run[|run| - 1];
      assert run == init + [last];
      StoredIff(H, genesis, init);
      StoredIsAcceptable(H, genesis, run);
    }
  }

  /** A proof with another first id changes nothing, and the call succeeds. */
  lemma ForeignIsIgnored(H: Hash, genesis: BlockId, run: seq<NipopowProof>, p: NipopowProof)
    requires HeadersChain(p)[0].id != genesis
    ensures After(H, genesis, run + [p]) == After(H, genesis, run)
    ensures LastOutcome(H, genesis, run + [p]) == Success(())
  {
    hide IsValid, IsBetterThan, HeadersChain;
    AfterOneMore(H, genesis, run, p);
    OutcomeOfOneMore(H, genesis, run, p);
  }

  /** The proofs of a run that start with the genesis id. */
  function OfGenesis(genesis: BlockId, run: seq<NipopowProof>): seq<NipopowProof> {
    if run == [] then []
    else
      var init, last := run[..|run| - 1], run[|run| - 1];
      if HeadersChain(last)[0].id == genesis then OfGenesis(genesis, init) + [last] else OfGenesis(genesis, init)
  }

  /** So a verifier holds what it would hold had the others never been given. */
  lemma {:induction false} OnlyOwnProofsCount(H: Hash, genesis: BlockId, run: seq<NipopowProof>)
    ensures After(H, genesis, run) == After(H, genesis, OfGenesis(genesis, run))
  {
    hide After, HeadersChain;
    if run != [] {
      var init, last := run[..|run| - 1], run[|run| - 1];
      assert run == init + [last];
      OnlyOwnProofsCount(H, genesis, init);
      AfterOneMore(H, genesis, init, last);
      if HeadersChain(last)[0].id == genesis {
        AfterOneMore(H, genesis, OfGenesis(genesis, init), last);
      } else {
        ForeignIsIgnored(H, genesis, init, last);
      }
    }
  }

  /** While nothing is stored, the next proof is, exactly when it is valid and starts with the genesis id. */
  lemma FirstStoredIff(H: Hash, genesis: BlockId, run: seq<NipopowProof>, p: NipopowProof)
    requires After(H, genesis, run).None?
    ensures After(H, genesis, run + [p])
            == if IsValid(H, p) && HeadersChain(p)[0].id == genesis then Some(p) else None
    ensures LastOutcome(H, genesis, run + [p]) == Success(())
  {
    hide IsValid, IsBetterThan, HeadersChain;
    AfterOneMore(H, genesis, run, p);
    OutcomeOfOneMore(H, genesis, run, p);
  }

  /** After that, exactly when it starts with the genesis id and is better; the call fails if the comparison does. */
  lemma ReplacedIff(H: Hash, genesis: BlockId, run: seq<NipopowProof>, p: NipopowProof, q: NipopowProof)
    requires After(H, genesis, run) == Some(q)
    ensures
      var compared := HeadersChain(p)[0].id == genesis;
      && After(H, genesis, run + [p]) == Some(if compared && IsBetterThan(H, p, q) == Success(true) then p else q)
      && LastOutcome(H, genesis, run + [p])
         == if compared && IsBetterThan(H, p, q).Failure? then Failure(IsBetterThan(H, p, q).error) else Success(())
  {
    hide IsValid, IsBetterThan, HeadersChain;
    AfterOneMore(H, genesis, run, p);
    OutcomeOfOneMore(H, genesis, run, p);
  }

  lemma NeverAbsentAgain(H: Hash, genesis: BlockId, run: seq<NipopowProof>, more: seq<NipopowProof>)
    requires After(H, genesis, run).Some?
    ensures After(H, genesis, run + more).Some?
  {
    hide After, Acceptable;
    StoredIff(H, genesis, run);
    StoredIff(H, genesis, run + more);
  }

  /** A call either changes nothing or stores its own proof, and then for a reason. */
  lemma ReplacedOnlyByBetter(H: Hash, genesis: BlockId, run: seq<NipopowProof>, p: NipopowProof)
    ensures
      var before, after := After(H, genesis, run), After(H, genesis, run + [p]);
      after == before ||
      (after == Some(p) && Acceptable(H, genesis, p) && match before
                                                         case None => true
                                                         case Some(q) => IsBetterThan(H, p, q) == Success(true))
  {
    hide IsValid, IsBetterThan, RootedAt;
    AfterOneMore(H, genesis, run, p);
    var best := After(H, genesis, run);
    if best.Some? && IsBetterThan(H, p, best.value) == Success(true) {
      BetterIsValid(H, p, best.value);
    }
  }

  /** A proof that is invalid, rooted elsewhere or not comparable leaves the verifier as it was. */
  lemma UnfitIsIgnored(H: Hash, genesis: BlockId, run: seq<NipopowProof>, p: NipopowProof)
    requires
      || !IsValid(H, p) || HeadersChain(p)[0].id != genesis
      || LastOutcome(H, genesis, run + [p]).Failure?
    ensures After(H, genesis, run + [p]) == After(H, genesis, run)
  {
    hide IsValid, IsBetterThan, HeadersChain;
    AfterOneMore(H, genesis, run, p);
    OutcomeOfOneMore(H, genesis, run, p);
    ReplacedOnlyByBetter(H, genesis, run, p);
  }

  /** A proof that was just replaced by one with the same `m` does not come back with the very next call. */
  lemma ReplacedStaysReplaced(H: Hash, genesis: BlockId, run: seq<NipopowProof>, p: NipopowProof, q: NipopowProof)
    requires After(H, genesis, run) == Some(q) && After(H, genesis, run + [p]) == Some(p) && p.m == q.m
    ensures After(H, genesis, run + [p] + [q]) == Some(p)
  {
    hide IsValid, IsBetterThan, RootedAt;
    AfterOneMore(H, genesis, run + [p], q);
    ReplacedOnlyByBetter(H, genesis, run, p);
    if p != q {
      BetterIsAsymmetric(H, p, q);
    }
  }

  // ----- Runs that never settle -----

  /** The proofs of `circle`, over and over. */
  function Around(circle: seq<NipopowProof>, n: nat): (run: seq<NipopowProof>)
    requires circle != []
    ensures |run| == n
  {
    if n == 0 then [] else Around(circle, n - 1) + [circle[(n - 1) % |circle|]]
  }

  /** Each proof of `circle` is acceptable and better than the one before it, the first than the last. */
  ghost predicate BeatsAround(H: Hash, genesis: BlockId, circle: seq<NipopowProof>) {
    && circle != []
    && (forall i :: 0 <= i < |circle| ==> Acceptable(H, genesis, circle[i]))
    && (forall i :: 0 <= i < |circle| - 1 ==> IsBetterThan(H, circle[i + 1], circle[i]) == Success(true))
    && IsBetterThan(H, circle[0], circle[|circle| - 1]) == Success(true)
  }

  lemma Successor(k: nat, n: nat)
    requires k >= 1 && n >= 1
    ensures (n % k == 0 && (n - 1) % k == k - 1) || n % k == (n - 1) % k + 1
  {
    var q, r := (n - 1) / k, (n - 1) % k;
    assert n == q * k + r + 1;
    if r == k - 1 {
      assert n == (q + 1) * k;
      MultipleRemainder(q + 1, k, 0);
    } else {
      MultipleRemainder(q, k, r + 1);
    }
  }

  lemma MultipleRemainder(q: nat, k: nat, r: nat)
    requires r < k
    ensures (q * k + r) % k == r
  {
    DivModIs(q * k + r, k, q, r);
  }

  /** Proofs that beat each other around a circle replace each other for ever, whatever their number. */
  lemma {:induction false} CircleNeverSettles(H: Hash, genesis: BlockId, circle: seq<NipopowProof>, n: nat)
    requires BeatsAround(H, genesis, circle) && n >= 1
    ensures After(H, genesis, Around(circle, n)) == Some(circle[(n - 1) % |circle|])
  {
    hide IsValid, IsBetterThan, RootedAt, After;
    var k := |circle|;
    var last := circle[(n - 1) % k];
    AfterOneMore(H, genesis, Around(circle, n - 1), last);
    if n == 1 {
      AfterNothing(H, genesis);
      assert 0 % k == 0;
      assert Acceptable(H, genesis, circle[0]);
    } else {
      CircleNeverSettles(H, genesis, circle, n - 1);
      Successor(k, n - 1);
      var i, j := (n - 2) % k, (n - 1) % k;
      assert Acceptable(H, genesis, circle[j]);
      assert IsBetterThan(H, circle[j], circle[i]) == Success(true);
    }
  }

  lemma AfterNothing(H: Hash, genesis: BlockId)
    ensures After(H, genesis, []) == None
  {
  }

  /** For every two different `m`, two valid proofs given in turn replace each other for ever. */
  lemma DifferentMNeverSettles(H: Hash, m: u32, k: u32, n: nat)
    requires Usable(m) && Usable(k) && m < k && n >= 1
    ensures
      var circle := [Tall(m), Wide(m, k)];
      After(H, START.header.id, Around(circle, n)) == Some(circle[(n - 1) % 2])
  {
    hide IsBetterThan, IsValid, Tall, Wide, RootedAt, BeatsAround, Around, After;
    MutuallyBetter(H, m, k);
    WitnessRoots(m, k);
    PairBeats(H, START.header.id, Tall(m), Wide(m, k));
    CircleNeverSettles(H, START.header.id, [Tall(m), Wide(m, k)], n);
  }

  lemma PairBeats(H: Hash, genesis: BlockId, p: NipopowProof, q: NipopowProof)
    requires Acceptable(H, genesis, p) && Acceptable(H, genesis, q)
    requires IsBetterThan(H, p, q) == Success(true) && IsBetterThan(H, q, p) == Success(true)
    ensures BeatsAround(H, genesis, [p, q])
  {
    hide IsBetterThan, IsValid, RootedAt;
  }

  lemma WitnessRoots(m: u32, k: u32)
    requires Usable(m)
    ensures RootedAt(Tall(m), START.header.id) && RootedAt(Wide(m, k), START.header.id)
  {
    ListingRoot(m, TallBlocks(m));
    ListingRoot(k, WideBlocks(m));
  }

  lemma ListingRoot(m: u32, above: seq<Header>)
    ensures RootedAt(Listing(m, above), START.header.id)
  {
    assert HeadersOf([]) == [];
  }

  /** Equal `m` is not enough either: three proofs with `m` = 2 replace each other for ever. */
  lemma SameMNeverSettles(H: Hash, n: nat)
    requires n >= 1
    ensures
      var circle := [CYCLE_B, CYCLE_A, CYCLE_C];
      && circle[0].m == circle[1].m == circle[2].m
      && After(H, START.header.id, Around(circle, n)) == Some(circle[(n - 1) % 3])
  {
    hide IsBetterThan, IsValid;
    ThreeInACircle(H);
    ListingRoot(2, [SHARED] + LONG_TAIL);
    ListingRoot(2, [SHARED] + HIGH_TAIL);
    ListingRoot(2, FLAT);
    hide RootedAt;
    CircleNeverSettles(H, START.header.id, [CYCLE_B, CYCLE_A, CYCLE_C], n);
  }

  // ----- Exactly when runs settle -----

  /** The proofs stored one after the other during a run. */
  function History(H: Hash, genesis: BlockId, run: seq<NipopowProof>): seq<NipopowProof> {
    if run == [] then []
    else
      var init := run[..|run| - 1];
      match After(H, genesis, run)
      case None => []
      case Some(p) =>
        if After(H, genesis, init) == Some(p) then History(H, genesis, init) else History(H, genesis, init) + [p]
  }

  ghost predicate Drawn(run: seq<NipopowProof>, from: seq<NipopowProof>) {
    forall i :: 0 <= i < |run| ==> run[i] in from
  }

  /** A history of acceptable proofs of the run, each better than the one before, the last being the one stored. */
  lemma {:induction false} HistoryClimbs(H: Hash, genesis: BlockId, run: seq<NipopowProof>)
    ensures
      var h := History(H, genesis, run);
      && Drawn(h, run)
      && (forall i :: 0 <= i < |h| ==> Acceptable(H, genesis, h[i]))
      && (forall i :: 0 <= i < |h| - 1 ==> IsBetterThan(H, h[i + 1], h[i]) == Success(true))
      && After(H, genesis, run) == if h == [] then None else Some(h[|h| - 1])
  {
    hide IsValid, IsBetterThan, RootedAt, Processed;
    if run != [] {
      var init, x := run[..|run| - 1], run[|run| - 1];
      assert run == init + [x];
      HistoryClimbs(H, genesis, init);
      ReplacedOnlyByBetter(H, genesis, init, x);
      assert After(H, genesis, init).Some? ==> After(H, genesis, run).Some? by {
        if After(H, genesis, init).Some? {
          NeverAbsentAgain(H, genesis, init, [x]);
        }
      }
    }
  }

  ghost predicate NoCircle(H: Hash, genesis: BlockId, from: seq<NipopowProof>) {
    forall circle: seq<NipopowProof> :: Drawn(circle, from) ==> !BeatsAround(H, genesis, circle)
  }

  ghost predicate SettlesWithin(H: Hash, genesis: BlockId, from: seq<NipopowProof>, n: nat) {
    forall run: seq<NipopowProof> :: Drawn(run, from) ==> |History(H, genesis, run)| <= n
  }

  /** A climb that comes back to where it was is a circle. */
  lemma ClosedClimb(H: Hash, genesis: BlockId, h: seq<NipopowProof>, i: nat, j: nat)
    requires i < j < |h| && h[i] == h[j]
    requires forall k :: 0 <= k < |h| ==> Acceptable(H, genesis, h[k])
    requires forall k :: 0 <= k < |h| - 1 ==> IsBetterThan(H, h[k + 1], h[k]) == Success(true)
    ensures BeatsAround(H, genesis, h[i..j])
  {
    hide Acceptable, IsBetterThan;
    var circle, t := h[i..j], j - 1;
    assert IsBetterThan(H, h[t + 1], h[t]) == Success(true);
    assert circle[0] == h[j] && circle[|circle| - 1] == h[t];
    forall k | 0 <= k < |circle| - 1
      ensures IsBetterThan(H, circle[k + 1], circle[k]) == Success(true)
    {
      var u := i + k;
      assert circle[k] == h[u] && circle[k + 1] == h[u + 1];
    }
  }

  /** Proofs that climb without a circle are all different. */
  lemma ClimbIsDistinct(H: Hash, genesis: BlockId, from: seq<NipopowProof>, h: seq<NipopowProof>, i: nat, j: nat)
    requires NoCircle(H, genesis, from) && Drawn(h, from) && i < j < |h|
    requires forall k :: 0 <= k < |h| ==> Acceptable(H, genesis, h[k])
    requires forall k :: 0 <= k < |h| - 1 ==> IsBetterThan(H, h[k + 1], h[k]) == Success(true)
    ensures h[i] != h[j]
  {
    hide Acceptable, IsBetterThan, BeatsAround;
    assert Drawn(h[i..j], from);
    if h[i] == h[j] {
      ClosedClimb(H, genesis, h, i, j);
    }
  }

  function Elements(s: seq<NipopowProof>): set<NipopowProof> {
    set p | p in s
  }

  lemma {:induction false} DistinctCount(h: seq<NipopowProof>)
    requires forall i, j :: 0 <= i < j < |h| ==> h[i] != h[j]
    ensures |Elements(h)| == |h|
  {
    if h == [] {
      assert Elements(h) == {};
    } else {
      var init, last := h[..|h| - 1], h[|h| - 1];
      DistinctCount(init);
      assert h == init + [last];
      assert Elements(h) == Elements(init) + {last};
    }
  }

  /** Without a circle, no run stores more proofs than there are. */
  lemma NoCircleSettles(H: Hash, genesis: BlockId, from: seq<NipopowProof>, run: seq<NipopowProof>)
    requires NoCircle(H, genesis, from) && Drawn(run, from)
    ensures |History(H, genesis, run)| <= |Elements(from)|
  {
    hide Acceptable, IsBetterThan, History, After, NoCircle;
    var h := History(H, genesis, run);
    HistoryClimbs(H, genesis, run);
    assert Drawn(h, from);
    forall i, j | 0 <= i < j < |h|
      ensures h[i] != h[j]
    {
      ClimbIsDistinct(H, genesis, from, h, i, j);
    }
    DistinctCount(h);
    SubsetIsSmaller(Elements(h), Elements(from));
  }

  lemma BetterThanOther(H: Hash, p: NipopowProof, q: NipopowProof)
    requires IsBetterThan(H, p, q) == Success(true)
    ensures p != q
  {
    hide IsBetterThan;
    BetterIsIrreflexive(H, p);
  }

  lemma CircleIsNotEmpty(H: Hash, genesis: BlockId, circle: seq<NipopowProof>)
    requires BeatsAround(H, genesis, circle)
    ensures circle != []
  {
  }

  lemma NeighboursDiffer(H: Hash, genesis: BlockId, circle: seq<NipopowProof>, n: nat)
    requires BeatsAround(H, genesis, circle) && n >= 1
    ensures circle[n % |circle|] != circle[(n - 1) % |circle|]
  {
    hide Acceptable, IsBetterThan;
    var k := |circle|;
    Successor(k, n);
    BetterThanOther(H, circle[n % k], circle[(n - 1) % k]);
  }

  /** Going around a circle, every call changes the stored proof. */
  lemma {:induction false} CircleChangesEveryTime(H: Hash, genesis: BlockId, circle: seq<NipopowProof>, n: nat)
    requires BeatsAround(H, genesis, circle)
    ensures circle != []
    ensures |History(H, genesis, Around(circle, n))| == n
  {
    hide BeatsAround, After;
    CircleIsNotEmpty(H, genesis, circle);
    if n > 0 {
      var run := Around(circle, n);
      assert run[..n - 1] == Around(circle, n - 1);
      CircleChangesEveryTime(H, genesis, circle, n - 1);
      CircleNeverSettles(H, genesis, circle, n);
      if n == 1 {
        AfterNothing(H, genesis);
      } else {
        CircleNeverSettles(H, genesis, circle, n - 1);
        NeighboursDiffer(H, genesis, circle, n - 1);
      }
    }
  }

  lemma {:induction false} AroundIsDrawn(circle: seq<NipopowProof>, from: seq<NipopowProof>, n: nat)
    requires circle != [] && Drawn(circle, from)
    ensures Drawn(Around(circle, n), from)
  {
    if n > 0 {
      AroundIsDrawn(circle, from, n - 1);
    }
  }

  /** Runs of the given proofs settle after a bounded number of changes if and only if no circle of them beats around. */
  lemma SettlesIffNoCircle(H: Hash, genesis: BlockId, from: seq<NipopowProof>)
    ensures (exists n: nat :: SettlesWithin(H, genesis, from, n)) <==> NoCircle(H, genesis, from)
  {
    hide History, BeatsAround, Around;
    if NoCircle(H, genesis, from) {
      forall run: seq<NipopowProof> | Drawn(run, from)
        ensures |History(H, genesis, run)| <= |Elements(from)|
      {
        NoCircleSettles(H, genesis, from, run);
      }
      assert SettlesWithin(H, genesis, from, |Elements(from)|);
    } else {
      var circle: seq<NipopowProof> :| Drawn(circle, from) && BeatsAround(H, genesis, circle);
      CircleIsNotEmpty(H, genesis, circle);
      forall n: nat
        ensures !SettlesWithin(H, genesis, from, n)
      {
        CircleChangesEveryTime(H, genesis, circle, n + 1);
        AroundIsDrawn(circle, from, n + 1);
      }
    }
  }

  // ----- Runs that settle -----

  /** The acceptable proofs of the run have one `m`, and any two different chains among them part at `b`. */
  ghost predicate PartAt(H: Hash, genesis: BlockId, run: seq<NipopowProof>, m: u32, b: Header) {
    && (forall p :: p in run && Acceptable(H, genesis, p) ==> p.m == m)
    && forall p, q :: p in run && q in run && Acceptable(H, genesis, p) && Acceptable(H, genesis, q)
                      && HeadersChain(p) != HeadersChain(q)
                      ==> Lca(HeadersChain(p), HeadersChain(q)) == Some(b)
  }

  /** The score of a proof above `b`. */
  function ScoreAbove(p: NipopowProof, m: u32, b: Header): Result<nat, NipopowError> {
    BestArgResult(HeadersAbove(HeadersChain(p), b.height), m)
  }

  ghost predicate Beats(x: Result<nat, NipopowError>, y: Result<nat, NipopowError>) {
    x.Success? && y.Success? && x.value > y.value
  }

  lemma SameChainIsNotBetter(H: Hash, p: NipopowProof, q: NipopowProof)
    requires IsValid(H, p) && IsValid(H, q) && HeadersChain(p) == HeadersChain(q)
    ensures IsBetterThan(H, p, q) == Success(false)
  {
    hide HasValidParams, HasValidConnections, HasValidProofs, HeadersAbove, BestArgResult, Lca, Increasing;
    var c := HeadersChain(p);
    LcaIsHighestCommon(c, c);
    NothingAbove(c, Lca(c, c).value.height);
    BestArgOfNothing(p.m);
  }

  /** Among acceptable proofs that part at `b`, better means a higher score above `b`. */
  lemma BetterIsScore(
    H: Hash, genesis: BlockId, run: seq<NipopowProof>, m: u32, b: Header, p: NipopowProof, q: NipopowProof)
    requires PartAt(H, genesis, run, m, b) && p in run && q in run
    requires Acceptable(H, genesis, p) && Acceptable(H, genesis, q)
    ensures IsBetterThan(H, p, q) == Success(true) <==> Beats(ScoreAbove(p, m, b), ScoreAbove(q, m, b))
  {
    hide IsValid, RootedAt, HeadersChain, HeadersAbove, BestArgResult, Lca;
    if HeadersChain(p) == HeadersChain(q) {
      SameChainIsNotBetter(H, p, q);
    }
  }

  lemma {:induction false} ScoresClimb(
    H: Hash, genesis: BlockId, run: seq<NipopowProof>, m: u32, b: Header, circle: seq<NipopowProof>, i: nat)
    requires PartAt(H, genesis, run, m, b) && Drawn(circle, run) && BeatsAround(H, genesis, circle) && i < |circle|
    ensures i > 0 ==> Beats(ScoreAbove(circle[i], m, b), ScoreAbove(circle[0], m, b))
  {
    hide PartAt, Acceptable, IsBetterThan, ScoreAbove;
    if i > 0 {
      var k := i - 1;
      ScoresClimb(H, genesis, run, m, b, circle, k);
      assert IsBetterThan(H, circle[k + 1], circle[k]) == Success(true);
      BetterIsScore(H, genesis, run, m, b, circle[i], circle[k]);
    }
  }

  /** Proofs that part at one header have no circle. */
  lemma PartingHasNoCircle(H: Hash, genesis: BlockId, run: seq<NipopowProof>, m: u32, b: Header)
    requires PartAt(H, genesis, run, m, b)
    ensures NoCircle(H, genesis, run)
  {
    hide PartAt, Acceptable, IsBetterThan, ScoreAbove;
    forall circle: seq<NipopowProof> | Drawn(circle, run)
      ensures !BeatsAround(H, genesis, circle)
    {
      if BeatsAround(H, genesis, circle) {
        var last := |circle| - 1;
        ScoresClimb(H, genesis, run, m, b, circle, last);
        BetterIsScore(H, genesis, run, m, b, circle[0], circle[last]);
        assert false;
      }
    }
  }

  /** A proof that is not acceptable is not better than one that is. */
  lemma UnfitIsNotBetter(H: Hash, genesis: BlockId, p: NipopowProof, q: NipopowProof)
    requires !Acceptable(H, genesis, p) && Acceptable(H, genesis, q)
    ensures IsBetterThan(H, p, q) == Success(false)
  {
    hide IsValid, HeadersAbove, BestArgResult;
    if IsValid(H, p) {
      DifferentHeads(HeadersChain(p), HeadersChain(q));
    }
  }

  /**
   * If the acceptable proofs of a run have one `m` and part at one header, the verifier holds a best one: no proof of
   * the run is better.
   */
  lemma {:induction false} StoredIsBest(H: Hash, genesis: BlockId, run: seq<NipopowProof>, m: u32, b: Header, p: NipopowProof)
    requires PartAt(H, genesis, run, m, b) && p in run && After(H, genesis, run).Some?
    ensures IsBetterThan(H, p, After(H, genesis, run).value) != Success(true)
  {
    hide IsValid, IsBetterThan, Lca, HeadersChain, ScoreAbove;
    var init, x := run[..|run| - 1], run[|run| - 1];
    assert run == init + [x];
    var before, stored := After(H, genesis, init), After(H, genesis, run).value;
    AfterOneMore(H, genesis, init, x);
    StoredIsAcceptable(H, genesis, run);
    if !Acceptable(H, genesis, p) {
      UnfitIsNotBetter(H, genesis, p, stored);
    } else if before.None? {
      StoredIff(H, genesis, init);
      assert stored == x && p == x;
      BetterIsIrreflexive(H, x);
    } else {
      StoredIsAcceptable(H, genesis, init);
      ReplacedOnlyByBetter(H, genesis, init, x);
      BetterIsScore(H, genesis, run, m, b, p, stored);
      if p in init {
        StoredIsBest(H, genesis, init, m, b, p);
        if stored != before.value {
          BetterIsScore(H, genesis, run, m, b, p, before.value);
          BetterIsScore(H, genesis, run, m, b, x, before.value);
        }
      } else if stored == x {
        BetterIsIrreflexive(H, x);
      }
    }
  }

  /** From then on the proofs of the run, given again in any order and number, change nothing. */
  lemma {:induction false} SettlesForGood(
    H: Hash, genesis: BlockId, run: seq<NipopowProof>, m: u32, b: Header, more: seq<NipopowProof>)
    requires PartAt(H, genesis, run, m, b) && forall p :: p in more ==> p in run
    ensures After(H, genesis, run + more) == After(H, genesis, run)
  {
    hide IsValid, IsBetterThan, HeadersChain, After, PartAt;
    if more == [] {
      assert run + more == run;
    } else {
      var init, x := more[..|more| - 1], more[|more| - 1];
      SettlesForGood(H, genesis, run, m, b, init);
      assert run + more == run + init + [x];
      assert x in more;
      AfterOneMore(H, genesis, run + init, x);
      if After(H, genesis, run).Some? {
        StoredIsBest(H, genesis, run, m, b, x);
      } else {
        StoredIff(H, genesis, run);
      }
    }
  }

  // ----- From prover to verifier -----

  /** A new verifier stores what the prover builds from a well-formed chain on its genesis block. */
  lemma ProvedIsStored(H: Hash, c: seq<PoPowHeader>, k: u32, m: u32)
    requires Provable(c, k, m) && ProofsIncluded(H, c) && k + m <= I32_MAX
    ensures ProveResult(c, k, m).Success?
    ensures After(H, c[0].header.id, [ProveResult(c, k, m).value]) == Some(ProveResult(c, k, m).value)
  {
    hide IsValid, ProveResult, HeadersChain;
    ProvedIsValid(H, c, k, m);
    AfterOneMore(H, c[0].header.id, [], ProveResult(c, k, m).value);
    assert [] + [ProveResult(c, k, m).value] == [ProveResult(c, k, m).value];
  }
}
