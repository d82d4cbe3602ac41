/** NiPoPoW proofs, their connection and height checks, and proofs cut out of a well-formed chain. */
module NipopowProofs {
  import opened Wrappers
  import opened ChainTypes
  import opened Superchain
  import opened Interlinks

  const DEFAULT_USE_LAST_EPOCHS: u32 := 8

  datatype NipopowProof = NipopowProof(
    useLastEpochs: u32,
    m: u32,
    k: u32,
    prefix: seq<PoPowHeader>,
    suffixHead: PoPowHeader,
    suffixTail: seq<Header>)

  function NewProof(m: u32, k: u32, prefix: seq<PoPowHeader>, suffixHead: PoPowHeader, suffixTail: seq<Header>)
    : Result<NipopowProof, NipopowError>
  {
    if m == 0 then Failure(ZeroMParameter)
    else if k >= 1 then Success(NipopowProof(DEFAULT_USE_LAST_EPOCHS, m, k, prefix, suffixHead, suffixTail))
    else Failure(ZeroKParameter)
  }

  function HeadersOf(ps: seq<PoPowHeader>): (hs: seq<Header>)
    ensures |hs| == |ps|
  {
    seq(|ps|, i requires 0 <= i < |ps| => ps[i].header)
  }

  function HeadersChain(p: NipopowProof): (chain: seq<Header>)
    ensures |chain| == |p.prefix| + 1 + |p.suffixTail|
  {
    HeadersOf(p.prefix) + [p.suffixHead.header] + p.suffixTail
  }

  // ----- Structural checks -----

  predicate HasValidParams(p: NipopowProof) {
    p.m >= 1 && p.k >= 1 && p.m + p.k <= I32_MAX
  }

  predicate ConnectsBack(all: seq<PoPowHeader>, i: nat, span: nat)
    requires i < |all|
  {
    exists j :: i - span <= j < i && 0 <= j && Names(all[i], all[j])
  }

  predicate HasValidConnections(p: NipopowProof) {
    var all := p.prefix + [p.suffixHead];
    var suffix := [p.suffixHead.header] + p.suffixTail;
    var lookbackSpan := p.useLastEpochs + 3;
    && (forall i :: 1 <= i < |all| ==> ConnectsBack(all, i, lookbackSpan))
    && (forall i :: 1 <= i < |suffix| ==> suffix[i].parentId == suffix[i - 1].id)
  }

  predicate Increasing(hs: seq<Header>) {
    forall i :: 1 <= i < |hs| ==> hs[i - 1].height < hs[i].height
  }

  predicate HasValidHeights(p: NipopowProof) {
    Increasing(HeadersChain(p))
  }

  lemma {:induction false} IncreasingPairs(hs: seq<Header>, i: nat, j: nat)
    requires Increasing(hs)
    requires i < j < |hs|
    ensures hs[i].height < hs[j].height
  {
    if i + 1 < j {
      IncreasingPairs(hs, i, j - 1);
    }
  }

  // ----- Selections of a chain -----

  /** The selected positions below `n`, ascending. */
  function Ascending(kept: set<nat>, n: nat): (pos: seq<nat>)
    ensures forall i :: 0 <= i < |pos| ==> pos[i] < n && pos[i] in kept
    ensures forall i, j :: 0 <= i < j < |pos| ==> pos[i] < pos[j]
  {
    if n == 0 then []
    else if n - 1 in kept then Ascending(kept, n - 1) + [n - 1]
    else Ascending(kept, n - 1)
  }

  lemma {:induction false} AscendingHas(kept: set<nat>, n: nat, t: nat)
    requires t in kept && t < n
    ensures t in Ascending(kept, n)
  {
    if t == n - 1 {
      assert Ascending(kept, n)[|Ascending(kept, n)| - 1] == t;
    } else {
      AscendingHas(kept, n - 1, t);
    }
  }

  /** Nothing selected lies between two consecutive positions, nor after the last one. */
  lemma AscendingGap(kept: set<nat>, n: nat, i: nat, u: nat)
    requires i < |Ascending(kept, n)|
    requires u < n && u in kept
    requires u > Ascending(kept, n)[i]
    ensures i + 1 < |Ascending(kept, n)| && u >= Ascending(kept, n)[i + 1]
  {
    var pos := Ascending(kept, n);
    AscendingHas(kept, n, u);
    var j :| 0 <= j < |pos| && pos[j] == u;
    assert j > i;
  }

  function Pick(c: seq<PoPowHeader>, pos: seq<nat>): (ps: seq<PoPowHeader>)
    requires forall i :: 0 <= i < |pos| ==> pos[i] < |c|
    ensures |ps| == |pos|
    ensures forall i :: 0 <= i < |pos| ==> ps[i] == c[pos[i]]
  {
    seq(|pos|, i requires 0 <= i < |pos| => c[pos[i]])
  }

  /** Headers of the (up to) `k` blocks of `c` from position `n` on, without the first. */
  function SuffixTail(c: seq<PoPowHeader>, n: nat, k: nat): seq<Header>
    requires 1 <= k && n < |c|
  {
    HeadersOf(c[n + 1..Min(n + k, |c|)])
  }

  /** The proof that keeps `kept` below position `n` and (up to) `k` blocks from `n` on. */
  function ProofOf(c: seq<PoPowHeader>, n: nat, m: u32, k: u32, kept: set<nat>): NipopowProof
    requires 1 <= k && n < |c|
  {
    NipopowProof(DEFAULT_USE_LAST_EPOCHS, m, k, Pick(c, Ascending(kept, n)), c[n], SuffixTail(c, n, k))
  }

  /** Each kept block, and the suffix head, names the kept block just before it. */
  lemma KeptBlocksAreNamed(c: seq<PoPowHeader>, n: nat, kept: set<nat>, i: nat)
    requires WellFormed(c) && 1 <= n < |c|
    requires UpwardClosed(LevelsOf(c), n, kept) && 0 in kept
    requires 1 <= i <= |Ascending(kept, n)|
    ensures var all := Pick(c, Ascending(kept, n)) + [c[n]]; Names(all[i], all[i - 1])
  {
    WellFormedLevels(c);
    var pos := Ascending(kept, n);
    var s, t := pos[i - 1], if i < |pos| then pos[i] else n;
    forall u | s < u < t
      ensures u !in kept
    {
      if u in kept {
        AscendingGap(kept, n, i - 1, u);
      }
    }
    NearestKeptIsReachable(LevelsOf(c), n, kept, s, t);
    ReachableIsNamed(c, s, t);
  }

  /** An upward closed selection holding genesis gives connected proofs, whatever the lookback. */
  lemma SelectionIsConnected(c: seq<PoPowHeader>, n: nat, m: u32, k: u32, kept: set<nat>, epochs: u32)
    requires WellFormed(c) && 1 <= n < |c| && 1 <= k
    requires UpwardClosed(LevelsOf(c), n, kept) && 0 in kept
    ensures HasValidConnections(ProofOf(c, n, m, k, kept).(useLastEpochs := epochs))
  {
    var p := ProofOf(c, n, m, k, kept).(useLastEpochs := epochs);
    var all, lookbackSpan := p.prefix + [p.suffixHead], epochs + 3;
    forall i | 1 <= i < |all|
      ensures ConnectsBack(all, i, lookbackSpan)
    {
      KeptBlocksAreNamed(c, n, kept, i);
      assert Names(all[i], all[i - 1]);
    }
    var suffix := [p.suffixHead.header] + p.suffixTail;
    forall i | 1 <= i < |suffix|
      ensures suffix[i].parentId == suffix[i - 1].id
    {
      ParentAt(c, n + i);
      assert suffix[i] == c[n + i].header && suffix[i - 1] == c[n + i - 1].header;
    }
  }

  lemma SelectionHeights(c: seq<PoPowHeader>, n: nat, m: u32, k: u32, kept: set<nat>)
    requires WellFormed(c) && 1 <= k && n < |c|
    ensures HasValidHeights(ProofOf(c, n, m, k, kept))
  {
    var p := ProofOf(c, n, m, k, kept);
    var pos, hs := Ascending(kept, n), HeadersChain(p);
    forall i | 0 <= i < |hs|
      ensures hs[i].height == if i < |pos| then pos[i] + 1 else n + (i - |pos|) + 1
    {
      if i < |pos| {
        HeightAt(c, pos[i]);
      } else {
        HeightAt(c, n + (i - |pos|));
        assert hs[i] == c[n + (i - |pos|)].header;
      }
    }
  }

  /** Entry `i` of prefix and suffix head names entry `i - 1`. */
  ghost predicate NamesPrevious(p: NipopowProof, i: nat) {
    var all := p.prefix + [p.suffixHead];
    1 <= i < |all| && Names(all[i], all[i - 1])
  }

  lemma SelectionStartsAtGenesis(c: seq<PoPowHeader>, n: nat, kept: set<nat>)
    requires 1 <= n <= |c| && 0 in kept
    ensures |Ascending(kept, n)| >= 1 && Ascending(kept, n)[0] == 0
  {
    AscendingHas(kept, n, 0);
    var pos := Ascending(kept, n);
    var i :| 0 <= i < |pos| && pos[i] == 0;
    assert pos[0] <= pos[i];
  }
}
