/** What the validity checks mean: links that lead from every header of a proof back to its first one. */
module ProofValidity {
  import opened Wrappers
  import opened ChainTypes
  import opened MerkleTypes
  import opened MerkleTree
  import opened MerkleProofs
  import opened BatchProofs
  import opened Multiproofs
  import opened Interlinks
  import opened InterlinkPacking
  import opened InterlinkProofs
  import opened NipopowProofs
  import opened NipopowComparison

  // ----- The headers of a proof, by position -----

  /** How many headers a proof has: prefix, suffix head and suffix tail. */
  function Size(p: NipopowProof): nat {
    |p.prefix| + 1 + |p.suffixTail|
  }

  /** The entries that come with interlinks: the prefix and the suffix head. */
  function EntryAt(p: NipopowProof, i: nat): PoPowHeader
    requires i <= |p.prefix|
  {
    if i < |p.prefix| then p.prefix[i] else p.suffixHead
  }

  function HeaderAt(p: NipopowProof, i: nat): Header
    requires i < Size(p)
  {
    if i <= |p.prefix| then EntryAt(p, i).header else p.suffixTail[i - |p.prefix| - 1]
  }

  lemma ChainAt(p: NipopowProof, i: nat)
    requires i < Size(p)
    ensures HeadersChain(p)[i] == HeaderAt(p, i)
  {
  }

  // ----- Links -----

  /**
   * Header `i` names header `j`: an entry by interlink or parent id, at most the lookback before it; a header of the
   * suffix tail by parent id, just before it.
   */
  predicate LinksBack(p: NipopowProof, i: nat, j: nat) {
    && j < i < Size(p)
    && if i <= |p.prefix| then
         && i - j <= p.useLastEpochs + 3
         && (|| EntryAt(p, j).header.id in EntryAt(p, i).interlinks
             || EntryAt(p, i).header.parentId == EntryAt(p, j).header.id)
       else
         j == i - 1 && HeaderAt(p, i).parentId == HeaderAt(p, j).id
  }

  ghost predicate HasLink(p: NipopowProof, i: nat) {
    exists j: nat :: LinksBack(p, i, j)
  }

  lemma EntriesConnect(p: NipopowProof, i: nat)
    requires 1 <= i <= |p.prefix|
    ensures HasLink(p, i) <==> ConnectsBack(p.prefix + [p.suffixHead], i, p.useLastEpochs + 3)
  {
    var all := p.prefix + [p.suffixHead];
    assert forall k :: 0 <= k <= |p.prefix| ==> all[k] == EntryAt(p, k);
    if j: nat :| LinksBack(p, i, j) {
      assert Names(all[i], all[j]);
    }
    if ConnectsBack(all, i, p.useLastEpochs + 3) {
      var j :| i - (p.useLastEpochs + 3) <= j < i && 0 <= j && Names(all[i], all[j]);
      assert LinksBack(p, i, j);
    }
  }

  lemma TailConnects(p: NipopowProof, i: nat)
    requires |p.prefix| < i < Size(p)
    ensures
      var suffix, k := [p.suffixHead.header] + p.suffixTail, i - |p.prefix|;
      HasLink(p, i) <==> suffix[k].parentId == suffix[k - 1].id
  {
    var suffix, k := [p.suffixHead.header] + p.suffixTail, i - |p.prefix|;
    assert suffix[k] == HeaderAt(p, i) && suffix[k - 1] == HeaderAt(p, i - 1);
    if suffix[k].parentId == suffix[k - 1].id {
      assert LinksBack(p, i, i - 1);
    }
  }

  /** The connection check holds exactly when every header but the first has a link. */
  lemma ConnectedIff(p: NipopowProof)
    ensures HasValidConnections(p) <==> forall i: nat :: 1 <= i < Size(p) ==> HasLink(p, i)
  {
    hide ConnectsBack, HasLink;
    var all, suffix := p.prefix + [p.suffixHead], [p.suffixHead.header] + p.suffixTail;
    var lookbackSpan := p.useLastEpochs + 3;
    if HasValidConnections(p) {
      forall i: nat | 1 <= i < Size(p)
        ensures HasLink(p, i)
      {
        if i <= |p.prefix| {
          EntriesConnect(p, i);
        } else {
          TailConnects(p, i);
        }
      }
    }
    if forall i: nat :: 1 <= i < Size(p) ==> HasLink(p, i) {
      forall i | 1 <= i < |all|
        ensures ConnectsBack(all, i, lookbackSpan)
      {
        EntriesConnect(p, i);
      }
      forall k | 1 <= k < |suffix|
        ensures suffix[k].parentId == suffix[k - 1].id
      {
        TailConnects(p, k + |p.prefix|);
      }
    }
  }

  /** Every entry of a valid proof but the first names, by interlink or parent id, an entry within the lookback. */
  lemma EntriesNameEarlierOnes(H: Hash, p: NipopowProof, i: nat) returns (j: nat)
    requires IsValid(H, p) && 1 <= i <= |p.prefix|
    ensures j < i <= j + p.useLastEpochs + 3
    ensures
      var all := p.prefix + [p.suffixHead];
      all[j].header.id in all[i].interlinks || all[i].header.parentId == all[j].header.id
  {
    hide HasValidConnections, HasValidHeights, HasValidProofs;
    ConnectedIff(p);
    assert HasLink(p, i);
    j :| LinksBack(p, i, j);
    var all := p.prefix + [p.suffixHead];
    assert all[i] == EntryAt(p, i) && all[j] == EntryAt(p, j);
  }

  /** A proof with an entry that names nothing within the lookback is not valid, whatever else holds of it. */
  lemma UnlinkedIsInvalid(H: Hash, p: NipopowProof, i: nat)
    requires 1 <= i <= |p.prefix|
    requires
      var all := p.prefix + [p.suffixHead];
      forall j :: i - p.useLastEpochs - 3 <= j < i && 0 <= j
                  ==> all[j].header.id !in all[i].interlinks && all[i].header.parentId != all[j].header.id
    ensures !IsValid(H, p)
  {
    hide IsValid;
    if IsValid(H, p) {
      var j := EntriesNameEarlierOnes(H, p, i);
      assert false;
    }
  }

  // ----- Paths -----

  /** Each position of the path names the next one. */
  ghost predicate IsPath(p: NipopowProof, path: seq<nat>) {
    path != [] && forall k :: 0 <= k < |path| - 1 ==> LinksBack(p, path[k], path[k + 1])
  }

  /** In a valid proof a path of links leads from every header, the last one included, to the first. */
  lemma {:induction false} PathToTheFirst(H: Hash, p: NipopowProof, i: nat) returns (path: seq<nat>)
    requires IsValid(H, p) && i < Size(p)
    ensures IsPath(p, path) && path[0] == i && path[|path| - 1] == 0
    decreases i
  {
    hide HasValidConnections, HasValidHeights, HasValidProofs, LinksBack;
    if i == 0 {
      path := [0];
    } else {
      ConnectedIff(p);
      assert HasLink(p, i);
      var j: nat :| LinksBack(p, i, j);
      assert j < i by { LinkDescends(p, i, j); }
      var rest := PathToTheFirst(H, p, j);
      path := [i] + rest;
    }
  }

  lemma LinkDescends(p: NipopowProof, i: nat, j: nat)
    requires LinksBack(p, i, j)
    ensures j < i < Size(p)
  {
  }

  /** Along a path heights fall, so no header is visited twice. */
  lemma {:induction false} HeightsFall(H: Hash, p: NipopowProof, path: seq<nat>, k: nat, l: nat)
    requires IsValid(H, p) && IsPath(p, path) && k < l < |path|
    ensures path[l] < path[k] < Size(p) && HeaderAt(p, path[l]).height < HeaderAt(p, path[k]).height
  {
    hide IsValid, LinksBack, HeaderAt;
    LinkDescends(p, path[l - 1], path[l]);
    ValidHeights(H, p, path[l], path[l - 1]);
    if k < l - 1 {
      HeightsFall(H, p, path, k, l - 1);
    }
  }

  lemma ValidHeights(H: Hash, p: NipopowProof, i: nat, j: nat)
    requires IsValid(H, p) && i < j < Size(p)
    ensures HeaderAt(p, i).height < HeaderAt(p, j).height
  {
    hide HasValidConnections, HasValidProofs, HasValidParams, Increasing;
    ChainAt(p, i);
    ChainAt(p, j);
    IncreasingPairs(HeadersChain(p), i, j);
  }

  // ----- Interlink proofs -----

  /** No interlinks and no proof, or a vector that can be packed and a proof that leads to the root of the fields. */
  ghost predicate CarriesProof(H: Hash, e: PoPowHeader) {
    var proof := e.interlinksProof;
    if e.interlinks == [] then proof.indices == [] && proof.proofs == []
    else
      exists fields: seq<Field> ::
        && RunsFit(e.interlinks, 0) && PackFrom(e.interlinks, 0) == Success(fields)
        && BatchValid(H, proof, RootHash(FieldTree(H, fields)))
  }

  lemma CarriesProofIff(H: Hash, e: PoPowHeader)
    ensures InterlinksProofValid(H, e) <==> CarriesProof(H, e)
  {
    hide RunsFit, PackFrom, BatchValid, FieldTree, RootHash;
    if e.interlinks != [] {
      PackSucceedsIff(e.interlinks, 0);
    }
  }

  /**
   * Each entry of a valid proof comes with a sound proof of its interlinks: without collisions, all it carries are
   * hashes of nodes of the tree over the fields that its vector packs into, and those fields give the vector back.
   */
  lemma EntriesCarrySoundProofs(H: Hash, p: NipopowProof, i: nat)
    requires IsValid(H, p) && i <= |p.prefix|
    ensures
      var e := EntryAt(p, i);
      var proof := e.interlinksProof;
      if e.interlinks == [] then proof.indices == [] && proof.proofs == []
      else
        && PackFrom(e.interlinks, 0).Success?
        && var fields := PackFrom(e.interlinks, 0).value;
           && Unpack(fields) == Some(e.interlinks)
           && BatchValid(H, proof, RootHash(FieldTree(H, fields)))
           && (AtMostTwoPerParent(proof.indices) && NoBatchCollisions(H, FieldLeaves(H, fields), proof)
               ==> && NodesOfTree(H, FieldLeaves(H, fields), proof.proofs)
                   && forall k :: 0 <= k < |proof.indices|
                                  ==> IsNodeHash(H, FieldLeaves(H, fields), proof.indices[k].hash))
  {
    hide HasValidParams, HasValidConnections, HasValidHeights, PackFrom, BatchValid, FieldTree, RootHash, Unpack,
      AtMostTwoPerParent, NoBatchCollisions, NodesOfTree, IsNodeHash;
    var e := EntryAt(p, i);
    assert InterlinksProofValid(H, e);
    if e.interlinks != [] {
      UnpackOfPacked(e.interlinks, 0);
      assert e.interlinks[0..] == e.interlinks;
      var fields := PackFrom(e.interlinks, 0).value;
      if AtMostTwoPerParent(e.interlinksProof.indices) && NoBatchCollisions(H, FieldLeaves(H, fields), e.interlinksProof) {
        AcceptedProofsAreSound(H, e);
      }
    }
  }

  // ----- Validity as a whole -----

  /**
   * A proof is valid exactly when its parameters are in range, every header but the first has a link, later headers are
   * higher than earlier ones, and every entry carries the proof of its interlinks.
   */
  lemma ValidIff(H: Hash, p: NipopowProof)
    ensures
      IsValid(H, p)
      <==> && 1 <= p.m && 1 <= p.k && p.m + p.k <= 0x7fff_ffff
           && (forall i: nat :: 1 <= i < Size(p) ==> HasLink(p, i))
           && (forall i: nat, j: nat :: i < j < Size(p) ==> HeaderAt(p, i).height < HeaderAt(p, j).height)
           && (forall i: nat :: i <= |p.prefix| ==> CarriesProof(H, EntryAt(p, i)))
  {
    ConnectedIff(p);
    HeightsIff(p);
    ProofsIff(H, p);
    hide HasValidConnections, HasValidHeights, HasValidProofs, HasLink, HeaderAt, CarriesProof;
  }

  lemma HeightsIff(p: NipopowProof)
    ensures
      HasValidHeights(p)
      <==> forall i: nat, j: nat :: i < j < Size(p) ==> HeaderAt(p, i).height < HeaderAt(p, j).height
  {
    hide HeaderAt, HeadersChain;
    var chain := HeadersChain(p);
    forall i: nat | i < Size(p)
      ensures chain[i] == HeaderAt(p, i)
    {
      ChainAt(p, i);
    }
    if HasValidHeights(p) {
      forall i: nat, j: nat | i < j < Size(p)
        ensures HeaderAt(p, i).height < HeaderAt(p, j).height
      {
        IncreasingPairs(chain, i, j);
      }
    }
  }

  lemma ProofsIff(H: Hash, p: NipopowProof)
    ensures HasValidProofs(H, p) <==> forall i: nat :: i <= |p.prefix| ==> CarriesProof(H, EntryAt(p, i))
  {
    hide InterlinksProofValid, CarriesProof;
    forall i: nat | i <= |p.prefix|
      ensures InterlinksProofValid(H, EntryAt(p, i)) <==> CarriesProof(H, EntryAt(p, i))
    {
      CarriesProofIff(H, EntryAt(p, i));
    }
    assert EntryAt(p, |p.prefix|) == p.suffixHead;
    assert forall i :: 0 <= i < |p.prefix| ==> EntryAt(p, i) == p.prefix[i];
  }
}
