/** Merkle proofs of interlink vectors: taking one from a block extension, and checking it. */
module InterlinkProofs {
  import opened Wrappers
  import opened ChainTypes
  import opened MerkleTypes
  import opened SortedInts
  import opened MerkleTree
  import opened MerkleProofs
  import opened MerkleBinding
  import opened BatchProofs
  import opened Multiproofs
  import opened Interlinks
  import opened InterlinkPacking

  /** A field as leaf data: key length, key, value. */
  function LeafBytes(f: Field): seq<byte> {
    [2, f.prefix, f.index] + f.value
  }

  function FieldLeaves(H: Hash, fields: seq<Field>): (leaves: seq<MerkleNode>)
    ensures |leaves| == |fields| && MadeFromBytes(H, leaves) && AllLeaves(leaves)
    ensures forall i :: 0 <= i < |fields| ==> leaves[i] == FromBytes(H, LeafBytes(fields[i]))
  {
    seq(|fields|, i requires 0 <= i < |fields| => FromBytes(H, LeafBytes(fields[i])))
  }

  function FieldTree(H: Hash, fields: seq<Field>): Tree {
    TreeOf(H, FieldLeaves(H, fields))
  }

  // ----- Checking -----

  predicate Packable(links: seq<BlockId>) {
    links != [] && PackFrom(links, 0).Success?
  }

  predicate InterlinksProofValid(H: Hash, p: PoPowHeader) {
    if p.interlinks == [] then p.interlinksProof == BatchMerkleProof([], [])
    else
      && Packable(p.interlinks)
      && BatchValid(H, p.interlinksProof, RootHash(FieldTree(H, PackFrom(p.interlinks, 0).value)))
  }

  method CheckInterlinksProof(H: Hash, p: PoPowHeader) returns (valid: bool)
    ensures valid == InterlinksProofValid(H, p)
  {
    hide PackFrom, BatchValid, TreeOf, RunsFit;
    var proofIsEmpty := p.interlinksProof.indices == [] && p.interlinksProof.proofs == [];
    if p.interlinks == [] { return proofIsEmpty; }
    var packable := HasPackableInterlinks(p.interlinks);
    if !packable { return false; }
    var packed := PackInterlinks(p.interlinks);
    var tree := NewTree(H, FieldLeaves(H, packed.value));
    valid := CheckBatch(H, p.interlinksProof, RootHash(tree));
  }

  // ----- Building -----

  function FindField(extension: seq<Field>, prefix: byte, index: byte): (r: Option<Field>)
    ensures r.Some? ==> r.value in extension && r.value.prefix == prefix && r.value.index == index
    ensures r.None? ==> forall f :: f in extension ==> f.prefix != prefix || f.index != index
  {
    if extension == [] then None
    else if extension[0].prefix == prefix && extension[0].index == index then Some(extension[0])
    else FindField(extension[1..], prefix, index)
  }

  /** Positions in the tree of the fields with the given keys; keys and hashes not found are skipped. */
  function IndicesOfKeys(H: Hash, extension: seq<Field>, tree: Tree, keys: seq<(byte, byte)>): seq<nat> {
    if keys == [] then []
    else
      var rest := IndicesOfKeys(H, extension, tree, keys[1..]);
      match FindField(extension, keys[0].0, keys[0].1)
      case None => rest
      case Some(f) =>
        var h := FromBytes(H, LeafBytes(f)).hash;
        if h in tree.elementsHashIndex then [tree.elementsHashIndex[h]] + rest else rest
  }

  /** A multi-proof for the fields with the given keys. */
  function ExtensionBatchProofFor(H: Hash, extension: seq<Field>, keys: seq<(byte, byte)>): Option<BatchMerkleProof> {
    var tree := FieldTree(H, extension);
    TreeHasOddLength(H, FieldLeaves(H, extension));
    ProofByIndices(tree, IndicesOfKeys(H, extension, tree, keys))
  }

  function KeysOf(fields: seq<Field>): (keys: seq<(byte, byte)>)
    ensures |keys| == |fields|
  {
    seq(|fields|, i requires 0 <= i < |fields| => (fields[i].prefix, fields[i].index))
  }

  /** A proof for all interlink fields of an extension. */
  function ProofForInterlinkVector(H: Hash, extension: seq<Field>): Option<BatchMerkleProof> {
    var keys := KeysOf(InterlinkFields(extension));
    if keys == [] then Some(BatchMerkleProof([], [])) else ExtensionBatchProofFor(H, extension, keys)
  }

  // ----- Proofs taken from an extension are accepted -----

  lemma FieldIsIndexed(H: Hash, extension: seq<Field>, f: Field)
    requires f in extension
    ensures
      var index, h := FieldTree(H, extension).elementsHashIndex, FromBytes(H, LeafBytes(f)).hash;
      h in index && index[h] < |extension|
  {
    hide HashIndex;
    var leaves := FieldLeaves(H, extension);
    var i :| 0 <= i < |extension| && extension[i] == f;
    HashIndexFinds(leaves, i);
  }

  lemma {:induction false} KeysAreFound(H: Hash, extension: seq<Field>, keys: seq<(byte, byte)>)
    requires forall i :: 0 <= i < |keys| ==> FindField(extension, keys[i].0, keys[i].1).Some?
    ensures
      var indices := IndicesOfKeys(H, extension, FieldTree(H, extension), keys);
      |indices| == |keys| && Inside(indices, |extension|)
  {
    hide FieldTree, FindField, FromBytes;
    if keys != [] {
      KeysAreFound(H, extension, keys[1..]);
      FieldIsIndexed(H, extension, FindField(extension, keys[0].0, keys[0].1).value);
    }
  }

  lemma {:induction false} InterlinkFieldsAreFields(extension: seq<Field>, f: Field)
    requires f in InterlinkFields(extension)
    ensures f in extension && f.prefix == INTERLINK_VECTOR_PREFIX
  {
    var init := extension[..|extension| - 1];
    if f in InterlinkFields(init) {
      InterlinkFieldsAreFields(init, f);
    }
  }

  lemma InterlinkKeysAreFound(H: Hash, extension: seq<Field>)
    ensures
      var keys := KeysOf(InterlinkFields(extension));
      var indices := IndicesOfKeys(H, extension, FieldTree(H, extension), keys);
      |indices| == |keys| && Inside(indices, |extension|)
  {
    hide InterlinkFields, IndicesOfKeys;
    var fields := InterlinkFields(extension);
    var keys := KeysOf(fields);
    forall i | 0 <= i < |keys|
      ensures FindField(extension, keys[i].0, keys[i].1).Some?
    {
      InterlinkFieldsAreFields(extension, fields[i]);
    }
    KeysAreFound(H, extension, keys);
  }

  lemma RootIsUnique(H: Hash, p: BatchMerkleProof, root: Digest32, other: Digest32)
    requires BatchValid(H, p, root)
    ensures BatchValid(H, p, other) <==> other == root
  {
  }

  /** Every extension yields a proof of its interlink fields; if there are any, it checks against the extension's root only. */
  lemma VectorProofsCheck(H: Hash, extension: seq<Field>, root: Digest32)
    ensures ProofForInterlinkVector(H, extension).Some?
    ensures InterlinkFields(extension) == []
            ==> ProofForInterlinkVector(H, extension).value == BatchMerkleProof([], [])
    ensures InterlinkFields(extension) != []
            ==> (BatchValid(H, ProofForInterlinkVector(H, extension).value, root)
                 <==> root == RootHash(FieldTree(H, extension)))
  {
    hide InterlinkFields, IndicesOfKeys, BatchValid, RootHash, ProofByIndices, TreeOf, Validate;
    var keys := KeysOf(InterlinkFields(extension));
    InterlinkKeysAreFound(H, extension);
    MultiproofsAreComplete(H, FieldLeaves(H, extension), IndicesOfKeys(H, extension, FieldTree(H, extension), keys));
    if keys != [] {
      RootIsUnique(H, ProofForInterlinkVector(H, extension).value, RootHash(FieldTree(H, extension)), root);
    }
  }

  // ----- Which fields a proof is about -----

  /** The hash of the leaf of field `f`. */
  function FieldHash(H: Hash, f: Field): Digest32 {
    H([0, 2, f.prefix, f.index] + f.value)
  }

  lemma LeafOfField(H: Hash, f: Field)
    ensures FromBytes(H, LeafBytes(f)).hash == FieldHash(H, f)
  {
    assert [LEAF_PREFIX] + LeafBytes(f) == [0, 2, f.prefix, f.index] + f.value;
  }

  /** Position `i` holds an interlink field, the first one with its key. */
  predicate HoldsInterlink(extension: seq<Field>, i: nat) {
    && i < |extension| && extension[i].prefix == INTERLINK_VECTOR_PREFIX
    && forall j :: 0 <= j < i ==> extension[j].prefix != extension[i].prefix || extension[j].index != extension[i].index
  }

  /** Looking up a key finds the first field that has it. */
  lemma {:induction false} FindsTheFirst(extension: seq<Field>, prefix: byte, index: byte) returns (i: nat)
    requires FindField(extension, prefix, index).Some?
    ensures i < |extension| && FindField(extension, prefix, index) == Some(extension[i])
    ensures forall j :: 0 <= j < i ==> extension[j].prefix != prefix || extension[j].index != index
  {
    if extension[0].prefix == prefix && extension[0].index == index {
      i := 0;
    } else {
      i := FindsTheFirst(extension[1..], prefix, index);
      i := i + 1;
    }
  }

  lemma FirstIsFound(extension: seq<Field>, i: nat)
    requires HoldsInterlink(extension, i)
    ensures FindField(extension, extension[i].prefix, extension[i].index) == Some(extension[i])
  {
    assert extension[i] in extension;
    var k := FindsTheFirst(extension, extension[i].prefix, extension[i].index);
    if k < i {
      assert false;
    }
    assert k == i;
  }

  lemma {:induction false} FieldsAreInterlinkFields(extension: seq<Field>, i: nat)
    requires i < |extension| && extension[i].prefix == INTERLINK_VECTOR_PREFIX
    ensures extension[i] in InterlinkFields(extension)
  {
    if i < |extension| - 1 {
      FieldsAreInterlinkFields(extension[..|extension| - 1], i);
    }
  }

  /** The position that the tree gives for a field's leaf. */
  function PositionOf(H: Hash, extension: seq<Field>, f: Field): nat
    requires f in extension
  {
    FieldIsIndexed(H, extension, f);
    LeafOfField(H, f);
    FieldTree(H, extension).elementsHashIndex[FieldHash(H, f)]
  }

  lemma PositionHoldsHash(H: Hash, extension: seq<Field>, f: Field)
    requires f in extension
    ensures
      var i := PositionOf(H, extension, f);
      i < |extension| && FieldHash(H, extension[i]) == FieldHash(H, f)
  {
    hide HashIndex;
    var leaves := FieldLeaves(H, extension);
    var j :| 0 <= j < |extension| && extension[j] == f;
    HashIndexFinds(leaves, j);
    LeafOfField(H, f);
    LeafOfField(H, extension[PositionOf(H, extension, f)]);
  }

  /** The positions for a list of keys, which are all found, are those of the fields found. */
  lemma {:induction false} IndexOfKey(H: Hash, extension: seq<Field>, keys: seq<(byte, byte)>, k: nat)
    requires k < |keys| && FindField(extension, keys[k].0, keys[k].1).Some?
    ensures
      PositionOf(H, extension, FindField(extension, keys[k].0, keys[k].1).value)
      in IndicesOfKeys(H, extension, FieldTree(H, extension), keys)
  {
    hide FieldTree, FindField, FromBytes, FieldHash;
    if k == 0 {
      var f := FindField(extension, keys[0].0, keys[0].1).value;
      FieldIsIndexed(H, extension, f);
      LeafOfField(H, f);
    } else {
      IndexOfKey(H, extension, keys[1..], k - 1);
    }
  }

  lemma {:induction false} KeyOfIndex(H: Hash, extension: seq<Field>, keys: seq<(byte, byte)>, x: nat) returns (k: nat)
    requires x in IndicesOfKeys(H, extension, FieldTree(H, extension), keys)
    ensures k < |keys| && FindField(extension, keys[k].0, keys[k].1).Some?
    ensures x == PositionOf(H, extension, FindField(extension, keys[k].0, keys[k].1).value)
  {
    hide FieldTree, FindField, FromBytes, FieldHash;
    var found := FindField(extension, keys[0].0, keys[0].1);
    if found.Some? {
      FieldIsIndexed(H, extension, found.value);
      LeafOfField(H, found.value);
    }
    if found.Some? && x == PositionOf(H, extension, found.value) {
      k := 0;
    } else {
      k := KeyOfIndex(H, extension, keys[1..], x);
      k := k + 1;
    }
  }

  /** The positions proved are those of the leaves of interlink fields. */
  lemma ProvedPositions(H: Hash, extension: seq<Field>, x: nat)
    ensures
      x in IndicesOfKeys(H, extension, FieldTree(H, extension), KeysOf(InterlinkFields(extension)))
      <==> exists i: nat :: HoldsInterlink(extension, i) && x == PositionOf(H, extension, extension[i])
  {
    hide FieldTree, FindField, IndicesOfKeys, InterlinkFields, PositionOf;
    var fields := InterlinkFields(extension);
    var keys := KeysOf(fields);
    if x in IndicesOfKeys(H, extension, FieldTree(H, extension), keys) {
      var k := KeyOfIndex(H, extension, keys, x);
      assert fields[k] in fields;
      InterlinkFieldsAreFields(extension, fields[k]);
      var i := FindsTheFirst(extension, keys[k].0, keys[k].1);
      assert HoldsInterlink(extension, i);
    }
    if i: nat :| HoldsInterlink(extension, i) && x == PositionOf(H, extension, extension[i]) {
      FieldsAreInterlinkFields(extension, i);
      var k :| 0 <= k < |fields| && fields[k] == extension[i];
      FirstIsFound(extension, i);
      IndexOfKey(H, extension, keys, k);
    }
  }

  lemma EntryHash(H: Hash, extension: seq<Field>, x: nat)
    requires x < |extension|
    ensures HashAt(H, HashesOf(FieldLeaves(H, extension)), 0, x) == FieldHash(H, extension[x])
  {
    LeafOfField(H, extension[x]);
    NodeHashUnfolds(H, HashesOf(FieldLeaves(H, extension)), 0, x);
  }

  /** The entries of a proof for given positions of the extension's tree. */
  lemma EntriesOfPositions(H: Hash, extension: seq<Field>, indices: seq<nat>, p: BatchMerkleProof)
    requires |FieldTree(H, extension).nodes| % 2 == 1 || FieldTree(H, extension).nodes == []
    requires ProofByIndices(FieldTree(H, extension), indices) == Some(p)
    ensures StrictlyAscending(IndicesOf(p.indices)) && Members(IndicesOf(p.indices)) == Members(indices)
    ensures forall e :: e in p.indices ==> e.index < |extension| && e.hash == FieldHash(H, extension[e.index])
  {
    hide TreeOf, Validate, BatchValid, ProofByIndices, SortDedup, Members, FieldHash, HashAt, StrictlyAscending;
    var leaves := FieldLeaves(H, extension);
    MultiproofsAreComplete(H, leaves, indices);
    SortDedupMembers(indices);
    SameRange(indices, |leaves|);
    forall e | e in p.indices
      ensures e.index < |extension| && e.hash == FieldHash(H, extension[e.index])
    {
      var k :| 0 <= k < |p.indices| && p.indices[k] == e;
      assert IndicesOf(p.indices)[k] == e.index && HashesIn(p.indices)[k] == e.hash;
      EntryHash(H, extension, e.index);
    }
  }

  /** An entry for position `x`. */
  ghost predicate HasEntryAt(p: BatchMerkleProof, x: nat) {
    exists k :: 0 <= k < |p.indices| && p.indices[k].index == x
  }

  lemma EntryIffMember(p: BatchMerkleProof, x: nat)
    ensures HasEntryAt(p, x) <==> x in Members(IndicesOf(p.indices))
  {
    if HasEntryAt(p, x) {
      var k :| 0 <= k < |p.indices| && p.indices[k].index == x;
      assert IndicesOf(p.indices)[k] == x;
    }
    if x in Members(IndicesOf(p.indices)) {
      var k :| 0 <= k < |p.indices| && IndicesOf(p.indices)[k] == x;
    }
  }

  /**
   * Every extension: its proof has an entry exactly at the positions the tree gives for the leaves of interlink fields,
   * one for each, and the entry carries the hash of the leaf there.
   */
  lemma VectorProofEntries(H: Hash, extension: seq<Field>, p: BatchMerkleProof, x: nat)
    requires ProofForInterlinkVector(H, extension) == Some(p)
    ensures HasEntryAt(p, x) <==> exists i: nat :: HoldsInterlink(extension, i) && x == PositionOf(H, extension, extension[i])
    ensures StrictlyAscending(IndicesOf(p.indices))
    ensures forall e :: e in p.indices ==> e.index < |extension| && e.hash == FieldHash(H, extension[e.index])
  {
    hide TreeOf, IndicesOfKeys, InterlinkFields, PositionOf, ProofByIndices, FieldHash, HoldsInterlink;
    var keys := KeysOf(InterlinkFields(extension));
    var indices := IndicesOfKeys(H, extension, FieldTree(H, extension), keys);
    ProvedPositions(H, extension, x);
    EntryIffMember(p, x);
    if keys == [] {
      InterlinkKeysAreFound(H, extension);
    } else {
      TreeHasOddLength(H, FieldLeaves(H, extension));
      EntriesOfPositions(H, extension, indices, p);
    }
  }

  ghost predicate DistinctKeys(extension: seq<Field>) {
    forall i, j :: 0 <= i < j < |extension|
                   ==> extension[i].prefix != extension[j].prefix || extension[i].index != extension[j].index
  }

  /** The proof carries the hash of the leaf of `f`, at a position whose leaf has it. */
  ghost predicate Proves(H: Hash, extension: seq<Field>, p: BatchMerkleProof, f: Field) {
    exists k :: 0 <= k < |p.indices| && p.indices[k].hash == FieldHash(H, f)
                && p.indices[k].index < |extension| && FieldHash(H, extension[p.indices[k].index]) == FieldHash(H, f)
  }

  /**
   * With distinct keys, the proof proves every field with the interlink prefix, and each of its entries carries the leaf
   * hash of such a field.
   */
  lemma VectorProofProvesTheFields(H: Hash, extension: seq<Field>, p: BatchMerkleProof)
    requires DistinctKeys(extension) && ProofForInterlinkVector(H, extension) == Some(p)
    ensures forall f :: f in extension && f.prefix == INTERLINK_VECTOR_PREFIX ==> Proves(H, extension, p, f)
    ensures forall e :: e in p.indices
                        ==> && e.index < |extension| && FieldHash(H, extension[e.index]) == e.hash
                            && exists f :: f in extension && f.prefix == INTERLINK_VECTOR_PREFIX && FieldHash(H, f) == e.hash
  {
    hide PositionOf, ProofForInterlinkVector, FieldHash;
    forall f | f in extension && f.prefix == INTERLINK_VECTOR_PREFIX
      ensures Proves(H, extension, p, f)
    {
      var i :| 0 <= i < |extension| && extension[i] == f;
      var x := PositionOf(H, extension, f);
      PositionHoldsHash(H, extension, f);
      assert HoldsInterlink(extension, i);
      VectorProofEntries(H, extension, p, x);
      var k :| 0 <= k < |p.indices| && p.indices[k].index == x;
      assert p.indices[k] in p.indices;
    }
    forall e | e in p.indices
      ensures
        && e.index < |extension| && FieldHash(H, extension[e.index]) == e.hash
        && exists f :: f in extension && f.prefix == INTERLINK_VECTOR_PREFIX && FieldHash(H, f) == e.hash
    {
      VectorProofEntries(H, extension, p, e.index);
      assert HasEntryAt(p, e.index);
      var i: nat :| HoldsInterlink(extension, i) && e.index == PositionOf(H, extension, extension[i]);
      PositionHoldsHash(H, extension, extension[i]);
    }
  }

  /** If the leaf hashes differ as well, the proof has one entry at each position of an interlink field, and no other. */
  lemma OneEntryPerField(H: Hash, extension: seq<Field>, p: BatchMerkleProof, x: nat)
    requires DistinctKeys(extension) && ProofForInterlinkVector(H, extension) == Some(p)
    requires forall i, j :: 0 <= i < j < |extension| ==> FieldHash(H, extension[i]) != FieldHash(H, extension[j])
    ensures StrictlyAscending(IndicesOf(p.indices))
    ensures HasEntryAt(p, x) <==> x < |extension| && extension[x].prefix == INTERLINK_VECTOR_PREFIX
  {
    hide PositionOf, ProofForInterlinkVector, FieldHash, StrictlyAscending;
    VectorProofEntries(H, extension, p, x);
    forall i: nat | HoldsInterlink(extension, i)
      ensures PositionOf(H, extension, extension[i]) == i
    {
      PositionHoldsHash(H, extension, extension[i]);
    }
    if x < |extension| && extension[x].prefix == INTERLINK_VECTOR_PREFIX {
      assert HoldsInterlink(extension, x);
    }
  }

  /** The check compares the root of the interlink fields alone with the root the proof leads to. */
  lemma HonestProofsCompareRoots(H: Hash, p: PoPowHeader, extension: seq<Field>)
    requires PackFrom(p.interlinks, 0) == Success(InterlinkFields(extension))
    requires ProofForInterlinkVector(H, extension) == Some(p.interlinksProof)
    ensures InterlinksProofValid(H, p)
            <==> p.interlinks == [] || RootHash(FieldTree(H, InterlinkFields(extension))) == RootHash(FieldTree(H, extension))
  {
    hide InterlinkFields, BatchValid, RootHash, ProofForInterlinkVector, TreeOf, FieldTree;
    VectorProofsCheck(H, extension, RootHash(FieldTree(H, InterlinkFields(extension))));
    PackedKeysIncrease(p.interlinks, 0);
  }

  lemma LeavesTellFields(H: Hash, f: seq<Field>, g: seq<Field>)
    requires FieldLeaves(H, f) == FieldLeaves(H, g)
    ensures f == g
  {
    var a, b := FieldLeaves(H, f), FieldLeaves(H, g);
    forall i | 0 <= i < |f|
      ensures f[i] == g[i]
    {
      var x, y := LeafBytes(f[i]), LeafBytes(g[i]);
      assert a[i].data == x && b[i].data == y;
      assert x[1] == f[i].prefix && y[1] == g[i].prefix && x[2] == f[i].index && y[2] == g[i].index;
      assert x[3..] == f[i].value && y[3..] == g[i].value;
    }
  }

  /** Without collisions, fields with the same root are the same fields. */
  lemma RootBindsFields(H: Hash, f: seq<Field>, g: seq<Field>)
    requires f != [] && g != [] && RootHash(FieldTree(H, f)) == RootHash(FieldTree(H, g))
    requires TreesDoNotCollide(H, FieldLeaves(H, f), FieldLeaves(H, g))
    ensures f == g
  {
    hide TreeOf, RootHash, TreesDoNotCollide;
    RootBindsLeaves(H, FieldLeaves(H, f), FieldLeaves(H, g));
    LeavesTellFields(H, f, g);
  }

  /**
   * A vector packed into an extension, with the proof taken from that extension: without collisions, the check accepts
   * it exactly when the vector is empty or the extension holds no other fields.
   */
  lemma HonestProofsAccepted(H: Hash, p: PoPowHeader, extension: seq<Field>)
    requires PackFrom(p.interlinks, 0) == Success(InterlinkFields(extension))
    requires ProofForInterlinkVector(H, extension) == Some(p.interlinksProof)
    requires TreesDoNotCollide(H, FieldLeaves(H, InterlinkFields(extension)), FieldLeaves(H, extension))
    ensures InterlinksProofValid(H, p) <==> p.interlinks == [] || InterlinkFields(extension) == extension
  {
    hide InterlinkFields, InterlinksProofValid, RootHash, ProofForInterlinkVector, FieldTree, TreesDoNotCollide;
    HonestProofsCompareRoots(H, p, extension);
    PackedKeysIncrease(p.interlinks, 0);
    var fields := InterlinkFields(extension);
    if p.interlinks != [] && RootHash(FieldTree(H, fields)) == RootHash(FieldTree(H, extension)) {
      assert extension != [] by { FieldsOfNothing(); }
      RootBindsFields(H, fields, extension);
    }
  }

  lemma FieldsOfNothing()
    ensures InterlinkFields([]) == []
  {
  }

  lemma {:induction false} AllInterlinkFields(fields: seq<Field>)
    requires forall i :: 0 <= i < |fields| ==> fields[i].prefix == INTERLINK_VECTOR_PREFIX
    ensures InterlinkFields(fields) == fields
  {
    if fields != [] {
      AllInterlinkFields(fields[..|fields| - 1]);
      assert fields == fields[..|fields| - 1] + [fields[|fields| - 1]];
    }
  }

  /** One field of another kind is enough for the proof to be rejected. */
  lemma OneMoreFieldIsRejected(H: Hash, p: PoPowHeader, fields: seq<Field>, other: Field)
    requires p.interlinks != [] && PackFrom(p.interlinks, 0) == Success(fields)
    requires other.prefix != INTERLINK_VECTOR_PREFIX
    requires ProofForInterlinkVector(H, fields + [other]) == Some(p.interlinksProof)
    requires TreesDoNotCollide(H, FieldLeaves(H, fields), FieldLeaves(H, fields + [other]))
    ensures !InterlinksProofValid(H, p)
  {
    hide InterlinksProofValid, ProofForInterlinkVector, TreesDoNotCollide;
    var extension := fields + [other];
    PackedKeysIncrease(p.interlinks, 0);
    AllInterlinkFields(fields);
    assert extension[..|extension| - 1] == fields;
    HonestProofsAccepted(H, p, extension);
  }

  // ----- A rejected extension, for a hash that tells the two roots apart -----

  function LengthHash(bytes: seq<byte>): Digest32 {
    if |bytes| < 100 then |bytes| else 100
  }

  lemma SmallRoots(leaves: seq<MerkleNode>)
    requires AllLeaves(leaves) && 1 <= |leaves| <= 2
    ensures RootHash(TreeOf(LengthHash, leaves)) == if |leaves| == 1 then 33 else 65
  {
    hide TreeOf;
    assert LeafSlots(|leaves|) == 2 && Depth(2) == 1;
    RootNode(LengthHash, leaves);
    NodeHashUnfolds(LengthHash, HashesOf(leaves), 1, 0);
  }

  /** The interlink vector holding one id, in an extension with one other field: the honest proof is rejected. */
  lemma RejectedExtension(p: PoPowHeader, id: BlockId)
    requires p.interlinks == [id]
    requires ProofForInterlinkVector(LengthHash, [RunField([id], 0, 1), Field(0, 0, [])]) == Some(p.interlinksProof)
    ensures !InterlinksProofValid(LengthHash, p)
  {
    var f, other := RunField([id], 0, 1), Field(0, 0, []);
    var extension := [f, other];
    assert extension[..1] == [f] && [f][..0] == [];
    assert InterlinkFields([f]) == [f] && InterlinkFields(extension) == [f];
    assert PackFrom([id], 0) == Success([f]) by {
      assert PackFrom([id], 1) == Success([]);
      assert [f] + [] == [f];
    }
    hide InterlinksProofValid, ProofForInterlinkVector, InterlinkFields, PackFrom;
    HonestProofsCompareRoots(LengthHash, p, extension);
    SmallRoots(FieldLeaves(LengthHash, [f]));
    SmallRoots(FieldLeaves(LengthHash, extension));
  }

  // ----- A vector's own proof -----

  /** The proof that goes with a vector whose fields make up the whole extension. */
  ghost predicate CarriesOwnProof(H: Hash, p: PoPowHeader) {
    match PackFrom(p.interlinks, 0)
    case Failure(_) => false
    case Success(fields) => ProofForInterlinkVector(H, fields) == Some(p.interlinksProof)
  }

  lemma OwnProofsAccepted(H: Hash, p: PoPowHeader)
    requires CarriesOwnProof(H, p)
    ensures InterlinksProofValid(H, p)
  {
    hide InterlinkFields, InterlinksProofValid, ProofForInterlinkVector, FieldTree;
    PackedKeysIncrease(p.interlinks, 0);
    AllInterlinkFields(PackFrom(p.interlinks, 0).value);
    HonestProofsCompareRoots(H, p, PackFrom(p.interlinks, 0).value);
  }

  // ----- What an accepted proof says -----

  /** Without collisions, an accepted proof carries only hashes of nodes of the tree over the vector's own fields. */
  lemma AcceptedProofsAreSound(H: Hash, p: PoPowHeader)
    requires InterlinksProofValid(H, p) && p.interlinks != [] && AtMostTwoPerParent(p.interlinksProof.indices)
    requires NoBatchCollisions(H, FieldLeaves(H, PackFrom(p.interlinks, 0).value), p.interlinksProof)
    ensures
      var leaves := FieldLeaves(H, PackFrom(p.interlinks, 0).value);
      && NodesOfTree(H, leaves, p.interlinksProof.proofs)
      && forall i :: 0 <= i < |p.interlinksProof.indices|
                     ==> IsNodeHash(H, leaves, p.interlinksProof.indices[i].hash)
  {
    hide NoBatchCollisions, BatchValid, TreeOf, RootHash, IsNodeHash, PackFrom, AtMostTwoPerParent;
    PackedKeysIncrease(p.interlinks, 0);
    MultiproofsAreSound(H, FieldLeaves(H, PackFrom(p.interlinks, 0).value), p.interlinksProof);
  }

  lemma EmptyProofHasNoRoot(H: Hash, root: Digest32)
    ensures !BatchValid(H, BatchMerkleProof([], []), root)
  {
    assert SortByIndex([]) == [] && IndicesOf([]) == [] && HashesIn([]) == [];
    NothingToCheck(H, []);
  }

  /** Without collisions, one proof is accepted for one vector only: a vector cannot be exchanged under its proof. */
  lemma ProofFixesTheVector(H: Hash, p: PoPowHeader, q: PoPowHeader)
    requires InterlinksProofValid(H, p) && InterlinksProofValid(H, q) && p.interlinksProof == q.interlinksProof
    requires p.interlinks != [] && q.interlinks != []
             ==> TreesDoNotCollide(
                   H, FieldLeaves(H, PackFrom(p.interlinks, 0).value), FieldLeaves(H, PackFrom(q.interlinks, 0).value))
    ensures p.interlinks == q.interlinks
  {
    hide BatchValid, TreeOf, RootHash, PackFrom, TreesDoNotCollide;
    if p.interlinks == [] && q.interlinks != [] {
      EmptyProofHasNoRoot(H, RootHash(FieldTree(H, PackFrom(q.interlinks, 0).value)));
    } else if p.interlinks != [] && q.interlinks == [] {
      EmptyProofHasNoRoot(H, RootHash(FieldTree(H, PackFrom(p.interlinks, 0).value)));
    } else if p.interlinks != [] {
      var f, g := PackFrom(p.interlinks, 0).value, PackFrom(q.interlinks, 0).value;
      RootIsUnique(H, p.interlinksProof, RootHash(FieldTree(H, f)), RootHash(FieldTree(H, g)));
      PackedKeysIncrease(p.interlinks, 0);
      PackedKeysIncrease(q.interlinks, 0);
      RootBindsFields(H, f, g);
      UnpackOfPacked(p.interlinks, 0);
      UnpackOfPacked(q.interlinks, 0);
      assert p.interlinks[0..] == p.interlinks && q.interlinks[0..] == q.interlinks;
    }
  }
}
