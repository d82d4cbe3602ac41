/** Merkle nodes and the two kinds of Merkle proof, with the prefixed hashing they share. */
module MerkleTypes {
  import opened Wrappers
  import opened ChainTypes
  import opened Division

  /** The 256-bit hash function; nothing but its type is assumed. */
  type Hash = seq<byte> -> Digest32

  const LEAF_PREFIX: byte := 0
  const INTERNAL_PREFIX: byte := 1

  function PrefixedHash(H: Hash, prefix: byte, data: seq<byte>): Digest32 {
    H([prefix] + data)
  }

  /** The `n` low-order bytes of `v`, most significant first. */
  function BigEndian(v: nat, n: nat): (bytes: seq<byte>)
    ensures |bytes| == n
  {
    if n == 0 then [] else BigEndian(v / 0x100, n - 1) + [v % 0x100]
  }

  function FromBigEndian(bytes: seq<byte>): nat {
    if bytes == [] then 0 else FromBigEndian(bytes[..|bytes| - 1]) * 0x100 + bytes[|bytes| - 1]
  }

  function Pow256(n: nat): (p: nat)
    ensures p >= 1
  {
    if n == 0 then 1 else 0x100 * Pow256(n - 1)
  }

  lemma {:induction false} FromBigEndianBound(bytes: seq<byte>)
    ensures FromBigEndian(bytes) < Pow256(|bytes|)
  {
    if bytes != [] {
      FromBigEndianBound(bytes[..|bytes| - 1]);
    }
  }

  lemma {:induction false} BigEndianRoundTrip(v: nat, n: nat)
    requires v < Pow256(n)
    ensures FromBigEndian(BigEndian(v, n)) == v
  {
    if n > 0 {
      BigEndianRoundTrip(v / 0x100, n - 1);
      var bytes := BigEndian(v, n);
      assert bytes[..n - 1] == BigEndian(v / 0x100, n - 1);
    }
  }

  lemma Pow256Of32()
    ensures Pow256(32) == 0x1_0000000000000000_0000000000000000_0000000000000000_0000000000000000
  {
    assert Pow256(4) == 0x1_0000_0000;
    assert Pow256(8) == 0x1_0000000000000000;
    assert Pow256(12) == 0x1_0000_0000_0000000000000000;
    assert Pow256(16) == 0x1_0000000000000000_0000000000000000;
    assert Pow256(20) == 0x1_0000_0000_0000000000000000_0000000000000000;
    assert Pow256(24) == 0x1_0000000000000000_0000000000000000_0000000000000000;
    assert Pow256(28) == 0x1_0000_0000_0000000000000000_0000000000000000_0000000000000000;
  }

  function BytesOf(d: Digest32): (bytes: seq<byte>)
    ensures |bytes| == 32
  {
    BigEndian(d, 32)
  }

  lemma QuotientTwice(v: nat, p: nat)
    requires p > 0
    ensures v / 0x100 / p == v / (0x100 * p)
  {
    var q, r := v / 0x100 / p, v / 0x100 % p;
    DivMod(v, 0x100);
    DivMod(v / 0x100, p);
    assert v == q * (0x100 * p) + (0x100 * r + v % 0x100);
    DivModIs(v, 0x100 * p, q, 0x100 * r + v % 0x100);
  }

  /** Byte `i` from the front. */
  lemma {:induction false} BigEndianAt(v: nat, n: nat, i: nat)
    requires i < n
    ensures BigEndian(v, n)[i] == v / Pow256(n - 1 - i) % 0x100
  {
    if i == n - 1 {
      assert Pow256(0) == 1;
    } else {
      BigEndianAt(v / 0x100, n - 1, i);
      QuotientTwice(v, Pow256(n - 2 - i));
    }
  }

  lemma ByteOfDigest(d: Digest32, i: nat)
    requires i < 32
    ensures BytesOf(d)[i] == d / Pow256(31 - i) % 0x100
  {
    BigEndianAt(d, 32, i);
  }

  /** The digest spelled by 32 bytes. */
  function DigestOf(bytes: seq<byte>): Digest32
    requires |bytes| == 32
  {
    FromBigEndianBound(bytes);
    Pow256Of32();
    FromBigEndian(bytes)
  }

  lemma DigestRoundTrip(d: Digest32)
    ensures DigestOf(BytesOf(d)) == d
  {
    Pow256Of32();
    BigEndianRoundTrip(d, 32);
  }

  lemma BytesOfInjective(d: Digest32, e: Digest32)
    requires BytesOf(d) == BytesOf(e)
    ensures d == e
  {
    DigestRoundTrip(d);
    DigestRoundTrip(e);
  }

  function OrEmpty(data: Option<Digest32>): seq<byte> {
    match data
    case Some(d) => BytesOf(d)
    case None => []
  }

  function PrefixedHash2(H: Hash, prefix: byte, data: Option<Digest32>, data2: Option<Digest32>): Digest32 {
    H([prefix] + OrEmpty(data) + OrEmpty(data2))
  }

  datatype NodeSide = Left | Right

  datatype LevelNode = LevelNode(hash: Option<Digest32>, side: NodeSide)

  datatype MerkleProof = MerkleProof(leafData: seq<byte>, levels: seq<LevelNode>)

  datatype BatchMerkleProofIndex = BatchMerkleProofIndex(index: nat, hash: Digest32)

  datatype BatchMerkleProof = BatchMerkleProof(indices: seq<BatchMerkleProofIndex>, proofs: seq<LevelNode>)

  datatype MerkleNode = Node(hash: Digest32) | Leaf(hash: Digest32, data: seq<byte>) | EmptyNode {

    function GetHash(): Option<Digest32> {
      if EmptyNode? then None else Some(hash)
    }
  }

  function FromBytes(H: Hash, data: seq<byte>): MerkleNode {
    Leaf(PrefixedHash(H, LEAF_PREFIX, data), data)
  }
}
