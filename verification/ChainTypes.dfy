/** Bytes, digests, block ids and headers. */
module ChainTypes {
  import opened Wrappers
  import Superchain

  type byte = x: int | 0 <= x < 0x100
  type u32 = x: int | 0 <= x < 0x1_0000_0000
  type i32 = x: int | -0x8000_0000 <= x < 0x8000_0000

  const U32_MAX: int := 0xffff_ffff
  const I32_MAX: int := Superchain.MAX_LEVEL

  /** A 32-byte digest, as the number its bytes spell in big-endian order. */
  type Digest32 = d: nat | d < 0x1_0000000000000000_0000000000000000_0000000000000000_0000000000000000

  datatype BlockId = BlockId(digest: Digest32)

  /**
   * A block header.  `powLevel` stands for what the difficulty target and the proof-of-work hit
   * give when compared (`None` when the hit cannot be computed); `payload` for the serialized
   * fields that no operation here inspects.
   */
  datatype Header = Header(id: BlockId, parentId: BlockId, height: u32, powLevel: Option<i32>, payload: nat)
}
