/**
 * The compact form of difficulty targets: one byte of size, then the three leading bytes of the number in
 * signed big-endian form.
 */
module CompactBits {
  import opened ChainTypes
  import opened MerkleTypes
  import opened Division

  // ----- Decoding -----

  /** Byte `i` of the mantissa, highest first; zeros follow. */
  function MantissaByte(nBits: u32, i: nat): byte {
    if i == 0 then nBits / 0x1_0000 % 0x100
    else if i == 1 then nBits / 0x100 % 0x100
    else if i == 2 then nBits % 0x100
    else 0
  }

  /** As many bytes as `size` says. */
  function Buffer(nBits: u32, size: nat): (buf: seq<byte>)
    ensures |buf| == size
    ensures forall i :: 0 <= i < size ==> buf[i] == MantissaByte(nBits, i)
  {
    seq(size, i requires 0 <= i < size => MantissaByte(nBits, i))
  }

  /** The number a compact form stands for; the top bit of the mantissa is its sign. */
  function Decode(nBits: u32): int {
    var size := nBits / 0x100_0000;
    var buf := Buffer(nBits, size);
    if size == 0 then 0
    else if buf[0] >= 0x80 then 0 - FromBigEndian(buf[0 := buf[0] - 0x80])
    else FromBigEndian(buf)
  }

  method DecodeCompactBits(nBits: u32) returns (n: int)
    ensures n == Decode(nBits)
  {
    var size := nBits / 0x100_0000;
    if size == 0 { return 0; }
    var buf := new byte[size](_ => 0);
    if size >= 1 {
      buf[0] := MantissaByte(nBits, 0);
    }
    if size >= 2 {
      buf[1] := MantissaByte(nBits, 1);
    }
    if size >= 3 {
      buf[2] := MantissaByte(nBits, 2);
    }
    assert forall i :: 0 <= i < size ==> buf[i] == MantissaByte(nBits, i);
    hide MantissaByte;
    assert buf[..] == Buffer(nBits, size);
    var isNegative := buf[0] >= 0x80;
    if isNegative {
      ghost var before := buf[..];
      buf[0] := buf[0] - 0x80;
      assert buf[..] == before[0 := before[0] - 0x80];
      n := 0 - FromBigEndian(buf[..]);
    } else {
      n := FromBigEndian(buf[..]);
    }
  }

  // ----- Encoding -----

  /** The number of bytes of the signed big-endian form of a non-negative number. */
  function SignedSize(n: nat): (size: nat)
    ensures size >= 1 && n < 0x80 * Pow256(size - 1)
    ensures size >= 2 ==> n >= 0x80 * Pow256(size - 2)
  {
    if n < 0x80 then 1 else 1 + SignedSize(n / 0x100)
  }

  /** The three leading bytes of the signed form, zeros appended if there are fewer. */
  function Mantissa(n: nat): nat {
    var size := SignedSize(n);
    if size < 3 then n * Pow256(3 - size) else n / Pow256(size - 3)
  }

  /** The compact form of a non-negative number. */
  function Encode(n: nat): nat {
    SignedSize(n) * 0x100_0000 + Mantissa(n)
  }

  /** The number of bytes of the two's complement form. */
  function SizeOf(n: int): nat {
    if n >= 0 then SignedSize(n) else SignedSize(-n - 1)
  }

  /** The three leading bytes of the two's complement form, as a signed number; division rounds down, as the shift does. */
  function SignedMantissa(n: int): int {
    var size := SizeOf(n);
    if size < 3 then n * Pow256(3 - size) else n / Pow256(size - 3)
  }

  /** What the encoder returns for any number: for a negative one, two bytes of mantissa and no size. */
  function EncodeAny(n: int): int {
    if n >= 0 then Encode(n) else SignedMantissa(n) / 0x100
  }

  /** Division by `p` keeps bounds that are multiples of `p`. */
  lemma DivideBounds(n: nat, k: int, p: nat)
    requires p > 0
    ensures n < k * p <==> n / p < k
    ensures n / p * p <= n < n / p * p + p
    ensures (n / p * p) / p == n / p
  {
    DivMod(n, p);
    if k <= n / p {
      TimesMonotone(k, n / p, p);
    } else {
      TimesMonotone(n / p + 1, k, p);
      assert (n / p + 1) * p == n / p * p + p;
    }
    DivMod(n / p * p, p);
    DivisionIsUnique(p, (n / p * p) / p, (n / p * p) % p, n / p, 0);
  }

  lemma Pow256Of(k: nat)
    requires k >= 3
    ensures Pow256(k - 1) == 0x1_0000 * Pow256(k - 3)
    ensures Pow256(k - 2) == 0x100 * Pow256(k - 3)
  {
  }

  lemma SmallPowers()
    ensures Pow256(0) == 1 && Pow256(1) == 0x100 && Pow256(2) == 0x1_0000
  {
  }

  /** The sign bit of the mantissa is never set. */
  lemma MantissaBound(n: nat)
    ensures Mantissa(n) < 0x80_0000
  {
    var size := SignedSize(n);
    SmallPowers();
    if size >= 3 {
      Pow256Of(size);
      hide Pow256, SignedSize;
      DivideBounds(n, 0x80_0000, Pow256(size - 3));
    }
  }

  lemma SignedMantissaBound(n: int)
    requires n < 0
    ensures -0x80_0000 <= SignedMantissa(n) <= -1
  {
    var size := SizeOf(n);
    SmallPowers();
    if size >= 3 {
      Pow256Of(size);
      hide Pow256, SignedSize;
      var p: int := Pow256(size - 3);
      assert n >= -0x80_0000 * p;
      FloorBounds(n, -0x80_0000, p);
      FloorBounds(n, 0, p);
    }
  }

  method EncodeCompactBits(n: int) returns (result: int)
    ensures result == EncodeAny(n)
  {
    hide SignedSize, Pow256;
    var size := SizeOf(n);
    if size < 3 {
      result := n * Pow256(3 - size);
    } else {
      result := n / Pow256(size - 3);
    }
    if n >= 0 {
      MantissaBound(n);
    } else {
      SignedMantissaBound(n);
    }
    if result / 0x80_0000 % 2 != 0 {
      result := result / 0x100;
      size := size + 1;
    }
    if result / 0x100_0000 == 0 {
      // No bit above the mantissa is set, so setting the size there is adding it.
      result := result + size * 0x100_0000;
    } else {
      // All bits above the mantissa, and its sign bit, are set already.
      assert result / 0x100_0000 == -1 && result / 0x80_0000 % 2 == 1;
    }
  }

  // ----- Round trip -----

  /** `n` with all but the leading three bytes of its signed form cleared. */
  function Keep3(n: nat): nat {
    var size := SignedSize(n);
    if size < 3 then n else n / Pow256(size - 3) * Pow256(size - 3)
  }

  /** 2^2039: from here on the size takes more than one byte. */
  function Limit(): nat {
    0x80 * Pow256(254)
  }

  lemma AppendZero(s: seq<byte>)
    ensures FromBigEndian(s + [0]) == FromBigEndian(s) * 0x100
  {
    assert (s + [0])[..|s|] == s;
  }

  lemma Regroup(v: nat, k: nat)
    requires k >= 1
    ensures v * Pow256(k - 1) * 0x100 == v * Pow256(k)
  {
    var p := Pow256(k - 1);
    assert Pow256(k) == 0x100 * p;
    hide Pow256;
    assert v * p * 0x100 == v * (0x100 * p);
  }

  lemma {:induction false} ZerosShift(s: seq<byte>, k: nat)
    ensures FromBigEndian(s + seq(k, _ => 0)) == FromBigEndian(s) * Pow256(k)
  {
    var zeros: seq<byte> := seq(k, _ => 0);
    if k == 0 {
      SmallPowers();
      hide FromBigEndian, Pow256;
      assert s + zeros == s;
    } else {
      hide FromBigEndian, Pow256;
      var fewer: seq<byte> := seq(k - 1, _ => 0);
      ZerosShift(s, k - 1);
      assert s + zeros == s + fewer + [0];
      AppendZero(s + fewer);
      Regroup(FromBigEndian(s), k);
    }
  }

  lemma ThreeBytes(a: byte, b: byte, c: byte)
    ensures FromBigEndian([a]) == a
    ensures FromBigEndian([a, b]) == a * 0x100 + b
    ensures FromBigEndian([a, b, c]) == a * 0x1_0000 + b * 0x100 + c
  {
    assert [a][..0] == [];
    assert [a, b][..1] == [a];
    assert [a, b, c][..2] == [a, b];
  }

  lemma {:induction false} Pow256Monotone(a: nat, b: nat)
    requires a <= b
    ensures Pow256(a) <= Pow256(b)
  {
    if a < b {
      Pow256Monotone(a, b - 1);
    }
  }

  /** The size is determined by its bounds. */
  lemma SizeIs(n: nat, size: nat)
    requires size >= 1 && n < 0x80 * Pow256(size - 1) && (size >= 2 ==> n >= 0x80 * Pow256(size - 2))
    ensures SignedSize(n) == size
  {
    hide Pow256;
    var other := SignedSize(n);
    if other < size {
      Pow256Monotone(other - 1, size - 2);
    } else if size < other {
      Pow256Monotone(size - 1, other - 2);
    }
  }

  lemma SizeMonotone(n: nat, m: nat)
    requires n <= m
    ensures SignedSize(n) <= SignedSize(m)
  {
    hide Pow256;
    var a, b := SignedSize(n), SignedSize(m);
    if b < a {
      Pow256Monotone(b - 1, a - 2);
    }
  }

  lemma SizeFits(n: nat, k: nat)
    requires k >= 1
    ensures SignedSize(n) <= k <==> n < 0x80 * Pow256(k - 1)
  {
    hide Pow256;
    var size := SignedSize(n);
    if size <= k {
      Pow256Monotone(size - 1, k - 1);
    } else {
      Pow256Monotone(k - 1, size - 2);
    }
  }

  lemma SizeFitsIff(n: nat)
    ensures SignedSize(n) <= 255 <==> n < Limit()
  {
    hide Pow256, SignedSize;
    SizeFits(n, 255);
  }

  lemma BytesOfMantissa(size: nat, mantissa: int)
    requires size <= 255 && 0 <= mantissa < 0x80_0000
    ensures
      var nBits: u32 := size * 0x100_0000 + mantissa;
      && nBits / 0x100_0000 == size
      && MantissaByte(nBits, 0) == mantissa / 0x1_0000 < 0x80
      && MantissaByte(nBits, 1) == mantissa / 0x100 % 0x100
      && MantissaByte(nBits, 2) == mantissa % 0x100
  {
    var nBits: u32 := size * 0x100_0000 + mantissa;
    var high, mid := mantissa / 0x1_0000, mantissa / 0x100;
    DivMod(mantissa, 0x1_0000);
    DivMod(mantissa, 0x100);
    DivModIs(nBits, 0x100_0000, size, mantissa);
    DivModIs(nBits, 0x1_0000, size * 0x100 + high, mantissa % 0x1_0000);
    DivModIs(size * 0x100 + high, 0x100, size, high);
    DivModIs(nBits, 0x100, size * 0x1_0000 + mid, mantissa % 0x100);
    DivMod(mid, 0x100);
    DivModIs(size * 0x1_0000 + mid, 0x100, size * 0x100 + mid / 0x100, mid % 0x100);
  }

  /** What decoding makes of a size and a mantissa without sign. */
  lemma DecodeParts(size: nat, mantissa: nat)
    requires 1 <= size <= 255 && mantissa < 0x80_0000
    ensures size * 0x100_0000 + mantissa <= U32_MAX
    ensures Decode(size * 0x100_0000 + mantissa)
            == if size == 1 then mantissa / 0x1_0000
               else if size == 2 then mantissa / 0x100
               else mantissa * Pow256(size - 3)
  {
    var nBits: u32 := size * 0x100_0000 + mantissa;
    hide Pow256, MantissaByte, FromBigEndian, Buffer;
    var a: byte, b: byte, c: byte := MantissaByte(nBits, 0), MantissaByte(nBits, 1), MantissaByte(nBits, 2);
    ThreeBytes(a, b, c);
    BytesOfMantissa(size, mantissa);
    BufferIs(nBits, size);
    var value := FromBigEndian(Buffer(nBits, size));
    assert Decode(nBits) == value;
    if size >= 3 {
      ZerosShift([a, b, c], size - 3);
      ByteSum(mantissa);
    } else if size == 2 {
      ByteSum(mantissa);
    }
  }

  lemma ByteSum(mantissa: int)
    requires 0 <= mantissa < 0x100_0000
    ensures mantissa / 0x1_0000 * 0x1_0000 + mantissa / 0x100 % 0x100 * 0x100 + mantissa % 0x100 == mantissa
    ensures mantissa / 0x1_0000 * 0x100 + mantissa / 0x100 % 0x100 == mantissa / 0x100
  {
  }

  lemma BufferIs(nBits: u32, size: nat)
    requires size >= 1
    ensures Buffer(nBits, size)[0] == MantissaByte(nBits, 0)
    ensures size == 1 ==> Buffer(nBits, size) == [MantissaByte(nBits, 0)]
    ensures size == 2 ==> Buffer(nBits, size) == [MantissaByte(nBits, 0), MantissaByte(nBits, 1)]
    ensures size >= 3 ==> Buffer(nBits, size)
                          == [MantissaByte(nBits, 0), MantissaByte(nBits, 1), MantissaByte(nBits, 2)] + seq(size - 3, _ => 0)
  {
  }

  /** Below 2^2039, decoding the encoding keeps the leading three signed bytes and clears the rest. */
  lemma DecodeOfEncode(n: nat)
    requires n < Limit()
    ensures Encode(n) <= U32_MAX && Decode(Encode(n)) == Keep3(n)
  {
    SmallPowers();
    hide Decode, SignedSize, Pow256;
    SizeFitsIff(n);
    MantissaBound(n);
    DecodeParts(SignedSize(n), Mantissa(n));
    if SignedSize(n) == 1 {
      assert n * 0x1_0000 / 0x1_0000 == n;
    } else if SignedSize(n) == 2 {
      assert n * 0x100 / 0x100 == n;
    }
  }

  /** What is cleared: nothing up to three bytes, else less than one unit of the lowest byte kept. */
  lemma Keep3Bounds(n: nat)
    ensures Keep3(n) <= n
    ensures n < 0x80_0000 ==> Keep3(n) == n
    ensures SignedSize(n) >= 3 ==> n - Keep3(n) < Pow256(SignedSize(n) - 3)
  {
    var size := SignedSize(n);
    SmallPowers();
    hide Pow256, SignedSize;
    if size >= 3 {
      DivideBounds(n, 0, Pow256(size - 3));
      if n < 0x80_0000 {
        SizeMonotone(n, 0x7f_ffff);
        SizeIs(0x7f_ffff, 3);
        assert n / 1 * 1 == n;
      }
    }
  }

  lemma Keep3Size(n: nat)
    ensures SignedSize(Keep3(n)) == SignedSize(n)
    ensures Mantissa(Keep3(n)) == Mantissa(n)
  {
    var size := SignedSize(n);
    if size >= 3 {
      Pow256Of(size);
      hide Pow256, SignedSize;
      var p := Pow256(size - 3);
      DivideBounds(n, 0x8000, p);
      assert n / p >= 0x8000;
      TimesMonotone(0x8000, n / p, p);
      SizeIs(n / p * p, size);
    }
  }

  /** Encoding what was decoded gives the same compact form. */
  lemma ReencodeIsStable(n: nat)
    ensures Encode(Keep3(n)) == Encode(n)
  {
    Keep3Size(n);
  }

  lemma DivideMonotone(n: nat, m: nat, p: nat)
    requires p > 0 && n <= m
    ensures n / p <= m / p
  {
    DivideBounds(m, m / p + 1, p);
    DivideBounds(n, m / p + 1, p);
  }

  /** A larger number never has a smaller compact form. */
  lemma EncodeMonotone(n: nat, m: nat)
    requires n <= m
    ensures Encode(n) <= Encode(m)
  {
    SizeMonotone(n, m);
    MantissaBound(n);
    var size := SignedSize(n);
    hide SignedSize, Pow256;
    if SignedSize(m) == size {
      if size < 3 {
        TimesMonotone(n, m, Pow256(3 - size));
      } else {
        DivideMonotone(n, m, Pow256(size - 3));
      }
    }
  }

  // ----- Beyond the limit -----

  lemma {:induction false} LeadingByteBounds(bytes: seq<byte>)
    requires bytes != [] && bytes[0] < 0x80
    ensures FromBigEndian(bytes) < 0x80 * Pow256(|bytes| - 1)
  {
    if |bytes| == 1 {
      ThreeBytes(bytes[0], 0, 0);
      assert bytes == [bytes[0]];
      SmallPowers();
    } else {
      LeadingByteBounds(bytes[..|bytes| - 1]);
    }
  }

  /** Size, sign and magnitude of the number a compact form stands for. */
  function MagnitudeOf(size: nat, mantissa: nat): nat {
    if size == 0 then 0
    else if size == 1 then mantissa / 0x1_0000
    else if size == 2 then mantissa / 0x100
    else mantissa * Pow256(size - 3)
  }

  lemma SignSplits(nBits: u32)
    ensures
      var size, mantissa := nBits / 0x100_0000, nBits % 0x80_0000;
      nBits == size * 0x100_0000 + nBits / 0x80_0000 % 2 * 0x80_0000 + mantissa
  {
  }

  lemma BytesWithSign(size: nat, mantissa: int)
    requires size <= 255 && 0 <= mantissa < 0x80_0000
    ensures
      var nBits: u32 := size * 0x100_0000 + 0x80_0000 + mantissa;
      && nBits / 0x100_0000 == size
      && MantissaByte(nBits, 0) == mantissa / 0x1_0000 + 0x80
      && MantissaByte(nBits, 1) == mantissa / 0x100 % 0x100
      && MantissaByte(nBits, 2) == mantissa % 0x100
  {
    var nBits: u32 := size * 0x100_0000 + 0x80_0000 + mantissa;
    var high, mid := mantissa / 0x1_0000, mantissa / 0x100;
    DivMod(mantissa, 0x1_0000);
    DivMod(mantissa, 0x100);
    DivModIs(nBits, 0x100_0000, size, 0x80_0000 + mantissa);
    DivModIs(nBits, 0x1_0000, size * 0x100 + 0x80 + high, mantissa % 0x1_0000);
    DivModIs(size * 0x100 + 0x80 + high, 0x100, size, 0x80 + high);
    DivModIs(nBits, 0x100, size * 0x1_0000 + 0x8000 + mid, mantissa % 0x100);
    DivMod(mid, 0x100);
    DivModIs(size * 0x1_0000 + 0x8000 + mid, 0x100, size * 0x100 + 0x80 + mid / 0x100, mid % 0x100);
  }

  /** Taking the sign bit away changes the first byte only. */
  lemma WithoutSign(nBits: u32)
    requires nBits / 0x80_0000 % 2 == 1
    ensures
      var positive := nBits - 0x80_0000;
      && positive >= 0 && positive / 0x100_0000 == nBits / 0x100_0000
      && MantissaByte(nBits, 0) == MantissaByte(positive, 0) + 0x80
      && MantissaByte(nBits, 1) == MantissaByte(positive, 1) && MantissaByte(nBits, 2) == MantissaByte(positive, 2)
  {
    var size, mantissa := nBits / 0x100_0000, nBits % 0x80_0000;
    SignSplits(nBits);
    assert nBits == size * 0x100_0000 + 0x80_0000 + mantissa;
    hide MantissaByte;
    BytesOfMantissa(size, mantissa);
    BytesWithSign(size, mantissa);
  }

  lemma DecodeNegated(nBits: u32)
    requires nBits / 0x80_0000 % 2 == 1
    ensures nBits >= 0x80_0000 && Decode(nBits) == -Decode(nBits - 0x80_0000)
  {
    WithoutSign(nBits);
    var positive: u32, size := nBits - 0x80_0000, nBits / 0x100_0000;
    if size > 0 {
      var buf, plain := Buffer(nBits, size), Buffer(positive, size);
      assert forall i :: i >= 3 ==> MantissaByte(nBits, i) == MantissaByte(positive, i) == 0;
      hide MantissaByte, FromBigEndian;
      assert buf[0 := buf[0] - 0x80] == plain;
      assert Decode(positive) == FromBigEndian(plain);
    }
  }

  /** Every compact form: bit 23 is the sign, the 23 bits below it are shifted to the given size in bytes. */
  lemma DecodeIs(nBits: u32)
    ensures
      var magnitude: int := MagnitudeOf(nBits / 0x100_0000, nBits % 0x80_0000);
      Decode(nBits) == if nBits / 0x80_0000 % 2 == 1 then -magnitude else magnitude
  {
    var size, mantissa := nBits / 0x100_0000, nBits % 0x80_0000;
    SignSplits(nBits);
    hide Decode, Pow256;
    if nBits / 0x80_0000 % 2 == 1 {
      DecodeNegated(nBits);
    }
    if size == 0 {
      DecodeOfNoBytes(mantissa);
    } else {
      DecodeParts(size, mantissa);
    }
  }

  lemma DecodeOfNoBytes(nBits: u32)
    requires nBits < 0x100_0000
    ensures Decode(nBits) == 0
  {
  }

  lemma DecodedBelowLimit(nBits: u32)
    ensures Decode(nBits) < Limit()
  {
    var size := nBits / 0x100_0000;
    hide Pow256, FromBigEndian, Buffer;
    if size >= 1 {
      var buf := Buffer(nBits, size);
      if buf[0] < 0x80 {
        LeadingByteBounds(buf);
        Pow256Monotone(size - 1, 254);
      }
    }
  }

  /** The encoder's size is the least number of bytes that leaves room for a sign, and the mantissa its three leading ones. */
  lemma EncodeIs(n: nat, size: nat)
    requires size >= 1 && n < 0x80 * Pow256(size - 1) && (size >= 2 ==> n >= 0x80 * Pow256(size - 2))
    ensures Encode(n) / 0x100_0000 == size
    ensures Encode(n) % 0x100_0000 == if size < 3 then n * Pow256(3 - size) else n / Pow256(size - 3)
  {
    hide SignedSize, Pow256;
    SizeIs(n, size);
    MantissaBound(n);
    DivModIs(Encode(n), 0x100_0000, size, Mantissa(n));
  }

  /** Cut to 32 bits, the compact form gives the leading bytes back exactly for the numbers below 2^2039. */
  lemma RoundTripIff(n: nat)
    ensures Decode(Encode(n) % 0x1_0000_0000) == Keep3(n) <==> n < Limit()
  {
    hide Decode, Encode, SignedSize, Mantissa, Keep3, Limit;
    if n < Limit() {
      DecodeOfEncode(n);
    } else {
      DecodedBelowLimit(Encode(n) % 0x1_0000_0000);
      Keep3Size(n);
      SizeFitsIff(n);
      SizeFitsIff(Keep3(n));
    }
  }

  // ----- Negative numbers -----

  /** The compact form of a negative number is a small negative number. */
  lemma EncodeOfNegative(n: int)
    requires n < 0
    ensures -0x8000 <= EncodeAny(n) <= -1
  {
    hide SignedMantissa;
    SignedMantissaBound(n);
  }

  lemma SizeIsNegative(n: int, size: nat)
    requires n < 0 && size >= 1 && -0x80 * Pow256(size - 1) <= n && (size >= 2 ==> n < -0x80 * Pow256(size - 2))
    ensures SizeOf(n) == size
  {
    hide Pow256, SignedSize;
    SizeIs(-n - 1, size);
  }

  lemma ScaledDivision(n: int, p: nat)
    requires p > 0
    ensures 0x100 * n / (0x100 * p) == n / p
  {
    DivMod(n, p);
    var q, r := n / p, n % p;
    assert 0x100 * n == q * (0x100 * p) + 0x100 * r;
    DivModIs(0x100 * n, 0x100 * p, q, 0x100 * r);
  }

  /** The size is lost: a byte more makes no difference. */
  lemma ScaleIsLost(n: int)
    requires n < 0 && SizeOf(n) >= 3
    ensures EncodeAny(0x100 * n) == EncodeAny(n)
  {
    var size := SizeOf(n);
    assert Pow256(size) == 0x100 * Pow256(size - 1) && Pow256(size - 1) == 0x100 * Pow256(size - 2);
    assert Pow256(size - 2) == 0x100 * Pow256(size - 3);
    hide Pow256, SignedSize;
    SizeIsNegative(0x100 * n, size + 1);
    ScaledDivision(n, Pow256(size - 3));
  }

  /** What decoding makes of it: a number of 255 bytes. */
  lemma DecodeOfSmallNegative(r: int, k: nat)
    requires -0x8000 <= r <= -1 && k == 252
    ensures 0 <= r % 0x1_0000_0000 <= U32_MAX
    ensures Decode(r % 0x1_0000_0000) == -(0x80_0000 + r) * Pow256(k)
  {
    hide Pow256, FromBigEndian, Decode;
    var s := 0x1_0000 + r;
    var nBits: u32 := 0xffff_0000 + s;
    DivModIs(r, 0x1_0000_0000, -1, nBits);
    DecodeOfTopSize(s, k);
    Negated(0x80_0000 + r, Pow256(k));
  }

  lemma DecodeOfTopSize(s: int, k: nat)
    requires 0x8000 <= s < 0x1_0000 && k == 252
    ensures Decode(0xffff_0000 + s) == 0 - (0x7f_0000 + s) * Pow256(k)
  {
    NegativeBytes(s);
    var nBits: u32 := 0xffff_0000 + s;
    hide Pow256, MantissaByte, FromBigEndian, Buffer;
    var b: byte, c: byte := s / 0x100, s % 0x100;
    var buf := Buffer(nBits, 255);
    BufferIs(nBits, 255);
    var zeros: seq<byte> := seq(k, _ => 0);
    assert buf[0 := 0x7f] == [0x7f, b, c] + zeros;
    ThreeBytes(0x7f, b, c);
    ZerosShift([0x7f, b, c], k);
    assert FromBigEndian([0x7f, b, c]) == 0x7f_0000 + s;
  }

  lemma Negated(a: int, b: int)
    ensures 0 - a * b == -a * b
  {
  }

  lemma NegativeBytes(s: int)
    requires 0x8000 <= s < 0x1_0000
    ensures
      var nBits: u32 := 0xffff_0000 + s;
      && nBits / 0x100_0000 == 255
      && MantissaByte(nBits, 0) == 0xff && MantissaByte(nBits, 1) == s / 0x100 && MantissaByte(nBits, 2) == s % 0x100
  {
  }

  lemma FixedPoint(r: int)
    requires -0x8000 <= r <= -1
    ensures r == -(0x80_0000 + r) / 0x100 <==> r == -0x7f81
  {
  }

  lemma EncodeOfLarge(m: int, k: nat)
    requires 0x7f_8000 <= m < 0x80_0000 && k == 252
    ensures EncodeAny(-m * Pow256(k)) == -m / 0x100
  {
    var q: int := Pow256(k);
    assert Pow256(k + 1) == 0x100 * q && Pow256(k + 2) == 0x100 * Pow256(k + 1);
    hide Pow256, SignedSize;
    var n: int := -m * q;
    TimesMonotone(-0x80_0000, -m, q);
    TimesMonotone(-m, -0x7f_8000, q);
    SizeIsNegative(n, k + 3);
    DivModIs(n, q, -m, 0);
  }

  /** Exactly one negative number survives the round trip; `k` is the number of bytes below the mantissa of 255. */
  lemma NegativeRoundTripIff(n: int, k: nat)
    requires n < 0 && k == 252
    ensures Decode(EncodeAny(n) % 0x1_0000_0000) == n <==> n == -0x7f_807f * Pow256(k)
  {
    hide Decode, EncodeAny, SignedSize, Pow256;
    var r := EncodeAny(n);
    EncodeOfNegative(n);
    DecodeOfSmallNegative(r, k);
    FixedPoint(r);
    if n == -(0x80_0000 + r) * Pow256(k) {
      EncodeOfLarge(0x80_0000 + r, k);
    }
    if n == -0x7f_807f * Pow256(k) {
      EncodeOfLarge(0x7f_807f, k);
    }
  }
}
