/** The table-driven multiplication, four bits at a time, and multiplication by a byte. */
module Gf2_192Multiply {
  import opened Gf2_192

  /** `n` times the reduction polynomial, for the sixteen values of `n`. */
  const IRRED_MULS: seq<bv64> := [
    0x0, 0x87, 0x10e, 0x189, 0x21c, 0x29b, 0x312, 0x395,
    0x438, 0x4bf, 0x536, 0x5b1, 0x624, 0x6a3, 0x72a, 0x7ad]

  function Small(n: bv64): Gf {
    Gf(n, 0, 0)
  }

  function Bit(on: bool, w: bv64): bv64 {
    if on then w else 0
  }

  /** `n` times the reduction polynomial, from the bits of `n`. */
  function Irred(n: bv64): bv64 {
    Bit(n & 8 == 8, PENTANOMIAL << 3) ^ Bit(n & 4 == 4, PENTANOMIAL << 2) ^ Bit(n & 2 == 2, PENTANOMIAL << 1)
    ^ Bit(n & 1 == 1, PENTANOMIAL)
  }

  lemma NibbleCases(n: bv64)
    requires n <= 15
    ensures n == 0 || n == 1 || n == 2 || n == 3 || n == 4 || n == 5 || n == 6 || n == 7
         || n == 8 || n == 9 || n == 10 || n == 11 || n == 12 || n == 13 || n == 14 || n == 15
  {
  }

  lemma IrredMulsAt(n: bv64)
    requires n <= 15
    ensures n as int < |IRRED_MULS| && IRRED_MULS[n as int] == Irred(n)
  {
    NibbleCases(n);
  }

  lemma NibbleBits(n: bv64)
    requires n <= 15
    ensures (n >> 1) as int == (n as int) / 2 && (n & 1 == 1) == ((n as int) % 2 == 1)
    ensures n >> 1 <= 15 && n as int <= 15
    ensures n != 0 ==> n >> 1 < n
  {
    NibbleCases(n);
  }

  function X4(a: Gf): Gf {
    XTimes(XTimes(XTimes(XTimes(a))))
  }

  /** The reduction accumulated over `k` steps, when the top nibble is `n`. */
  function Carried(n: bv64, k: bv64): bv64 {
    if k == 0 then 0
    else if k == 1 then Bit(n & 8 == 8, PENTANOMIAL)
    else if k == 2 then Bit(n & 8 == 8, PENTANOMIAL << 1) ^ Bit(n & 4 == 4, PENTANOMIAL)
    else if k == 3 then
      Bit(n & 8 == 8, PENTANOMIAL << 2) ^ Bit(n & 4 == 4, PENTANOMIAL << 1) ^ Bit(n & 2 == 2, PENTANOMIAL)
    else Irred(n)
  }

  /** The low word after `k` steps. */
  function Low(w0: bv64, w2: bv64, k: bv64): bv64
    requires k <= 4
  {
    (w0 << k) ^ Carried(w2 >> 60, k)
  }

  /** A higher word after `k` steps. */
  function High(hi: bv64, lo: bv64, k: bv64): bv64
    requires k <= 4
  {
    (hi << k) | (lo >> (64 - k))
  }

  lemma FirstStep(w0: bv64, w1: bv64, w2: bv64)
    ensures Up(w1, w0) == High(w1, w0, 1) && Up(w2, w1) == High(w2, w1, 1)
    ensures Xor(Up(w0, 0), Reduce(w2)) == Low(w0, w2, 1)
  {
    assert Reduce(w2) == Bit((w2 >> 60) & 8 == 8, PENTANOMIAL);
    assert Up(w0, 0) == w0 << 1;
  }

  lemma HighStep1(hi: bv64, mid: bv64, lo: bv64, r: bv64)
    requires r <= 0x7ff
    ensures Up(High(hi, mid, 1), High(mid, lo, 1)) == High(hi, mid, 2)
    ensures Up(High(hi, mid, 1), (mid << 1) ^ r) == High(hi, mid, 2)
  {
    assert Up((hi << 1) | (mid >> 63), (mid << 1) | (lo >> 63)) == (hi << 2) | (mid >> 62);
    assert Up((hi << 1) | (mid >> 63), (mid << 1) ^ r) == (hi << 2) | (mid >> 62);
  }

  lemma HighStep2(hi: bv64, mid: bv64, lo: bv64, r: bv64)
    requires r <= 0x7ff
    ensures Up(High(hi, mid, 2), High(mid, lo, 2)) == High(hi, mid, 3)
    ensures Up(High(hi, mid, 2), (mid << 2) ^ r) == High(hi, mid, 3)
  {
    assert Up((hi << 2) | (mid >> 62), (mid << 2) | (lo >> 62)) == (hi << 3) | (mid >> 61);
    assert Up((hi << 2) | (mid >> 62), (mid << 2) ^ r) == (hi << 3) | (mid >> 61);
  }

  lemma HighStep3(hi: bv64, mid: bv64, lo: bv64, r: bv64)
    requires r <= 0x7ff
    ensures Up(High(hi, mid, 3), High(mid, lo, 3)) == High(hi, mid, 4)
    ensures Up(High(hi, mid, 3), (mid << 3) ^ r) == High(hi, mid, 4)
  {
    assert Up((hi << 3) | (mid >> 61), (mid << 3) | (lo >> 61)) == (hi << 4) | (mid >> 60);
    assert Up((hi << 3) | (mid >> 61), (mid << 3) ^ r) == (hi << 4) | (mid >> 60);
  }

  lemma CarriedIsSmall(n: bv64, k: bv64)
    requires n <= 15
    ensures Carried(n, k) <= 0x7ff
  {
    NibbleCases(n);
  }

  lemma LowStep(w0: bv64, w1: bv64, w2: bv64, k: bv64)
    requires 1 <= k <= 3
    ensures Xor(Up(Low(w0, w2, k), 0), Reduce(High(w2, w1, k))) == Low(w0, w2, k + 1)
  {
  }

  function AfterSteps(a: Gf, k: bv64): Gf
    requires k <= 4
  {
    Gf(Low(a.w0, a.w2, k), High(a.w1, a.w0, k), High(a.w2, a.w1, k))
  }

  lemma MidStep(w0: bv64, w1: bv64, w2: bv64, k: bv64)
    requires 1 <= k <= 3
    ensures Up(High(w1, w0, k), Low(w0, w2, k)) == High(w1, w0, k + 1)
  {
    hide Up, High, Carried;
    CarriedIsSmall(w2 >> 60, k);
    assert k == 1 || k == 2 || k == 3;
    HighStep1(w1, w0, 0, Carried(w2 >> 60, k));
    HighStep2(w1, w0, 0, Carried(w2 >> 60, k));
    HighStep3(w1, w0, 0, Carried(w2 >> 60, k));
  }

  lemma TopStep(w0: bv64, w1: bv64, w2: bv64, k: bv64)
    requires 1 <= k <= 3
    ensures Up(High(w2, w1, k), High(w1, w0, k)) == High(w2, w1, k + 1)
  {
    hide Up, High;
    assert k == 1 || k == 2 || k == 3;
    HighStep1(w2, w1, w0, 0);
    HighStep2(w2, w1, w0, 0);
    HighStep3(w2, w1, w0, 0);
  }

  lemma XStep(a: Gf, k: bv64)
    requires 1 <= k <= 3
    ensures XTimes(AfterSteps(a, k)) == AfterSteps(a, k + 1)
  {
    hide Up, High, Low, Reduce, Xor;
    LowStep(a.w0, a.w1, a.w2, k);
    MidStep(a.w0, a.w1, a.w2, k);
    TopStep(a.w0, a.w1, a.w2, k);
  }

  lemma X4Words(a: Gf)
    ensures X4(a) == AfterSteps(a, 4)
  {
    assert XTimes(a) == AfterSteps(a, 1) by {
      hide Up, High, Low, Reduce, Xor;
      FirstStep(a.w0, a.w1, a.w2);
    }
    hide XTimes, AfterSteps;
    XStep(a, 1);
    XStep(a, 2);
    XStep(a, 3);
  }

  // ----- Four bits at a time -----

  function Down4(lo: bv64, hi: bv64): bv64 {
    (lo >> 4) | (hi << 60)
  }

  /** `p` without its four lowest bits. */
  function Half4(p: Gf): Gf {
    Gf(Down4(p.w0, p.w1), Down4(p.w1, p.w2), Down4(p.w2, 0))
  }

  lemma UpAgain(w0: bv64, w1: bv64, w2: bv64)
    ensures High(Down4(w1, w2), Down4(w0, w1), 4) == w1
  {
    assert (((w1 >> 4) | (w2 << 60)) << 4) | (((w0 >> 4) | (w1 << 60)) >> 60) == w1;
  }

  lemma UpAgainLow(w0: bv64, w1: bv64, w2: bv64)
    ensures Xor(Low(Down4(w0, w1), Down4(w2, 0), 4), w0 & 15) == w0
  {
    assert ((w2 >> 4) | (0 << 60)) >> 60 == 0;
    assert Carried(0, 4) == 0;
    hide Carried;
    assert ((((w0 >> 4) | (w1 << 60)) << 4) ^ 0) ^ (w0 & 15) == w0;
  }

  lemma SplitNibble(p: Gf)
    ensures Plus(X4(Half4(p)), Small(p.w0 & 15)) == p
  {
    hide X4;
    X4Words(Half4(p));
    hide Xor, High, Low, Down4;
    UpAgainLow(p.w0, p.w1, p.w2);
    UpAgain(p.w0, p.w1, p.w2);
    UpAgain(p.w1, p.w2, 0);
    XorZero(p.w1);
    XorZero(p.w2);
  }

  lemma TimesX4(a: Gf, q: Gf)
    ensures Times(a, X4(q)) == X4(Times(a, q))
  {
    hide Times, XTimes;
    var q1 := XTimes(q);
    var q2 := XTimes(q1);
    var q3 := XTimes(q2);
    TimesCommutes(a, q);
    TimesCommutes(a, XTimes(q3));
    TimesShifts(q, a);
    TimesShifts(q1, a);
    TimesShifts(q2, a);
    TimesShifts(q3, a);
  }

  /** Feeding four bits at once. */
  lemma TimesNibble(a: Gf, p: Gf)
    ensures Times(a, p) == Plus(X4(Times(a, Half4(p))), Times(a, Small(p.w0 & 15)))
  {
    hide Times, X4, Plus, Half4;
    SplitNibble(p);
    TimesDistributes(a, X4(Half4(p)), Small(p.w0 & 15));
    TimesX4(a, Half4(p));
  }

  // ----- The bits of a word that have been fed -----

  function Shr(w: bv64, i: bv64): bv64
    requires i <= 64
  {
    w >> i
  }

  function Shl(w: bv64, i: bv64): bv64
    requires i <= 64
  {
    w << i
  }

  function Or(a: bv64, b: bv64): bv64 {
    a | b
  }

  /** The low word of `hi` followed by `lo`, shifted down by `i`. */
  function Mix(lo: bv64, hi: bv64, i: bv64): bv64
    requires i <= 64
  {
    Or(Shr(lo, i), Shl(hi, 64 - i))
  }

  lemma ShiftTwice(m: bv64, i: bv64)
    requires i <= 60
    ensures Shr(m, i) >> 4 == Shr(m, i + 4)
  {
  }

  lemma Down4Zero(w: bv64)
    ensures Down4(w, 0) == w >> 4
  {
  }

  lemma DropLow(m: bv64, i: bv64)
    requires i <= 60
    ensures Down4(Shr(m, i), 0) == Shr(m, i + 4)
  {
    hide Down4, Shr;
    Down4Zero(Shr(m, i));
    ShiftTwice(m, i);
  }

  lemma ShiftAcross(t: bv64, i: bv64)
    requires i <= 60
    ensures ((t << (64 - i)) >> 4) | ((t >> i) << 60) == t << (60 - i)
  {
  }

  lemma DropHigh(t: bv64, i: bv64)
    requires i <= 60
    ensures Down4(Shl(t, 64 - i), Shr(t, i)) == Shl(t, 60 - i)
  {
    ShiftAcross(t, i);
  }

  lemma DropTop(t: bv64, i: bv64)
    requires i <= 60
    ensures Down4(0, Shl(t, 64 - i)) == 0
  {
    assert (t << (64 - i)) << 60 == 0;
  }

  lemma DropOr(a: bv64, b: bv64, c: bv64, d: bv64)
    ensures Down4(Or(a, b), Or(c, d)) == Or(Down4(a, 0), Or(Down4(b, c), Down4(0, d)))
  {
    assert ((a | b) >> 4) | ((c | d) << 60) == ((a >> 4) | (0 << 60)) | (((b >> 4) | (c << 60)) | ((0 >> 4) | (d << 60)));
  }

  lemma OrZero(a: bv64)
    ensures Or(a, 0) == a
  {
  }

  lemma DropMixed(m: bv64, t: bv64, s: bv64, i: bv64, j: bv64)
    requires i <= 60 && j == i + 4
    ensures Down4(Mix(m, t, i), Mix(t, s, i)) == Mix(m, t, j)
  {
    hide Down4, Shr, Shl, Or;
    DropLow(m, i);
    DropHigh(t, i);
    assert 60 - i == 64 - j;
    DropTop(s, i);
    DropOr(Shr(m, i), Shl(t, 64 - i), Shr(t, i), Shl(s, 64 - i));
    OrZero(Shl(t, 64 - j));
  }

  lemma MixLow(m: bv64, t: bv64, i: bv64)
    requires i <= 60
    ensures Mix(m, t, i) & 15 == (m >> i) & 15
  {
  }

  lemma MixEnds(m: bv64, t: bv64)
    ensures Mix(m, t, 0) == m && Mix(m, t, 64) == t
  {
  }

  /** The element with words `m`, `t`, `s`, without its `i` lowest bits. */
  function Prefix(m: bv64, t: bv64, s: bv64, i: bv64): Gf
    requires i <= 64
  {
    Gf(Mix(m, t, i), Mix(t, s, i), Mix(s, 0, i))
  }

  lemma PrefixStep(m: bv64, t: bv64, s: bv64, i: bv64, j: bv64)
    requires i <= 60 && j == i + 4
    ensures Half4(Prefix(m, t, s, i)) == Prefix(m, t, s, j)
    ensures Prefix(m, t, s, i).w0 & 15 == (m >> i) & 15
  {
    MixLow(m, t, i);
    hide Mix, Down4;
    DropMixed(m, t, s, i, j);
    DropMixed(t, s, 0, i, j);
    DropMixed(s, 0, 0, i, j);
    assert Mix(0, 0, i) == 0 by { MixZero(i); }
  }

  lemma MixZero(i: bv64)
    requires i <= 64
    ensures Mix(0, 0, i) == 0
  {
  }

  lemma PrefixEnds(m: bv64, t: bv64, s: bv64)
    ensures Prefix(m, t, s, 0) == Gf(m, t, s) && Prefix(m, t, s, 64) == Gf(t, s, 0)
  {
    hide Mix;
    MixEnds(m, t);
    MixEnds(t, s);
    MixEnds(s, 0);
  }

  // ----- The tables -----

  /** `k` times `a`, for a nibble `k`. */
  function Multiple(a: Gf, k: nat): Gf {
    if k == 0 then ZERO else Plus(XTimes(Multiple(a, k / 2)), Only(k % 2 == 1, a))
  }

  lemma HalfSmall(n: bv64)
    ensures Half(Small(n)) == Small(n >> 1) && Odd(Small(n)) == (n & 1 == 1)
  {
    HalfIsLess(n, 0, 0);
    HalfIsLess(0, 0, 0);
    hide Down;
  }

  lemma {:induction false} MultipleIsTimes(a: Gf, n: bv64)
    requires n <= 15
    ensures Multiple(a, n as int) == Times(a, Small(n))
    decreases n
  {
    NibbleBits(n);
    TimesUnfolds(a, Small(n));
    HalfSmall(n);
    hide Times, XTimes, Plus, Half, Odd;
    if n != 0 {
      MultipleIsTimes(a, n >> 1);
    }
  }

  lemma MultipleOfOne(a: Gf)
    ensures Multiple(a, 1) == a && Multiple(a, 0) == ZERO
  {
    hide XTimes, Plus;
    assert Multiple(a, 1) == Plus(XTimes(Multiple(a, 0)), a);
    XTimesZero();
    PlusZero(a);
  }

  lemma MultipleDoubles(a: Gf, k: nat)
    requires k >= 1
    ensures Multiple(a, 2 * k) == XTimes(Multiple(a, k))
  {
    hide XTimes, Plus;
    PlusZero(XTimes(Multiple(a, k)));
  }

  lemma {:induction false} MultipleAdds(a: Gf, h: nat, i: nat)
    requires (h == 1 || h == 2 || h == 4 || h == 8) && i < h
    ensures Multiple(a, h + i) == Plus(Multiple(a, h), Multiple(a, i))
  {
    hide XTimes, Plus;
    if i == 0 {
      PlusZero(Multiple(a, h));
    } else {
      MultipleAdds(a, h / 2, i / 2);
      var u, v, last := Multiple(a, h / 2), Multiple(a, i / 2), Only(i % 2 == 1, a);
      assert (h + i) / 2 == h / 2 + i / 2 && (h + i) % 2 == i % 2;
      assert Multiple(a, h + i) == Plus(XTimes(Plus(u, v)), last);
      MultipleDoubles(a, h / 2);
      XTimesLinear(u, v);
      PlusAssociates(XTimes(u), XTimes(v), last);
    }
  }

  lemma DoubleWords(w0: bv64, w1: bv64, w2: bv64)
    ensures (w2 >> 63) as int < |IRRED_MULS|
    ensures XTimes(Gf(w0, w1, w2))
            == Gf((w0 << 1) ^ IRRED_MULS[(w2 >> 63) as int], (w1 << 1) | (w0 >> 63), (w2 << 1) | (w1 >> 63))
  {
    hide Xor, Up, Reduce;
    LowDoubles(w0, w2);
    UpIs(w1, w0);
    UpIs(w2, w1);
  }

  lemma UpIs(a: bv64, below: bv64)
    ensures Up(a, below) == (a << 1) | (below >> 63)
  {
  }

  lemma LowDoubles(w0: bv64, w2: bv64)
    ensures (w2 >> 63) as int < |IRRED_MULS|
    ensures Xor(Up(w0, 0), Reduce(w2)) == (w0 << 1) ^ IRRED_MULS[(w2 >> 63) as int]
  {
    assert w2 >> 63 == 0 || w2 >> 63 == 1;
    assert Up(w0, 0) == w0 << 1;
  }

  lemma LowIs(w0: bv64, w2: bv64)
    ensures (w2 >> 60) as int < |IRRED_MULS| && Low(w0, w2, 4) == (w0 << 4) ^ IRRED_MULS[(w2 >> 60) as int]
  {
    hide Irred;
    IrredMulsAt(w2 >> 60);
  }

  lemma HighIs(hi: bv64, lo: bv64)
    ensures High(hi, lo, 4) == (hi << 4) | (lo >> 60)
  {
  }

  lemma X4Raw(w0: bv64, w1: bv64, w2: bv64)
    ensures (w2 >> 60) as int < |IRRED_MULS|
    ensures X4(Gf(w0, w1, w2))
            == Gf((w0 << 4) ^ IRRED_MULS[(w2 >> 60) as int], (w1 << 4) | (w0 >> 60), (w2 << 4) | (w1 >> 60))
  {
    hide X4, Low, High;
    X4Words(Gf(w0, w1, w2));
    LowIs(w0, w2);
    HighIs(w1, w0);
    HighIs(w2, w1);
  }

  // ----- The algorithm -----

  /** Entry `k` of the three tables, one per word, is `k` times `a`. */
  ghost predicate Holds(a0muls: array<bv64>, a1muls: array<bv64>, a2muls: array<bv64>, a: Gf, k: nat)
    reads a0muls, a1muls, a2muls
  {
    && k < a0muls.Length && k < a1muls.Length && k < a2muls.Length
    && Gf(a0muls[k], a1muls[k], a2muls[k]) == Multiple(a, k)
  }

  predicate Separate(a0muls: array<bv64>, a1muls: array<bv64>, a2muls: array<bv64>) {
    && a0muls.Length == 16 && a1muls.Length == 16 && a2muls.Length == 16
    && a0muls != a1muls && a0muls != a2muls && a1muls != a2muls
  }

  method Double(w: Gf) returns (r: Gf)
    ensures r == XTimes(w)
  {
    hide XTimes;
    DoubleWords(w.w0, w.w1, w.w2);
    r := Gf((w.w0 << 1) ^ IRRED_MULS[(w.w2 >> 63) as int], (w.w1 << 1) | (w.w0 >> 63), (w.w2 << 1) | (w.w1 >> 63));
  }

  method ShiftNibble(w: Gf) returns (r: Gf)
    ensures r == X4(w)
  {
    hide X4;
    X4Raw(w.w0, w.w1, w.w2);
    var modReduceIndex := (w.w2 >> 60) as int;
    r := Gf((w.w0 << 4) ^ IRRED_MULS[modReduceIndex], (w.w1 << 4) | (w.w0 >> 60), (w.w2 << 4) | (w.w1 >> 60));
  }

  /** Writes entry `2 * prev`. */
  method DoubleEntry(a0muls: array<bv64>, a1muls: array<bv64>, a2muls: array<bv64>, ghost a: Gf, prev: nat)
    requires Separate(a0muls, a1muls, a2muls) && 1 <= prev < 8 && Holds(a0muls, a1muls, a2muls, a, prev)
    modifies a0muls, a1muls, a2muls
    ensures Holds(a0muls, a1muls, a2muls, a, 2 * prev)
    ensures forall k: nat :: k < 16 && k != 2 * prev && old(Holds(a0muls, a1muls, a2muls, a, k))
                             ==> Holds(a0muls, a1muls, a2muls, a, k)
  {
    hide XTimes, Multiple;
    var doubled := Double(Gf(a0muls[prev], a1muls[prev], a2muls[prev]));
    MultipleDoubles(a, prev);
    var i := 2 * prev;
    a0muls[i] := doubled.w0;
    a1muls[i] := doubled.w1;
    a2muls[i] := doubled.w2;
  }

  /** Writes entry `h + i` from entries `h` and `i`. */
  method AddEntry(a0muls: array<bv64>, a1muls: array<bv64>, a2muls: array<bv64>, ghost a: Gf, h: nat, i: nat)
    requires Separate(a0muls, a1muls, a2muls) && (h == 2 || h == 4 || h == 8) && i < h
    requires Holds(a0muls, a1muls, a2muls, a, h) && Holds(a0muls, a1muls, a2muls, a, i)
    modifies a0muls, a1muls, a2muls
    ensures Holds(a0muls, a1muls, a2muls, a, h + i)
    ensures forall k: nat :: k < 16 && k != h + i && old(Holds(a0muls, a1muls, a2muls, a, k))
                             ==> Holds(a0muls, a1muls, a2muls, a, k)
  {
    hide Plus, Multiple;
    MultipleAdds(a, h, i);
    var sum := Plus(Gf(a0muls[h], a1muls[h], a2muls[h]), Gf(a0muls[i], a1muls[i], a2muls[i]));
    a0muls[h + i] := sum.w0;
    a1muls[h + i] := sum.w1;
    a2muls[h + i] := sum.w2;
  }

  method NewTables(a: Gf) returns (a0muls: array<bv64>, a1muls: array<bv64>, a2muls: array<bv64>)
    ensures fresh(a0muls) && fresh(a1muls) && fresh(a2muls) && Separate(a0muls, a1muls, a2muls)
    ensures Holds(a0muls, a1muls, a2muls, a, 0) && Holds(a0muls, a1muls, a2muls, a, 1)
  {
    hide Multiple;
    a0muls := new bv64[16](_ => 0);
    a1muls := new bv64[16](_ => 0);
    a2muls := new bv64[16](_ => 0);
    a0muls[1] := a.w0;
    a1muls[1] := a.w1;
    a2muls[1] := a.w2;
    MultipleOfOne(a);
  }

  /** The sixteen multiples of `a`. */
  method FillTables(a: Gf) returns (a0muls: array<bv64>, a1muls: array<bv64>, a2muls: array<bv64>)
    ensures Separate(a0muls, a1muls, a2muls)
    ensures forall k: nat :: k < 16 ==> Holds(a0muls, a1muls, a2muls, a, k)
  {
    hide Holds;
    a0muls, a1muls, a2muls := NewTables(a);
    var prev := 1;
    while prev < 8
      invariant prev == 1 || prev == 2 || prev == 4 || prev == 8
      invariant forall k: nat :: k == 0 || ((k == 1 || k == 2 || k == 4 || k == 8) && k <= prev)
                                 ==> Holds(a0muls, a1muls, a2muls, a, k)
      decreases 8 - prev
    {
      DoubleEntry(a0muls, a1muls, a2muls, a, prev);
      prev := 2 * prev;
    }
    AddEntry(a0muls, a1muls, a2muls, a, 2, 1);
    for i := 1 to 4
      invariant forall k: nat :: k < 4 + i || k == 8 ==> Holds(a0muls, a1muls, a2muls, a, k)
    {
      AddEntry(a0muls, a1muls, a2muls, a, 4, i);
    }
    for i := 1 to 8
      invariant forall k: nat :: k < 8 + i ==> Holds(a0muls, a1muls, a2muls, a, k)
    {
      AddEntry(a0muls, a1muls, a2muls, a, 8, i);
    }
  }

  /** Multiplies `w` by x^4 and adds `n` times `a`. */
  method FeedNibble(
    a0muls: array<bv64>, a1muls: array<bv64>, a2muls: array<bv64>, ghost a: Gf, w: Gf, n: bv64)
    returns (r: Gf)
    requires Separate(a0muls, a1muls, a2muls) && n <= 15
    requires forall k: nat :: k < 16 ==> Holds(a0muls, a1muls, a2muls, a, k)
    ensures r == Plus(X4(w), Times(a, Small(n)))
  {
    hide X4, Plus, Times, Multiple;
    var shifted := ShiftNibble(w);
    NibbleBits(n);
    MultipleIsTimes(a, n);
    var index := n as int;
    assert Holds(a0muls, a1muls, a2muls, a, index);
    r := Plus(shifted, Gf(a0muls[index], a1muls[index], a2muls[index]));
  }

  /** Feeds one word of the multiplier; `t` and `s` are the words above it. */
  method FeedWord(
    a0muls: array<bv64>, a1muls: array<bv64>, a2muls: array<bv64>, ghost a: Gf, start: Gf, multiplier: bv64,
    ghost t: bv64, ghost s: bv64)
    returns (w: Gf)
    requires Separate(a0muls, a1muls, a2muls)
    requires forall k: nat :: k < 16 ==> Holds(a0muls, a1muls, a2muls, a, k)
    requires start == Times(a, Gf(t, s, 0))
    ensures w == Times(a, Gf(multiplier, t, s))
  {
    hide Times, Prefix, Plus, X4, Half4, Small, Holds;
    w := start;
    var i: bv64 := 64;
    PrefixEnds(multiplier, t, s);
    while i > 0
      invariant i <= 64 && i & 3 == 0
      invariant w == Times(a, Prefix(multiplier, t, s, i))
      decreases i
    {
      var j := i - 4;
      PrefixStep(multiplier, t, s, j, i);
      TimesNibble(a, Prefix(multiplier, t, s, j));
      w := FeedNibble(a0muls, a1muls, a2muls, a, w, (multiplier >> j) & 15);
      i := j;
    }
  }

  function WordAt(b: Gf, j: nat): bv64 {
    if j == 0 then b.w0 else if j == 1 then b.w1 else b.w2
  }

  /** The words of `b` from word `j` on. */
  function UpperWords(b: Gf, j: nat): Gf {
    if j == 0 then b
    else if j == 1 then Gf(b.w1, b.w2, 0)
    else if j == 2 then Gf(b.w2, 0, 0)
    else ZERO
  }

  lemma OneMoreWord(b: Gf, j: nat)
    requires j <= 2
    ensures
      var upper := UpperWords(b, j + 1);
      && upper == Gf(upper.w0, upper.w1, 0)
      && UpperWords(b, j) == Gf(WordAt(b, j), upper.w0, upper.w1)
    ensures UpperWords(b, 0) == b && UpperWords(b, 3) == ZERO
  {
  }

  method Multiply(a: Gf, b: Gf) returns (r: Gf)
    ensures r == Times(a, b)
  {
    hide Times, Holds, UpperWords, WordAt;
    var a0muls, a1muls, a2muls := FillTables(a);
    TimesUnfolds(a, ZERO);
    OneMoreWord(b, 2);
    r := ZERO;
    for j := 3 downto 0
      invariant forall k: nat :: k < 16 ==> Holds(a0muls, a1muls, a2muls, a, k)
      invariant r == Times(a, UpperWords(b, j))
    {
      OneMoreWord(b, j);
      ghost var upper := UpperWords(b, j + 1);
      r := FeedWord(a0muls, a1muls, a2muls, a, r, WordAt(b, j), upper.w0, upper.w1);
    }
  }

  // ----- Multiplying by a byte -----

  /** The product of two words, modulo 2^64. */
  function Mul(w: bv64, t: bv64): bv64 {
    w * t
  }

  lemma TimesZeroOrOne(w: bv64, t: bv64)
    requires t == 0 || t == 1
    ensures Mul(w, t) == if t == 1 then w else 0
  {
    assert w * 0 == 0 && w * 1 == w;
  }

  lemma TimesTopBit(w: bv64)
    ensures Mul(PENTANOMIAL, w >> 63) == Reduce(w)
  {
    assert w >> 63 == 0 || w >> 63 == 1;
    TimesZeroOrOne(PENTANOMIAL, w >> 63);
  }

  /** The low word of a step: shift, add `a` times `t`, reduce by the bit that leaves the top word. */
  function StepLow(w0: bv64, w2: bv64, a: bv64, t: bv64): bv64 {
    (w0 << 1) ^ (Mul(a, t) ^ Mul(PENTANOMIAL, w2 >> 63))
  }

  function StepHigh(hi: bv64, lo: bv64, a: bv64, t: bv64): bv64 {
    ((hi << 1) | (lo >> 63)) ^ Mul(a, t)
  }

  lemma XorThree(w: bv64, a: bv64, r: bv64)
    ensures (w << 1) ^ (a ^ r) == Xor(Xor(Up(w, 0), r), a)
  {
    assert Up(w, 0) == w << 1;
  }

  lemma StepLowIs(w0: bv64, w2: bv64, a: bv64, t: bv64)
    requires t == 0 || t == 1
    ensures StepLow(w0, w2, a, t) == Xor(Xor(Up(w0, 0), Reduce(w2)), if t == 1 then a else 0)
  {
    hide Xor, Up, Reduce, Mul;
    TimesZeroOrOne(a, t);
    TimesTopBit(w2);
    XorThree(w0, if t == 1 then a else 0, Reduce(w2));
  }

  lemma StepHighIs(hi: bv64, lo: bv64, a: bv64, t: bv64)
    requires t == 0 || t == 1
    ensures StepHigh(hi, lo, a, t) == Xor(Up(hi, lo), if t == 1 then a else 0)
  {
    hide Mul;
    TimesZeroOrOne(a, t);
  }

  /** One step of times-x-and-add, the bit given as the number 0 or 1. */
  method FeedBit(a: Gf, w: Gf, t: bv64) returns (r: Gf)
    requires t == 0 || t == 1
    ensures r == Plus(XTimes(w), Only(t == 1, a))
  {
    hide Xor, Up, Reduce, StepLow, StepHigh;
    StepLowIs(w.w0, w.w2, a.w0, t);
    StepHighIs(w.w1, w.w0, a.w1, t);
    StepHighIs(w.w2, w.w1, a.w2, t);
    r := Gf(StepLow(w.w0, w.w2, a.w0, t), StepHigh(w.w1, w.w0, a.w1, t), StepHigh(w.w2, w.w1, a.w2, t));
  }

  lemma ByteBits(b: bv8, i: bv8, j: bv8)
    requires i <= 7 && j == i + 1
    ensures ((b >> i) as bv64) >> 1 == (b >> j) as bv64
    ensures ((b >> i) as bv64) & 1 == ((b >> i) & 1) as bv64
    ensures ((b >> i) & 1) as bv64 == 0 || ((b >> i) & 1) as bv64 == 1
  {
  }

  method MulByI8(a: Gf, b: bv8) returns (w: Gf)
    ensures w == Times(a, Small(b as bv64))
  {
    hide Times, XTimes, Plus, Small, Half, Odd;
    w := ZERO;
    var i: bv8 := 8;
    assert Small((b >> 8) as bv64) == ZERO by { NoBits(b); }
    TimesUnfolds(a, ZERO);
    while i > 0
      invariant i <= 8
      invariant w == Times(a, Small((b >> i) as bv64))
      decreases i
    {
      var j := i - 1;
      ByteBits(b, j, i);
      HalfSmall((b >> j) as bv64);
      TimesUnfolds(a, Small((b >> j) as bv64));
      w := FeedBit(a, w, ((b >> j) & 1) as bv64);
      i := j;
    }
    assert b >> 0 == b;
  }

  lemma NoBits(b: bv8)
    ensures Small((b >> 8) as bv64) == ZERO
  {
    assert (b >> 8) as bv64 == 0;
  }
}
