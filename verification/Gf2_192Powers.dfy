/** Powers in GF(2^192): squaring is additive, so tables of powers of the monomials give powers of everything. */
module Gf2_192Powers {
  import opened Powers
  import opened MonoidPowers
  import opened Gf2_192
  import opened Gf2_192Multiply

  lemma GfIsMonoid()
    ensures IsMonoid(Times, ONE)
  {
    hide Times;
    forall a, b
      ensures Times(a, b) == Times(b, a)
    {
      TimesCommutes(a, b);
    }
    forall a, b, c
      ensures Times(Times(a, b), c) == Times(a, Times(b, c))
    {
      TimesAssociates(a, b, c);
    }
    forall a
      ensures Times(ONE, a) == a
    {
      OneTimes(a);
    }
  }

  ghost function GfPower(z: Gf, n: nat): Gf {
    Power(Times, ONE, z, n)
  }

  lemma GfPowerUnfolds(z: Gf, n: nat)
    ensures GfPower(z, 0) == ONE
    ensures GfPower(z, n + 1) == Times(z, GfPower(z, n))
    ensures GfPower(z, 1) == z
    ensures GfPower(z, 2 * n) == Times(GfPower(z, n), GfPower(z, n))
  {
    hide Times, IsMonoid;
    GfIsMonoid();
    FirstPowers(Times, ONE, z);
    PowerAdds(Times, ONE, z, n, n);
  }

  // ----- Squaring is additive -----

  lemma SquareAdds(a: Gf, b: Gf)
    ensures Times(Plus(a, b), Plus(a, b)) == Plus(Times(a, a), Times(b, b))
  {
    hide Times, Plus;
    var aa, ab, bb := Times(a, a), Times(a, b), Times(b, b);
    TimesLinear(a, b, Plus(a, b));
    TimesDistributes(a, a, b);
    TimesDistributes(b, a, b);
    TimesCommutes(a, b);
    PlusAssociates(aa, ab, Plus(ab, bb));
    PlusAssociates(ab, ab, bb);
    PlusZero(ab);
    PlusZero(bb);
  }

  lemma {:induction false} PowerOfTwoAdds(a: Gf, b: Gf, j: nat)
    ensures GfPower(Plus(a, b), Pow2(j)) == Plus(GfPower(a, Pow2(j)), GfPower(b, Pow2(j)))
    ensures GfPower(ZERO, Pow2(j)) == ZERO
  {
    hide Times, Plus, GfPower;
    var c := Plus(a, b);
    if j == 0 {
      GfPowerUnfolds(c, 0);
      GfPowerUnfolds(a, 0);
      GfPowerUnfolds(b, 0);
      GfPowerUnfolds(ZERO, 0);
    } else {
      var n := Pow2(j - 1);
      PowerOfTwoAdds(a, b, j - 1);
      GfPowerUnfolds(c, n);
      GfPowerUnfolds(a, n);
      GfPowerUnfolds(b, n);
      GfPowerUnfolds(ZERO, n);
      SquareAdds(GfPower(a, n), GfPower(b, n));
      TimesOfZero(ZERO);
    }
  }

  // ----- Elements as sums of monomials -----

  lemma MonomialStep(i: nat)
    ensures GfPower(X, 0) == ONE && GfPower(X, i + 1) == XTimes(GfPower(X, i))
  {
    hide Times, XTimes, GfPower;
    GfPowerUnfolds(X, i);
    TimesX(GfPower(X, i));
  }

  predicate LowBit(w: bv64) {
    w & 1 == 1
  }

  /** The sum of `row[i + t]` over the `n` lowest bits `t` set in `w`. */
  function Selected(row: seq<Gf>, w: bv64, i: nat, n: nat): Gf
    requires i + n <= |row|
    decreases n
  {
    if n == 0 then ZERO else Plus(Only(LowBit(w), row[i]), Selected(row, w >> 1, i + 1, n - 1))
  }

  /** The sum of x^(i + t) over the `n` lowest bits `t` set in `w`. */
  ghost function Monomials(w: bv64, i: nat, n: nat): Gf
    decreases n
  {
    if n == 0 then ZERO else Plus(Only(LowBit(w), GfPower(X, i)), Monomials(w >> 1, i + 1, n - 1))
  }

  function XTimesN(a: Gf, n: nat): Gf {
    if n == 0 then a else XTimes(XTimesN(a, n - 1))
  }

  lemma {:induction false} MonomialsShift(w: bv64, i: nat, n: nat)
    ensures Monomials(w, i + 1, n) == XTimes(Monomials(w, i, n))
    decreases n
  {
    hide XTimes, Plus, GfPower, LowBit;
    XTimesZero();
    if n > 0 {
      MonomialsShift(w >> 1, i + 1, n - 1);
      MonomialStep(i);
      XTimesLinear(Only(LowBit(w), GfPower(X, i)), Monomials(w >> 1, i + 1, n - 1));
    }
  }

  lemma {:induction false} MonomialsShiftN(w: bv64, i: nat, n: nat)
    ensures Monomials(w, i, n) == XTimesN(Monomials(w, 0, n), i)
    decreases i
  {
    hide XTimes, Monomials;
    if i > 0 {
      MonomialsShiftN(w, i - 1, n);
      MonomialsShift(w, i - 1, n);
    }
  }

  /** `w` has no more than `n` significant bits. */
  predicate FitsIn(w: bv64, n: nat)
    decreases n
  {
    if n == 0 then w == 0 else FitsIn(w >> 1, n - 1)
  }

  lemma FitsEight(w: bv64, n: nat)
    requires FitsIn(w >> 8, n)
    ensures FitsIn(w, n + 8)
  {
    assert FitsIn(w >> 7, n + 1);
    assert FitsIn(w >> 6, n + 2);
    assert FitsIn(w >> 5, n + 3);
    assert FitsIn(w >> 4, n + 4);
    assert FitsIn(w >> 3, n + 5);
    assert FitsIn(w >> 2, n + 6);
    assert FitsIn(w >> 1, n + 7);
  }

  lemma FitsSixteen(w: bv64, n: nat)
    requires FitsIn(w >> 16, n)
    ensures FitsIn(w, n + 16)
  {
    hide FitsIn;
    assert (w >> 8) >> 8 == w >> 16;
    FitsEight(w >> 8, n);
    FitsEight(w, n + 8);
  }

  lemma FitsThirtyTwo(w: bv64, n: nat)
    requires FitsIn(w >> 32, n)
    ensures FitsIn(w, n + 32)
  {
    hide FitsIn;
    assert (w >> 16) >> 16 == w >> 32;
    FitsSixteen(w >> 16, n);
    FitsSixteen(w, n + 16);
  }

  lemma FitsAll(w: bv64)
    ensures FitsIn(w, 64)
  {
    assert (w >> 32) >> 32 == 0;
    assert FitsIn(0, 0);
    hide FitsIn;
    FitsThirtyTwo(w >> 32, 0);
    FitsThirtyTwo(w, 32);
  }

  lemma {:induction false} MonomialsOfSmall(w: bv64, n: nat)
    requires FitsIn(w, n)
    ensures Monomials(w, 0, n) == Small(w)
    decreases n
  {
    hide XTimes, Plus, GfPower, Half, Odd;
    if n > 0 {
      MonomialsOfSmall(w >> 1, n - 1);
      MonomialsShift(w >> 1, 0, n - 1);
      MonomialStep(0);
      HalfSmall(w);
      HalfAndOdd(Small(w));
      PlusCommutes(XTimes(Small(w >> 1)), Only(LowBit(w), ONE));
    }
  }

  // ----- Moving a word up -----

  lemma NoLowNibble(i: bv64)
    requires i <= 60
    ensures (0 as bv64 >> i) & 15 == 0
  {
  }

  lemma LiftStep(t: bv64, s: bv64, i: bv64, j: bv64)
    requires i <= 60 && j == i + 4
    ensures X4(Prefix(0, t, s, j)) == Prefix(0, t, s, i)
  {
    hide X4, Prefix, Half4, Plus;
    PrefixStep(0, t, s, i, j);
    NoLowNibble(i);
    SplitNibble(Prefix(0, t, s, i));
    PlusZero(X4(Prefix(0, t, s, j)));
  }

  lemma FourMore(a: Gf, n: nat)
    ensures XTimesN(a, n + 4) == X4(XTimesN(a, n))
  {
    hide XTimes;
    assert XTimesN(a, n + 1) == XTimes(XTimesN(a, n));
    assert XTimesN(a, n + 2) == XTimes(XTimesN(a, n + 1));
    assert XTimesN(a, n + 3) == XTimes(XTimesN(a, n + 2));
  }

  lemma LiftFour(t: bv64, s: bv64, n: nat, i: bv64, j: bv64)
    requires i <= 60 && j == i + 4
    requires XTimesN(Gf(t, s, 0), n) == Prefix(0, t, s, j)
    ensures XTimesN(Gf(t, s, 0), n + 4) == Prefix(0, t, s, i)
  {
    hide XTimesN, X4, Prefix;
    LiftStep(t, s, i, j);
    FourMore(Gf(t, s, 0), n);
  }

  lemma NoTimes(a: Gf)
    ensures XTimesN(a, 0) == a
  {
  }

  lemma LiftHalfWord(t: bv64, s: bv64)
    ensures XTimesN(Gf(t, s, 0), 32) == Prefix(0, t, s, 32)
  {
    hide XTimesN, Prefix;
    PrefixEnds(0, t, s);
    NoTimes(Gf(t, s, 0));
    LiftFour(t, s, 0, 60, 64);
    LiftFour(t, s, 4, 56, 60);
    LiftFour(t, s, 8, 52, 56);
    LiftFour(t, s, 12, 48, 52);
    LiftFour(t, s, 16, 44, 48);
    LiftFour(t, s, 20, 40, 44);
    LiftFour(t, s, 24, 36, 40);
    LiftFour(t, s, 28, 32, 36);
  }

  lemma LiftSixty(t: bv64, s: bv64)
    ensures XTimesN(Gf(t, s, 0), 60) == Prefix(0, t, s, 4)
  {
    hide XTimesN, Prefix;
    LiftHalfWord(t, s);
    LiftFour(t, s, 32, 28, 32);
    LiftFour(t, s, 36, 24, 28);
    LiftFour(t, s, 40, 20, 24);
    LiftFour(t, s, 44, 16, 20);
    LiftFour(t, s, 48, 12, 16);
    LiftFour(t, s, 52, 8, 12);
    LiftFour(t, s, 56, 4, 8);
  }

  /** Sixty-four times x moves the words up by one. */
  lemma LiftWord(t: bv64, s: bv64)
    ensures XTimesN(Gf(t, s, 0), 64) == Gf(0, t, s)
  {
    hide XTimesN, Prefix;
    LiftSixty(t, s);
    LiftFour(t, s, 60, 0, 4);
    PrefixEnds(0, t, s);
  }

  lemma {:induction false} XTimesNAdds(a: Gf, m: nat, n: nat)
    ensures XTimesN(a, m + n) == XTimesN(XTimesN(a, m), n)
  {
    hide XTimes;
    if n > 0 {
      XTimesNAdds(a, m, n - 1);
    }
  }

  /** An element is the sum of the monomials at its set bits. */
  lemma SumOfMonomials(z: Gf)
    ensures Plus(Plus(Monomials(z.w0, 0, 64), Monomials(z.w1, 64, 64)), Monomials(z.w2, 128, 64)) == z
  {
    hide XTimes, XTimesN, Plus, Monomials, FitsIn;
    FitsAll(z.w0);
    FitsAll(z.w1);
    FitsAll(z.w2);
    MonomialsOfSmall(z.w0, 64);
    MonomialsOfSmall(z.w1, 64);
    MonomialsOfSmall(z.w2, 64);
    MonomialsShiftN(z.w1, 64, 64);
    MonomialsShiftN(z.w2, 128, 64);
    XTimesNAdds(Small(z.w2), 64, 64);
    LiftWord(z.w1, 0);
    LiftWord(z.w2, 0);
    LiftWord(0, z.w2);
    ThreeWords(z);
  }

  lemma ThreeWords(z: Gf)
    ensures Plus(Plus(Gf(z.w0, 0, 0), Gf(0, z.w1, 0)), Gf(0, 0, z.w2)) == z
  {
    hide Xor;
    XorZero(z.w0);
    XorZero(z.w1);
    XorZero(z.w2);
    XorZero(0);
  }

  // ----- The reduction polynomial -----

  lemma {:induction false} PowersOfX(i: nat)
    ensures GfPower(X, i) == XTimesN(ONE, i)
  {
    hide XTimes, GfPower;
    if i > 0 {
      PowersOfX(i - 1);
    }
    MonomialStep(if i == 0 then 0 else i - 1);
  }

  lemma ThreeMore(a: Gf, n: nat)
    ensures XTimesN(a, n + 3) == XTimes(XTimes(XTimes(XTimesN(a, n))))
  {
    hide XTimes;
    assert XTimesN(a, n + 1) == XTimes(XTimesN(a, n));
    assert XTimesN(a, n + 2) == XTimes(XTimesN(a, n + 1));
  }

  const TOP_BIT: bv64 := 0x8000_0000_0000_0000

  lemma TopOfWord()
    ensures Prefix(0, 1, 0, 4) == Gf(0x1000_0000_0000_0000, 0, 0)
    ensures XTimes(XTimes(XTimes(Gf(0x1000_0000_0000_0000, 0, 0)))) == Gf(TOP_BIT, 0, 0)
    ensures XTimes(Gf(0, 0, TOP_BIT)) == Gf(PENTANOMIAL, 0, 0)
  {
  }

  lemma PowerSixtyThree()
    ensures XTimesN(ONE, 63) == Gf(TOP_BIT, 0, 0)
  {
    hide XTimesN, XTimes, Prefix;
    LiftSixty(1, 0);
    ThreeMore(ONE, 60);
    TopOfWord();
  }

  /** x satisfies the reduction polynomial: x^192 = x^7 + x^2 + x + 1. */
  lemma XSatisfiesTheReduction()
    ensures GfPower(X, 192) == Gf(PENTANOMIAL, 0, 0)
  {
    hide XTimesN, XTimes, GfPower;
    PowersOfX(191);
    MonomialStep(191);
    PowerSixtyThree();
    XTimesNAdds(ONE, 63, 64);
    LiftWord(TOP_BIT, 0);
    XTimesNAdds(ONE, 127, 64);
    LiftWord(0, TOP_BIT);
    TopOfWord();
  }

  // ----- The tables -----

  /** Entry `i` of the row is x^i to the power `e`. */
  ghost predicate HoldsPowers(row: seq<Gf>, e: nat) {
    |row| == 192 && forall i :: 0 <= i < 192 ==> row[i] == GfPower(GfPower(X, i), e)
  }

  lemma {:induction false} SelectedIsPower(row: seq<Gf>, j: nat, w: bv64, i: nat, n: nat)
    requires HoldsPowers(row, Pow2(j)) && i + n <= 192
    ensures Selected(row, w, i, n) == GfPower(Monomials(w, i, n), Pow2(j))
    decreases n
  {
    hide GfPower, Plus, LowBit, Pow2;
    PowerOfTwoAdds(ZERO, ZERO, j);
    if n > 0 {
      SelectedIsPower(row, j, w >> 1, i + 1, n - 1);
      PowerOfTwoAdds(Only(LowBit(w), GfPower(X, i)), Monomials(w >> 1, i + 1, n - 1), j);
    }
  }

  function SelectAll(row: seq<Gf>, z: Gf): Gf
    requires |row| == 192
  {
    Plus(Plus(Selected(row, z.w0, 0, 64), Selected(row, z.w1, 64, 64)), Selected(row, z.w2, 128, 64))
  }

  /** A row that is right for the monomials is right for every element. */
  lemma RowIsRight(row: seq<Gf>, j: nat, z: Gf)
    requires HoldsPowers(row, Pow2(j))
    ensures SelectAll(row, z) == GfPower(z, Pow2(j))
  {
    hide HoldsPowers, GfPower, Plus, Selected, Monomials, Pow2;
    assert |row| == 192 by { RowLength(row, Pow2(j)); }
    var m0, m1, m2 := Monomials(z.w0, 0, 64), Monomials(z.w1, 64, 64), Monomials(z.w2, 128, 64);
    SelectedIsPower(row, j, z.w0, 0, 64);
    SelectedIsPower(row, j, z.w1, 64, 64);
    SelectedIsPower(row, j, z.w2, 128, 64);
    PowerOfTwoAdds(m0, m1, j);
    PowerOfTwoAdds(Plus(m0, m1), m2, j);
    SumOfMonomials(z);
  }

  lemma RowLength(row: seq<Gf>, e: nat)
    requires HoldsPowers(row, e)
    ensures |row| == 192
  {
  }

  /** `a` times the number 0 or 1, word by word. */
  function Scale(a: Gf, t: bv64): Gf {
    Gf(Mul(a.w0, t), Mul(a.w1, t), Mul(a.w2, t))
  }

  lemma ScaleIs(a: Gf, w: bv64)
    ensures Scale(a, w & 1) == Only(LowBit(w), a)
  {
    assert w & 1 == 0 || w & 1 == 1;
    hide Mul;
    TimesZeroOrOne(a.w0, w & 1);
    TimesZeroOrOne(a.w1, w & 1);
    TimesZeroOrOne(a.w2, w & 1);
  }

  /** Adds the entries from `start` on selected by one word. */
  method AddSelected(row: seq<Gf>, before: Gf, word: bv64, start: nat) returns (t: Gf)
    requires start + 64 <= |row|
    ensures t == Plus(before, Selected(row, word, start, 64))
  {
    hide Plus, Scale, LowBit, Selected;
    t := before;
    var w, i := word, start;
    var maxIndex := start + 64;
    while i < maxIndex
      invariant start <= i <= maxIndex
      invariant Plus(t, Selected(row, w, i, maxIndex - i)) == Plus(before, Selected(row, word, start, 64))
    {
      SelectedUnfolds(row, w, i, maxIndex - i);
      ScaleIs(row[i], w);
      PlusAssociates(t, Only(LowBit(w), row[i]), Selected(row, w >> 1, i + 1, maxIndex - i - 1));
      t := Plus(t, Scale(row[i], w & 1));
      w := w >> 1;
      i := i + 1;
    }
    SelectedUnfolds(row, w, i, 0);
    PlusZero(t);
  }

  lemma SelectedUnfolds(row: seq<Gf>, w: bv64, i: nat, n: nat)
    requires i + n <= |row|
    ensures n == 0 ==> Selected(row, w, i, n) == ZERO
    ensures n > 0 ==> Selected(row, w, i, n) == Plus(Only(LowBit(w), row[i]), Selected(row, w >> 1, i + 1, n - 1))
  {
  }

  method PowerByRow(row: seq<Gf>, z: Gf) returns (t: Gf)
    requires |row| == 192
    ensures t == SelectAll(row, z)
  {
    hide Plus, Selected;
    t := AddSelected(row, ZERO, z.w0, 0);
    PlusZero(Selected(row, z.w0, 0, 64));
    t := AddSelected(row, t, z.w1, 64);
    t := AddSelected(row, t, z.w2, 128);
  }

  /** Row `k` of the tables holds the 2^(2^k)-th powers of the monomials, for `k` up to 6. */
  ghost predicate TablesAreRight(tables: seq<seq<Gf>>) {
    |tables| == 7 && forall k :: 0 <= k < 7 ==> HoldsPowers(tables[k], Pow2(Pow2(k)))
  }

  function TablePower(tables: seq<seq<Gf>>, z: Gf, k: nat): Gf {
    if k < |tables| && |tables[k]| == 192 then SelectAll(tables[k], z) else z
  }

  lemma TablesRaise(tables: seq<seq<Gf>>)
    requires TablesAreRight(tables)
    ensures RaisesUpTo6(Times, ONE, (z: Gf, k: nat) => TablePower(tables, z, k))
  {
    hide Times, SelectAll, Pow2, Power;
    forall z: Gf, k: nat | k <= 6
      ensures TablePower(tables, z, k) == Power(Times, ONE, z, Pow2(Pow2(k)))
    {
      RowIsRight(tables[k], Pow2(k), z);
    }
  }

  /** With tables right for the monomials, inversion gives z^(2^192 - 2), an inverse exactly when z^(2^192 - 1) = 1. */
  method InvertElement(tables: seq<seq<Gf>>, z: Gf) returns (r: Gf)
    requires TablesAreRight(tables)
    ensures r == GfPower(z, Pow2(192) - 2)
    ensures Times(z, r) == ONE <==> GfPower(z, Pow2(192) - 1) == ONE
  {
    hide Times, Pow2, Power, TablesAreRight, TablePower, IsMonoid, RaisesUpTo6;
    GfIsMonoid();
    TablesRaise(tables);
    InvertsIff(Times, ONE, z);
    r := Invert(Times, ONE, (y: Gf, k: nat) => TablePower(tables, y, k), z);
  }
}
