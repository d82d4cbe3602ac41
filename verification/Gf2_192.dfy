/**
 * Polynomials over GF(2) of degree below 192, reduced by x^192 + x^7 + x^2 + x + 1.  Three 64-bit words,
 * low word first, hold the coefficients.  Multiplication is defined one bit at a time and shown to make a
 * commutative ring; with the powers of x it is shown that x satisfies the reduction polynomial.
 */
module Gf2_192 {

  datatype Gf = Gf(w0: bv64, w1: bv64, w2: bv64)

  const PENTANOMIAL: bv64 := 0x87
  const ZERO := Gf(0, 0, 0)
  const ONE := Gf(1, 0, 0)
  const X := Gf(2, 0, 0)

  // ----- Words -----

  function Xor(a: bv64, b: bv64): bv64 {
    a ^ b
  }

  /** `a` shifted up one place, taking in the top bit of `below`. */
  function Up(a: bv64, below: bv64): bv64 {
    (a << 1) | (below >> 63)
  }

  /** `a` shifted down one place, taking in the lowest bit of `above`. */
  function Down(a: bv64, above: bv64): bv64 {
    (a >> 1) | (above << 63)
  }

  /** What x^192 reduces to, if the bit that leaves the top word is set. */
  function Reduce(top: bv64): bv64 {
    if top >> 63 == 1 then PENTANOMIAL else 0
  }

  lemma XorCommutes(a: bv64, b: bv64)
    ensures Xor(a, b) == Xor(b, a)
  {
  }

  lemma XorAssociates(a: bv64, b: bv64, c: bv64)
    ensures Xor(Xor(a, b), c) == Xor(a, Xor(b, c))
  {
  }

  lemma XorZero(a: bv64)
    ensures Xor(a, 0) == a && Xor(0, a) == a && Xor(a, a) == 0
  {
  }

  lemma UpLinear(a: bv64, b: bv64, c: bv64, d: bv64)
    ensures Up(Xor(a, c), Xor(b, d)) == Xor(Up(a, b), Up(c, d))
  {
  }

  lemma ReduceLinear(a: bv64, b: bv64)
    ensures Reduce(Xor(a, b)) == Xor(Reduce(a), Reduce(b))
  {
    assert a >> 63 == 0 || a >> 63 == 1;
    assert b >> 63 == 0 || b >> 63 == 1;
    assert (a ^ b) >> 63 == (a >> 63) ^ (b >> 63);
  }

  lemma UpDown(a: bv64, b: bv64, c: bv64)
    ensures Up(Down(b, c), Down(a, b)) == b
    ensures Reduce(Down(c, 0)) == 0
  {
  }

  lemma UpDownLow(a: bv64, b: bv64)
    ensures Xor(Up(Down(a, b), 0), a & 1) == a
  {
  }

  // ----- Polynomials -----

  function Plus(a: Gf, b: Gf): Gf {
    Gf(Xor(a.w0, b.w0), Xor(a.w1, b.w1), Xor(a.w2, b.w2))
  }

  /** `a` times x, reduced. */
  function XTimes(a: Gf): Gf {
    Gf(Xor(Up(a.w0, 0), Reduce(a.w2)), Up(a.w1, a.w0), Up(a.w2, a.w1))
  }

  predicate Odd(a: Gf) {
    a.w0 & 1 == 1
  }

  /** `a` without its constant term, divided by x. */
  function Half(a: Gf): Gf {
    Gf(Down(a.w0, a.w1), Down(a.w1, a.w2), Down(a.w2, 0))
  }

  function Only(bit: bool, a: Gf): Gf {
    if bit then a else ZERO
  }

  lemma HalfIsLess(w0: bv64, w1: bv64, w2: bv64)
    ensures w2 != 0 ==> w2 >> 1 < w2
    ensures w1 != 0 ==> w1 >> 1 < w1
    ensures w0 != 0 ==> w0 >> 1 < w0
    ensures Down(w2, 0) == w2 >> 1 && Down(w1, 0) == w1 >> 1 && Down(w0, 0) == w0 >> 1
    ensures Down(0, 0) == 0
  {
  }

  /** The degree of `b` plus one; 0 for zero. */
  function Length(b: Gf): nat
    decreases b.w2, b.w1, b.w0
  {
    if b == ZERO then 0
    else
      HalfIsLess(b.w0, b.w1, b.w2);
      1 + Length(Half(b))
  }

  lemma HalfIsShorter(b: Gf)
    requires b != ZERO
    ensures Length(Half(b)) < Length(b)
  {
  }

  /** The product, one bit of `b` at a time: times x and add. */
  function Times(a: Gf, b: Gf): Gf
    decreases Length(b)
  {
    if b == ZERO then ZERO
    else
      HalfIsShorter(b);
      Plus(XTimes(Times(a, Half(b))), Only(Odd(b), a))
  }

  lemma PlusCommutes(a: Gf, b: Gf)
    ensures Plus(a, b) == Plus(b, a)
  {
    hide Xor;
    XorCommutes(a.w0, b.w0);
    XorCommutes(a.w1, b.w1);
    XorCommutes(a.w2, b.w2);
  }

  lemma PlusAssociates(a: Gf, b: Gf, c: Gf)
    ensures Plus(Plus(a, b), c) == Plus(a, Plus(b, c))
  {
    hide Xor;
    XorAssociates(a.w0, b.w0, c.w0);
    XorAssociates(a.w1, b.w1, c.w1);
    XorAssociates(a.w2, b.w2, c.w2);
  }

  lemma PlusZero(a: Gf)
    ensures Plus(a, ZERO) == a && Plus(ZERO, a) == a && Plus(a, a) == ZERO
  {
    hide Xor;
    XorZero(a.w0);
    XorZero(a.w1);
    XorZero(a.w2);
  }

  lemma PlusSwap(a: Gf, b: Gf, c: Gf, d: Gf)
    ensures Plus(Plus(a, b), Plus(c, d)) == Plus(Plus(a, c), Plus(b, d))
  {
    hide Plus;
    PlusAssociates(a, b, Plus(c, d));
    PlusAssociates(b, c, d);
    PlusCommutes(b, c);
    PlusAssociates(c, b, d);
    PlusAssociates(a, c, Plus(b, d));
  }

  lemma XorSwap(a: bv64, b: bv64, c: bv64, d: bv64)
    ensures Xor(Xor(a, b), Xor(c, d)) == Xor(Xor(a, c), Xor(b, d))
  {
    hide Xor;
    XorAssociates(a, b, Xor(c, d));
    XorAssociates(b, c, d);
    XorCommutes(b, c);
    XorAssociates(c, b, d);
    XorAssociates(a, c, Xor(b, d));
  }

  lemma XTimesLinear(a: Gf, b: Gf)
    ensures XTimes(Plus(a, b)) == Plus(XTimes(a), XTimes(b))
  {
    hide Xor, Up, Reduce;
    XorZero(0);
    UpLinear(a.w0, 0, b.w0, 0);
    UpLinear(a.w1, a.w0, b.w1, b.w0);
    UpLinear(a.w2, a.w1, b.w2, b.w1);
    ReduceLinear(a.w2, b.w2);
    XorSwap(Up(a.w0, 0), Up(b.w0, 0), Reduce(a.w2), Reduce(b.w2));
  }

  lemma XTimesZero()
    ensures XTimes(ZERO) == ZERO
  {
  }

  /** A polynomial is x times its upper part plus its constant term. */
  lemma HalfAndOdd(a: Gf)
    ensures Plus(XTimes(Half(a)), Only(Odd(a), ONE)) == a
  {
    hide Xor, Up, Down, Reduce;
    UpDown(0, a.w0, a.w1);
    UpDown(a.w0, a.w1, a.w2);
    UpDown(a.w1, a.w2, 0);
    UpDownLow(a.w0, a.w1);
    XorZero(Up(Down(a.w0, a.w1), 0));
    XorZero(a.w1);
    XorZero(a.w2);
    assert a.w0 & 1 == 0 || a.w0 & 1 == 1;
  }

  lemma TimesUnfolds(a: Gf, b: Gf)
    ensures Times(a, b) == Plus(XTimes(Times(a, Half(b))), Only(Odd(b), a))
    ensures Times(a, ZERO) == ZERO
  {
    hide Xor, Up, Reduce;
    if b == ZERO {
      HalfIsLess(0, 0, 0);
      XTimesZero();
      PlusZero(ZERO);
    }
  }

  // ----- Linear in the first argument -----

  lemma {:induction false} TimesLinear(a: Gf, b: Gf, c: Gf)
    ensures Times(Plus(a, b), c) == Plus(Times(a, c), Times(b, c))
    decreases Length(c)
  {
    hide Length, Times, XTimes, Plus, Half, Odd;
    TimesUnfolds(Plus(a, b), c);
    TimesUnfolds(a, c);
    TimesUnfolds(b, c);
    PlusZero(ZERO);
    if c != ZERO {
      HalfIsShorter(c);
      TimesLinear(a, b, Half(c));
      var u, v := Times(a, Half(c)), Times(b, Half(c));
      XTimesLinear(u, v);
      PlusSwap(XTimes(u), XTimes(v), Only(Odd(c), a), Only(Odd(c), b));
    }
  }

  lemma {:induction false} TimesShifts(a: Gf, c: Gf)
    ensures Times(XTimes(a), c) == XTimes(Times(a, c))
    decreases Length(c)
  {
    hide Length, Times, XTimes, Plus, Half, Odd;
    TimesUnfolds(XTimes(a), c);
    TimesUnfolds(a, c);
    XTimesZero();
    if c != ZERO {
      HalfIsShorter(c);
      TimesShifts(a, Half(c));
      XTimesLinear(XTimes(Times(a, Half(c))), Only(Odd(c), a));
    }
  }

  lemma TimesOfZero(c: Gf)
    ensures Times(ZERO, c) == ZERO
  {
    hide Times, Plus;
    PlusZero(ZERO);
    TimesLinear(ZERO, ZERO, c);
    PlusZero(Times(ZERO, c));
  }

  // ----- The ring laws -----

  lemma {:induction false} OneTimes(b: Gf)
    ensures Times(ONE, b) == b
    decreases Length(b)
  {
    hide Length, Times, XTimes, Plus, Half, Odd;
    TimesUnfolds(ONE, b);
    if b != ZERO {
      HalfIsShorter(b);
      OneTimes(Half(b));
      HalfAndOdd(b);
    }
  }

  /** (a b) c = (a c) b. */
  lemma {:induction false} TimesExchange(a: Gf, b: Gf, c: Gf)
    ensures Times(Times(a, b), c) == Times(Times(a, c), b)
    decreases Length(b)
  {
    hide Length, Times, XTimes, Plus, Half, Odd;
    TimesUnfolds(a, b);
    TimesUnfolds(Times(a, c), b);
    TimesOfZero(c);
    if b != ZERO {
      HalfIsShorter(b);
      TimesExchange(a, Half(b), c);
      TimesLinear(XTimes(Times(a, Half(b))), Only(Odd(b), a), c);
      TimesShifts(Times(a, Half(b)), c);
    }
  }

  lemma TimesCommutes(a: Gf, b: Gf)
    ensures Times(a, b) == Times(b, a)
  {
    hide Times;
    OneTimes(a);
    OneTimes(b);
    TimesExchange(ONE, a, b);
  }

  lemma TimesAssociates(a: Gf, b: Gf, c: Gf)
    ensures Times(Times(a, b), c) == Times(a, Times(b, c))
  {
    hide Times;
    TimesCommutes(a, b);
    TimesExchange(b, a, c);
    TimesCommutes(Times(b, c), a);
  }

  lemma TimesDistributes(a: Gf, b: Gf, c: Gf)
    ensures Times(a, Plus(b, c)) == Plus(Times(a, b), Times(a, c))
  {
    hide Times, Plus;
    TimesLinear(b, c, a);
    TimesCommutes(a, Plus(b, c));
    TimesCommutes(a, b);
    TimesCommutes(a, c);
  }

  /** Multiplying by the polynomial x is multiplying by x. */
  lemma TimesX(a: Gf)
    ensures Times(X, a) == XTimes(a)
  {
    assert XTimes(ONE) == X;
    hide Times, XTimes;
    TimesShifts(ONE, a);
    OneTimes(a);
  }
}
