/** Polynomials with coefficients in GF(2^192): evaluation, the in-place updates, and Newton interpolation. */
module Gf2_192Poly {
  import opened Wrappers
  import opened Gf2_192
  import opened Gf2_192Multiply
  import opened Gf2_192Powers
  import opened MonoidPowers
  import opened Powers

  // ----- Coefficient lists -----

  /** The value at `x` of the polynomial with coefficients `cs`, constant term first. */
  function Eval(cs: seq<Gf>, x: Gf): Gf {
    if cs == [] then ZERO else Plus(cs[0], Times(x, Eval(cs[1..], x)))
  }

  predicate Monic(cs: seq<Gf>) {
    cs != [] && cs[|cs| - 1] == ONE
  }

  /** `a` plus `r` times the monic `b`, which is one term longer. */
  function AddScaled(a: seq<Gf>, b: seq<Gf>, r: Gf): (s: seq<Gf>)
    requires |b| == |a| + 1
    ensures |s| == |b|
  {
    seq(|b|, i requires 0 <= i < |b| => if i < |a| then Plus(a[i], Times(b[i], r)) else r)
  }

  /** The monic `a` times x + r. */
  function TimesBinomial(a: seq<Gf>, r: Gf): (s: seq<Gf>)
    requires a != []
    ensures |s| == |a| + 1
  {
    seq(|a| + 1, i requires 0 <= i < |a| + 1 =>
          if i == 0 then Times(a[0], r) else if i < |a| then Plus(Times(a[i], r), a[i - 1]) else ONE)
  }

  lemma EvalSingle(c: Gf, x: Gf)
    ensures Eval([c], x) == c
  {
    hide Times, Plus;
    assert [c][1..] == [];
    TimesUnfolds(x, ZERO);
    PlusZero(c);
  }

  lemma EvalAtZero(cs: seq<Gf>)
    requires cs != []
    ensures Eval(cs, ZERO) == cs[0]
  {
    hide Times, Plus;
    TimesOfZero(Eval(cs[1..], ZERO));
    PlusZero(cs[0]);
  }

  lemma EvalUnfolds(cs: seq<Gf>, x: Gf)
    requires cs != []
    ensures Eval(cs, x) == Plus(cs[0], Times(x, Eval(cs[1..], x)))
  {
  }

  lemma TimesSwap(a: Gf, b: Gf, c: Gf)
    ensures Times(a, Times(b, c)) == Times(b, Times(a, c))
  {
    hide Times;
    TimesAssociates(a, b, c);
    TimesAssociates(b, a, c);
    TimesCommutes(a, b);
  }

  lemma {:induction false} EvalAddScaled(a: seq<Gf>, b: seq<Gf>, r: Gf, x: Gf)
    requires |b| == |a| + 1 && Monic(b)
    ensures Eval(AddScaled(a, b, r), x) == Plus(Eval(a, x), Times(r, Eval(b, x)))
  {
    hide Times, Plus, Eval;
    var s := AddScaled(a, b, r);
    if a == [] {
      assert s == [r] && b == [ONE];
      EvalSingle(r, x);
      EvalSingle(ONE, x);
      EvalNothing(x);
      OneTimes(r);
      TimesCommutes(ONE, r);
      PlusZero(r);
    } else {
      assert s[1..] == AddScaled(a[1..], b[1..], r);
      EvalAddScaled(a[1..], b[1..], r, x);
      EvalUnfolds(s, x);
      EvalUnfolds(a, x);
      EvalUnfolds(b, x);
      var ea, eb := Eval(a[1..], x), Eval(b[1..], x);
      TimesDistributes(x, ea, Times(r, eb));
      TimesSwap(x, r, eb);
      TimesDistributes(r, b[0], Times(x, eb));
      TimesCommutes(b[0], r);
      PlusSwap(a[0], Times(r, b[0]), Times(x, ea), Times(r, Times(x, eb)));
    }
  }

  lemma EvalNothing(x: Gf)
    ensures Eval([], x) == ZERO
  {
  }

  lemma {:induction false} EvalTimesBinomial(a: seq<Gf>, r: Gf, x: Gf)
    requires Monic(a)
    ensures Eval(TimesBinomial(a, r), x) == Times(Plus(x, r), Eval(a, x))
  {
    hide Times, Plus, Eval;
    var s := TimesBinomial(a, r);
    EvalUnfolds(s, x);
    EvalUnfolds(a, x);
    var e := Eval(a, x);
    TimesLinear(x, r, e);
    EvalShifted(a, r, x);
  }

  lemma {:induction false} EvalShifted(a: seq<Gf>, r: Gf, x: Gf)
    requires Monic(a)
    ensures Plus(Times(a[0], r), Times(x, Eval(TimesBinomial(a, r)[1..], x))) == Plus(Times(x, Eval(a, x)), Times(r, Eval(a, x)))
  {
    hide Times, Plus, Eval;
    var s := TimesBinomial(a, r);
    EvalUnfolds(a, x);
    if |a| == 1 {
      assert s[1..] == [ONE] && a == [ONE];
      EvalSingle(ONE, x);
      TimesCommutes(ONE, r);
      PlusCommutes(Times(ONE, r), Times(x, ONE));
    } else {
      var t := a[1..];
      EvalShifted(t, r, x);
      var st := TimesBinomial(t, r);
      // s[1..] is st with a[0] added to its constant term
      assert s[1..][1..] == st[1..] && s[1] == Plus(st[0], a[0]);
      EvalUnfolds(s[1..], x);
      EvalUnfolds(st, x);
      var et, rest := Eval(t, x), Times(x, Eval(st[1..], x));
      assert Plus(st[0], rest) == Plus(Times(x, et), Times(r, et));
      PlusCommutes(st[0], a[0]);
      PlusAssociates(a[0], st[0], rest);
      assert Eval(s[1..], x) == Plus(a[0], Plus(Times(x, et), Times(r, et)));
      PlusAssociates(a[0], Times(x, et), Times(r, et));
      assert Eval(s[1..], x) == Plus(Eval(a, x), Times(r, et));
      TimesDistributes(x, Eval(a, x), Times(r, et));
      TimesSwap(x, r, et);
      TimesDistributes(r, a[0], Times(x, et));
      TimesCommutes(a[0], r);
      PlusCommutes(Times(r, a[0]), Plus(Times(x, Eval(a, x)), Times(r, Times(x, et))));
      PlusAssociates(Times(x, Eval(a, x)), Times(r, Times(x, et)), Times(r, a[0]));
      PlusCommutes(Times(r, Times(x, et)), Times(r, a[0]));
    }
  }

  // ----- Points -----

  /** The element whose low eight bits are `b`. */
  function Point(b: bv8): Gf {
    Small(b as bv64)
  }

  lemma PointsDiffer(a: bv8, b: bv8)
    ensures Plus(Point(a), Point(b)) == ZERO <==> a == b
    ensures Point(0) == ZERO
  {
    assert (a as bv64) ^ (b as bv64) == 0 <==> a == b;
    XorZero(0);
  }

  /** `inv` inverts every element other than zero. */
  ghost predicate Inverts(inv: Gf -> Gf) {
    forall z: Gf :: z != ZERO ==> Times(z, inv(z)) == ONE
  }

  /** The power that inversion computes. */
  ghost function InversePower(z: Gf): Gf {
    AtLeastTwo();
    GfPower(z, Pow2(192) - 2)
  }

  ghost predicate OrderDivides(z: Gf) {
    GfPower(z, Pow2(192) - 1) == ONE
  }

  /** Where z^(2^192 - 1) = 1 for every z other than zero, the power that inversion computes inverts all of them. */
  lemma FermatInverts()
    requires forall z: Gf :: z != ZERO ==> OrderDivides(z)
    ensures Inverts(InversePower)
  {
    hide Times, Pow2, Power;
    AtLeastTwo();
    forall z: Gf | z != ZERO
      ensures Times(z, InversePower(z)) == ONE
    {
      assert OrderDivides(z);
      InvertsIff(Times, ONE, z);
    }
  }

  lemma NoZeroDivisors(inv: Gf -> Gf, a: Gf, b: Gf)
    requires Inverts(inv)
    ensures Times(a, b) == ZERO <==> a == ZERO || b == ZERO
  {
    hide Times;
    TimesOfZero(b);
    TimesOfZero(a);
    TimesCommutes(a, ZERO);
    if a != ZERO && Times(a, b) == ZERO {
      TimesAssociates(inv(a), a, b);
      TimesCommutes(inv(a), a);
      OneTimes(b);
      TimesOfZero(inv(a));
      TimesCommutes(inv(a), ZERO);
    }
  }

  /** The value at `y` of the monic polynomial with exactly the roots `ps`. */
  function Vanishing(ps: seq<bv8>, y: Gf): Gf {
    if ps == [] then ONE
    else Times(Plus(y, Point(ps[|ps| - 1])), Vanishing(ps[..|ps| - 1], y))
  }

  lemma {:induction false} VanishesExactlyAt(inv: Gf -> Gf, ps: seq<bv8>, b: bv8)
    requires Inverts(inv)
    ensures Vanishing(ps, Point(b)) == ZERO <==> b in ps
  {
    hide Times, Plus, Point, Inverts;
    if ps != [] {
      var init, last := ps[..|ps| - 1], ps[|ps| - 1];
      assert ps == init + [last];
      VanishesExactlyAt(inv, init, b);
      PointsDiffer(b, last);
      NoZeroDivisors(inv, Plus(Point(b), Point(last)), Vanishing(init, Point(b)));
    }
  }

  // ----- One step of the interpolation -----

  /** Adding ((value + v) / w) times a polynomial with value `w` brings the value `v` to `value`. */
  lemma CorrectionHits(inv: Gf -> Gf, v: Gf, value: Gf, w: Gf)
    requires Inverts(inv) && w != ZERO
    ensures Plus(v, Times(Times(Plus(v, value), inv(w)), w)) == value
  {
    hide Times, Plus;
    var d := Plus(v, value);
    TimesAssociates(d, inv(w), w);
    TimesCommutes(inv(w), w);
    TimesCommutes(d, ONE);
    OneTimes(d);
    PlusAssociates(v, v, value);
    PlusZero(v);
    PlusZero(value);
  }

  lemma NoCorrection(v: Gf, t: Gf)
    ensures Plus(v, Times(t, ZERO)) == v
  {
    hide Times, Plus;
    TimesUnfolds(t, ZERO);
    PlusZero(v);
  }

  // ----- Newton interpolation, on coefficient lists -----

  /** What to add of a polynomial with value `w` to get from value `v` to `value`. */
  function Correction(inv: Gf -> Gf, v: Gf, value: Gf, w: Gf): Gf {
    Times(Plus(v, value), inv(w))
  }

  /** After `i` points: a polynomial through them (no terms before the first), and the one that vanishes at them. */
  function Newton(inv: Gf -> Gf, points: seq<bv8>, values: seq<Gf>, i: nat): (s: (seq<Gf>, seq<Gf>))
    requires i <= |points| == |values|
    ensures |s.0| == i && |s.1| == i + 1 && Monic(s.1)
  {
    if i == 0 then ([], [ONE])
    else
      var (r, v) := Newton(inv, points, values, i - 1);
      var x := Point(points[i - 1]);
      var t := Correction(inv, Eval(r, x), values[i - 1], Eval(v, x));
      (AddScaled(r, v, t), TimesBinomial(v, x))
  }

  /** The coefficients of the interpolating polynomial. */
  function Interpolated(inv: Gf -> Gf, points: seq<bv8>, values: seq<Gf>, valueAtZero: Gf): (cs: seq<Gf>)
    requires |points| == |values|
    ensures |cs| == |points| + 1
  {
    var (r, v) := Newton(inv, points, values, |points|);
    AddScaled(r, v, Correction(inv, Eval(r, ZERO), valueAtZero, Eval(v, ZERO)))
  }

  lemma {:induction false} NewtonVanishes(inv: Gf -> Gf, points: seq<bv8>, values: seq<Gf>, i: nat, y: Gf)
    requires i <= |points| == |values|
    ensures Eval(Newton(inv, points, values, i).1, y) == Vanishing(points[..i], y)
  {
    hide Times, Plus, Eval, AddScaled, TimesBinomial, Point;
    if i == 0 {
      EvalSingle(ONE, y);
    } else {
      NewtonVanishes(inv, points, values, i - 1, y);
      assert points[..i][..i - 1] == points[..i - 1];
      EvalTimesBinomial(Newton(inv, points, values, i - 1).1, Point(points[i - 1]), y);
    }
  }

  predicate DistinctNonZero(points: seq<bv8>) {
    && (forall i, j :: 0 <= i < j < |points| ==> points[i] != points[j])
    && forall i :: 0 <= i < |points| ==> points[i] != 0
  }

  lemma {:induction false} NewtonHits(inv: Gf -> Gf, points: seq<bv8>, values: seq<Gf>, i: nat, j: nat)
    requires Inverts(inv) && j < i <= |points| == |values| && DistinctNonZero(points)
    ensures Eval(Newton(inv, points, values, i).0, Point(points[j])) == values[j]
  {
    hide Times, Plus, Eval, AddScaled, TimesBinomial, Point, Inverts;
    var (r, v) := Newton(inv, points, values, i - 1);
    var x, y := Point(points[i - 1]), Point(points[j]);
    var t := Correction(inv, Eval(r, x), values[i - 1], Eval(v, x));
    EvalAddScaled(r, v, t, y);
    NewtonVanishes(inv, points, values, i - 1, y);
    VanishesExactlyAt(inv, points[..i - 1], points[j]);
    if j == i - 1 {
      CorrectionHits(inv, Eval(r, x), values[j], Eval(v, x));
    } else {
      assert points[j] == points[..i - 1][j];
      NewtonHits(inv, points, values, i - 1, j);
      NoCorrection(Eval(r, y), t);
    }
  }

  /** The polynomial takes the given value at every point, and the given value at zero. */
  ghost predicate Interpolates(cs: seq<Gf>, points: seq<bv8>, values: seq<Gf>, valueAtZero: Gf)
    requires |points| == |values|
  {
    && Eval(cs, ZERO) == valueAtZero
    && forall j :: 0 <= j < |points| ==> Eval(cs, Point(points[j])) == values[j]
  }

  lemma InterpolationHits(inv: Gf -> Gf, points: seq<bv8>, values: seq<Gf>, valueAtZero: Gf)
    requires Inverts(inv) && |points| == |values| && DistinctNonZero(points)
    ensures Interpolates(Interpolated(inv, points, values, valueAtZero), points, values, valueAtZero)
  {
    hide Times, Plus, Eval, AddScaled, Newton, Point, Inverts;
    var n := |points|;
    var (r, v) := Newton(inv, points, values, n);
    var t := Correction(inv, Eval(r, ZERO), valueAtZero, Eval(v, ZERO));
    assert points[..n] == points;
    assert Point(0) == ZERO by { PointsDiffer(0, 0); }
    EvalAddScaled(r, v, t, ZERO);
    NewtonVanishes(inv, points, values, n, ZERO);
    VanishesExactlyAt(inv, points, 0);
    CorrectionHits(inv, Eval(r, ZERO), valueAtZero, Eval(v, ZERO));
    forall j | 0 <= j < n
      ensures Eval(Interpolated(inv, points, values, valueAtZero), Point(points[j])) == values[j]
    {
      var y := Point(points[j]);
      EvalAddScaled(r, v, t, y);
      NewtonVanishes(inv, points, values, n, y);
      VanishesExactlyAt(inv, points, points[j]);
      NewtonHits(inv, points, values, n, j);
      NoCorrection(Eval(r, y), t);
    }
  }

  // ----- Uniqueness -----

  /** Division of `cs` by x + a: the values at `a` met on the way of Horner's scheme. */
  function Quotient(cs: seq<Gf>, a: Gf): (q: seq<Gf>)
    requires cs != []
    ensures |q| == |cs| - 1
    ensures forall k :: 0 <= k < |q| ==> q[k] == Eval(cs[k + 1..], a)
  {
    seq(|cs| - 1, k requires 0 <= k < |cs| - 1 => Eval(cs[k + 1..], a))
  }

  lemma QuotientUnfolds(cs: seq<Gf>, a: Gf)
    requires |cs| >= 2
    ensures Quotient(cs, a)[0] == Eval(cs[1..], a) && Quotient(cs, a)[1..] == Quotient(cs[1..], a)
  {
    hide Eval;
    forall k | 0 <= k < |cs| - 2
      ensures Quotient(cs, a)[1..][k] == Quotient(cs[1..], a)[k]
    {
      assert cs[1..][k + 1..] == cs[k + 2..];
    }
  }

  /** c + a e + (x + a) (e + x y) = c + x (e + (x + a) y). */
  lemma DivisionStep(c: Gf, a: Gf, x: Gf, e: Gf, y: Gf)
    ensures Plus(Plus(c, Times(a, e)), Times(Plus(x, a), Plus(e, Times(x, y))))
            == Plus(c, Times(x, Plus(e, Times(Plus(x, a), y))))
  {
    hide Times, Plus;
    var b := Plus(x, a);
    TimesDistributes(b, e, Times(x, y));
    TimesLinear(x, a, e);
    TimesSwap(b, x, y);
    TimesDistributes(x, e, Times(b, y));
    var ae, xe, z := Times(a, e), Times(x, e), Times(x, Times(b, y));
    PlusCommutes(xe, ae);
    PlusAssociates(ae, xe, z);
    PlusAssociates(Plus(c, ae), ae, Plus(xe, z));
    PlusAssociates(c, ae, ae);
    PlusZero(ae);
    PlusZero(c);
  }

  lemma {:induction false} Division(cs: seq<Gf>, a: Gf, x: Gf)
    requires cs != []
    ensures Eval(cs, x) == Plus(Eval(cs, a), Times(Plus(x, a), Eval(Quotient(cs, a), x)))
  {
    hide Times, Plus, Eval, Quotient;
    if |cs| == 1 {
      assert cs == [cs[0]];
      EvalSingle(cs[0], x);
      EvalSingle(cs[0], a);
      assert Quotient(cs, a) == [];
      EvalNothing(x);
      NoCorrection(cs[0], Plus(x, a));
    } else {
      var t, q := cs[1..], Quotient(cs, a);
      Division(t, a, x);
      QuotientUnfolds(cs, a);
      EvalUnfolds(cs, x);
      EvalUnfolds(cs, a);
      EvalUnfolds(q, x);
      DivisionStep(cs[0], a, x, Eval(t, a), Eval(q[1..], x));
    }
  }

  predicate AllZero(cs: seq<Gf>) {
    forall k :: 0 <= k < |cs| ==> cs[k] == ZERO
  }

  lemma ZeroQuotient(cs: seq<Gf>, a: Gf)
    requires cs != [] && AllZero(Quotient(cs, a)) && Eval(cs, a) == ZERO
    ensures AllZero(cs)
  {
    hide Times, Plus, Eval;
    var q := Quotient(cs, a);
    TimesUnfolds(a, ZERO);
    EvalNothing(a);
    forall k | 0 <= k < |cs|
      ensures cs[k] == ZERO
    {
      EvalUnfolds(cs[k..], a);
      assert cs[k..][1..] == cs[k + 1..] && cs[k..][0] == cs[k];
      if k > 0 {
        assert q[k - 1] == ZERO;
      } else {
        assert cs[0..] == cs;
      }
      if k < |q| {
        assert q[k] == ZERO;
      } else {
        assert cs[k + 1..] == [];
      }
      PlusZero(cs[k]);
    }
  }

  predicate Distinct(xs: seq<Gf>) {
    forall i, j :: 0 <= i < j < |xs| ==> xs[i] != xs[j]
  }

  lemma SumIsZero(a: Gf, b: Gf)
    ensures Plus(a, b) == ZERO <==> a == b
  {
    hide Plus;
    PlusZero(a);
    PlusZero(b);
    PlusAssociates(a, b, b);
  }

  /** A polynomial with at least as many roots as terms is zero. */
  lemma {:induction false} TooManyRoots(inv: Gf -> Gf, cs: seq<Gf>, xs: seq<Gf>)
    requires Inverts(inv) && Distinct(xs) && |cs| <= |xs|
    requires forall i :: 0 <= i < |xs| ==> Eval(cs, xs[i]) == ZERO
    ensures AllZero(cs)
    decreases |cs|
  {
    hide Times, Plus, Eval, Quotient, Inverts;
    if cs != [] {
      var a, rest, q := xs[0], xs[1..], Quotient(cs, xs[0]);
      forall i | 0 <= i < |rest|
        ensures Eval(q, rest[i]) == ZERO
      {
        assert rest[i] == xs[i + 1];
        Division(cs, a, rest[i]);
        SumIsZero(rest[i], a);
        PlusZero(Times(Plus(rest[i], a), Eval(q, rest[i])));
        NoZeroDivisors(inv, Plus(rest[i], a), Eval(q, rest[i]));
      }
      TooManyRoots(inv, q, rest);
      ZeroQuotient(cs, a);
    }
  }

  function AddLists(a: seq<Gf>, b: seq<Gf>): (s: seq<Gf>)
    requires |a| == |b|
    ensures |s| == |a|
    ensures forall i :: 0 <= i < |a| ==> s[i] == Plus(a[i], b[i])
  {
    seq(|a|, i requires 0 <= i < |a| => Plus(a[i], b[i]))
  }

  lemma {:induction false} EvalAddLists(a: seq<Gf>, b: seq<Gf>, x: Gf)
    requires |a| == |b|
    ensures Eval(AddLists(a, b), x) == Plus(Eval(a, x), Eval(b, x))
  {
    hide Times, Plus, Eval;
    if a == [] {
      EvalNothing(x);
      PlusZero(ZERO);
      assert AddLists(a, b) == [];
    } else {
      assert AddLists(a, b)[1..] == AddLists(a[1..], b[1..]);
      EvalAddLists(a[1..], b[1..], x);
      EvalUnfolds(AddLists(a, b), x);
      EvalUnfolds(a, x);
      EvalUnfolds(b, x);
      TimesDistributes(x, Eval(a[1..], x), Eval(b[1..], x));
      PlusSwap(a[0], b[0], Times(x, Eval(a[1..], x)), Times(x, Eval(b[1..], x)));
    }
  }

  function PointsOf(points: seq<bv8>): (xs: seq<Gf>)
    ensures |xs| == |points| + 1 && xs[0] == ZERO
    ensures forall i :: 0 <= i < |points| ==> xs[i + 1] == Point(points[i])
  {
    [ZERO] + seq(|points|, i requires 0 <= i < |points| => Point(points[i]))
  }

  lemma PointsAreDistinct(points: seq<bv8>)
    requires DistinctNonZero(points)
    ensures Distinct(PointsOf(points))
  {
    hide Plus, Point;
    var xs := PointsOf(points);
    PlusZero(ZERO);
    forall i, j | 0 <= i < j < |xs|
      ensures xs[i] != xs[j]
    {
      var b, c := if i == 0 then 0 else points[i - 1], points[j - 1];
      PointsDiffer(b, c);
      assert xs[j] == Point(c) && xs[i] == Point(b);
      PlusZero(xs[j]);
    }
  }

  /** No other polynomial of that many terms passes through the same points. */
  lemma InterpolationIsUnique(
    inv: Gf -> Gf, points: seq<bv8>, values: seq<Gf>, valueAtZero: Gf, cs: seq<Gf>, ds: seq<Gf>)
    requires Inverts(inv) && |points| == |values| && DistinctNonZero(points)
    requires |cs| == |ds| == |points| + 1
    requires Interpolates(cs, points, values, valueAtZero) && Interpolates(ds, points, values, valueAtZero)
    ensures cs == ds
  {
    hide Times, Plus, Eval, Point, Inverts;
    var sum, xs := AddLists(cs, ds), PointsOf(points);
    PointsAreDistinct(points);
    forall i | 0 <= i < |xs|
      ensures Eval(sum, xs[i]) == ZERO
    {
      EvalAddLists(cs, ds, xs[i]);
      if i > 0 {
        assert xs[i] == Point(points[i - 1]);
      }
      PlusZero(Eval(cs, xs[i]));
    }
    TooManyRoots(inv, sum, xs);
    forall i | 0 <= i < |cs|
      ensures cs[i] == ds[i]
    {
      assert sum[i] == ZERO;
      SumIsZero(cs[i], ds[i]);
    }
  }

  // ----- The polynomial object -----

  datatype PolyError = InterpolatePointsAndValuesLengthDiffer

  /** Coefficients in an array that may be longer than the degree asks for. */
  class Poly {
    const coefficients: array<Gf>
    var degree: nat

    ghost predicate Valid()
      reads this
    {
      degree < coefficients.Length
    }

    function Coeffs(): (cs: seq<Gf>)
      requires Valid()
      reads this, coefficients
      ensures |cs| == degree + 1
    {
      coefficients[..degree + 1]
    }

    /** The constant polynomial, with room for `maxDegree`. */
    constructor (maxDegree: nat, constantTerm: bv32)
      ensures Valid() && fresh(coefficients) && coefficients.Length == maxDegree + 1
      ensures degree == 0 && Coeffs() == [Small(constantTerm as bv64)]
    {
      coefficients := new Gf[maxDegree + 1](_ => ZERO);
      degree := 0;
      new;
      coefficients[0] := Small(constantTerm as bv64);
    }

    method Evaluate(x: bv8) returns (res: Gf)
      requires Valid()
      ensures res == Eval(Coeffs(), Point(x))
    {
      hide Times, Plus, Eval, Small;
      res := coefficients[degree];
      ghost var cs := Coeffs();
      assert cs[degree..] == [res];
      EvalSingle(res, Point(x));
      for d := degree downto 0
        invariant res == Eval(cs[d..], Point(x))
      {
        EvalUnfolds(cs[d..], Point(x));
        assert cs[d..][1..] == cs[d + 1..] && cs[d..][0] == coefficients[d];
        TimesCommutes(res, Point(x));
        res := MulByI8(res, x);
        PlusCommutes(res, coefficients[d]);
        res := Plus(res, coefficients[d]);
      }
      assert cs[0..] == cs;
    }

    /** Adds r times the monic polynomial `p`, which has one more term, or is one while this is zero. */
    method AddMonicTimesConstant(p: Poly, r: Gf)
      requires Valid() && p.Valid() && p != this && p.coefficients != coefficients
      requires p.degree < coefficients.Length && Monic(p.Coeffs())
      requires p.degree == degree + 1 || (Coeffs() == [ZERO] && p.Coeffs() == [ONE])
      modifies this`degree, coefficients
      ensures Valid() && degree == p.degree
      ensures Coeffs() == AddScaled(old(Coeffs())[..p.degree], p.Coeffs(), r)
    {
      hide Times, Plus;
      ghost var before := Coeffs();
      AddTimes(coefficients, p.coefficients, p.degree, r);
      degree := p.degree;
      coefficients[degree] := r;
      assert forall j :: 0 <= j <= degree ==> coefficients[j] == AddScaled(before[..degree], p.Coeffs(), r)[j];
    }

    /** Multiplies this monic polynomial by x + r. */
    method MultiplyByLinearBinomial(r: bv8)
      requires Valid() && degree + 1 < coefficients.Length && Monic(Coeffs())
      modifies this`degree, coefficients
      ensures Valid() && degree == old(degree) + 1
      ensures Coeffs() == TimesBinomial(old(Coeffs()), Point(r))
    {
      hide Times, Plus, Small;
      ghost var before := Coeffs();
      degree := degree + 1;
      coefficients[degree] := ONE;
      ScaleAndShift(coefficients, degree, r, before);
    }
  }

  /** Adds r times the first `n` entries of `p` to those of `c`. */
  method AddTimes(c: array<Gf>, p: array<Gf>, n: nat, r: Gf)
    requires n <= c.Length && n <= p.Length && c != p
    modifies c
    ensures forall j :: 0 <= j < n ==> c[j] == Plus(old(c[j]), Times(p[j], r))
    ensures forall j :: n <= j < c.Length ==> c[j] == old(c[j])
  {
    hide Times, Plus;
    for i := 0 to n
      invariant forall j :: 0 <= j < i ==> c[j] == Plus(old(c[j]), Times(p[j], r))
      invariant forall j :: i <= j < c.Length ==> c[j] == old(c[j])
    {
      var t := Multiply(p[i], r);
      c[i] := Plus(c[i], t);
    }
  }

  /** Turns c[0..d], holding `before`, and c[d] = 1 into the coefficients of the product with x + r. */
  method ScaleAndShift(c: array<Gf>, d: nat, r: bv8, ghost before: seq<Gf>)
    requires 1 <= d < c.Length && c[..d] == before && c[d] == ONE
    modifies c
    ensures c[..d + 1] == TimesBinomial(before, Point(r))
  {
    hide Times, Plus, Small;
    for i := d downto 1
      invariant forall j :: 0 <= j < i ==> c[j] == before[j]
      invariant forall j :: i <= j < d ==> c[j] == Plus(Times(before[j], Point(r)), before[j - 1])
      invariant c[d] == ONE
    {
      var scaled := MulByI8(c[i], r);
      c[i] := scaled;
      c[i] := Plus(c[i], c[i - 1]);
    }
    c[0] := MulByI8(c[0], r);
  }

  /** The terms of `p`, none while it is the zero polynomial that interpolation starts from. */
  ghost predicate Represents(p: Poly, cs: seq<Gf>)
    reads p, p.coefficients
  {
    p.Valid() && if cs == [] then p.Coeffs() == [ZERO] else p.Coeffs() == cs
  }

  lemma RepresentedValue(cs: seq<Gf>, held: seq<Gf>, x: Gf)
    requires if cs == [] then held == [ZERO] else held == cs
    ensures Eval(held, x) == Eval(cs, x)
  {
    EvalSingle(ZERO, x);
  }

  /** Adds to `result` the multiple of `vanishing` that brings its value from `v` to `value`. */
  method Correct(result: Poly, vanishing: Poly, tables: seq<seq<Gf>>, v: Gf, value: Gf, w: Gf, ghost r: seq<Gf>)
    requires TablesAreRight(tables)
    requires Represents(result, r) && vanishing.Valid() && Monic(vanishing.Coeffs())
    requires result != vanishing && result.coefficients != vanishing.coefficients
    requires vanishing.degree == |r| && |r| < result.coefficients.Length
    modifies result`degree, result.coefficients
    ensures Represents(result, AddScaled(r, vanishing.Coeffs(), Correction(InversePower, v, value, w)))
  {
    hide Times, Plus, Pow2, GfPower, TablesAreRight;
    var t := Plus(v, value);
    var s := InvertElement(tables, w);
    assert s == InversePower(w);
    t := Multiply(t, s);
    assert vanishing.Coeffs()[0] == ONE || |r| > 0;
    if |r| == 0 {
      assert vanishing.Coeffs() == [ONE];
    }
    ghost var before := result.Coeffs();
    result.AddMonicTimesConstant(vanishing, t);
    assert before[..vanishing.degree] == r;
  }

  /** The body of the interpolation loop. */
  method AddPoint(result: Poly, vanishing: Poly, tables: seq<seq<Gf>>, point: bv8, value: Gf, ghost r: seq<Gf>)
    requires TablesAreRight(tables)
    requires Represents(result, r) && vanishing.Valid() && Monic(vanishing.Coeffs())
    requires result != vanishing && result.coefficients != vanishing.coefficients
    requires vanishing.degree == |r| && |r| < result.coefficients.Length && |r| + 1 < vanishing.coefficients.Length
    modifies result`degree, result.coefficients, vanishing`degree, vanishing.coefficients
    ensures
      var x, before := Point(point), old(vanishing.Coeffs());
      Represents(result, AddScaled(r, before, Correction(InversePower, Eval(r, x), value, Eval(before, x))))
    ensures vanishing.Valid() && vanishing.Coeffs() == TimesBinomial(old(vanishing.Coeffs()), Point(point))
  {
    hide Times, Plus, Eval, AddScaled, TimesBinomial, Correction, Small, TablesAreRight, InversePower;
    var t := result.Evaluate(point);
    var s := vanishing.Evaluate(point);
    RepresentedValue(r, result.Coeffs(), Point(point));
    Correct(result, vanishing, tables, t, value, s, r);
    vanishing.MultiplyByLinearBinomial(point);
  }

  /**
   * With right tables the code's own inversion drives the interpolation; in the field, where z^(2^192 - 1) = 1 for
   * every z other than zero, the polynomial takes every given value.
   */
  method Interpolate(tables: seq<seq<Gf>>, points: seq<bv8>, values: seq<Gf>, valueAtZero: Gf)
    returns (res: Result<Poly, PolyError>)
    requires TablesAreRight(tables)
    ensures res.Failure? <==> |points| != |values|
    ensures res.Success? ==>
              && fresh(res.value) && res.value.Valid() && res.value.degree == |points|
              && res.value.Coeffs() == Interpolated(InversePower, points, values, valueAtZero)
    ensures res.Success? && (forall z: Gf :: z != ZERO ==> OrderDivides(z)) && DistinctNonZero(points)
            ==> Interpolates(res.value.Coeffs(), points, values, valueAtZero)
  {
    hide Times, Plus, Eval, AddScaled, TimesBinomial, Correction, Point, TablesAreRight, InversePower, OrderDivides, Interpolates;
    if |points| != |values| { return Failure(InterpolatePointsAndValuesLengthDiffer); }
    var n := |values|;
    var result := new Poly(n, 0);
    var vanishing := new Poly(n, 1);
    assert Newton(InversePower, points, values, 0) == ([], [ONE]);
    for i := 0 to n
      invariant fresh(result) && fresh(vanishing) && fresh(result.coefficients) && fresh(vanishing.coefficients)
      invariant result != vanishing && result.coefficients != vanishing.coefficients
      invariant result.coefficients.Length == n + 1 && vanishing.coefficients.Length == n + 1
      invariant Represents(result, Newton(InversePower, points, values, i).0)
      invariant vanishing.Valid() && vanishing.Coeffs() == Newton(InversePower, points, values, i).1
    {
      AddPoint(result, vanishing, tables, points[i], values[i], Newton(InversePower, points, values, i).0);
    }
    ghost var (r, v) := Newton(InversePower, points, values, n);
    EvalAtZero(result.Coeffs());
    EvalAtZero(vanishing.Coeffs());
    RepresentedValue(r, result.Coeffs(), ZERO);
    Correct(result, vanishing, tables, result.coefficients[0], valueAtZero, vanishing.coefficients[0], r);
    if (forall z: Gf :: z != ZERO ==> OrderDivides(z)) && DistinctNonZero(points) {
      FermatInverts();
      InterpolationHits(InversePower, points, values, valueAtZero);
    }
    res := Success(result);
  }
}
