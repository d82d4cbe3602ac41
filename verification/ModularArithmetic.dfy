/** Modular arithmetic on unsigned 256-bit integers, with the wider intermediates it runs in. */
module ModularArithmetic {
  import opened Wrappers
  import opened Division

  const TWO_256: int := 0x1_0000000000000000_0000000000000000_0000000000000000_0000000000000000
  const TWO_319: int := 0x8000000000000000 * TWO_256
  const TWO_320: int := 0x1_0000000000000000 * TWO_256
  const TWO_512: int := TWO_256 * TWO_256

  type U256 = x: int | 0 <= x < TWO_256
  type U320 = x: int | 0 <= x < TWO_320
  type U512 = x: int | 0 <= x < TWO_512
  type I320 = x: int | -TWO_319 <= x < TWO_319

  // ----- Multiples and remainders -----

  predicate IsMultiple(n: int, k: int, d: int) {
    n == k * d
  }

  ghost predicate Divides(d: int, n: int) {
    exists k: int :: IsMultiple(n, k, d)
  }

  /** Two numbers have the same remainder exactly when they differ by a multiple. */
  lemma SameRemainder(m: int, a: int, b: int)
    requires m > 0
    ensures a % m == b % m <==> Divides(m, a - b)
  {
    DivMod(a, m);
    DivMod(b, m);
    if a % m == b % m {
      assert (a / m - b / m) * m == (a / m) * m - (b / m) * m;
      assert IsMultiple(a - b, a / m - b / m, m);
    }
    if Divides(m, a - b) {
      var k :| IsMultiple(a - b, k, m);
      assert (k + b / m) * m == k * m + (b / m) * m;
      DivModIs(a, m, k + b / m, b % m);
    }
  }

  lemma CombinationDivides(d: int, a: int, b: int, p: int, q: int)
    requires Divides(d, a) && Divides(d, b)
    ensures Divides(d, p * a + q * b)
  {
    var j :| IsMultiple(a, j, d);
    var k :| IsMultiple(b, k, d);
    assert p * (j * d) == (p * j) * d && q * (k * d) == (q * k) * d;
    assert (p * j + q * k) * d == (p * j) * d + (q * k) * d;
    assert IsMultiple(p * a + q * b, p * j + q * k, d);
  }

  // ----- Extended Euclid -----

  function Abs(x: int): int {
    if x < 0 then -x else x
  }

  /** The same numbers divide `a` and `b` as divide `c` and `d`. */
  ghost predicate SameDivisors(a: int, b: int, c: int, d: int) {
    forall n: int :: (Divides(n, a) && Divides(n, b)) <==> (Divides(n, c) && Divides(n, d))
  }

  lemma StepKeepsDivisors(a: int, b: int, q: int)
    ensures SameDivisors(a, b, b, a - q * b)
  {
    hide Divides;
    forall n: int
      ensures (Divides(n, a) && Divides(n, b)) <==> (Divides(n, b) && Divides(n, a - q * b))
    {
      var r := a - q * b;
      if Divides(n, a) && Divides(n, b) {
        CombinationDivides(n, a, b, 1, -q);
        assert 1 * a + -q * b == r;
      }
      if Divides(n, b) && Divides(n, r) {
        CombinationDivides(n, r, b, 1, q);
        assert 1 * r + q * b == a;
      }
    }
  }

  predicate Opposite(x: int, y: int) {
    (x >= 0 && y <= 0) || (x <= 0 && y >= 0)
  }

  /** The running coefficients have opposite signs and fill up the modulus. */
  ghost predicate Bounded(a: int, b: int, x0: int, x1: int, modulus: int) {
    && 0 <= a && 0 <= b && Opposite(x0, x1)
    && Abs(x1) * a + Abs(x0) * b == modulus
  }

  lemma OppositeSigns(x0: int, x1: int, q: int)
    requires Opposite(x0, x1) && q >= 0
    ensures Abs(q * x1) == q * Abs(x1)
    ensures Abs(x0 - q * x1) == Abs(x0) + q * Abs(x1)
    ensures Opposite(x1, x0 - q * x1)
  {
    if x1 >= 0 {
      assert q * x1 >= 0;
    } else {
      assert q * x1 <= 0;
      assert q * -x1 == -(q * x1);
    }
  }

  lemma SameSum(u: int, v: int, q: int, a: int, b: int)
    ensures (u + q * v) * b + v * (a - q * b) == v * a + u * b
  {
    assert (u + q * v) * b == u * b + (q * v) * b;
    assert v * (a - q * b) == v * a - v * (q * b);
    assert (q * v) * b == v * (q * b);
  }

  lemma StepKeepsBounds(a: int, b: int, x0: int, x1: int, q: int, modulus: int)
    requires Bounded(a, b, x0, x1, modulus) && b > 0 && 0 <= q && 0 <= a - q * b
    ensures Bounded(b, a - q * b, x1, x0 - q * x1, modulus)
    ensures Abs(q * x1) <= Abs(x0 - q * x1) <= modulus
  {
    var u, v := Abs(x0), Abs(x1);
    OppositeSigns(x0, x1, q);
    SameSum(u, v, q, a, b);
    var w, c := Abs(x0 - q * x1), a - q * b;
    assert w * b + v * c == modulus;
    assert v * c >= 0;
    assert w * b >= w by {
      if w >= 1 {
        AtLeastOnce(b, w);
        assert b * w == w * b;
      }
    }
  }

  lemma SameDivisorsStep(a: int, b: int, q: int, value: int, modulus: int)
    requires SameDivisors(a, b, value, modulus)
    ensures SameDivisors(b, a - q * b, value, modulus)
  {
    StepKeepsDivisors(a, b, q);
  }

  lemma ReducedDivisors(value: int, modulus: int)
    requires modulus > 0
    ensures SameDivisors(value % modulus, modulus, value, modulus)
  {
    DivMod(value, modulus);
    StepKeepsDivisors(value, modulus, value / modulus);
  }

  /** `n` is `x` times `value` plus `y` times `modulus`. */
  predicate Combines(n: int, x: int, y: int, value: int, modulus: int) {
    n == x * value + y * modulus
  }

  lemma StepCombines(a: int, b: int, x0: int, y0: int, x1: int, y1: int, q: int, value: int, modulus: int)
    requires Combines(a, x0, y0, value, modulus) && Combines(b, x1, y1, value, modulus)
    ensures Combines(a - q * b, x0 - q * x1, y0 - q * y1, value, modulus)
  {
    assert q * (x1 * value + y1 * modulus) == q * (x1 * value) + q * (y1 * modulus);
    assert q * (x1 * value) == (q * x1) * value && q * (y1 * modulus) == (q * y1) * modulus;
    assert (x0 - q * x1) * value == x0 * value - (q * x1) * value;
    assert (y0 - q * y1) * modulus == y0 * modulus - (q * y1) * modulus;
  }

  /** The greatest common divisor, and the coefficient of `value` in a combination that gives it. */
  method ExtendedEuclidean(value: U256, modulus: U256) returns (g: I320, x: I320, ghost y: int)
    requires modulus > 0
    ensures g >= 0 && SameDivisors(g, 0, value, modulus)
    ensures Combines(g, x, y, value, modulus)
    ensures Abs(x) <= modulus
  {
    hide SameDivisors, Combines;
    var a: I320 := value % modulus;
    var b: I320 := modulus;
    var x0: I320, x1: I320 := 1, 0;
    ghost var y0, y1 := -(value / modulus), 1;
    StartCombines(value, modulus);
    ReducedDivisors(value, modulus);
    while b != 0
      invariant 0 <= a <= modulus && 0 <= b <= modulus && Abs(x0) <= modulus && Abs(x1) <= modulus
      invariant Bounded(a, b, x0, x1, modulus)
      invariant SameDivisors(a, b, value, modulus)
      invariant Combines(a, x0, y0, value, modulus) && Combines(b, x1, y1, value, modulus)
      decreases b
    {
      DivMod(a, b);
      ghost var exact := (a / b) * b;
      assert a / b >= 0 && a - exact < b && exact <= a by { QuotientBounds(a, b); }
      StepKeepsBounds(a, b, x0, x1, a / b, modulus);
      SameDivisorsStep(a, b, a / b, value, modulus);
      StepCombines(a, b, x0, y0, x1, y1, a / b, value, modulus);
      var q: I320 := a / b;
      var p: I320 := q * x1;
      y0, y1 := y1, y0 - q * y1;
      x0, x1 := x1, x0 - p;
      var s: I320 := q * b;
      var tmp: I320 := a - s;
      a := b;
      b := tmp;
    }
    g, x, y := a, x0, y0;
  }

  lemma StartCombines(value: int, modulus: int)
    requires modulus > 0
    ensures Combines(value % modulus, 1, -(value / modulus), value, modulus)
    ensures Combines(modulus, 0, 1, value, modulus)
  {
    DivMod(value, modulus);
    assert -(value / modulus) * modulus == -((value / modulus) * modulus);
  }

  lemma QuotientBounds(a: int, b: int)
    requires a >= 0 && b > 0
    ensures 0 <= a / b <= a && 0 <= (a / b) * b <= a && a - (a / b) * b < b
  {
    DivMod(a, b);
    if a / b >= 1 {
      AtLeastOnce(b, a / b);
      assert b * (a / b) == (a / b) * b;
    }
  }

  // ----- Modular inverse -----

  /** No number but 1 (and -1) divides both. */
  ghost predicate Coprime(a: int, b: int) {
    forall n: int :: Divides(n, a) && Divides(n, b) ==> n == 1 || n == -1
  }

  lemma DivisorsOfOne(n: int)
    requires Divides(n, 1)
    ensures n == 1 || n == -1
  {
    var k :| IsMultiple(1, k, n);
    assert Abs(k) * Abs(n) == 1 by {
      assert Abs(k) * Abs(n) == Abs(k * n);
    }
    assert Abs(k) >= 1;
    AtLeastOnce(Abs(k), Abs(n));
  }

  lemma CoprimeIff(g: int, value: int, modulus: int)
    requires g >= 0 && SameDivisors(g, 0, value, modulus)
    ensures g == 1 <==> Coprime(value, modulus)
  {
    assert IsMultiple(0, 0, g) && IsMultiple(g, 1, g);
    assert Divides(g, g) && Divides(g, 0);
    if g == 1 {
      forall n: int | Divides(n, value) && Divides(n, modulus)
        ensures n == 1 || n == -1
      {
        assert Divides(n, g);
        DivisorsOfOne(n);
      }
    }
  }

  ghost predicate IsInverse(value: int, modulus: int, y: int)
    requires modulus > 0
  {
    (value * y) % modulus == 1 % modulus
  }

  /** Where there is an inverse, the numbers are coprime. */
  lemma InverseNeedsCoprime(value: int, modulus: int, y: int)
    requires modulus > 0 && IsInverse(value, modulus, y)
    ensures Coprime(value, modulus)
  {
    hide Divides;
    SameRemainder(modulus, value * y, 1);
    forall n: int | Divides(n, value) && Divides(n, modulus)
      ensures n == 1 || n == -1
    {
      OneFromInverse(value, modulus, y, n);
      DivisorsOfOne(n);
    }
  }

  lemma OneFromInverse(value: int, modulus: int, y: int, n: int)
    requires Divides(modulus, value * y - 1) && Divides(n, value) && Divides(n, modulus)
    ensures Divides(n, 1)
  {
    var k :| IsMultiple(value * y - 1, k, modulus);
    CombinationDivides(n, value, modulus, y, -k);
    assert y * value + -k * modulus == 1 by {
      assert -k * modulus == -(k * modulus);
      assert y * value == value * y;
    }
  }

  lemma BezoutGivesInverse(value: int, modulus: int, x: int, y: int)
    requires modulus > 0 && Combines(1, x, y, value, modulus)
    ensures IsInverse(value, modulus, x % modulus)
  {
    DivMod(x, modulus);
    var c, r := x / modulus, x % modulus;
    assert value * (c * modulus + r) == (value * c) * modulus + value * r;
    assert x * value == value * x;
    assert value * r - 1 == -(y + value * c) * modulus by {
      assert -(y + value * c) * modulus == -(y * modulus) - (value * c) * modulus;
    }
    assert IsMultiple(value * r - 1, -(y + value * c), modulus);
    SameRemainder(modulus, value * r, 1);
  }

  /** An inverse is determined up to multiples of the modulus. */
  lemma InverseIsUnique(value: int, modulus: int, x: int, y: int)
    requires modulus > 0 && 0 <= x < modulus && 0 <= y < modulus
    requires IsInverse(value, modulus, x) && IsInverse(value, modulus, y)
    ensures x == y
  {
    hide Divides;
    SameRemainder(modulus, value * x, 1);
    SameRemainder(modulus, value * y, 1);
    // y (v x - 1) - x (v y - 1) = x - y
    CombinationDivides(modulus, value * x - 1, value * y - 1, y, -x);
    assert y * (value * x - 1) + -x * (value * y - 1) == x - y by {
      assert y * (value * x) == x * (value * y);
      assert y * (value * x - 1) == y * (value * x) - y;
      assert -x * (value * y - 1) == -(x * (value * y)) + x;
    }
    SameRemainder(modulus, x, y);
    DivModIs(x, modulus, 0, x);
    DivModIs(y, modulus, 0, y);
  }

  /** The inverse of `value`, if there is one: exactly when the modulus is not zero and the two are coprime. */
  method ModInv(value: U256, modulus: U256) returns (r: Option<U256>)
    ensures r.Some? <==> modulus != 0 && Coprime(value, modulus)
    ensures r.Some? ==> r.value < modulus && IsInverse(value, modulus, r.value)
    ensures r.Some? ==> CheckedModMul(value, r.value, modulus) == Some(1 % modulus)
    ensures r.None? && modulus != 0 ==> forall y: int :: !IsInverse(value, modulus, y)
  {
    hide Coprime, SameDivisors, Combines;
    if modulus == 0 { return None; }
    var g, x, y := ExtendedEuclidean(value, modulus);
    CoprimeIff(g, value, modulus);
    if g == 1 {
      BezoutGivesInverse(value, modulus, x, y);
      DivMod(x, modulus);
      r := Some(x % modulus);
    } else {
      r := None;
      forall z: int
        ensures !IsInverse(value, modulus, z)
      {
        if IsInverse(value, modulus, z) {
          InverseNeedsCoprime(value, modulus, z);
        }
      }
    }
  }

  // ----- Checked modular operations -----

  function CheckedModAdd(a: U256, b: U256, modulus: U256): Option<U256> {
    var sum: U320 := a + b;
    if modulus == 0 then None else Some(sum % modulus)
  }

  function CheckedModSub(a: U256, b: U256, modulus: U256): Option<U256> {
    if modulus == 0 then None
    else
      var negated: U256 := modulus - b % modulus;
      CheckedModAdd(a, negated, modulus)
  }

  lemma ProductFits(a: U256, b: U256)
    ensures 0 <= a * b < TWO_512
  {
    assert a * b <= a * TWO_256;
    assert a * TWO_256 <= (TWO_256 - 1) * TWO_256;
  }

  function CheckedModMul(a: U256, b: U256, modulus: U256): Option<U256> {
    ProductFits(a, b);
    var product: U512 := a * b;
    if modulus == 0 then None else Some(product % modulus)
  }

  /** `r` is the remainder of `n`: below the modulus, and off by a multiple of it. */
  ghost predicate IsResidue(n: int, modulus: int, r: int) {
    0 <= r < modulus && Divides(modulus, n - r)
  }

  lemma ResidueIff(n: int, modulus: int, r: int)
    requires modulus > 0
    ensures IsResidue(n, modulus, r) <==> n % modulus == r
  {
    hide Divides;
    DivMod(n, modulus);
    SameRemainder(modulus, n, r);
    if 0 <= r < modulus {
      DivModIs(r, modulus, 0, r);
    }
  }

  /** Modular addition: no result exactly for modulus 0, else the one residue of the sum. */
  lemma AddIsResidue(a: U256, b: U256, modulus: U256, r: U256)
    ensures CheckedModAdd(a, b, modulus).None? <==> modulus == 0
    ensures CheckedModAdd(a, b, modulus) == Some(r) <==> IsResidue(a + b, modulus, r)
  {
    if modulus != 0 {
      ResidueIff(a + b, modulus, r);
    }
  }

  /** Adding what is missing to the modulus is subtracting. */
  lemma AddingTheComplement(a: int, b: int, modulus: int)
    requires modulus > 0
    ensures (a + (modulus - b % modulus)) % modulus == (a - b) % modulus
  {
    DivMod(b, modulus);
    var sum := a + (modulus - b % modulus);
    assert (1 + b / modulus) * modulus == modulus + (b / modulus) * modulus;
    assert IsMultiple(sum - (a - b), 1 + b / modulus, modulus);
    SameRemainder(modulus, sum, a - b);
  }

  /** Subtraction likewise, although it goes through an addition that never gets below zero. */
  lemma SubIsResidue(a: U256, b: U256, modulus: U256, r: U256)
    ensures CheckedModSub(a, b, modulus).None? <==> modulus == 0
    ensures CheckedModSub(a, b, modulus) == Some(r) <==> IsResidue(a - b, modulus, r)
  {
    hide Divides;
    if modulus != 0 {
      AddingTheComplement(a, b, modulus);
      ResidueIff(a - b, modulus, r);
    }
  }

  /** And multiplication. */
  lemma MulIsResidue(a: U256, b: U256, modulus: U256, r: U256)
    ensures CheckedModMul(a, b, modulus).None? <==> modulus == 0
    ensures CheckedModMul(a, b, modulus) == Some(r) <==> IsResidue(a * b, modulus, r)
  {
    if modulus != 0 {
      ResidueIff(a * b, modulus, r);
    }
  }

  /** Subtraction undoes addition, and the other way round. */
  lemma SubUndoesAdd(a: U256, b: U256, modulus: U256)
    requires modulus != 0
    ensures
      var sum := CheckedModAdd(a, b, modulus).value;
      var difference := CheckedModSub(a, b, modulus).value;
      && CheckedModSub(sum, b, modulus) == Some(a % modulus)
      && CheckedModAdd(difference, b, modulus) == Some(a % modulus)
  {
    var sum := CheckedModAdd(a, b, modulus).value;
    var negated := modulus - b % modulus;
    var difference := (a + negated) % modulus;
    DivMod(b, modulus);
    DivMod(a + b, modulus);
    DivMod(a + negated, modulus);
    assert IsMultiple(sum + negated - a, 1 + b / modulus - (a + b) / modulus, modulus) by {
      assert (1 + b / modulus - (a + b) / modulus) * modulus
          == modulus + (b / modulus) * modulus - ((a + b) / modulus) * modulus;
    }
    SameRemainder(modulus, sum + negated, a);
    assert IsMultiple(difference + b - a, 1 + b / modulus - (a + negated) / modulus, modulus) by {
      assert (1 + b / modulus - (a + negated) / modulus) * modulus
          == modulus + (b / modulus) * modulus - ((a + negated) / modulus) * modulus;
    }
    SameRemainder(modulus, difference + b, a);
  }
}
