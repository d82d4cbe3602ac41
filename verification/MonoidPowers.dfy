/** Powers in a commutative monoid, and the addition chain that computes the power 2^192 - 2. */
module MonoidPowers {
  import opened Powers

  ghost predicate IsMonoid<T(!new)>(op: (T, T) -> T, one: T) {
    && (forall a, b :: op(a, b) == op(b, a))
    && (forall a, b, c :: op(op(a, b), c) == op(a, op(b, c)))
    && (forall a :: op(one, a) == a)
  }

  ghost function Power<T(!new)>(op: (T, T) -> T, one: T, z: T, n: nat): T {
    if n == 0 then one else op(z, Power(op, one, z, n - 1))
  }

  lemma {:induction false} PowerAdds<T(!new)>(op: (T, T) -> T, one: T, z: T, m: nat, n: nat)
    requires IsMonoid(op, one)
    ensures op(Power(op, one, z, m), Power(op, one, z, n)) == Power(op, one, z, m + n)
  {
    if m > 0 {
      PowerAdds(op, one, z, m - 1, n);
      assert op(op(z, Power(op, one, z, m - 1)), Power(op, one, z, n))
          == op(z, op(Power(op, one, z, m - 1), Power(op, one, z, n)));
    }
  }

  lemma {:induction false} PowerMultiplies<T(!new)>(op: (T, T) -> T, one: T, z: T, m: nat, n: nat)
    requires IsMonoid(op, one)
    ensures Power(op, one, Power(op, one, z, m), n) == Power(op, one, z, m * n)
  {
    hide IsMonoid;
    if n > 0 {
      PowerMultiplies(op, one, z, m, n - 1);
      PowerAdds(op, one, z, m, m * (n - 1));
      assert m + m * (n - 1) == m * n;
    } else {
      assert m * n == 0;
    }
  }

  lemma FirstPowers<T(!new)>(op: (T, T) -> T, one: T, z: T)
    requires IsMonoid(op, one)
    ensures Power(op, one, z, 1) == z && Power(op, one, z, 2) == op(z, z)
  {
    assert op(z, one) == op(one, z) == z;
    assert Power(op, one, z, 0) == one;
    assert Power(op, one, z, 1) == op(z, one);
  }

  /** `pow(y, k)` is y to the power 2^(2^k), for `k` up to 6. */
  ghost predicate RaisesUpTo6<T(!new)>(op: (T, T) -> T, one: T, pow: (T, nat) -> T) {
    forall y: T, k: nat :: k <= 6 ==> pow(y, k) == Power(op, one, y, Pow2(Pow2(k)))
  }

  // ----- Inversion -----

  /** Exponents of the three running powers: 2^k ones; those followed by 2^k zeros; 2^(k+1) - 1 ones and a zero. */
  ghost function Ones(k: nat): nat {
    Pow2(Pow2(k)) - 1
  }

  ghost function OnesZeros(k: nat): nat {
    Ones(k) * Pow2(Pow2(k))
  }

  ghost function Filled(k: nat): (e: nat)
  {
    Squared(k);
    var n := Pow2(Pow2(k));
    assert n * n >= 2;
    n * n - 2
  }

  lemma ChainStep(n: nat)
    requires n >= 2
    ensures (n - 1) * n + (n - 1) == n * n - 1
    ensures n * n - 2 + (n * n - 1) * (n * n) == (n * n) * (n * n) - 2
  {
    var q := n * n;
    assert (q - 1) * q == q * q - q;
  }

  lemma ExponentStep(k: nat)
    ensures OnesZeros(k) + Ones(k) == Ones(k + 1)
    ensures Ones(k + 1) * Pow2(Pow2(k + 1)) == OnesZeros(k + 1)
    ensures Filled(k) + OnesZeros(k + 1) == Filled(k + 1)
  {
    hide Pow2;
    Squared(k);
    Squared(k + 1);
    ChainStep(Pow2(Pow2(k)));
  }

  lemma ChainEnd(n: nat)
    requires n >= 2
    ensures n * n - 2 + (n - 1) * n * n == n * n * n - 2
  {
  }

  lemma ExponentEnd()
    ensures Filled(6) + OnesZeros(6) * Pow2(Pow2(6)) == Pow2(192) - 2
  {
    hide Pow2;
    CubeIs192();
    Squared(6);
    ChainEnd(Pow2(Pow2(6)));
  }

  lemma ExponentStart()
    ensures Ones(0) == 1 && OnesZeros(0) == 2 && Filled(0) == 2
  {
    assert Pow2(0) == 1 && Pow2(1) == 2;
  }

  lemma Squared(k: nat)
    ensures Pow2(Pow2(k + 1)) == Pow2(Pow2(k)) * Pow2(Pow2(k))
    ensures Pow2(Pow2(k)) >= 2
  {
    Pow2Adds(Pow2(k), Pow2(k));
    Pow2Monotone(1, Pow2(k));
  }

  lemma CubeIs192()
    ensures Pow2(Pow2(6)) * Pow2(Pow2(6)) * Pow2(Pow2(6)) == Pow2(192)
  {
    assert Pow2(6) == 64;
    hide Pow2;
    Pow2Adds(64, 64);
    Pow2Adds(128, 64);
  }

  method Invert<T(!new)>(op: (T, T) -> T, ghost one: T, pow: (T, nat) -> T, z: T) returns (res: T)
    requires IsMonoid(op, one) && RaisesUpTo6(op, one, pow)
    ensures res == Power(op, one, z, Pow2(192) - 2)
  {
    hide IsMonoid, Power, Pow2, Ones, OnesZeros, Filled;
    var ones := z;
    res := op(z, z);
    var onesZeros := res;
    var k := 0;
    FirstPowers(op, one, z);
    ExponentStart();
    while k < 6
      invariant 0 <= k <= 6
      invariant ones == Power(op, one, z, Ones(k))
      invariant onesZeros == Power(op, one, z, OnesZeros(k))
      invariant res == Power(op, one, z, Filled(k))
    {
      ExponentStep(k);
      PowerAdds(op, one, z, OnesZeros(k), Ones(k));
      PowerMultiplies(op, one, z, Ones(k + 1), Pow2(Pow2(k + 1)));
      PowerAdds(op, one, z, Filled(k), OnesZeros(k + 1));
      k := k + 1;
      ones := op(onesZeros, ones);
      onesZeros := pow(ones, k);
      res := op(res, onesZeros);
    }
    ExponentEnd();
    PowerMultiplies(op, one, z, OnesZeros(6), Pow2(Pow2(6)));
    PowerAdds(op, one, z, Filled(6), OnesZeros(6) * Pow2(Pow2(6)));
    onesZeros := pow(onesZeros, k);
    res := op(res, onesZeros);
  }

  lemma OneMore<T(!new)>(op: (T, T) -> T, one: T, z: T, n: nat)
    ensures Power(op, one, z, n + 1) == op(z, Power(op, one, z, n))
  {
  }

  lemma AtLeastTwo()
    ensures Pow2(192) >= 2
  {
    Pow2Monotone(1, 192);
    assert Pow2(1) == 2;
  }

  /** The result is an inverse exactly when z^(2^192 - 1) is one. */
  lemma InvertsIff<T(!new)>(op: (T, T) -> T, one: T, z: T)
    ensures Pow2(192) >= 2
    ensures op(z, Power(op, one, z, Pow2(192) - 2)) == one <==> Power(op, one, z, Pow2(192) - 1) == one
  {
    hide Pow2, Power;
    AtLeastTwo();
    OneMore(op, one, z, Pow2(192) - 2);
  }

  // ----- Beyond the tables -----

  /** 2^(2^k)-th powers for every `k`, from those for `k` up to 6. */
  function RaiseAny<T>(pow: (T, nat) -> T, z: T, k: nat): T {
    if k >= 7 then
      var res := pow(z, 6);
      if k % 2 == 1 then pow(res, 6) else res
    else pow(z, k)
  }

  /** The remainder of a power of two by three, with the quotient. */
  lemma {:induction false} ThreesInPowerOfTwo(j: nat) returns (q: nat)
    ensures Pow2(j) == 3 * q + if j % 2 == 0 then 1 else 2
  {
    if j == 0 {
      q := 0;
    } else {
      q := ThreesInPowerOfTwo(j - 1);
      q := if j % 2 == 1 then 2 * q else 2 * q + 1;
    }
  }

  lemma PowerOfTwoModThree(j: nat)
    ensures Pow2(j) % 3 == if j % 2 == 0 then 1 else 2
  {
    var q := ThreesInPowerOfTwo(j);
    hide Pow2;
  }

  /** Where z^(2^192) = z, adding 192 to the exponent of two changes nothing. */
  lemma DropCycle<T(!new)>(op: (T, T) -> T, one: T, z: T, e: nat)
    requires IsMonoid(op, one) && Power(op, one, z, Pow2(192)) == z
    ensures Power(op, one, z, Pow2(192 + e)) == Power(op, one, z, Pow2(e))
  {
    hide IsMonoid, Power, Pow2;
    Pow2Adds(192, e);
    PowerMultiplies(op, one, z, Pow2(192), Pow2(e));
  }

  lemma {:induction false} DropCycles<T(!new)>(op: (T, T) -> T, one: T, z: T, n: nat)
    requires IsMonoid(op, one) && Power(op, one, z, Pow2(192)) == z
    ensures Power(op, one, z, Pow2(64 * n)) == Power(op, one, z, Pow2(64 * (n % 3)))
  {
    hide IsMonoid, Power, Pow2;
    if n >= 3 {
      DropCycles(op, one, z, n - 3);
      DropCycle(op, one, z, 64 * (n - 3));
      assert 192 + 64 * (n - 3) == 64 * n;
    }
  }

  /** Where z^(2^192) = z, the shortcut for `k` of 7 and more gives z^(2^(2^k)). */
  lemma ShortcutIsRight<T(!new)>(op: (T, T) -> T, one: T, pow: (T, nat) -> T, z: T, k: nat)
    requires IsMonoid(op, one) && RaisesUpTo6(op, one, pow)
    requires Power(op, one, z, Pow2(192)) == z
    ensures RaiseAny(pow, z, k) == Power(op, one, z, Pow2(Pow2(k)))
  {
    hide IsMonoid, Power, Pow2;
    if k >= 7 {
      ExponentCycle(k);
      DropCycles(op, one, z, Pow2(k - 6));
      assert Power(op, one, z, Pow2(Pow2(k))) == Power(op, one, z, Pow2(if k % 2 == 1 then 128 else 64));
      PowerMultiplies(op, one, z, Pow2(64), Pow2(64));
      Pow2Adds(64, 64);
      assert pow(z, 6) == Power(op, one, z, Pow2(64));
    }
  }

  lemma ExponentCycle(k: nat)
    requires k >= 7
    ensures Pow2(6) == 64 && Pow2(k) == 64 * Pow2(k - 6)
    ensures Pow2(k - 6) % 3 == if k % 2 == 1 then 2 else 1
  {
    assert Pow2(6) == 64;
    hide Pow2;
    Pow2Adds(6, k - 6);
    PowerOfTwoModThree(k - 6);
  }
}
