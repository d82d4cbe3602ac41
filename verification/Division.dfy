/** Quotients and remainders by a positive number; division rounds down. */
module Division {

  lemma AtLeastOnce(k: int, m: int)
    requires k >= 1 && m >= 0
    ensures k * m >= m
  {
    assert (k - 1) * m >= 0;
  }

  /** Quotient and remainder are unique. */
  lemma DivisionIsUnique(m: int, q: int, r: int, k: int, s: int)
    requires 0 <= r < m && 0 <= s < m && q * m + r == k * m + s
    ensures q == k && r == s
  {
    assert (q - k) * m == q * m - k * m;
    assert (k - q) * m == k * m - q * m;
    if q > k {
      AtLeastOnce(q - k, m);
    } else if k > q {
      AtLeastOnce(k - q, m);
    }
  }

  lemma DivMod(n: int, m: int)
    requires m > 0
    ensures n == (n / m) * m + n % m && 0 <= n % m < m
  {
    assert n == m * (n / m) + n % m;
  }

  lemma TimesMonotone(a: int, b: int, p: int)
    requires a <= b && p >= 0
    ensures a * p <= b * p
  {
    assert (b - a) * p >= 0;
  }

  /** Division by a positive number rounds down. */
  lemma FloorBounds(n: int, k: int, p: nat)
    requires p > 0
    ensures k * p <= n <==> k <= n / p
  {
    DivMod(n, p);
    if k <= n / p {
      TimesMonotone(k, n / p, p);
    } else {
      TimesMonotone(n / p + 1, k, p);
      assert (n / p + 1) * p == n / p * p + p;
    }
  }

  lemma DivModIs(n: int, m: int, k: int, r: int)
    requires 0 <= r < m && n == k * m + r
    ensures n / m == k && n % m == r
  {
    DivMod(n, m);
    DivisionIsUnique(m, n / m, n % m, k, r);
  }
}
