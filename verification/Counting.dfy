/** Sizes of finite sets of numbers, and the pigeonhole principle. */
module Counting {

  function NumbersBelow(n: nat): (s: set<nat>)
    ensures forall x: nat :: x in s <==> x < n
    ensures |s| == n
  {
    if n == 0 then {} else NumbersBelow(n - 1) + {n - 1}
  }

  /** The first `n` values of `f`. */
  function Values(f: nat -> nat, n: nat): (s: set<nat>)
    ensures forall x: nat :: x in s ==> exists i: nat :: i < n && f(i) == x
    ensures forall i: nat :: i < n ==> f(i) in s
  {
    if n == 0 then {} else Values(f, n - 1) + {f(n - 1)}
  }

  predicate Injective(f: nat -> nat, n: nat) {
    forall i: nat, j: nat :: i < j < n ==> f(i) != f(j)
  }

  lemma NewValue(f: nat -> nat, n: nat)
    requires Injective(f, n + 1)
    ensures f(n) !in Values(f, n)
  {
    hide Values;
    assert forall i: nat :: i < n ==> f(i) != f(n);
  }

  lemma {:induction false} DistinctValues(f: nat -> nat, n: nat)
    requires Injective(f, n)
    ensures |Values(f, n)| == n
  {
    if n > 0 {
      assert Injective(f, n - 1);
      NewValue(f, n - 1);
      assert Values(f, n) == Values(f, n - 1) + {f(n - 1)};
      hide Values, Injective;
      DistinctValues(f, n - 1);
    }
  }

  lemma SubsetIsSmaller<T>(a: set<T>, b: set<T>)
    requires a <= b
    ensures |a| <= |b|
  {
    assert b == a + (b - a);
  }

  lemma ValuesAreBelow(f: nat -> nat, n: nat)
    requires forall i: nat :: i <= n ==> f(i) < n
    ensures |Values(f, n + 1)| <= n
  {
    hide Values, NumbersBelow;
    var values := Values(f, n + 1);
    forall x: nat | x in values
      ensures x in NumbersBelow(n)
    {
      var i: nat :| i < n + 1 && f(i) == x;
    }
    SubsetIsSmaller(values, NumbersBelow(n));
  }

  lemma TooManyValues(f: nat -> nat, n: nat)
    requires forall i: nat :: i <= n ==> f(i) < n
    ensures !Injective(f, n + 1)
  {
    hide Values, Injective;
    ValuesAreBelow(f, n);
    if Injective(f, n + 1) {
      DistinctValues(f, n + 1);
      assert false;
    }
  }

  /** Among `n + 1` numbers below `n` two are equal. */
  lemma Pigeonhole(f: nat -> nat, n: nat) returns (i: nat, j: nat)
    requires forall i: nat :: i <= n ==> f(i) < n
    ensures i < j <= n && f(i) == f(j)
  {
    TooManyValues(f, n);
    i, j :| i < j < n + 1 && f(i) == f(j);
  }
}
