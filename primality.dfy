/**
  The primality test that gates the field characteristic: trial division by every
  integer from 2 up to the integer square root of the candidate.
 */
module Primality {
  import opened ModArith

  /** Exact integer square root: the largest `r` with `r * r <= n`. */
  function ISqrt(n: nat): (r: nat)
    ensures r * r <= n < (r + 1) * (r + 1)
  {
    if n == 0 then 0
    else
      var s := ISqrt(n - 1);
      if (s + 1) * (s + 1) <= n then s + 1 else s
  }

  /** The reference notion: at least 2 and no divisor strictly between 1 and itself. */
  ghost predicate Prime(n: nat) {
    n >= 2 && forall d :: 2 <= d < n ==> n % d != 0
  }

  /** The condition the trial-division loop decides. */
  ghost predicate NoDivisorUpToRoot(n: nat) {
    forall i :: 2 <= i <= ISqrt(n) ==> n % i != 0
  }

  lemma MulMonotone(a: nat, b: nat, c: nat, d: nat)
    requires a <= c && b <= d
    ensures a * b <= c * d
  {
    assert a * b <= c * b;
    assert c * b <= c * d;
  }

  lemma RootBelow(n: nat)
    requires n >= 2
    ensures ISqrt(n) < n
  {
    var s := ISqrt(n);
    if s >= n {
      MulMonotone(n, 2, s, s);
    }
  }

  /** Two factors both above `s` have a product above every `n < (s + 1)²`. */
  lemma ProductAboveRoot(s: nat, d: nat, e: nat, n: nat)
    requires d > s && e > s && n < (s + 1) * (s + 1)
    ensures d * e > n
  {
    MulMonotone(s + 1, s + 1, d, e);
    assert (s + 1) * (s + 1) <= d * e;
  }

  lemma CofactorAtLeastTwo(n: nat, d: nat, e: nat)
    requires 2 <= d < n && n == d * e
    ensures e >= 2
  {
    if e <= 1 {
      MulMonotone(d, e, d, 1);
    }
  }

  /** When a divisor exceeds the square root, its cofactor is a divisor below it. */
  lemma CofactorBelowRoot(n: nat, d: nat)
    requires 2 <= d < n && n % d == 0 && d > ISqrt(n)
    ensures 2 <= n / d <= ISqrt(n) && n % (n / d) == 0
  {
    var s, e := ISqrt(n), n / d;
    assert n == d * e;
    CofactorAtLeastTwo(n, d, e);
    if e > s {
      ProductAboveRoot(s, d, e, n);
    }
    ModUnique(n, e, d, 0);
  }

  /** Trial division up to the square root decides primality. */
  lemma PrimeIffNoDivisorUpToRoot(n: nat)
    requires n >= 2
    ensures Prime(n) <==> NoDivisorUpToRoot(n)
  {
    RootBelow(n);
    if !Prime(n) {
      var d :| 2 <= d < n && n % d == 0;
      if d > ISqrt(n) {
        CofactorBelowRoot(n, d);
      }
    }
  }

  /** Whether `n` is prime, by trial division (src/main.rs `is_prime`). */
  method IsPrime(n: nat) returns (r: bool)
    ensures r <==> n >= 2 && NoDivisorUpToRoot(n)
    ensures r <==> Prime(n)
  {
    if n < 2 {
      return false;
    }
    PrimeIffNoDivisorUpToRoot(n);
    var limit := ISqrt(n);
    for i := 2 to limit + 1
      invariant forall j :: 2 <= j < i ==> n % j != 0
    {
      if n % i == 0 {
        return false;
      }
    }
    return true;
  }
}
