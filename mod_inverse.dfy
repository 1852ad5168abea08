/**
  The modular inverse solver: the recursive extended Euclidean algorithm and the
  inverse modulo `p` it yields when the gcd is 1.
 */
module ModularInverse {
  import opened Wrappers
  import opened ModArith
  import Primality

  /** `g` is the greatest common divisor of `a` and `b`: a common divisor that every common divisor divides. */
  ghost predicate IsGcd(g: nat, a: nat, b: nat) {
    && Divides(g, a)
    && Divides(g, b)
    && forall d: nat :: Divides(d, a) && Divides(d, b) ==> Divides(d, g)
  }

  /** No divisor larger than 1 is shared by `a` and `p`. */
  ghost predicate Coprime(a: nat, p: nat) {
    forall d: nat :: d > 1 && Divides(d, a) ==> !Divides(d, p)
  }

  lemma BezoutStep(a: nat, b: nat, g: nat, x1: int, y1: int)
    requires b > 0 && b * x1 + (a % b) * y1 == g
    requires Divides(g, b) && Divides(g, a % b)
    ensures a * y1 + b * (x1 - (a / b) * y1) == g
    ensures Divides(g, a)
  {
    var q, r := a / b, a % b;
    assert a == b * q + r;
    calc {
      a * y1 + b * (x1 - q * y1);
      (b * q + r) * y1 + b * x1 - b * q * y1;
      b * x1 + r * y1;
    }
    DividesLinear(g, r, b, 1, q);
  }

  /**
    The recursive extended Euclidean algorithm: `(g, x, y)` with `a * x + b * y == g`,
    where `g` divides both `a` and `b`.
   */
  function ExtendedEuclidean(a: nat, b: nat): (r: (nat, int, int))
    ensures a * r.1 + b * r.2 == r.0
    ensures Divides(r.0, a) && Divides(r.0, b)
    decreases b
  {
    if b == 0 then
      (a, 1, 0)
    else
      var (g, x1, y1) := ExtendedEuclidean(b, a % b);
      BezoutStep(a, b, g, x1, y1);
      (g, y1, x1 - (a / b) * y1)
  }

  /** The first component of the extended Euclidean algorithm is the gcd. */
  lemma ExtendedEuclideanIsGcd(a: nat, b: nat)
    ensures IsGcd(ExtendedEuclidean(a, b).0, a, b)
  {
    var (g, x, y) := ExtendedEuclidean(a, b);
    forall d: nat | Divides(d, a) && Divides(d, b)
      ensures Divides(d, g)
    {
      DividesLinear(d, a, b, x, y);
    }
  }

  /** For a positive modulus, coprimality is exactly "the gcd is 1". */
  lemma CoprimeIffGcdOne(a: nat, p: nat, g: nat)
    requires p > 0 && IsGcd(g, a, p)
    ensures Coprime(a, p) <==> g == 1
  {
    if g == 1 {
      forall d: nat | d > 1 && Divides(d, a)
        ensures !Divides(d, p)
      {
        ModOfSmall(1, d);
      }
    } else {
      assert g > 1 && Divides(g, a) && Divides(g, p);
    }
  }

  /** Rust's `%` on signed integers: the remainder takes the sign of the dividend. */
  function TruncRem(x: int, m: nat): (r: int)
    requires m > 0
    ensures r % m == x % m
    ensures -(m as int) < r < m
    ensures x >= 0 ==> r >= 0
    ensures x < 0 ==> r <= 0
  {
    if x >= 0 then
      x % m
    else
      var r := -((-x) % m);
      ModShift(x, (-x) / m, m);
      assert r == x + m * ((-x) / m);
      r
  }

  lemma BezoutModOne(a: int, p: int, x: int, y: int)
    requires p > 1 && a * x + p * y == 1
    ensures (a * x) % p == 1
  {
    ModShift(1, -y, p);
    ModOfSmall(1, p);
  }

  /** The normalised coefficient `(x % p + p) % p` is congruent to `x`. */
  lemma NormalisedCongruent(x: int, p: nat)
    requires p > 0
    ensures (TruncRem(x, p) + p) % p == x % p
  {
    ModShift(TruncRem(x, p), 1, p);
  }

  lemma InverseFromBezout(a: nat, p: nat, x: int, y: int)
    requires p > 1 && a * x + p * y == 1
    ensures (a * ((TruncRem(x, p) + p) % p)) % p == 1
  {
    var v := (TruncRem(x, p) + p) % p;
    NormalisedCongruent(x, p);
    ModIdempotent(x, p);
    MulCongruent(v, x, a, p);
    BezoutModOne(a, p, x, y);
  }

  /**
    The inverse of `a` modulo `p` (src/main.rs `mod_inverse`): present exactly when
    `a` and `p` are coprime, and then a residue whose product with `a` is 1 modulo `p`.
   */
  function ModInverse(a: nat, p: nat): (r: Option<nat>)
    requires p > 0
    ensures r.Some? <==> Coprime(a, p)
    ensures r.Some? ==> r.value < p
    ensures r.Some? && p > 1 ==> (a * r.value) % p == 1
  {
    var (g, x, _) := ExtendedEuclidean(a, p);
    ExtendedEuclideanIsGcd(a, p);
    CoprimeIffGcdOne(a, p, g);
    if g == 1 then
      var v := (TruncRem(x, p) + p) % p;
      assert p > 1 ==> (a * v) % p == 1 by {
        if p > 1 {
          InverseFromBezout(a, p, x, ExtendedEuclidean(a, p).2);
        }
      }
      Some(v)
    else
      None
  }

  /** Zero has no inverse modulo any `p > 1`. */
  lemma ModInverseOfZero(p: nat)
    requires p > 1
    ensures ModInverse(0, p) == None
  {
    ModOfMultiple(1, p);
    assert Divides(p, 0) && Divides(p, p);
  }

  /** Modulo a prime, every value not divisible by it has an inverse. */
  lemma ModInverseExistsForPrime(a: nat, p: nat)
    requires Primality.Prime(p) && a % p != 0
    ensures ModInverse(a, p).Some?
  {
    forall d: nat | d > 1 && Divides(d, a)
      ensures !Divides(d, p)
    {
      if Divides(d, p) {
        DivisorAtMost(d, p);
      }
    }
  }

  /** A value with an inverse modulo `p` is coprime to `p`. */
  lemma CoprimeOfInverse(a: nat, p: nat, s: nat)
    requires p > 1 && (a * s) % p == 1
    ensures Coprime(a, p)
  {
    var q := (a * s) / p;
    assert a * s + p * (-q) == 1;
    forall d: nat | d > 1 && Divides(d, a)
      ensures !Divides(d, p)
    {
      if Divides(d, p) {
        DividesLinear(d, a, p, s, -q);
        ModOfSmall(1, d);
      }
    }
  }

  /** Two inverses of the same value modulo `p` are congruent. */
  lemma InversesCongruent(a: int, p: int, r: int, s: int)
    requires p > 0 && (a * r) % p == 1 % p && (a * s) % p == 1 % p
    ensures r % p == s % p
  {
    // r == r * (a * s) == s * (a * r) == s, all modulo p
    MulCongruent(a * s, 1, r, p);
    MulCongruent(a * r, 1, s, p);
    assert (a * s) * r == (a * r) * s;
  }

  /** The inverse is the only residue below `p` whose product with `a` is 1 modulo `p`. */
  lemma ModInverseUnique(a: nat, p: nat, s: nat)
    requires p > 1 && s < p && (a * s) % p == 1
    ensures ModInverse(a, p) == Some(s)
  {
    CoprimeOfInverse(a, p, s);
    var r := ModInverse(a, p).value;
    ModOfSmall(1, p);
    InversesCongruent(a, p, r, s);
    ModOfSmall(r, p);
    ModOfSmall(s, p);
  }
}
