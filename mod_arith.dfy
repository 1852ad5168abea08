/**
  Facts about Euclidean remainder (Dafny's `%`) that the curve arithmetic relies on.
  Every lemma here is a helper: divisibility, reduction of sums and products, and
  congruence of differences.
 */
module ModArith {

  /** `d` divides `n`; the divisor 0 divides only 0. */
  predicate Divides(d: nat, n: int) {
    if d == 0 then n == 0 else n % d == 0
  }

  /** Quotient and remainder are unique. */
  lemma ModUnique(n: int, p: int, q: int, r: int)
    requires p > 0 && 0 <= r < p && n == p * q + r
    ensures n % p == r && n / p == q
  {
    var q', r' := n / p, n % p;
    assert p * (q - q') == r' - r;
    if q > q' {
      MulAtLeast(p, q - q');
    } else if q < q' {
      MulAtLeast(p, q' - q);
    }
  }

  lemma MulAtLeast(p: int, m: int)
    requires p > 0 && m >= 1
    ensures p * m >= p
  {
    assert p * m == p * (m - 1) + p;
  }

  /** Adding a multiple of the modulus does not change the remainder. */
  lemma ModShift(w: int, k: int, p: int)
    requires p > 0
    ensures (w + p * k) % p == w % p
  {
    var q, r := w / p, w % p;
    assert w + p * k == p * (q + k) + r;
    ModUnique(w + p * k, p, q + k, r);
  }

  lemma ModOfMultiple(k: int, p: int)
    requires p > 0
    ensures (p * k) % p == 0
  {
    ModShift(0, k, p);
  }

  lemma ModIdempotent(w: int, p: int)
    requires p > 0
    ensures (w % p) % p == w % p
  {
    ModUnique(w % p, p, 0, w % p);
  }

  lemma ModOfSmall(w: int, p: int)
    requires 0 <= w < p
    ensures w % p == w
  {
    ModUnique(w, p, 0, w);
  }

  /** Remainder of a sum is the remainder of the sum of remainders. */
  lemma AddMod(a: int, b: int, p: int)
    requires p > 0
    ensures (a + b) % p == ((a % p) + (b % p)) % p
  {
    var qa, qb := a / p, b / p;
    assert a + b == (a % p) + (b % p) + p * (qa + qb);
    ModShift((a % p) + (b % p), qa + qb, p);
  }

  /** Remainder of a difference is the remainder of the difference of remainders. */
  lemma SubMod(a: int, b: int, p: int)
    requires p > 0
    ensures (a - b) % p == ((a % p) - (b % p)) % p
  {
    var qa, qb := a / p, b / p;
    assert a - b == (a % p) - (b % p) + p * (qa - qb);
    ModShift((a % p) - (b % p), qa - qb, p);
  }

  /** Remainder of a product is the remainder of the product of remainders. */
  lemma MulMod(a: int, b: int, p: int)
    requires p > 0
    ensures (a * b) % p == ((a % p) * (b % p)) % p
  {
    var qa, ra, qb, rb := a / p, a % p, b / p, b % p;
    assert a == p * qa + ra;
    assert b == p * qb + rb;
    ProductExpansion(p, qa, ra, qb, rb);
    ModShift(ra * rb, qa * (p * qb + rb) + ra * qb, p);
  }

  lemma ProductExpansion(p: int, qa: int, ra: int, qb: int, rb: int)
    ensures (p * qa + ra) * (p * qb + rb) == ra * rb + p * (qa * (p * qb + rb) + ra * qb)
  {
  }

  /** Two values are congruent exactly when their difference is a multiple of the modulus. */
  lemma CongruentIff(a: int, b: int, p: int)
    requires p > 0
    ensures a % p == b % p <==> (a - b) % p == 0
  {
    SubMod(a, b, p);
    var ra, rb := a % p, b % p;
    if ra >= rb {
      ModOfSmall(ra - rb, p);
    } else {
      ModShift(ra - rb, 1, p);
      ModOfSmall(ra - rb + p, p);
    }
  }

  /** Congruence is kept by multiplying both sides with the same factor. */
  lemma MulCongruent(a: int, b: int, c: int, p: int)
    requires p > 0 && a % p == b % p
    ensures (a * c) % p == (b * c) % p
  {
    MulMod(a, c, p);
    MulMod(b, c, p);
  }

  /** A divisor of two numbers divides every integer combination of them. */
  lemma DividesLinear(d: nat, m: int, n: int, x: int, y: int)
    requires Divides(d, m) && Divides(d, n)
    ensures Divides(d, m * x + n * y)
  {
    if d > 0 {
      var qm, qn := m / d, n / d;
      assert m == d * qm && n == d * qn;
      assert m * x + n * y == d * (qm * x + qn * y) by {
        calc {
          m * x + n * y;
          d * qm * x + d * qn * y;
          d * (qm * x + qn * y);
        }
      }
      ModOfMultiple(qm * x + qn * y, d);
    }
  }

  /** A positive number has no divisor larger than itself. */
  lemma DivisorAtMost(d: nat, n: int)
    requires n > 0 && Divides(d, n)
    ensures 0 < d <= n
  {
    if d > n {
      ModOfSmall(n, d);
    }
  }

  /** Congruence is kept by subtracting the same value from both sides. */
  lemma SubCongruent(a: int, b: int, c: int, p: int)
    requires p > 0 && a % p == b % p
    ensures (a - c) % p == (b - c) % p
  {
    SubMod(a, c, p);
    SubMod(b, c, p);
  }

  /** Congruence is kept by adding the same value to both sides. */
  lemma AddCongruent(a: int, b: int, c: int, p: int)
    requires p > 0 && a % p == b % p
    ensures (a + c) % p == (b + c) % p
  {
    SubCongruent(a, b, -c, p);
  }

  /** Congruence is kept by negating both sides. */
  lemma NegCongruent(a: int, b: int, p: int)
    requires p > 0 && a % p == b % p
    ensures (-a) % p == (-b) % p
  {
    SubMod(0, a, p);
    SubMod(0, b, p);
  }

  /** Adding the modulus to a factor does not change the remainder of the product. */
  lemma ScaledShift(lam: int, d: int, p: int)
    requires p > 0
    ensures (lam * (d + p)) % p == (lam * d) % p
  {
    assert lam * (d + p) == lam * d + p * lam;
    ModShift(lam * d, lam, p);
  }
}
