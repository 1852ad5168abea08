/**
  The chord-and-tangent group law on the points of a curve modulo `p`, with the
  unsigned "add `p` before subtracting" idiom, and what it computes:
  the textbook formulas, its two vertical cases, and commutativity.
 */
module GroupLaw {
  import opened Wrappers
  import opened ModArith
  import opened Curve
  import opened ModularInverse
  import Primality

  /**
    The difference of two residues without going below zero: `u - v` when `u >= v`,
    otherwise `p - (v - u)`. It is the difference modulo `p`.
   */
  function SubWrap(u: nat, v: nat, p: nat): (r: nat)
    requires u < p && v < p
    ensures r < p
    ensures r == (u - v) % p
  {
    if u >= v then
      ModOfSmall(u - v, p);
      u - v
    else
      ModShift(u - v, 1, p);
      ModOfSmall(p - (v - u), p);
      p - (v - u)
  }

  /**
    The unreduced x₃: `u - s` when `u >= s`, otherwise `p - ((s - u) % p)`. It is at
    most `p` and congruent to `u - s`.
   */
  function SubReduce(u: nat, s: nat, p: nat): (r: nat)
    requires u < p
    ensures r <= p
    ensures r % p == (u - s) % p
  {
    if u >= s then
      u - s
    else
      var m := (s - u) % p;
      assert p - m == (u - s) + p * ((s - u) / p + 1);
      ModShift(u - s, (s - u) / p + 1, p);
      p - m
  }

  /**
    The unreduced first term of y₃: `lam * (u - v)` when `u >= v`, otherwise
    `lam * (p - (v - u))`. It is congruent to `lam * (u - v)`.
   */
  function ScaledDiff(lam: nat, u: nat, v: nat, p: nat): (r: nat)
    requires v < p
    ensures r % p == (lam * (u - v)) % p
  {
    if u >= v then
      lam * (u - v)
    else
      var w := p - (v - u);
      assert w == (u - v) + p;
      ScaledShift(lam, u - v, p);
      lam * w
  }

  /** The textbook third point for slope `lam`: x₃ = lam² − P.x − qx and y₃ = lam·(P.x − x₃) − P.y, modulo `p`. */
  function SumFromSlope(lam: int, P: Point, qx: int, p: nat): Point
    requires p > 0
  {
    var x3 := (lam * lam - P.x - qx) % p;
    Point(x3, (lam * (P.x - x3) - P.y) % p)
  }

  /** `lam` is a slope of the chord through `P` and `Q`: lam·(Q.x − P.x) ≡ Q.y − P.y. */
  ghost predicate ChordSlope(lam: int, P: Point, Q: Point, p: nat)
    requires p > 0
  {
    (lam * (Q.x - P.x)) % p == (Q.y - P.y) % p
  }

  /** `lam` is a slope of the tangent at `P`: lam·2·P.y ≡ 3·P.x² + a. */
  ghost predicate TangentSlope(lam: int, P: Point, a: nat, p: nat)
    requires p > 0
  {
    (lam * (2 * P.y)) % p == (3 * P.x * P.x + a) % p
  }

  /**
    The computation shared by addition and doubling once the slope is known: from the
    slope and `sumX` (P.x + Q.x, or 2·P.x when doubling), the third point.
   */
  function ThirdPoint(slope: nat, P: Point, sumX: nat, p: nat): (r: Point)
    requires InField(P, p)
    ensures InField(r, p)
    ensures r == SumFromSlope(slope, P, sumX - P.x, p)
  {
    var slopeSquared := (slope * slope) % p;
    var x3 := SubReduce(slopeSquared, sumX, p) % p;
    assert x3 == (slope * slope - P.x - (sumX - P.x)) % p by {
      ModIdempotent(slope * slope, p);
      SubCongruent(slopeSquared, slope * slope, sumX, p);
    }
    var term1 := ScaledDiff(slope, P.x, x3, p) % p;
    var y3 := SubWrap(term1, P.y, p) % p;
    assert y3 == (slope * (P.x - x3) - P.y) % p by {
      ModIdempotent(term1 - P.y, p);
      ModIdempotent(slope * (P.x - x3), p);
      SubCongruent(term1, slope * (P.x - x3), P.y, p);
    }
    Point(x3, y3)
  }

  /**
    The sum of two points: `None` when the chord or the tangent is vertical or the
    needed inverse does not exist.
   */
  function PointAddition(P: Point, Q: Point, curve: EllipticCurve, p: nat): (r: Option<Point>)
    requires InField(P, p) && InField(Q, p)
    ensures r.Some? ==> InField(r.value, p)
    ensures P == Q && P.y == 0 ==> r == None
    ensures P != Q && P.x == Q.x ==> r == None
  {
    if P != Q then
      var dy := SubWrap(Q.y, P.y, p);
      var dx := SubWrap(Q.x, P.x, p);
      if dx == 0 then
        None
      else
        match ModInverse(dx, p)
        case None => None
        case Some(inverseDenominator) =>
          var slope := (dy * inverseDenominator) % p;
          Some(ThirdPoint(slope, P, P.x + Q.x, p))
    else if P.y == 0 then
      None
    else
      var xSquared := (P.x * P.x) % p;
      var numerator := (3 * xSquared + curve.a) % p;
      var denominator := (2 * P.y) % p;
      match ModInverse(denominator, p)
      case None => None
      case Some(inverseDenominator) =>
        var slope := (numerator * inverseDenominator) % p;
        Some(ThirdPoint(slope, P, 2 * P.x, p))
  }

  /** When `dd` has the inverse `inv` and `dd ≡ d`, the slope `num * inv` solves `slope * d ≡ num`. */
  lemma SlopeSolves(num: int, inv: int, d: int, dd: int, p: int)
    requires p > 1 && (dd * inv) % p == 1 && dd % p == d % p
    ensures (((num * inv) % p) * d) % p == num % p
  {
    var s := (num * inv) % p;
    ModIdempotent(num * inv, p);
    MulCongruent(s, num * inv, d, p);
    MulCongruent(d, dd, num * inv, p);
    assert d * (num * inv) == (num * inv) * d;
    assert dd * (num * inv) == (dd * inv) * num;
    ModOfSmall(1, p);
    MulCongruent(dd * inv, 1, num, p);
  }

  /** A slope is determined modulo `p` once the run `d` has an inverse. */
  lemma SlopeUnique(lam: int, mu: int, d: int, inv: int, p: int)
    requires p > 1 && (lam * d) % p == (mu * d) % p && (d * inv) % p == 1
    ensures lam % p == mu % p
  {
    // lam ≡ (d * inv) * lam == (lam * d) * inv ≡ (mu * d) * inv == (d * inv) * mu ≡ mu
    ModOfSmall(1, p);
    MulCongruent(d * inv, 1, lam, p);
    MulCongruent(lam * d, mu * d, inv, p);
    MulCongruent(d * inv, 1, mu, p);
    assert (d * inv) * lam == (lam * d) * inv;
    assert (d * inv) * mu == (mu * d) * inv;
  }

  /** Congruent slopes give the same third point. */
  lemma SumFromSlopeCongruent(lam: int, mu: int, P: Point, qx: int, p: nat)
    requires p > 0 && lam % p == mu % p
    ensures SumFromSlope(lam, P, qx, p) == SumFromSlope(mu, P, qx, p)
  {
    MulCongruent(lam, mu, lam, p);
    MulCongruent(lam, mu, mu, p);
    assert lam * mu == mu * lam;
    SubCongruent(lam * lam, mu * mu, P.x + qx, p);
    assert lam * lam - P.x - qx == lam * lam - (P.x + qx);
    assert mu * mu - P.x - qx == mu * mu - (P.x + qx);
    var x3 := (lam * lam - P.x - qx) % p;
    MulCongruent(lam, mu, P.x - x3, p);
    SubCongruent(lam * (P.x - x3), mu * (P.x - x3), P.y, p);
  }

  /**
    Addition of distinct points follows the chord formulas: a chord slope exists, and
    for every slope lam with lam·Δx ≡ Δy the sum is x₃ ≡ lam² − P.x − Q.x,
    y₃ ≡ lam·(P.x − x₃) − P.y.
   */
  lemma PointAdditionChord(P: Point, Q: Point, curve: EllipticCurve, p: nat)
    requires InField(P, p) && InField(Q, p) && P != Q
    requires PointAddition(P, Q, curve, p).Some?
    ensures exists lam :: ChordSlope(lam, P, Q, p)
    ensures forall lam :: ChordSlope(lam, P, Q, p) ==> PointAddition(P, Q, curve, p).value == SumFromSlope(lam, P, Q.x, p)
  {
    var dy := SubWrap(Q.y, P.y, p);
    var dx := SubWrap(Q.x, P.x, p);
    var inv := ModInverse(dx, p).value;
    var slope := (dy * inv) % p;
    assert p > 1;
    assert PointAddition(P, Q, curve, p).value == SumFromSlope(slope, P, Q.x, p);
    ModIdempotent(Q.x - P.x, p);
    ModIdempotent(Q.y - P.y, p);
    SlopeSolves(dy, inv, Q.x - P.x, dx, p);
    assert ChordSlope(slope, P, Q, p);
    MulCongruent(dx, Q.x - P.x, inv, p);
    forall lam | ChordSlope(lam, P, Q, p)
      ensures PointAddition(P, Q, curve, p).value == SumFromSlope(lam, P, Q.x, p)
    {
      SlopeUnique(lam, slope, Q.x - P.x, inv, p);
      SumFromSlopeCongruent(lam, slope, P, Q.x, p);
    }
  }

  /** The reduced numerator 3·(x² mod p) + a is congruent to 3x² + a. */
  lemma TangentNumerator(x: nat, a: nat, p: nat)
    requires p > 0
    ensures ((3 * ((x * x) % p) + a) % p) % p == (3 * x * x + a) % p
  {
    var xSquared := (x * x) % p;
    ModIdempotent(x * x, p);
    MulCongruent(xSquared, x * x, 3, p);
    assert x * x * 3 == 3 * x * x;
    AddCongruent(xSquared * 3, 3 * x * x, a, p);
    ModIdempotent(3 * xSquared + a, p);
  }

  /**
    Doubling follows the tangent formulas: a tangent slope exists, and for every slope
    lam with lam·2y ≡ 3x² + a the double is x₃ ≡ lam² − 2x, y₃ ≡ lam·(x − x₃) − y.
   */
  lemma PointAdditionTangent(P: Point, curve: EllipticCurve, p: nat)
    requires InField(P, p)
    requires PointAddition(P, P, curve, p).Some?
    ensures exists lam :: TangentSlope(lam, P, curve.a, p)
    ensures forall lam :: TangentSlope(lam, P, curve.a, p) ==> PointAddition(P, P, curve, p).value == SumFromSlope(lam, P, P.x, p)
  {
    var xSquared := (P.x * P.x) % p;
    var numerator := (3 * xSquared + curve.a) % p;
    var denominator := (2 * P.y) % p;
    var inv := ModInverse(denominator, p).value;
    var slope := (numerator * inv) % p;
    assert p > 1;
    assert PointAddition(P, P, curve, p).value == SumFromSlope(slope, P, P.x, p);
    TangentNumerator(P.x, curve.a, p);
    ModIdempotent(2 * P.y, p);
    SlopeSolves(numerator, inv, 2 * P.y, denominator, p);
    assert TangentSlope(slope, P, curve.a, p);
    MulCongruent(denominator, 2 * P.y, inv, p);
    forall lam | TangentSlope(lam, P, curve.a, p)
      ensures PointAddition(P, P, curve, p).value == SumFromSlope(lam, P, P.x, p)
    {
      SlopeUnique(lam, slope, 2 * P.y, inv, p);
      SumFromSlopeCongruent(lam, slope, P, P.x, p);
    }
  }

  /** Modulo an odd prime, twice a nonzero residue is nonzero. */
  lemma DoubleNonZero(y: nat, p: nat)
    requires Primality.Prime(p) && p != 2 && 0 < y < p
    ensures (2 * y) % p != 0
  {
    if 2 * y < p {
      ModOfSmall(2 * y, p);
    } else {
      ModUnique(2 * y, p, 1, 2 * y - p);
      if 2 * y == p {
        ModOfMultiple(y, 2);
      }
    }
  }

  /**
    Modulo an odd prime, the sum is missing exactly in the two vertical cases: doubling
    a point with y = 0, and adding distinct points with the same x.
   */
  lemma PointAdditionNoneIff(P: Point, Q: Point, curve: EllipticCurve, p: nat)
    requires Primality.Prime(p) && p != 2 && InField(P, p) && InField(Q, p)
    ensures PointAddition(P, Q, curve, p).None? <==> (P == Q && P.y == 0) || (P != Q && P.x == Q.x)
  {
    if P != Q && P.x != Q.x {
      var dx := SubWrap(Q.x, P.x, p);
      ModOfSmall(dx, p);
      ModInverseExistsForPrime(dx, p);
    } else if P == Q && P.y != 0 {
      var denominator := (2 * P.y) % p;
      DoubleNonZero(P.y, p);
      ModOfSmall(denominator, p);
      ModInverseExistsForPrime(denominator, p);
    }
  }

  /** `d` and `p - d` share the same divisors with `p`. */
  lemma CoprimeReflect(d: nat, p: nat)
    requires 0 < d < p
    ensures Coprime(d, p) <==> Coprime(p - d, p)
  {
    forall e: nat | e > 1 && Divides(e, p)
      ensures Divides(e, d) <==> Divides(e, p - d)
    {
      if Divides(e, d) {
        DividesLinear(e, p, d, 1, -1);
      }
      if Divides(e, p - d) {
        DividesLinear(e, p, p - d, 1, -1);
      }
    }
  }

  /** A chord slope from `P` to `Q` is one from `Q` to `P`. */
  lemma ChordSlopeSymmetric(lam: int, P: Point, Q: Point, p: nat)
    requires p > 0 && ChordSlope(lam, P, Q, p)
    ensures ChordSlope(lam, Q, P, p)
  {
    NegCongruent(lam * (Q.x - P.x), Q.y - P.y, p);
    assert lam * (P.x - Q.x) == -(lam * (Q.x - P.x));
  }

  /** Along a common chord, the third point does not depend on which end it is computed from. */
  lemma SumFromSlopeSymmetric(lam: int, P: Point, Q: Point, p: nat)
    requires p > 0 && ChordSlope(lam, P, Q, p)
    ensures SumFromSlope(lam, P, Q.x, p) == SumFromSlope(lam, Q, P.x, p)
  {
    var x3 := (lam * lam - P.x - Q.x) % p;
    assert x3 == (lam * lam - Q.x - P.x) % p;
    ChordSlopeSymmetric(lam, P, Q, p);
    CongruentIff(lam * (P.x - Q.x), P.y - Q.y, p);
    var u, v := lam * (P.x - x3) - P.y, lam * (Q.x - x3) - Q.y;
    assert u - v == lam * (P.x - Q.x) - (P.y - Q.y);
    CongruentIff(u, v, p);
  }

  /** Addition of distinct points is commutative, for every modulus. */
  lemma PointAdditionCommutes(P: Point, Q: Point, curve: EllipticCurve, p: nat)
    requires InField(P, p) && InField(Q, p) && P != Q
    ensures PointAddition(P, Q, curve, p) == PointAddition(Q, P, curve, p)
  {
    if P.x != Q.x {
      var dx := SubWrap(Q.x, P.x, p);
      var dx' := SubWrap(P.x, Q.x, p);
      assert 0 < dx < p && dx' == p - dx;
      CoprimeReflect(dx, p);
      if PointAddition(P, Q, curve, p).Some? {
        PointAdditionChord(P, Q, curve, p);
        PointAdditionChord(Q, P, curve, p);
        var lam :| ChordSlope(lam, P, Q, p);
        ChordSlopeSymmetric(lam, P, Q, p);
        SumFromSlopeSymmetric(lam, P, Q, p);
      }
    }
  }

  /** The curve y² = x³ + x + 1 modulo 7: three of its points, a vertical chord and a doubling. */
  lemma ExampleSevenOneOne()
    ensures IsOnCurve(Point(0, 1), EllipticCurve(1, 1), 7)
    ensures IsOnCurve(Point(0, 6), EllipticCurve(1, 1), 7)
    ensures IsOnCurve(Point(2, 2), EllipticCurve(1, 1), 7)
    ensures PointAddition(Point(0, 1), Point(0, 6), EllipticCurve(1, 1), 7) == None
    ensures PointAddition(Point(0, 1), Point(0, 1), EllipticCurve(1, 1), 7) == Some(Point(2, 5))
  {
    ModInverseUnique(2, 7, 4);
    assert ThirdPoint(4, Point(0, 1), 0, 7) == Point(2, 5);
  }
}
