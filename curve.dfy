/**
  Points, curves y² = x³ + a·x + b over the integers modulo `p`, the membership test,
  and the brute-force enumeration of every point of a curve.
 */
module Curve {
  import opened ModArith

  /** A point with unsigned coordinates; equality is equality of both coordinates. */
  datatype Point = Point(x: nat, y: nat)

  /** The coefficients `a` and `b` of y² = x³ + a·x + b. */
  datatype EllipticCurve = EllipticCurve(a: nat, b: nat)

  /** Both coordinates are residues modulo `p`. */
  predicate InField(pt: Point, p: nat) {
    pt.x < p && pt.y < p
  }

  /**
    The curve equation holds modulo `p`, with x³ + a·x + b reduced only at the end
    (src/main.rs `is_on_curve`).
   */
  predicate IsOnCurve(pt: Point, curve: EllipticCurve, p: nat)
    requires p > 0
  {
    (pt.y * pt.y) % p == (pt.x * pt.x * pt.x + curve.a * pt.x + curve.b) % p
  }

  /** Reducing every product before combining, as the enumeration does, gives the same right-hand side. */
  lemma ReducedRightSide(x: nat, a: nat, b: nat, p: nat)
    requires p > 0
    ensures (((x * x) % p * x) % p + (a * x) % p + b) % p == (x * x * x + a * x + b) % p
  {
    var u := (x * x) % p;
    ModIdempotent(x * x, p);
    MulCongruent(u, x * x, x, p);
    var c, d := (x * x) * x, a * x;
    assert (u * x) % p == c % p;
    assert c % p + d % p + b == c + d + b + p * (-(c / p) - d / p);
    ModShift(c + d + b, -(c / p) - d / p, p);
  }

  /** Membership depends only on the residues of the coordinates modulo `p`. */
  lemma IsOnCurveOfResidues(x: nat, y: nat, curve: EllipticCurve, p: nat)
    requires p > 0
    ensures IsOnCurve(Point(x, y), curve, p) <==> IsOnCurve(Point(x % p, y % p), curve, p)
  {
    var x', y' := x % p, y % p;
    ModIdempotent(x, p);
    ModIdempotent(y, p);
    MulMod(y, y, p);
    MulMod(y', y', p);
    assert (y * y) % p == (y' * y') % p;
    MulMod(x, x, p);
    MulMod(x', x', p);
    MulCongruent(x * x, x' * x', x, p);
    MulCongruent(x, x', x' * x', p);
    assert x * x * x == x * (x * x) && x' * x' * x' == x' * (x' * x');
    assert (x * x * x) % p == (x' * x' * x') % p;
    MulCongruent(x, x', curve.a, p);
    assert curve.a * x == x * curve.a && curve.a * x' == x' * curve.a;
    var c, d := x * x * x, curve.a * x;
    var c', d' := x' * x' * x', curve.a * x';
    AddMod(c + d, curve.b, p);
    AddMod(c, d, p);
    AddMod(c' + d', curve.b, p);
    AddMod(c', d', p);
  }

  /** `(x, y)` and its reflection `(x, p - y)` are on the curve together. */
  lemma IsOnCurveReflection(x: nat, y: nat, curve: EllipticCurve, p: nat)
    requires 0 < y < p
    ensures IsOnCurve(Point(x, y), curve, p) <==> IsOnCurve(Point(x, p - y), curve, p)
  {
    var z := p - y;
    assert z * z == y * y + p * (p - 2 * y);
    ModShift(y * y, p - 2 * y, p);
  }

  /** No element occurs twice. */
  predicate NoDuplicates(s: seq<Point>) {
    forall i, j :: 0 <= i < j < |s| ==> s[i] != s[j]
  }

  /** The elements of `s` not in `seen`, each at its first occurrence, in order. */
  function UniqueFrom(s: seq<Point>, seen: set<Point>): (r: seq<Point>)
    ensures forall e :: e in r <==> e in s && e !in seen
    ensures NoDuplicates(r)
  {
    if s == [] then
      []
    else if s[0] in seen then
      UniqueFrom(s[1..], seen)
    else
      [s[0]] + UniqueFrom(s[1..], seen + {s[0]})
  }

  /**
    Deduplication as the enumeration applies it: keeps the first occurrence of every
    element; the result has the same elements and no duplicates.
   */
  function Unique(s: seq<Point>): (r: seq<Point>)
    ensures forall e :: e in r <==> e in s
    ensures NoDuplicates(r)
  {
    UniqueFrom(s, {})
  }

  /**
    Every point of the curve (src/main.rs `generate_curve`): for each `x` and `y` below
    `p`, a match of y² against the right-hand side pushes `(x, y)` and, when `y != 0`,
    its reflection `(x, p - y)`; the pushed points are then deduplicated.
   */
  method GenerateCurve(curve: EllipticCurve, p: nat) returns (points: seq<Point>)
    ensures forall pt :: pt in points ==> InField(pt, p) && IsOnCurve(pt, curve, p)
    ensures forall x: nat, y: nat :: x < p && y < p && IsOnCurve(Point(x, y), curve, p) ==> Point(x, y) in points
    ensures NoDuplicates(points)
    ensures forall pt :: pt in points && 0 < pt.y < p ==> Point(pt.x, p - pt.y) in points
  {
    var pushed: seq<Point> := [];
    for x := 0 to p
      invariant forall pt :: pt in pushed ==> pt.x < x && pt.y < p && IsOnCurve(pt, curve, p)
      invariant forall x': nat, y': nat :: x' < x && y' < p && IsOnCurve(Point(x', y'), curve, p) ==> Point(x', y') in pushed
      invariant forall pt :: pt in pushed && pt.y != 0 ==> Point(pt.x, p - pt.y) in pushed
    {
      var xSquared := (x * x) % p;
      var xCubed := (xSquared * x) % p;
      var ax := (curve.a * x) % p;
      var rightSide := (xCubed + ax + curve.b) % p;
      ReducedRightSide(x, curve.a, curve.b, p);
      for y := 0 to p
        invariant forall pt :: pt in pushed ==> pt.x <= x && pt.y < p && IsOnCurve(pt, curve, p)
        invariant forall x': nat, y': nat :: x' < x && y' < p && IsOnCurve(Point(x', y'), curve, p) ==> Point(x', y') in pushed
        invariant forall y': nat :: y' < y && IsOnCurve(Point(x, y'), curve, p) ==> Point(x, y') in pushed
        invariant forall pt :: pt in pushed && pt.y != 0 ==> Point(pt.x, p - pt.y) in pushed
      {
        var ySquared := (y * y) % p;
        if ySquared == rightSide {
          pushed := pushed + [Point(x, y)];
          if y != 0 {
            IsOnCurveReflection(x, y, curve, p);
            pushed := pushed + [Point(x, p - y)];
          }
        }
      }
    }
    points := Unique(pushed);
  }
}
