# Elliptic-curve arithmetic over ℤ/pℤ, modelled in Dafny

The repository is a small Rust program (`src/main.rs`) that works with short-Weierstrass
curves y² = x³ + a·x + b over the integers modulo a prime `p`. Its core is a pure,
integer-only engine:

- `is_prime` checks the field characteristic by trial division up to √n.
- `extended_euclidean` and `mod_inverse` provide modular division.
- `is_on_curve` is curve membership.
- `generate_curve` enumerates every point by brute force, pushing each match and its
  reflection (x, p − y), then removing duplicates.
- `point_addition` is the chord-and-tangent group law (sum of distinct points and
  doubling). It returns `None` for a vertical line. It subtracts unsigned residues with
  the "add `p` before subtracting" idiom.

The model follows the code's form:

- `IsPrime` and `GenerateCurve` are methods whose loops mirror the Rust loops and carry
  the invariants.
- `ExtendedEuclidean`, `ModInverse`, `IsOnCurve` and `PointAddition` are functions with
  the same branches.
- Coordinates are `nat`, and points passed to the group law satisfy `x, y < p`.
- Each unsigned-subtraction shape of `point_addition` is its own function. `SubWrap`,
  `SubReduce` and `ScaledDiff` are each proved equal to the mathematical difference
  modulo `p`, and Dafny's `nat` checks show that no branch goes below zero.

Files and modules:

- `wrappers.dfy` (`Wrappers`): `Option`.
- `mod_arith.dfy` (`ModArith`): divisibility, and how remainders of sums, differences and
  products behave. These are helpers.
- `primality.dfy` (`Primality`): `ISqrt`, `Prime`, `IsPrime`.
- `mod_inverse.dfy` (`ModularInverse`): `ExtendedEuclidean`, gcd and coprimality,
  `TruncRem` (Rust's signed `%`), `ModInverse`.
- `curve.dfy` (`Curve`): `Point`, `EllipticCurve`, `IsOnCurve`, `Unique`, `GenerateCurve`.
- `group_law.dfy` (`GroupLaw`): the subtraction idioms, `ThirdPoint`, `PointAddition`,
  the slope predicates and the group-law lemmas.

In three places the code does something other than the obvious reading of its
design, and the model follows the code:

- `is_on_curve` computes `x.pow(3)` without reducing first. `Curve.IsOnCurveOfResidues`
  and `Curve.ReducedRightSide` show that, on unbounded integers, reducing first gives the
  same answer.
- The enumeration is not duplicate-free by construction. It pushes duplicates, and
  `unique()` removes them afterwards.
- The Bézout coefficient is normalised once, as `(x % p + p) % p`, and not by a loop that
  adds `p` repeatedly.

## Model

| member | source | states |
|---|---|---|
| `Primality.ISqrt` | src/main.rs:17 | the loop bound is the exact integer square root: r·r ≤ n < (r+1)·(r+1) |
| `Primality.IsPrime` | src/main.rs:13-24 | true iff n ≥ 2 and no i with 2 ≤ i ≤ ⌊√n⌋ divides n; equivalently, iff n is prime |
| `Primality.PrimeIffNoDivisorUpToRoot` | src/main.rs:17-23 | for n ≥ 2, trial division up to the square root decides primality (no divisor in 2..n−1) |
| `ModularInverse.ExtendedEuclidean` | src/main.rs:140-149 | returns (g, x, y) with a·x + b·y == g, where g divides both a and b |
| `ModularInverse.ExtendedEuclideanIsGcd` | src/main.rs:140-149 | g is the greatest common divisor: every common divisor of a and b divides it |
| `ModularInverse.TruncRem` | src/main.rs:154 | Rust's signed `%`: congruent to the dividend, strictly between −m and m, with the dividend's sign |
| `ModularInverse.NormalisedCongruent` | src/main.rs:154 | the normalised coefficient (x % p + p) % p is congruent to x |
| `ModularInverse.ModInverse` | src/main.rs:150-158 | `Some` exactly when a and p are coprime; then the value is below p, and (a·r) % p == 1 when p > 1 |
| `ModularInverse.CoprimeIffGcdOne` | src/main.rs:151-152 | a and p are coprime iff their gcd is 1, so `ModInverse` is `Some` exactly when the gcd is 1 |
| `ModularInverse.ModInverseOfZero` | src/main.rs:150-158 | 0 has no inverse modulo any p > 1 |
| `ModularInverse.ModInverseExistsForPrime` | src/main.rs:150-158 | modulo a prime, every a not divisible by p has an inverse |
| `ModularInverse.ModInverseUnique` | src/main.rs:150-158 | the inverse is the only residue below p whose product with a is 1 modulo p |
| `Curve.IsOnCurve` | src/main.rs:25-29 | (y·y) % p == (x³ + a·x + b) % p, unreduced as the source computes it; its properties are the three lemmas below |
| `Curve.IsOnCurveOfResidues` | src/main.rs:25-29 | membership depends only on the coordinates modulo p |
| `Curve.ReducedRightSide` | src/main.rs:35-38 | the enumeration's reduced right-hand side equals (x³ + a·x + b) % p |
| `Curve.IsOnCurveReflection` | src/main.rs:44-46 | for 0 < y < p, (x, y) is on the curve iff (x, p − y) is |
| `Curve.UniqueFrom` | src/main.rs:50 | keeps exactly the elements not already seen, each once |
| `Curve.Unique` | src/main.rs:50 | the deduplicated sequence has the same elements and no duplicates |
| `Curve.GenerateCurve` | src/main.rs:31-51 | every returned point is on the curve with x, y < p; every such point is returned; no duplicates; closed under (x, y) ↦ (x, p − y) for y ≠ 0 |
| `GroupLaw.SubWrap` | src/main.rs:55-65 | the branchy difference of two residues is below p and equals (u − v) mod p |
| `GroupLaw.SubReduce` | src/main.rs:76-80 | the unreduced x₃ is at most p and congruent to slope² − (P.x + Q.x) |
| `GroupLaw.ScaledDiff` | src/main.rs:84-88 | the unreduced first term of y₃ is congruent to slope·(P.x − x₃) |
| `GroupLaw.ThirdPoint` | src/main.rs:75-98 | the computed point equals the textbook x₃ = slope² − P.x − Q.x, y₃ = slope·(P.x − x₃) − P.y, modulo p |
| `GroupLaw.PointAddition` | src/main.rs:52-139 | a `Some` result has both coordinates below p; `None` when P == Q with P.y == 0, and when P ≠ Q with P.x == Q.x |
| `GroupLaw.PointAdditionChord` | src/main.rs:53-98 | for P ≠ Q, a `Some` result has a chord slope λ·Δx ≡ Δy, and for every such λ it is x₃ ≡ λ² − P.x − Q.x, y₃ ≡ λ·(P.x − x₃) − P.y |
| `GroupLaw.PointAdditionTangent` | src/main.rs:99-138 | a `Some` double has a tangent slope λ·2y ≡ 3x² + a, and for every such λ it is x₃ ≡ λ² − 2x, y₃ ≡ λ·(x − x₃) − y |
| `GroupLaw.DoubleNonZero` | src/main.rs:108 | modulo an odd prime, the doubling denominator 2y is nonzero for y ≠ 0 |
| `GroupLaw.PointAdditionNoneIff` | src/main.rs:61-110 | modulo an odd prime, `None` exactly when P == Q with P.y == 0 or P ≠ Q with P.x == Q.x |
| `GroupLaw.PointAdditionCommutes` | src/main.rs:53-98 | for distinct P, Q, point_addition(P, Q) == point_addition(Q, P), for every modulus |
| `GroupLaw.ExampleSevenOneOne` | src/main.rs:52-138 | on y² = x³ + x + 1 mod 7: (0,1), (0,6), (2,2) are on the curve, (0,1) + (0,6) is `None`, 2·(0,1) = (2,5) |

## Left out

- `main` (src/main.rs:159-208) is left out because it is I/O: argument reading, parsing,
  the range check on a and b, the fixed demonstration points and printing.
- Primality.IsPrime: the loop bound is the exact integer square root, not
  `(n as f64).sqrt() as u128`. For very large n the floating-point bound can differ from
  the exact root, and that effect is not modelled.
- Fixed-width integers are not modelled. All values are unbounded, so the model has no
  u128/i128 overflow or wrap-around: not in `x.pow(3)` and the other products, not in the
  `(a / b) as i128` and `p as i128` conversions, and not in the final `as u128`.
  Consequently, when the Rust program panics or wraps on overflow, the model computes the
  exact value.
- ModularInverse.ModInverse: requires p > 0. Rust divides by zero when p == 0 and
  a == 1. For p == 0 and any other a it returns `None`, and the model does not cover that
  case.
- `itertools::unique` is a library call. It is modelled as `Unique`, which keeps the
  first occurrence of each element.
- Curve.GenerateCurve: does not state the order of the returned points (ascending x,
  then the first occurrence of each y). It states only the set of points and that none is
  repeated.
- GroupLaw.PointAdditionNoneIff: stated for odd primes only. Modulo 2 the doubling
  denominator 2y is always 0, so doubling a point with y = 1 also gives `None`.
- GroupLaw.PointAddition: requires both points to have coordinates below p. Rust's
  `point_addition` accepts any u128 coordinates, and for out-of-field coordinates the
  unsigned subtractions (for example `finite_field - (p.y - q.y)`) can underflow. That
  behaviour is not modelled. The fixed demonstration points in `main` are such a case
  when p ≤ 8592.
- Proving that the sum lies on the curve is left out. The code never checks it, and the
  proof needs heavy nonlinear algebra.
- The derived `Debug`/`Hash`/`Clone` traits are left out. `Point` equality is datatype
  equality, which matches the derived `PartialEq`.
