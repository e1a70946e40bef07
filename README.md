# Elliptic-curve point operations, modelled in Dafny

This project models the arithmetic core of `main.go`. That core works on a
short-Weierstrass curve y² ≡ x³ + a·x + b (mod p), with affine coordinates
and Go's arbitrary-precision `*big.Int`. It uses the chord-and-tangent
formulas of section 2.2.1 of SEC 1 v2.0.

- `ECCurve` holds (a, b, p) and `ECPoint` holds a curve and the coordinates
  (x, y). Both are Dafny datatypes with `int` fields, because the code never
  mutates a curve or a point.
- `modInverse` calls `big.Int.ModInverse`. When no inverse exists (a nil
  result), it silently returns its argument unchanged.
- `internalAdd` turns a slope `h` into the result point, reduced modulo p.
  `Add` feeds it the secant slope and `Double` the tangent slope. Neither
  slope is reduced before use.

Files and modules:

- `wrappers.dfy` (`Wrappers`): `Option`, for the nil result of
  `big.Int.ModInverse`.
- `modular.dfy` (`Modular`): congruences, Euclid's gcd and the extended
  Euclidean algorithm, primes, and `TryModInverse`, the model of
  `big.Int.ModInverse`.
- `curve.dfy` (`Curve`): the two datatypes, `ModInverse`, `InternalAdd`,
  `Add`, `Double`, and the two slopes they compute.
- `chord_algebra.dfy` (`ChordAlgebra`): the polynomial identities behind the
  on-curve proofs.
- `curve_laws.dfy` (`CurveLaws`): what the operations guarantee.
- `fixtures.dfy` (`Fixtures`): the curve (2, 3, 29), the base point (8, 3),
  and the chain of results `main` logs.

`big.Int.Mod` is Euclidean, so it is Dafny's `%` with a positive modulus. The
Go library does not specify how `ModInverse` finds its answer.
`TryModInverse` runs the extended Euclidean algorithm on x mod p.
The library documents its result as the inverse of x in the ring of integers
modulo p, that is, a value in [0, p). `InverseUnique` proves that whenever
some inverse exists in [0, p), the model returns exactly that one. So the model agrees with the library on every input
where an inverse exists, including a positive x ≥ p, which the library does
not reduce first.

## What the code does not do

- It raises no error when the inverse is missing. `modInverse` applies the
  fallback instead, which turns a degenerate slope into 0.
- It has no scalar multiplication. `DoubleandAdd` is a commented-out stub,
  and `main` builds 2P, 4P, 8P, 16P and 17P by hand.
- It has no point at infinity.
- It does not guard `main`'s last step. On the fixture curve,
  `Double((8, 3))` is (8, 26). The base point has order 3, so 16P = P, and
  the final `Add(16P, P)` adds P to itself. That call takes the fallback path
  and yields (13, 26), which is not on the curve (`Fixtures.MainChain`).

## Model

| member | source | states |
|---|---|---|
| `Modular.ExtendedEuclid` | main.go:167 | the gcd that `big.Int.GCD` computes inside `ModInverse`, with Bezout coefficients: a·s + b·t equals Gcd(a, b) |
| `Modular.TryModInverse` | main.go:167 | `big.Int.ModInverse(x, p)` gives a value exactly when gcd(x mod p, p) = 1; that value lies in [0, p) and x·i ≡ 1 (mod p), also for negative x |
| `Modular.NoInverse` | main.go:167-168 | when the library returns nil, x has no inverse modulo p at all: no i has x·i ≡ 1 |
| `Modular.InverseUnique` | main.go:167 | any i in [0, p) with x·i ≡ 1 (mod p) is exactly what the library returns, so the model does not depend on how the library computes it |
| `Curve.ModInverse` | main.go:166-172 | if gcd(x mod p, p) = 1, the result is the inverse of x in [0, p); otherwise it is x itself, unreduced (the fallback) |
| `Curve.InternalAdd` | main.go:129-164 | for any h, p.x, q.x and p.y: both coordinates lie in [0, p); r.x + p.x + q.x ≡ h²; (r.x, −r.y) lies on the line of slope h through p; the result keeps p's curve, and the inputs are values that nothing changes |
| `CurveLaws.InternalAddUnique` | main.go:129-164 | those congruences and ranges determine the result: any point of p's curve that meets them is `InternalAdd(p, q, h)` |
| `CurveLaws.InternalAddCongruent` | main.go:129-164 | the result depends on h, p.x, q.x and p.y only modulo p |
| `CurveLaws.InternalAddExact` | main.go:131-159 | the coordinates are the integer formulas reduced: r.x ≡ h² − p.x − q.x and r.y ≡ h·(p.x − x3) − p.y, where x3 = h² − p.x − q.x |
| `Curve.SecantSlope` | main.go:71-84 | if q.x − p.x is invertible modulo p, then h·(q.x − p.x) ≡ q.y − p.y; otherwise h = (q.y − p.y)·(q.x − p.x), via the fallback |
| `Curve.TangentSlope` | main.go:103-122 | if 2·p.y is invertible modulo p, then h·2·p.y ≡ 3·p.x² + a; otherwise h = (3·p.x² + a)·2·p.y, via the fallback |
| `Curve.Add` | main.go:70-98 | the result keeps p's curve and has both coordinates in [0, p), for any inputs |
| `Curve.Double` | main.go:101-127 | the result keeps p's curve and has both coordinates in [0, p), for any input |
| `CurveLaws.AddSlope` | main.go:71-84 | for prime p and q.x ≢ p.x: h·(q.x − p.x) ≡ q.y − p.y (mod p) |
| `CurveLaws.SecantSlopeSymmetric` | main.go:71-84 | for prime p and q.x ≢ p.x: the slopes of Add(p, q) and Add(q, p) agree modulo p |
| `CurveLaws.AddCommutes` | main.go:70-98 | for points of one curve, prime p and q.x ≢ p.x: Add(p, q) = Add(q, p) |
| `CurveLaws.AddOnCurve` | main.go:70-98 | for prime p and q.x ≢ p.x: if p and q lie on the curve, so does Add(p, q) |
| `CurveLaws.DoubleSlope` | main.go:101-127 | for prime p > 2 and p.y ≢ 0: h·2·p.y ≡ 3·p.x² + a, and Double(p).x ≡ h² − 2·p.x |
| `CurveLaws.DoubleOnCurve` | main.go:101-127 | for prime p > 2 and p.y ≢ 0: if p lies on the curve, so does Double(p) |
| `CurveLaws.AddDegenerate` | main.go:77-84 | when q.x ≡ p.x (mod p), which includes Add(p, p), the fallback makes the slope ≡ 0, and Add returns ((−p.x − q.x) mod p, (−p.y) mod p) |
| `CurveLaws.DoubleDegenerate` | main.go:116-121 | when 2·p.y ≡ 0 (mod p), which includes y = 0, the fallback makes the slope ≡ 0, and Double returns ((−2·p.x) mod p, (−p.y) mod p) |
| `ChordAlgebra.ChordThirdPoint` | main.go:131-159 | for prime p: the secant line through two curve solutions with distinct x meets the curve again at the reflection of (h² − x1 − x2, y3) |
| `ChordAlgebra.TangentThirdPoint` | main.go:131-159 | the tangent line at a curve solution meets the curve again at the reflection of (h² − 2·x1, y3) |
| `Fixtures.BaseOnCurve` | main.go:9-19 | the base point (8, 3) lies on y² = x³ + 2x + 3 modulo 29 |
| `Fixtures.DoubleFixtures` | main.go:22-26 | Double((8, 3)) = (8, 26) and Double((8, 26)) = (8, 3) |
| `Fixtures.TangentSlopeAt` | main.go:103-122 | given the inverse of 2·y, the tangent slope is (3·x² + a) times it |
| `Fixtures.ModInverseFallback` | main.go:166-170 | modInverse(0, 29) = 0, the unchanged argument |
| `Fixtures.AddBaseToItself` | main.go:34 | Add((8, 3), (8, 3)) takes the fallback and gives (13, 26) |
| `Fixtures.FallbackOffCurve` | main.go:34 | (13, 26) does not satisfy the curve equation modulo 29 |
| `Fixtures.MainChain` | main.go:22-35 | main's chain: 2P = 8P = (8, 26), 4P = 16P = P, and 17P = Add(16P, P) = (13, 26), which is off the curve |

## Left out

- `main`'s logging and `ECPoint.Log` (main.go:65-67): console output through `log.Printf`. The constants in `main` appear only as fixtures.
- The commented-out `DoubleandAdd` stub and the commented-out slope formulas (main.go:39-48, 85-95, 124-125, 161-162): dead code that does not compile. There is no scalar multiplication in the code, so none is modelled.
- The point at infinity: the code does not represent it.
- `*big.Int` pointers, allocation with `new(big.Int)`, and sharing of the curve pointer: coordinates are mathematical integers and the curve is a value. Nothing in the code mutates a curve or a point, so no behaviour is lost.
- A zero or negative modulus: the code never checks p. Go panics on `Mod` by 0. A negative p behaves in Go exactly as |p|, because `big.Int.Mod` is Euclidean over |p| and `ModInverse` negates a negative modulus; the model does not cover that case. Every operation therefore requires p > 0. Primality, which the code assumes and never checks, appears only as a hypothesis of the lemmas that need it.
- Curve membership of the inputs: the code never validates it. The operations accept any integers, and only the on-curve lemmas assume it.
