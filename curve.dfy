/**
  The affine chord-and-tangent arithmetic of main.go on a short-Weierstrass
  curve y^2 = x^3 + a*x + b over the integers modulo p, with the formulas of
  section 2.2.1 of SEC 1 v2.0. Every *big.Int is a mathematical integer; the
  code never mutates a curve or a point, so both are values here.
*/
module Curve {
  import opened Wrappers
  import opened Modular

  /** ECCurve: the coefficients a, b and the modulus p. */
  datatype ECCurve = ECCurve(a: int, b: int, p: int)

  /** ECPoint: affine coordinates and the curve the point was built on. */
  datatype ECPoint = ECPoint(curve: ECCurve, x: int, y: int)

  /** The point satisfies the curve equation modulo p. */
  predicate OnCurve(pt: ECPoint)
    requires pt.curve.p > 0
  {
    ModEq(pt.y * pt.y, pt.x * pt.x * pt.x + pt.curve.a * pt.x + pt.curve.b, pt.curve.p)
  }

  /**
    modInverse: the inverse of x modulo p when there is one, and otherwise
    x itself, unreduced (the silent fallback for a nil library result).
  */
  function ModInverse(x: int, p: int): (r: int)
    requires p > 0
    ensures Gcd(x % p, p) == 1 ==> 0 <= r < p && (x * r) % p == 1 % p
    ensures Gcd(x % p, p) != 1 ==> r == x
  {
    match TryModInverse(x, p)
    case Some(i) => i
    case None => x
  }

  /**
    internalAdd: the third intersection of the line of slope h through p with
    the curve, reflected in the x-axis. The x-coordinates of the three
    intersections sum to h^2, and the reflected result lies on that line.
    The result is a copy of p (it keeps p's curve); h is not reduced.
  */
  function InternalAdd(p: ECPoint, q: ECPoint, h: int): (r: ECPoint)
    requires p.curve.p > 0
    ensures r.curve == p.curve
    ensures 0 <= r.x < p.curve.p && 0 <= r.y < p.curve.p
    ensures ModEq(r.x + p.x + q.x, h * h, p.curve.p)
    ensures ModEq(-r.y - p.y, h * (r.x - p.x), p.curve.p)
  {
    var m := p.curve.p;
    var rx := (h * h - p.x - q.x) % m;
    var ry := (h * (p.x - rx) - p.y) % m;
    InternalAddMeaning(h, p.x, q.x, p.y, rx, ry, m);
    p.(x := rx, y := ry)
  }

  /** The two reductions in InternalAdd keep the chord congruences. */
  lemma InternalAddMeaning(h: int, px: int, qx: int, py: int, rx: int, ry: int, m: int)
    requires m > 0 && rx == (h * h - px - qx) % m && ry == (h * (px - rx) - py) % m
    ensures ModEq(rx + px + qx, h * h, m)
    ensures ModEq(-ry - py, h * (rx - px), m)
  {
    var X := h * h - px - qx;
    ModEqResidue(X, m);
    ModEqAdd(rx, X, px + qx, px + qx, m);
    assert X + (px + qx) == h * h;
    var Y := h * (px - rx) - py;
    ModEqResidue(Y, m);
    ModEqSub(-py, -py, ry, Y, m);
    assert h * (px - rx) == -(h * (rx - px));
    assert -py - Y == h * (rx - px);
  }

  /** The slope Add computes: (q.y - p.y) times modInverse(q.x - p.x, p). */
  function SecantSlope(p: ECPoint, q: ECPoint): (h: int)
    requires p.curve.p > 0
    ensures Gcd((q.x - p.x) % p.curve.p, p.curve.p) == 1 ==>
      ModEq(h * (q.x - p.x), q.y - p.y, p.curve.p)
    ensures Gcd((q.x - p.x) % p.curve.p, p.curve.p) != 1 ==>
      h == (q.y - p.y) * (q.x - p.x)
  {
    var inv := ModInverse(q.x - p.x, p.curve.p);
    SlopeTimesRun(q.y - p.y, q.x - p.x, inv, p.curve.p);
    (q.y - p.y) * inv
  }

  /** The slope Double computes: (3 p.x^2 + a) times modInverse(2 p.y, p). */
  function TangentSlope(p: ECPoint): (h: int)
    requires p.curve.p > 0
    ensures Gcd((p.y * 2) % p.curve.p, p.curve.p) == 1 ==>
      ModEq(h * (p.y * 2), 3 * (p.x * p.x) + p.curve.a, p.curve.p)
    ensures Gcd((p.y * 2) % p.curve.p, p.curve.p) != 1 ==>
      h == (3 * (p.x * p.x) + p.curve.a) * (p.y * 2)
  {
    var inv := ModInverse(p.y * 2, p.curve.p);
    SlopeTimesRun(3 * (p.x * p.x) + p.curve.a, p.y * 2, inv, p.curve.p);
    (3 * (p.x * p.x) + p.curve.a) * inv
  }

  /** rise * inv(run) times run is rise again, when inv is an inverse of run. */
  lemma SlopeTimesRun(rise: int, run: int, inv: int, m: int)
    requires m > 0
    ensures (run * inv) % m == 1 % m ==> ModEq(rise * inv * run, rise, m)
  {
    if (run * inv) % m == 1 % m {
      ModEqMul(rise, rise, run * inv, 1, m);
      assert rise * inv * run == rise * (run * inv);
    }
  }

  /**
    Add: the chord through p and q. The code means it for points with
    distinct x-coordinates but does not check that (see AddDegenerate); the
    modulus is p's, and q's curve is never consulted.
  */
  function Add(p: ECPoint, q: ECPoint): (r: ECPoint)
    requires p.curve.p > 0
    ensures r.curve == p.curve
    ensures 0 <= r.x < p.curve.p && 0 <= r.y < p.curve.p
  {
    InternalAdd(p, q, SecantSlope(p, q))
  }

  /** Double: the tangent at p, the chord formulas applied with q = p. */
  function Double(p: ECPoint): (r: ECPoint)
    requires p.curve.p > 0
    ensures r.curve == p.curve
    ensures 0 <= r.x < p.curve.p && 0 <= r.y < p.curve.p
  {
    var q := p;
    InternalAdd(p, q, TangentSlope(p))
  }
}
