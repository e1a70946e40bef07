/**
  What the chord-and-tangent formulas of main.go guarantee: the slopes Add and
  Double build satisfy their defining congruences, Add is symmetric, both
  operations keep points on the curve, and the degenerate inputs that the
  code does not reject collapse to slope 0 through the modInverse fallback.
*/
module CurveLaws {
  import opened Modular
  import opened Curve
  import opened ChordAlgebra

  /** Two residues in [0, m) that are congruent are equal. */
  lemma ModEqInRange(a: int, b: int, m: int)
    requires m > 0 && 0 <= a < m && 0 <= b < m && ModEq(a, b, m)
    ensures a == b
  {
    ModUnique(a, m, 0, a);
    ModUnique(b, m, 0, b);
  }

  /**
    The congruences in InternalAdd's contract determine its result: any point
    on p's curve with coordinates in [0, p) that satisfies them is the result.
  */
  lemma InternalAddUnique(p: ECPoint, q: ECPoint, h: int, r: ECPoint)
    requires p.curve.p > 0 && r.curve == p.curve
    requires 0 <= r.x < p.curve.p && 0 <= r.y < p.curve.p
    requires ModEq(r.x + p.x + q.x, h * h, p.curve.p)
    requires ModEq(-r.y - p.y, h * (r.x - p.x), p.curve.p)
    ensures r == InternalAdd(p, q, h)
  {
    var m := p.curve.p;
    var s := InternalAdd(p, q, h);
    ModEqSub(r.x + p.x + q.x, h * h, p.x + q.x, p.x + q.x, m);
    ModEqSub(s.x + p.x + q.x, h * h, p.x + q.x, p.x + q.x, m);
    assert r.x + p.x + q.x - (p.x + q.x) == r.x;
    assert s.x + p.x + q.x - (p.x + q.x) == s.x;
    ModEqInRange(r.x, s.x, m);
    ModEqSub(-r.y - p.y, h * (r.x - p.x), -p.y, -p.y, m);
    ModEqSub(-s.y - p.y, h * (s.x - p.x), -p.y, -p.y, m);
    assert -r.y - p.y - -p.y == -r.y;
    assert -s.y - p.y - -p.y == -s.y;
    ModEqSub(0, 0, -r.y, -s.y, m);
    assert 0 - -r.y == r.y && 0 - -s.y == s.y;
    ModEqInRange(r.y, s.y, m);
  }

  /** InternalAdd depends on its arguments only through their residues. */
  lemma InternalAddCongruent(p: ECPoint, q: ECPoint, h: int, p': ECPoint, q': ECPoint, h': int)
    requires p.curve.p > 0 && p'.curve == p.curve
    requires ModEq(p.x, p'.x, p.curve.p) && ModEq(p.y, p'.y, p.curve.p)
    requires ModEq(q.x, q'.x, p.curve.p) && ModEq(h, h', p.curve.p)
    ensures InternalAdd(p, q, h) == InternalAdd(p', q', h')
  {
    var m := p.curve.p;
    var r := InternalAdd(p', q', h');
    ModEqAdd(r.x + p.x, r.x + p'.x, q.x, q'.x, m) by {
      ModEqAdd(r.x, r.x, p.x, p'.x, m);
    }
    ModEqMul(h, h', h, h', m);
    ModEqSub(-r.y - p.y, -r.y - p'.y, 0, 0, m) by {
      ModEqSub(-r.y, -r.y, p.y, p'.y, m);
    }
    ModEqMul(h, h', r.x - p.x, r.x - p'.x, m) by {
      ModEqSub(r.x, r.x, p.x, p'.x, m);
    }
    InternalAddUnique(p, q, h, r);
  }

  /** Add's slope h satisfies h * (q.x - p.x) == q.y - p.y modulo a prime p. */
  lemma AddSlope(p: ECPoint, q: ECPoint)
    requires IsPrime(p.curve.p) && (q.x - p.x) % p.curve.p != 0
    ensures ModEq(SecantSlope(p, q) * (q.x - p.x), q.y - p.y, p.curve.p)
  {
    PrimeCoprime(q.x - p.x, p.curve.p);
  }

  /** Swapping the points does not change the secant slope modulo a prime. */
  lemma SecantSlopeSymmetric(p: ECPoint, q: ECPoint)
    requires p.curve == q.curve && IsPrime(p.curve.p) && (q.x - p.x) % p.curve.p != 0
    ensures ModEq(SecantSlope(p, q), SecantSlope(q, p), p.curve.p)
  {
    var m := p.curve.p;
    var d := q.x - p.x;
    NegNonZero(d, m);
    AddSlope(p, q);
    AddSlope(q, p);
    SlopesAgree(SecantSlope(p, q), SecantSlope(q, p), d, p.x - q.x, q.y - p.y, p.y - q.y, m);
  }

  /** Two slopes over the same run and rise, one measured backwards, agree modulo a prime. */
  lemma SlopesAgree(h1: int, h2: int, d: int, d': int, dy: int, dy': int, m: int)
    requires IsPrime(m) && d % m != 0 && d' == -d && dy' == -dy
    requires ModEq(h1 * d, dy, m) && ModEq(h2 * d', dy', m)
    ensures ModEq(h1, h2, m)
  {
    assert ModEq(h2 * d, dy, m) by {
      ModEqSub(0, 0, h2 * d', dy', m);
      assert 0 - h2 * d' == h2 * d;
    }
    CancelPrime(h1, h2, d, m);
  }

  /** Add(p, q) == Add(q, p) for points of one curve with distinct x modulo a prime. */
  lemma AddCommutes(p: ECPoint, q: ECPoint)
    requires p.curve == q.curve && IsPrime(p.curve.p) && (q.x - p.x) % p.curve.p != 0
    ensures Add(p, q) == Add(q, p)
  {
    var m := p.curve.p;
    var d := q.x - p.x;
    var h1, h2 := SecantSlope(p, q), SecantSlope(q, p);
    SecantSlopeSymmetric(p, q);
    AddSlope(p, q);
    var r := InternalAdd(q, p, h2);
    SwappedCongruences(r.x, r.y, p.x, p.y, q.x, q.y, h1, h2, m);
    InternalAddUnique(p, q, h1, r);
  }

  /** The congruences of the chord from q to p, rewritten as those of the chord from p to q. */
  lemma SwappedCongruences(rx: int, ry: int, px: int, py: int, qx: int, qy: int, h1: int, h2: int, m: int)
    requires m > 0 && ModEq(h1, h2, m) && ModEq(h1 * (qx - px), qy - py, m)
    requires ModEq(rx + qx + px, h2 * h2, m) && ModEq(-ry - qy, h2 * (rx - qx), m)
    ensures ModEq(rx + px + qx, h1 * h1, m) && ModEq(-ry - py, h1 * (rx - px), m)
  {
    ModEqMul(h2, h1, h2, h1, m);
    assert rx + qx + px == rx + px + qx;
    ModEqMul(h2, h1, rx - qx, rx - qx, m);
    ModEqAdd(-ry - qy, h1 * (rx - qx), qy - py, h1 * (qx - px), m);
    assert -ry - qy + (qy - py) == -ry - py;
    assert h1 * (rx - qx) + h1 * (qx - px) == h1 * (rx - px);
  }

  /** A point whose coordinates are congruent to a solution of the curve equation is on the curve. */
  lemma OnCurveCongruent(pt: ECPoint, x: int, y: int)
    requires pt.curve.p > 0
    requires ModEq(pt.x, x, pt.curve.p) && ModEq(pt.y, y, pt.curve.p)
    requires ModEq(y * y, x * x * x + pt.curve.a * x + pt.curve.b, pt.curve.p)
    ensures OnCurve(pt)
  {
    var m, a, b := pt.curve.p, pt.curve.a, pt.curve.b;
    ModEqMul(pt.y, y, pt.y, y, m);
    ModEqMul(pt.x, x, pt.x, x, m);
    ModEqMul(pt.x * pt.x, x * x, pt.x, x, m);
    ModEqMul(a, a, pt.x, x, m);
    ModEqAdd(pt.x * pt.x * pt.x, x * x * x, a * pt.x, a * x, m);
    ModEqAdd(pt.x * pt.x * pt.x + a * pt.x, x * x * x + a * x, b, b, m);
  }

  /** The exact chord-and-tangent coordinates that InternalAdd reduces modulo p. */
  lemma InternalAddExact(p: ECPoint, q: ECPoint, h: int)
    requires p.curve.p > 0
    ensures var r := InternalAdd(p, q, h);
            var x3 := h * h - p.x - q.x;
            ModEq(r.x, x3, p.curve.p) && ModEq(r.y, h * (p.x - x3) - p.y, p.curve.p)
  {
    var m := p.curve.p;
    var r := InternalAdd(p, q, h);
    var x3 := h * h - p.x - q.x;
    ModEqResidue(x3, m);
    ModEqSub(h * (p.x - r.x), h * (p.x - x3), p.y, p.y, m) by {
      ModEqMul(h, h, p.x - r.x, p.x - x3, m) by {
        ModEqSub(p.x, p.x, r.x, x3, m);
      }
    }
    ModEqResidue(h * (p.x - r.x) - p.y, m);
  }

  /** The curve equation at (x, y), as a difference congruent to 0. */
  lemma OnCurveDefect(pt: ECPoint)
    requires pt.curve.p > 0 && OnCurve(pt)
    ensures ModEq(pt.y * pt.y - (pt.x * pt.x * pt.x + pt.curve.a * pt.x + pt.curve.b), 0, pt.curve.p)
  {
    var rhs := pt.x * pt.x * pt.x + pt.curve.a * pt.x + pt.curve.b;
    ModEqSub(pt.y * pt.y, rhs, rhs, rhs, pt.curve.p);
  }

  /**
    Adding two points of the curve with distinct x modulo a prime p gives a
    point of the curve.
  */
  lemma AddOnCurve(p: ECPoint, q: ECPoint)
    requires p.curve == q.curve && IsPrime(p.curve.p) && (q.x - p.x) % p.curve.p != 0
    requires OnCurve(p) && OnCurve(q)
    ensures OnCurve(Add(p, q))
  {
    var h := SecantSlope(p, q);
    var x3 := h * h - p.x - q.x;
    AddSlope(p, q);
    OnCurveDefect(p);
    OnCurveDefect(q);
    ChordThirdPoint(p.x, p.y, q.x, q.y, h, p.curve.a, p.curve.b, p.curve.p);
    InternalAddExact(p, q, h);
    OnCurveCongruent(Add(p, q), x3, h * (p.x - x3) - p.y);
  }

  /** Modulo a prime other than 2, doubling a y that is not 0 does not give 0. */
  lemma TwiceNonZero(y: int, m: int)
    requires IsPrime(m) && m > 2 && y % m != 0
    ensures (y * 2) % m != 0
  {
    ModUnique(2, m, 0, 2);
    if (y * 2) % m == 0 {
      assert 0 * 2 == 0;
      CancelPrime(y, 0, 2, m);
      assert false;
    }
  }

  /**
    Double's slope h satisfies h * 2 p.y == 3 p.x^2 + a modulo a prime p > 2
    when p.y is not 0, and the result's x is h^2 - 2 p.x.
  */
  lemma DoubleSlope(p: ECPoint)
    requires IsPrime(p.curve.p) && p.curve.p > 2 && p.y % p.curve.p != 0
    ensures ModEq(TangentSlope(p) * (p.y * 2), 3 * (p.x * p.x) + p.curve.a, p.curve.p)
    ensures ModEq(Double(p).x, TangentSlope(p) * TangentSlope(p) - 2 * p.x, p.curve.p)
  {
    TwiceNonZero(p.y, p.curve.p);
    PrimeCoprime(p.y * 2, p.curve.p);
    InternalAddExact(p, p, TangentSlope(p));
  }

  /** Doubling a point of the curve, modulo a prime p > 2 and with p.y not 0, gives a point of the curve. */
  lemma DoubleOnCurve(p: ECPoint)
    requires IsPrime(p.curve.p) && p.curve.p > 2 && p.y % p.curve.p != 0 && OnCurve(p)
    ensures OnCurve(Double(p))
  {
    var h := TangentSlope(p);
    var x3 := h * h - p.x - p.x;
    DoubleSlope(p);
    OnCurveDefect(p);
    TangentThirdPoint(p.x, p.y, h, p.curve.a, p.curve.b, p.curve.p);
    InternalAddExact(p, p, h);
    OnCurveCongruent(Double(p), x3, h * (p.x - x3) - p.y);
  }

  /** modInverse of a multiple of p is a multiple of p: the inverse 0 when p == 1, else the fallback. */
  lemma ModInverseOfZero(x: int, m: int)
    requires m > 0 && x % m == 0
    ensures ModEq(ModInverse(x, m), 0, m)
  {
    assert Gcd(0, m) == Gcd(m, 0) == m;
    if m == 1 {
      ModUnique(ModInverse(x, m), 1, ModInverse(x, m), 0);
    }
  }

  /**
    Add given x-coordinates congruent modulo p (p == q among them) gets slope 0
    from the modInverse fallback, and returns (-p.x - q.x, -p.y) reduced.
  */
  lemma AddDegenerate(p: ECPoint, q: ECPoint)
    requires p.curve.p > 0 && (q.x - p.x) % p.curve.p == 0
    ensures ModEq(SecantSlope(p, q), 0, p.curve.p)
    ensures Add(p, q) == ECPoint(p.curve, (-p.x - q.x) % p.curve.p, (-p.y) % p.curve.p)
  {
    var m := p.curve.p;
    ModInverseOfZero(q.x - p.x, m);
    MulZero(q.y - p.y, ModInverse(q.x - p.x, m), m);
    InternalAddCongruent(p, q, SecantSlope(p, q), p, q, 0);
  }

  /**
    Double given a y with 2 y == 0 modulo p (y == 0 among them) gets slope 0
    from the modInverse fallback, and returns (-2 p.x, -p.y) reduced.
  */
  lemma DoubleDegenerate(p: ECPoint)
    requires p.curve.p > 0 && (p.y * 2) % p.curve.p == 0
    ensures ModEq(TangentSlope(p), 0, p.curve.p)
    ensures Double(p) == ECPoint(p.curve, (-2 * p.x) % p.curve.p, (-p.y) % p.curve.p)
  {
    var m := p.curve.p;
    ModInverseOfZero(p.y * 2, m);
    MulZero(3 * (p.x * p.x) + p.curve.a, ModInverse(p.y * 2, m), m);
    InternalAddCongruent(p, p, TangentSlope(p), p, p, 0);
    assert -p.x - p.x == -2 * p.x;
  }
}
