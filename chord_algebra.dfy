/**
  The polynomial identities behind the chord-and-tangent law: the line of
  slope h through (x1, y1) meets the cubic y^2 = x^3 + a x + b a third time at
  x3 = h^2 - x1 - x2, and the reflection y3 = h (x1 - x3) - y1 of that
  intersection solves the curve equation whenever the given points do.
  Throughout, e1 = y1^2 - (x1^3 + a x1 + b) is the amount by which (x1, y1)
  misses the curve and k = 3 x1^2 + a - 2 h y1 the amount by which h misses
  the tangent slope at (x1, y1).
*/
module ChordAlgebra {
  import opened Modular

  /**
    The curve's right-hand side minus the square of the line, at x = x1 + u,
    expanded in powers of u.
  */
  lemma CubicAtShift(x1: int, y1: int, h: int, a: int, b: int, u: int, x: int, l: int, k: int, e1: int)
    requires x == x1 + u && l == h * u + y1
    requires k == 3 * (x1 * x1) + a - 2 * h * y1 && e1 == y1 * y1 - (x1 * x1 * x1 + a * x1 + b)
    ensures x * x * x + a * x + b - l * l == u * u * (u + 3 * x1 - h * h) + k * u - e1
  {
    CubeOfSum(x1, u, x);
    SquareOfLine(h, u, y1, l);
    CollectPowers(x1, y1, h, a, b, u, k, e1, x * x * x, l * l);
  }

  lemma CubeOfSum(x1: int, u: int, x: int)
    requires x == x1 + u
    ensures x * x * x == x1 * x1 * x1 + 3 * (x1 * x1) * u + 3 * x1 * (u * u) + u * u * u
  {
    assert x * x == x1 * x1 + 2 * x1 * u + u * u;
  }

  lemma SquareOfLine(h: int, u: int, y1: int, l: int)
    requires l == h * u + y1
    ensures l * l == h * h * (u * u) + 2 * h * y1 * u + y1 * y1
  {
  }

  lemma CollectPowers(x1: int, y1: int, h: int, a: int, b: int, u: int, k: int, e1: int, cube: int, square: int)
    requires cube == x1 * x1 * x1 + 3 * (x1 * x1) * u + 3 * x1 * (u * u) + u * u * u
    requires square == h * h * (u * u) + 2 * h * y1 * u + y1 * y1
    requires k == 3 * (x1 * x1) + a - 2 * h * y1 && e1 == y1 * y1 - (x1 * x1 * x1 + a * x1 + b)
    ensures cube + a * (x1 + u) + b - square == u * u * (u + 3 * x1 - h * h) + k * u - e1
  {
    assert u * u * (u + 3 * x1 - h * h) == u * u * u + 3 * x1 * (u * u) - h * h * (u * u);
    assert k * u == 3 * (x1 * x1) * u + a * u - 2 * h * y1 * u;
    assert a * (x1 + u) == a * x1 + a * u;
  }

  /**
    At the third intersection: y3^2 minus the right-hand side at x3 is
    d e^2 - k e + e1, where d = x2 - x1 and e = x3 - x1.
  */
  lemma ChordCubic(x1: int, y1: int, x2: int, h: int, a: int, b: int,
                   x3: int, y3: int, d: int, e: int, k: int, e1: int)
    requires x3 == h * h - x1 - x2 && y3 == h * (x1 - x3) - y1
    requires d == x2 - x1 && e == x3 - x1
    requires k == 3 * (x1 * x1) + a - 2 * h * y1 && e1 == y1 * y1 - (x1 * x1 * x1 + a * x1 + b)
    ensures y3 * y3 - (x3 * x3 * x3 + a * x3 + b) == d * e * e - k * e + e1
  {
    CubicAtShift(x1, y1, h, a, b, e, x3, -y3, k, e1);
    assert (-y3) * (-y3) == y3 * y3;
    assert e + 3 * x1 - h * h == -d;
    ShiftedCubic(e, d, k, e1);
  }

  lemma ShiftedCubic(u: int, d: int, k: int, e1: int)
    ensures -(u * u * (-d) + k * u - e1) == d * u * u - k * u + e1
  {
  }

  /**
    For the chord through (x1, y1) and (x2, y2): d times the defect at the
    third point is a combination of the defects e1, e2 at the given points
    and of s, the amount by which the line misses (x2, y2).
  */
  lemma ChordElimination(x1: int, y1: int, x2: int, y2: int, h: int, a: int, b: int,
                         x3: int, y3: int, d: int, e: int, e1: int, e2: int, l2: int)
    requires x3 == h * h - x1 - x2 && y3 == h * (x1 - x3) - y1
    requires d == x2 - x1 && e == x3 - x1 && l2 == h * d + y1
    requires e1 == y1 * y1 - (x1 * x1 * x1 + a * x1 + b)
    requires e2 == y2 * y2 - (x2 * x2 * x2 + a * x2 + b)
    ensures d * (y3 * y3 - (x3 * x3 * x3 + a * x3 + b)) == e1 * (d - e) + e * (e2 + (l2 - y2) * (y2 + l2))
  {
    var k := 3 * (x1 * x1) + a - 2 * h * y1;
    var defect := y3 * y3 - (x3 * x3 * x3 + a * x3 + b);
    var rhs2 := x2 * x2 * x2 + a * x2 + b;
    ChordCubic(x1, y1, x2, h, a, b, x3, y3, d, e, k, e1);
    // The same cubic at x2 ties k to the second point.
    CubicAtShift(x1, y1, h, a, b, d, x2, l2, k, e1);
    assert d + 3 * x1 - h * h == -e;
    ShiftedCubic(d, e, k, e1);
    DifferenceOfSquares(rhs2, y2, l2);
    EliminateK(d, e, k, e1, defect, rhs2 - l2 * l2);
  }

  lemma DifferenceOfSquares(rhs: int, y: int, l: int)
    ensures rhs - l * l == -(y * y - rhs) - (l - y) * (y + l)
  {
  }

  lemma EliminateK(d: int, e: int, k: int, e1: int, defect: int, c2: int)
    requires defect == d * e * e - k * e + e1 && -c2 == e * d * d - k * d + e1
    ensures d * defect == e1 * (d - e) - e * c2
  {
  }

  /** The residue of a product with a factor congruent to 0 is 0. */
  lemma MulZero(x: int, z: int, m: int)
    requires m > 0 && ModEq(z, 0, m)
    ensures ModEq(x * z, 0, m)
  {
    ModEqMul(x, x, z, 0, m);
  }

  /** defect == 0 modulo m means y^2 == rhs modulo m. */
  lemma DefectZero(y2: int, rhs: int, m: int)
    requires m > 0 && ModEq(y2 - rhs, 0, m)
    ensures ModEq(y2, rhs, m)
  {
    ModEqAdd(y2 - rhs, 0, rhs, rhs, m);
  }

  /**
    The line of slope h through two solutions (x1, y1), (x2, y2) of the curve
    equation modulo a prime, with x1 and x2 distinct, meets the curve again at
    the reflection of (x3, y3).
  */
  lemma ChordThirdPoint(x1: int, y1: int, x2: int, y2: int, h: int, a: int, b: int, m: int)
    requires IsPrime(m) && (x2 - x1) % m != 0 && ModEq(h * (x2 - x1), y2 - y1, m)
    requires ModEq(y1 * y1 - (x1 * x1 * x1 + a * x1 + b), 0, m)
    requires ModEq(y2 * y2 - (x2 * x2 * x2 + a * x2 + b), 0, m)
    ensures var x3 := h * h - x1 - x2;
            var y3 := h * (x1 - x3) - y1;
            ModEq(y3 * y3, x3 * x3 * x3 + a * x3 + b, m)
  {
    var x3 := h * h - x1 - x2;
    var y3 := h * (x1 - x3) - y1;
    var d, e := x2 - x1, x3 - x1;
    var e1 := y1 * y1 - (x1 * x1 * x1 + a * x1 + b);
    var e2 := y2 * y2 - (x2 * x2 * x2 + a * x2 + b);
    var defect := y3 * y3 - (x3 * x3 * x3 + a * x3 + b);
    var l2 := h * d + y1;
    var s := l2 - y2;
    ChordElimination(x1, y1, x2, y2, h, a, b, x3, y3, d, e, e1, e2, l2);
    assert ModEq(s, 0, m) by {
      ModEqSub(h * d, y2 - y1, y2 - y1, y2 - y1, m);
      assert h * d - (y2 - y1) == s;
    }
    assert ModEq(e * (e2 + s * (y2 + l2)), 0, m) by {
      MulZero(y2 + l2, s, m);
      assert (y2 + l2) * s == s * (y2 + l2);
      ModEqAdd(e2, 0, s * (y2 + l2), 0, m);
      MulZero(e, e2 + s * (y2 + l2), m);
    }
    assert ModEq(e1 * (d - e), 0, m) by {
      MulZero(d - e, e1, m);
      assert (d - e) * e1 == e1 * (d - e);
    }
    ModEqAdd(e1 * (d - e), 0, e * (e2 + s * (y2 + l2)), 0, m);
    assert defect * d == d * defect && 0 == 0 * d;
    CancelPrime(defect, 0, d, m);
    DefectZero(y3 * y3, x3 * x3 * x3 + a * x3 + b, m);
  }

  /**
    The tangent of slope h at a solution (x1, y1) of the curve equation, with
    h * 2 y1 == 3 x1^2 + a modulo m, meets the curve again at the reflection
    of (x3, y3), where x3 = h^2 - 2 x1.
  */
  lemma TangentThirdPoint(x1: int, y1: int, h: int, a: int, b: int, m: int)
    requires m > 0 && ModEq(h * (y1 * 2), 3 * (x1 * x1) + a, m)
    requires ModEq(y1 * y1 - (x1 * x1 * x1 + a * x1 + b), 0, m)
    ensures var x3 := h * h - x1 - x1;
            var y3 := h * (x1 - x3) - y1;
            ModEq(y3 * y3, x3 * x3 * x3 + a * x3 + b, m)
  {
    var x3 := h * h - x1 - x1;
    var y3 := h * (x1 - x3) - y1;
    var e := x3 - x1;
    var k := 3 * (x1 * x1) + a - 2 * h * y1;
    var e1 := y1 * y1 - (x1 * x1 * x1 + a * x1 + b);
    var defect := y3 * y3 - (x3 * x3 * x3 + a * x3 + b);
    ChordCubic(x1, y1, x1, h, a, b, x3, y3, 0, e, k, e1);
    assert defect == e1 - k * e;
    assert ModEq(k, 0, m) by {
      ModEqSub(3 * (x1 * x1) + a, h * (y1 * 2), h * (y1 * 2), h * (y1 * 2), m);
      assert 3 * (x1 * x1) + a - h * (y1 * 2) == k;
    }
    MulZero(e, k, m);
    assert e * k == k * e;
    ModEqSub(e1, 0, k * e, 0, m);
    DefectZero(y3 * y3, x3 * x3 * x3 + a * x3 + b, m);
  }
}
