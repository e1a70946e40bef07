/**
  The constants main.go runs the arithmetic on: the curve y^2 = x^3 + 2x + 3
  modulo 29 and the base point P = (8, 3), with the chain of results main
  logs as 2P, 4P, 8P, 16P and 17P.
*/
module Fixtures {
  import opened Modular
  import opened Curve
  import CurveLaws

  const Curve29 := ECCurve(2, 3, 29)
  const BasePoint := ECPoint(Curve29, 8, 3)

  /** The base point lies on the curve: 3^2 and 8^3 + 2*8 + 3 are both 9 modulo 29. */
  lemma BaseOnCurve()
    ensures OnCurve(BasePoint)
  {
    assert (3 * 3) % 29 == 9 && (8 * 8 * 8 + 2 * 8 + 3) % 29 == 9;
  }

  /** Doubling the base point twice returns it: P has order 3. */
  lemma DoubleFixtures()
    ensures Double(BasePoint) == ECPoint(Curve29, 8, 26)
    ensures Double(ECPoint(Curve29, 8, 26)) == BasePoint
  {
    DoubleBase();
    DoubleNegBase();
  }

  /** 2P: the tangent slope at P is 194 * 5 = 970, since 5 is the inverse of 6 modulo 29; 970 is 13 modulo 29. */
  lemma DoubleBase()
    ensures Double(BasePoint) == ECPoint(Curve29, 8, 26)
  {
    TangentSlopeAt(BasePoint, 5);
    assert 970 == 33 * 29 + 13;
    CurveLaws.InternalAddCongruent(BasePoint, BasePoint, 970, BasePoint, BasePoint, 13);
  }

  /** 2(2P): the tangent slope at 2P is 194 * 24 = 4656, since 24 is the inverse of 52 modulo 29; 4656 is 16 modulo 29. */
  lemma DoubleNegBase()
    ensures Double(ECPoint(Curve29, 8, 26)) == BasePoint
  {
    var twoP := ECPoint(Curve29, 8, 26);
    TangentSlopeAt(twoP, 24);
    assert 4656 == 160 * 29 + 16;
    CurveLaws.InternalAddCongruent(twoP, twoP, 4656, twoP, twoP, 16);
  }

  /** With inv the inverse of 2 y, the tangent slope is (3 x^2 + a) * inv. */
  lemma TangentSlopeAt(pt: ECPoint, inv: int)
    requires pt.curve.p > 0 && 0 <= inv < pt.curve.p && (pt.y * 2 * inv) % pt.curve.p == 1 % pt.curve.p
    ensures TangentSlope(pt) == (3 * (pt.x * pt.x) + pt.curve.a) * inv
  {
    InverseUnique(pt.y * 2, pt.curve.p, inv);
  }

  /** modInverse(0, 29) has no inverse to return and falls back to 0 itself. */
  lemma ModInverseFallback()
    ensures ModInverse(0, 29) == 0
  {
    assert Gcd(0, 29) == 29;
  }

  /**
    The chain main computes: 2P = 8P = (8, 26) and 4P = 16P = (8, 3), so the
    final Add(16P, P) adds P to itself, takes the modInverse fallback and
    yields (13, 26), which is not on the curve.
  */
  lemma MainChain()
    ensures Double(Double(Double(Double(BasePoint)))) == BasePoint
    ensures Add(Double(Double(Double(Double(BasePoint)))), BasePoint) == ECPoint(Curve29, 13, 26)
    ensures !OnCurve(ECPoint(Curve29, 13, 26))
  {
    DoubleFixtures();
    AddBaseToItself();
    FallbackOffCurve();
  }

  /** (13, 26) is not on the curve: 26^2 is 9 but 13^3 + 2*13 + 3 is 22 modulo 29. */
  lemma FallbackOffCurve()
    ensures !OnCurve(ECPoint(Curve29, 13, 26))
  {
    assert (26 * 26) % 29 == 9 && (13 * 13 * 13 + 2 * 13 + 3) % 29 == 22;
  }

  /** P + P through Add: equal x-coordinates, slope 0 from the fallback, (-16, -3) modulo 29. */
  lemma AddBaseToItself()
    ensures Add(BasePoint, BasePoint) == ECPoint(Curve29, 13, 26)
  {
    CurveLaws.AddDegenerate(BasePoint, BasePoint);
    assert (-8 - 8) % 29 == 13 && (-3) % 29 == 26;
  }
}
