/**
  Integer arithmetic modulo a positive modulus, as the curve code obtains it
  from Go's math/big: Mod, GCD and ModInverse. Dafny's `%` on `int` is
  Euclidean, like big.Int.Mod, so `x % m` lies in [0, m) whenever m > 0,
  whatever the sign of x.
*/
module Modular {
  import opened Wrappers

  /** a and b are congruent modulo m. */
  predicate ModEq(a: int, b: int, m: int)
    requires m > 0
  {
    a % m == b % m
  }

  /** Division with remainder has only one answer. */
  lemma ModUnique(a: int, m: int, q: int, r: int)
    requires m > 0 && 0 <= r < m && a == q * m + r
    ensures a % m == r && a / m == q
  {
    var q0, r0 := a / m, a % m;
    assert a == q0 * m + r0;
    DiffOfDivisions(q0, q, m, r0, r);
  }

  lemma DiffOfDivisions(q0: int, q: int, m: int, r0: int, r: int)
    requires m > 0 && 0 <= r0 < m && 0 <= r < m && q0 * m + r0 == q * m + r
    ensures q0 == q
  {
    assert (q - q0) * m == r0 - r;
    if q0 < q {
      MulAtLeast(q - q0, m);
      assert false;
    } else if q < q0 {
      MulAtLeast(q0 - q, m);
      assert false;
    }
  }

  lemma MulAtLeast(k: int, m: int)
    requires k >= 1 && m > 0
    ensures k * m >= m
  {
    assert k * m == (k - 1) * m + m;
  }

  /** Adding a multiple of the modulus does not change the residue. */
  lemma ModAddMultiple(a: int, k: int, m: int)
    requires m > 0
    ensures (a + k * m) % m == a % m
  {
    assert a == (a / m) * m + a % m;
    assert a + k * m == (a / m + k) * m + a % m;
    ModUnique(a + k * m, m, a / m + k, a % m);
  }

  /** Congruent numbers differ by a multiple of the modulus. */
  lemma ModEqWitness(a: int, b: int, m: int) returns (k: int)
    requires m > 0 && ModEq(a, b, m)
    ensures a == b + k * m
  {
    k := a / m - b / m;
    assert a == (a / m) * m + a % m;
    assert b == (b / m) * m + b % m;
    assert k * m == (a / m) * m - (b / m) * m;
  }

  /** A residue is congruent to the number it was taken of. */
  lemma ModEqResidue(a: int, m: int)
    requires m > 0
    ensures ModEq(a % m, a, m)
  {
    ModUnique(a % m, m, 0, a % m);
  }

  lemma ModEqAdd(a: int, b: int, c: int, d: int, m: int)
    requires m > 0 && ModEq(a, b, m) && ModEq(c, d, m)
    ensures ModEq(a + c, b + d, m)
  {
    var k1 := ModEqWitness(a, b, m);
    var k2 := ModEqWitness(c, d, m);
    assert a + c == b + d + (k1 + k2) * m;
    ModAddMultiple(b + d, k1 + k2, m);
  }

  lemma ModEqSub(a: int, b: int, c: int, d: int, m: int)
    requires m > 0 && ModEq(a, b, m) && ModEq(c, d, m)
    ensures ModEq(a - c, b - d, m)
  {
    var k1 := ModEqWitness(a, b, m);
    var k2 := ModEqWitness(c, d, m);
    assert a - c == b - d + (k1 - k2) * m;
    ModAddMultiple(b - d, k1 - k2, m);
  }

  lemma ModEqMul(a: int, b: int, c: int, d: int, m: int)
    requires m > 0 && ModEq(a, b, m) && ModEq(c, d, m)
    ensures ModEq(a * c, b * d, m)
  {
    var k1 := ModEqWitness(a, b, m);
    var k2 := ModEqWitness(c, d, m);
    var k := b * k2 + k1 * d + k1 * k2 * m;
    MulExpand(b, d, k1, k2, m);
    assert a * c == b * d + k * m;
    ModAddMultiple(b * d, k, m);
    assert (a * c) % m == (b * d + k * m) % m;
  }

  lemma MulExpand(b: int, d: int, k1: int, k2: int, m: int)
    ensures (b + k1 * m) * (d + k2 * m) == b * d + (b * k2 + k1 * d + k1 * k2 * m) * m
  {
  }

  /** The divisor big.Int.GCD returns, computed here by Euclid's algorithm. */
  function Gcd(a: nat, b: nat): nat
    decreases b
  {
    if b == 0 then a else Gcd(b, a % b)
  }

  /** Gcd(a, b) divides both a and b. */
  lemma {:induction false} GcdDivides(a: nat, b: nat)
    requires a > 0 || b > 0
    ensures Gcd(a, b) > 0 && a % Gcd(a, b) == 0 && b % Gcd(a, b) == 0
    decreases b
  {
    if b == 0 {
      ModUnique(a, a, 1, 0);
      ModUnique(0, a, 0, 0);
    } else {
      var g := Gcd(b, a % b);
      GcdDivides(b, a % b);
      var u := DivisorWitness(b, g);
      var v := DivisorWitness(a % b, g);
      assert a == (a / b) * b + a % b;
      MulSum(a, a / b, b, a % b, u, v, g);
      ModUnique(a, g, (a / b) * u + v, 0);
    }
  }

  /** A number that g divides is a multiple of g. */
  lemma DivisorWitness(n: int, g: int) returns (u: int)
    requires g > 0 && n % g == 0
    ensures n == u * g
  {
    u := n / g;
    assert n == (n / g) * g + n % g;
  }

  lemma MulSum(a: int, x: int, b: int, r: int, u: int, v: int, g: int)
    requires a == x * b + r && b == u * g && r == v * g
    ensures a == (x * u + v) * g + 0
  {
  }

  /** Bezout coefficients: a * s + b * t == g. */
  datatype Bezout = Bezout(g: nat, s: int, t: int)

  /** The extended Euclidean algorithm. */
  function ExtendedEuclid(a: nat, b: nat): (r: Bezout)
    decreases b
    ensures r.g == Gcd(a, b)
    ensures a * r.s + b * r.t == r.g
  {
    if b == 0 then Bezout(a, 1, 0)
    else
      var e := ExtendedEuclid(b, a % b);
      var q := a / b;
      assert a == q * b + a % b;
      assert a * e.t + b * (e.s - q * e.t) == b * e.s + (a - q * b) * e.t;
      Bezout(e.g, e.t, e.s - q * e.t)
  }

  /** n is a prime number. */
  predicate IsPrime(n: int)
  {
    n > 1 && forall d :: 1 < d < n ==> n % d != 0
  }

  /** Every residue that is not 0 is coprime to a prime modulus. */
  lemma PrimeCoprime(a: int, p: int)
    requires IsPrime(p) && a % p != 0
    ensures Gcd(a % p, p) == 1
  {
    var r := a % p;
    var g := Gcd(r, p);
    GcdDivides(r, p);
    var u := DivisorWitness(r, g);
    PositiveMultiple(r, u, g);
    assert g <= r < p;
  }

  /** A positive multiple of g is at least g. */
  lemma PositiveMultiple(n: int, u: int, g: int)
    requires g > 0 && n > 0 && n == u * g
    ensures g <= n
  {
    if u >= 1 {
      MulAtLeast(u, g);
    }
  }

  /**
    big.Int.ModInverse(x, m): the inverse of x in the ring of integers
    modulo m, or nil (None) when x and m are not coprime. A negative x is
    reduced first; for a positive x reducing first does not change the
    answer, since the inverse in [0, m) is unique (InverseUnique).
  */
  function TryModInverse(x: int, m: int): (r: Option<int>)
    requires m > 0
    ensures r.Some? <==> Gcd(x % m, m) == 1
    ensures r.Some? ==> 0 <= r.value < m && (x * r.value) % m == 1 % m
  {
    var e := ExtendedEuclid(x % m, m);
    if e.g == 1 then
      InverseFromBezout(x, m, e.s, e.t);
      Some(e.s % m)
    else
      None
  }

  /** A Bezout identity for x mod m and m yields an inverse of x modulo m. */
  lemma InverseFromBezout(x: int, m: int, s: int, t: int)
    requires m > 0 && (x % m) * s + m * t == 1
    ensures (x * (s % m)) % m == 1 % m
  {
    ModEqResidue(x, m);
    ModEqResidue(s, m);
    ModEqMul(x, x % m, s % m, s, m);
    assert (x % m) * s == 1 + (-t) * m;
    ModAddMultiple(1, -t, m);
  }

  /** When big.Int.ModInverse gives nil, x has no inverse modulo m at all. */
  lemma {:induction false} NoInverse(x: int, m: int, i: int)
    requires m > 0 && TryModInverse(x, m).None?
    ensures (x * i) % m != 1 % m
  {
    var r := x % m;
    var g := Gcd(r, m);
    GcdDivides(r, m);
    var u := DivisorWitness(r, g);
    var v := DivisorWitness(m, g);
    PositiveMultiple(m, v, g);
    ModEqResidue(x, m);
    ModEqMul(x, r, i, i, m);
    var w := CommonDivisorOfMod(r * i, m, g, u * i, v);
    if (x * i) % m == 1 % m {
      ModUnique(1, m, 0, 1);
      NotUnit(w, g);
    }
  }

  /** A common divisor of n and m divides n % m. */
  lemma CommonDivisorOfMod(n: int, m: int, g: int, u: int, v: int) returns (w: int)
    requires m > 0 && g > 0 && n == u * g && m == v * g
    ensures n % m == w * g
  {
    var q := n / m;
    assert n == q * m + n % m;
    w := u - q * v;
    assert q * m == (q * v) * g;
  }

  /** A multiple of g > 1 is never 1. */
  lemma NotUnit(w: int, g: int)
    requires g > 1
    ensures w * g != 1
  {
    if w >= 1 {
      MulAtLeast(w, g);
    } else {
      assert w * g <= 0;
    }
  }

  /** The inverse in [0, m) is unique, so TryModInverse returns it whenever one exists. */
  lemma InverseUnique(x: int, m: int, i: int)
    requires m > 0 && 0 <= i < m && (x * i) % m == 1 % m
    ensures TryModInverse(x, m) == Some(i)
  {
    if TryModInverse(x, m).None? {
      NoInverse(x, m, i);
      assert false;
    }
    var j := TryModInverse(x, m).value;
    // i == i * (x * j) == j * (x * i) == j   (mod m)
    ModEqMul(i, i, x * j, 1, m);
    ModEqMul(j, j, x * i, 1, m);
    assert i * (x * j) == j * (x * i);
    ModUnique(i, m, 0, i);
    ModUnique(j, m, 0, j);
  }

  /** Modulo a prime, a factor that is not 0 can be cancelled. */
  lemma CancelPrime(x: int, y: int, d: int, m: int)
    requires IsPrime(m) && d % m != 0 && ModEq(x * d, y * d, m)
    ensures ModEq(x, y, m)
  {
    PrimeCoprime(d, m);
    var inv := TryModInverse(d, m).value;
    assert ModEq(d * inv, 1, m);
    assert ModEq(x * d * inv, y * d * inv, m) by {
      ModEqMul(x * d, y * d, inv, inv, m);
    }
    UnitFactor(x, d, inv, m);
    UnitFactor(y, d, inv, m);
  }

  /** Multiplying by d and then by an inverse of d gives back x, modulo m. */
  lemma UnitFactor(x: int, d: int, inv: int, m: int)
    requires m > 0 && ModEq(d * inv, 1, m)
    ensures ModEq(x * d * inv, x, m)
  {
    ModEqMul(x, x, d * inv, 1, m);
    assert x * d * inv == x * (d * inv);
  }

  /** Negation keeps a residue away from 0. */
  lemma NegNonZero(a: int, m: int)
    requires m > 0 && a % m != 0
    ensures (-a) % m != 0
  {
    if (-a) % m == 0 {
      ModEqSub(0, 0, -a, 0, m);
      assert false;
    }
  }
}
