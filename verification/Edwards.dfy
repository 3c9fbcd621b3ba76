/**
 The twisted Edwards curve of RFC 8032, -x^2 + y^2 = 1 + d x^2 y^2, over a prime
 field with p = 5 (mod 8): its affine addition is complete, closed and
 commutative, with (0, 1) as identity. Associativity is the one group axiom
 that is only named here, as the predicate Associative.
 */
module Edwards {
  import opened Modular
  import opened Primes

  /** Field prime, curve constant d, and a square root i of -1. */
  datatype Curve = Curve(p: pos, d: int, i: int)

  predicate IsRoot(p: pos, x: int, n: int) {
    Cong(p, x * x, n)
  }

  ghost predicate NonSquare(p: pos, d: int) {
    forall x: int :: !IsRoot(p, x, d)
  }

  ghost predicate Good(c: Curve) {
    IsPrime(c.p) && c.p % 8 == 5 && Cong(c.p, c.i * c.i + 1, 0) && NonSquare(c.p, c.d)
  }

  lemma RootOfMinusOne(p: pos, i: int)
    ensures Cong(p, i * i + 1, 0) <==> IsRoot(p, i, -1)
  {
    if Cong(p, i * i + 1, 0) {
      Combine1(p, i * i, 0 - 1, 1, i * i + 1, 0);
    }
    if IsRoot(p, i, -1) {
      Combine1(p, i * i + 1, 0, 1, i * i, 0 - 1);
    }
  }

  /** A point by its two canonical coordinates. */
  datatype Affine = Affine(x: nat, y: nat)

  predicate Canonical(p: pos, v: int) {
    0 <= v < p
  }

  predicate OnCurve(c: Curve, a: Affine) {
    Canonical(c.p, a.x) && Canonical(c.p, a.y) && Satisfies(c, a.x, a.y)
  }

  /** The curve equation. */
  predicate Satisfies(c: Curve, x: int, y: int) {
    Cong(c.p, y * y - x * x, 1 + c.d * ((x * y) * (x * y)))
  }

  const Zero := Affine(0, 1)

  function Cross(c: Curve, a: Affine, b: Affine): int {
    c.d * ((a.x * a.y) * (b.x * b.y))
  }

  /** The addition law of section 5.1.4 of RFC 8032, in affine coordinates. */
  function Sum(c: Curve, a: Affine, b: Affine): Affine
    requires c.p >= 2
  {
    var e := Cross(c, a, b);
    Affine(Div(c.p, a.x * b.y + b.x * a.y, 1 + e), Div(c.p, a.y * b.y + a.x * b.x, 1 - e))
  }

  lemma SmallNonZero(c: Curve, k: int)
    requires Good(c) && 1 <= k < 5
    ensures NonZero(c.p, k)
  {
    SmallRemainder(c.p, k);
  }

  /** If u^2 = d w^2 with w invertible then d is a square. */
  lemma RootOfQuotient(c: Curve, u: int, w: int)
    requires Good(c) && NonZero(c.p, w)
    ensures !Cong(c.p, u * u, c.d * (w * w))
  {
    if Cong(c.p, u * u, c.d * (w * w)) {
      var p, r := c.p, Div(c.p, u, w);
      Quotient(p, u, w);
      CongMul(p, r * w, u, r * w, u);
      Interchange(r, w, r, w);
      Commute((r * r) , w * w, c.d);
      NonZeroProduct(p, w, w);
      Cancel(p, w * w, r * r, c.d);
      assert IsRoot(p, r, c.d);
    }
  }

  lemma Commute(a: int, b: int, c: int)
    ensures a * b == b * a && c * b == b * c
  {
  }

  // Integer identities, kept small so that each is immediate.

  lemma SquareOfSum(a: int, b: int)
    ensures (a + b) * (a + b) == a * a + 2 * (a * b) + b * b
  {
  }

  lemma SquareOfCombination(j: int, x: int, e: int, y: int)
    ensures (j * x + e * y) * (j * x + e * y) == (j * j) * (x * x) + 2 * (e * (j * (x * y))) + (e * e) * (y * y)
  {
    SquareOfSum(j * x, e * y);
    Interchange(j, x, j, x);
    Interchange(e, y, e, y);
    assert (j * x) * (e * y) == e * (j * (x * y));
  }

  lemma Regroup(d: int, m1: int, m2: int, j: int)
    ensures (d * (m1 * m2)) * (d * (m1 * m2)) == (d * (m1 * m1)) * (d * (m2 * m2))
    ensures (d * (m1 * m2)) * (j * m1) == (d * (m1 * m1)) * (j * m2)
    ensures (d * (m1 * m2)) * (m1 * m2) == (d * (m1 * m1)) * (m2 * m2)
    ensures (d * (m1 * m2)) * (m1 * m2) == (d * (m2 * m2)) * (m1 * m1)
  {
    Interchange(d, m1 * m2, d, m1 * m2);
    Interchange(d, m1 * m1, d, m2 * m2);
    Interchange(m1, m2, m1, m2);
    assert (m1 * m2) * (j * m1) == (m1 * m1) * (j * m2);
    Associate(d, m1 * m2, j * m1);
    Associate(d, m1 * m1, j * m2);
    Associate(d, m1 * m2, m1 * m2);
    Associate(d, m1 * m1, m2 * m2);
    Associate(d, m2 * m2, m1 * m1);
  }

  // Completeness: the denominators of the addition law never vanish.

  /** With j^2 = -1: (j x + y)^2 = y^2 - x^2 + 2 j x y. */
  lemma RotatedSquare(p: pos, j: int, x: int, y: int)
    requires IsRoot(p, j, -1)
    ensures Cong(p, (j * x + y) * (j * x + y), y * y - x * x + 2 * (j * (x * y)))
  {
    SquareOfCombination(j, x, 1, y);
    Combine1(p, (j * x + y) * (j * x + y), y * y - x * x + 2 * (j * (x * y)), x * x, j * j, -1);
  }

  /** If e = d x1 y1 x2 y2 has e^2 = 1, then (j x1 + e y1)^2 = d (x1 y1 (j x2 + y2))^2. */
  lemma SquareRelation(c: Curve, j: int, a: Affine, b: Affine)
    requires IsRoot(c.p, j, -1) && OnCurve(c, a) && OnCurve(c, b)
    requires Cong(c.p, Cross(c, a, b) * Cross(c, a, b), 1)
    ensures var u := j * a.x + Cross(c, a, b) * a.y;
            var w := (a.x * a.y) * (j * b.x + b.y);
            Cong(c.p, u * u, c.d * (w * w))
  {
    var p, d, e := c.p, c.d, Cross(c, a, b);
    var m1, m2 := a.x * a.y, b.x * b.y;
    var u, q := j * a.x + e * a.y, j * b.x + b.y;
    var A, B, k := a.x * a.x, a.y * a.y, d * (m1 * m1);
    var s := e * (j * m1);
    SquareOfCombination(j, a.x, e, a.y);
    Combine4(p, u * u, e * e + k + 2 * s, A, j * j, -1, B - 1, e * e, 1, 1, B - A, 1 + k, 0, 0, 0);
    Regroup(d, m1, m2, j);
    var z := d * (m2 * m2) + 1 + 2 * (j * m2);
    assert e * e + k + 2 * s == k * z;
    RotatedSquare(p, j, b.x, b.y);
    Combine2(p, z, q * q, -1, b.y * b.y - b.x * b.x, 1 + d * (m2 * m2), -1, q * q, b.y * b.y - b.x * b.x + 2 * (j * m2));
    CongMul(p, k, k, z, q * q);
    Interchange(m1, q, m1, q);
    Associate(d, m1 * m1, q * q);
  }

  lemma ZeroFactor(c: Curve, k: int, v: int)
    requires Good(c) && 1 <= k < 5 && Cong(c.p, k * v, 0)
    ensures !NonZero(c.p, v)
  {
    SmallNonZero(c, k);
    ZeroProduct(c.p, k, v);
  }

  /** One of the two rotations of a point with y /= 0 is invertible. */
  lemma SomeRotationNonZero(c: Curve, b: Affine)
    requires Good(c) && NonZero(c.p, b.y)
    ensures NonZero(c.p, c.i * b.x + b.y) || NonZero(c.p, (0 - c.i) * b.x + b.y)
  {
    var plus, minus := c.i * b.x + b.y, (0 - c.i) * b.x + b.y;
    SmallRemainder(c.p, 0);
    if !NonZero(c.p, plus) && !NonZero(c.p, minus) {
      Combine2(c.p, 2 * b.y, 0, 1, plus, 0, 1, minus, 0);
      ZeroFactor(c, 2, b.y);
    }
  }

  /** The case of CrossNotUnit where the rotation by j is invertible. */
  lemma CrossNotUnitBy(c: Curve, j: int, a: Affine, b: Affine)
    requires Good(c) && OnCurve(c, a) && OnCurve(c, b) && IsRoot(c.p, j, -1)
    requires NonZero(c.p, a.x * a.y) && NonZero(c.p, j * b.x + b.y)
    ensures !Cong(c.p, Cross(c, a, b) * Cross(c, a, b), 1)
  {
    if Cong(c.p, Cross(c, a, b) * Cross(c, a, b), 1) {
      SquareRelation(c, j, a, b);
      NonZeroProduct(c.p, a.x * a.y, j * b.x + b.y);
      RootOfQuotient(c, j * a.x + Cross(c, a, b) * a.y, (a.x * a.y) * (j * b.x + b.y));
    }
  }

  lemma ZeroNotUnit(p: pos, e: int)
    requires p >= 2 && Cong(p, e, 0)
    ensures !Cong(p, e * e, 1)
  {
    SmallRemainder(p, 0);
    SmallRemainder(p, 1);
    CongMul(p, e, 0, e, 0);
  }

  /** For points of the curve, (d x1 x2 y1 y2)^2 is never 1. */
  lemma CrossNotUnit(c: Curve, a: Affine, b: Affine)
    requires Good(c) && OnCurve(c, a) && OnCurve(c, b)
    ensures !Cong(c.p, Cross(c, a, b) * Cross(c, a, b), 1)
  {
    if !NonZero(c.p, a.x * a.y) || !NonZero(c.p, b.y) {
      CrossVanishes(c, a, b);
      ZeroNotUnit(c.p, Cross(c, a, b));
    } else {
      SomeRotationNonZero(c, b);
      RootOfMinusOne(c.p, c.i);
      if NonZero(c.p, c.i * b.x + b.y) {
        CrossNotUnitBy(c, c.i, a, b);
      } else {
        Negation(c.i, c.i);
        assert (0 - c.i) * (0 - c.i) == c.i * c.i;
        CrossNotUnitBy(c, 0 - c.i, a, b);
      }
    }
  }

  lemma CrossVanishes(c: Curve, a: Affine, b: Affine)
    requires !NonZero(c.p, a.x * a.y) || !NonZero(c.p, b.y)
    ensures Cong(c.p, Cross(c, a, b), 0)
  {
    var p, m1, m2 := c.p, a.x * a.y, b.x * b.y;
    SmallRemainder(p, 0);
    if !NonZero(p, m1) {
      CongMul(p, m1, 0, m2, m2);
    } else {
      CongMul(p, b.x, b.x, b.y, 0);
      CongMul(p, m1, m1, m2, 0);
    }
    CongMul(p, c.d, c.d, m1 * m2, 0);
  }

  lemma DenominatorsNonZero(c: Curve, a: Affine, b: Affine)
    requires Good(c) && OnCurve(c, a) && OnCurve(c, b)
    ensures NonZero(c.p, 1 + Cross(c, a, b)) && NonZero(c.p, 1 - Cross(c, a, b))
  {
    var p, e := c.p, Cross(c, a, b);
    SmallRemainder(p, 0);
    CrossNotUnit(c, a, b);
    if !NonZero(p, 1 + e) {
      Combine1(p, e * e, 1, e - 1, 1 + e, 0);
    }
    if !NonZero(p, 1 - e) {
      Combine1(p, e * e, 1, -(e + 1), 1 - e, 0);
    }
  }

  // Closure.

  lemma ProductsOfCoordinates(x1: int, y1: int, x2: int, y2: int)
    ensures var n1, n2 := x1 * y2 + x2 * y1, y1 * y2 + x1 * x2;
            && n2 * n2 - n1 * n1 == (y1 * y1 - x1 * x1) * (y2 * y2 - x2 * x2)
            && n2 * n2 + n1 * n1 == (y1 * y1 + x1 * x1) * (y2 * y2 + x2 * x2) + 4 * ((x1 * y1) * (x2 * y2))
            && n1 * n2 == (x1 * y1) * (y2 * y2 + x2 * x2) + (x2 * y2) * (y1 * y1 + x1 * x1)
  {
    var A, B, C, D := x1 * x1, y1 * y1, x2 * x2, y2 * y2;
    var k := (x1 * y1) * (x2 * y2);
    SquareOfSum(x1 * y2, x2 * y1);
    SquareOfSum(y1 * y2, x1 * x2);
    Interchange(x1, y2, x1, y2);
    Interchange(x2, y1, x2, y1);
    Interchange(y1, y2, y1, y2);
    Interchange(x1, x2, x1, x2);
    assert (x1 * y2) * (x2 * y1) == k;
    assert (y1 * y2) * (x1 * x2) == k;
  }

  lemma SumOfSquares(x: int, y: int)
    ensures (y * y + x * x) * (y * y + x * x) == (y * y - x * x) * (y * y - x * x) + 4 * ((x * y) * (x * y))
  {
    Interchange(x, y, x, y);
  }

  lemma WeightedSquares(e: int, n1: int, n2: int)
    ensures ((1 + e) * n2) * ((1 + e) * n2) - ((1 - e) * n1) * ((1 - e) * n1)
         == (1 + e * e) * (n2 * n2 - n1 * n1) + (2 * e) * (n2 * n2 + n1 * n1)
  {
    Interchange(1 + e, n2, 1 + e, n2);
    Interchange(1 - e, n1, 1 - e, n1);
  }

  /** d (m1 s2 + m2 s1)^2 with the squares separated. */
  lemma SquareOfCross(d: int, m1: int, m2: int, s1: int, s2: int)
    ensures d * ((m1 * s2 + m2 * s1) * (m1 * s2 + m2 * s1))
         == (d * (m1 * m1)) * (s2 * s2) + (d * (m2 * m2)) * (s1 * s1) + (2 * (d * (m1 * m2))) * (s1 * s2)
  {
    SquareOfSum(m1 * s2, m2 * s1);
    Interchange(m1, s2, m1, s2);
    Interchange(m2, s1, m2, s1);
    Associate(d, m1 * m1, s2 * s2);
    Associate(d, m2 * m2, s1 * s1);
    assert (m1 * s2) * (m2 * s1) == (m1 * m2) * (s1 * s2);
    Associate(d, m1 * m2, s1 * s2);
  }

  lemma LastIdentity(u: int, v: int)
    ensures (1 + u * v) * ((1 + u) * (1 + v)) == (1 - u * v) * (1 - u * v) + u * ((1 + v) * (1 + v)) + v * ((1 + u) * (1 + u))
  {
  }

  lemma LastCongruence(p: pos, u: int, v: int, t1: int, t2: int)
    requires Cong(p, t1, 1 + u) && Cong(p, t2, 1 + v)
    ensures Cong(p, (1 + u * v) * (t1 * t2), (1 - u * v) * (1 - u * v) + u * (t2 * t2) + v * (t1 * t1))
  {
    LastIdentity(u, v);
    CongMul(p, t1, 1 + u, t2, 1 + v);
    CongMul(p, t1, 1 + u, t1, 1 + u);
    CongMul(p, t2, 1 + v, t2, 1 + v);
    CongMul(p, 1 + u * v, 1 + u * v, t1 * t2, (1 + u) * (1 + v));
    CongMul(p, u, u, t2 * t2, (1 + v) * (1 + v));
    CongMul(p, v, v, t1 * t1, (1 + u) * (1 + u));
    var k := (1 - u * v) * (1 - u * v);
    CongAdd(p, k, k, u * (t2 * t2), u * ((1 + v) * (1 + v)));
    CongAdd(p, k + u * (t2 * t2), k + u * ((1 + v) * (1 + v)), v * (t1 * t1), v * ((1 + u) * (1 + u)));
  }

  /** Both sides of the curve equation of the sum, cleared of denominators, in terms of each point's own equation. */
  lemma ClosureDifference(d: int, a: Affine, b: Affine)
    ensures var m1, m2, e := a.x * a.y, b.x * b.y, d * ((a.x * a.y) * (b.x * b.y));
            var t1, t2 := a.y * a.y - a.x * a.x, b.y * b.y - b.x * b.x;
            var u, v := d * (m1 * m1), d * (m2 * m2);
            var n1, n2 := a.x * b.y + b.x * a.y, a.y * b.y + a.x * b.x;
            ((1 + e) * n2) * ((1 + e) * n2) - ((1 - e) * n1) * ((1 - e) * n1) - d * ((n1 * n2) * (n1 * n2))
            == (1 + e * e) * (t1 * t2) - u * (t2 * t2) - v * (t1 * t1) && e * e == u * v
  {
    var m1, m2 := a.x * a.y, b.x * b.y;
    var e, u, v := d * (m1 * m2), d * (m1 * m1), d * (m2 * m2);
    var s1, s2 := a.y * a.y + a.x * a.x, b.y * b.y + b.x * b.x;
    var t1, t2 := a.y * a.y - a.x * a.x, b.y * b.y - b.x * b.x;
    ProductsOfCoordinates(a.x, a.y, b.x, b.y);
    WeightedSquares(e, a.x * b.y + b.x * a.y, a.y * b.y + a.x * b.x);
    SquareOfCross(d, m1, m2, s1, s2);
    SumOfSquares(a.x, a.y);
    SumOfSquares(b.x, b.y);
    Regroup(d, m1, m2, 0);
    ClosureBookkeeping(e, u, v, s1 * s2, m1 * m2, m1 * m1, m2 * m2, t1 * t1, t2 * t2, s1 * s1, s2 * s2);
  }

  /** The curve equation of the sum, cleared of denominators. */
  lemma ClosureNumerators(c: Curve, a: Affine, b: Affine)
    requires OnCurve(c, a) && OnCurve(c, b)
    ensures var e := Cross(c, a, b);
            var n1, n2 := a.x * b.y + b.x * a.y, a.y * b.y + a.x * b.x;
            Cong(c.p, ((1 + e) * n2) * ((1 + e) * n2) - ((1 - e) * n1) * ((1 - e) * n1),
                 ((1 + e) * (1 - e)) * ((1 + e) * (1 - e)) + c.d * ((n1 * n2) * (n1 * n2)))
  {
    var m1, m2, e := a.x * a.y, b.x * b.y, Cross(c, a, b);
    var u, v := c.d * (m1 * m1), c.d * (m2 * m2);
    var t1, t2 := a.y * a.y - a.x * a.x, b.y * b.y - b.x * b.x;
    ClosureDifference(c.d, a, b);
    LastCongruence(c.p, u, v, t1, t2);
    DifferenceOfSquares(1, e);
    Commute(1 + e, 1 - e, 0);
    var n1, n2 := a.x * b.y + b.x * a.y, a.y * b.y + a.x * b.x;
    Shift(c.p, (1 + u * v) * (t1 * t2), (1 - u * v) * (1 - u * v), u * (t2 * t2) + v * (t1 * t1),
          ((1 + e) * n2) * ((1 + e) * n2) - ((1 - e) * n1) * ((1 - e) * n1), c.d * ((n1 * n2) * (n1 * n2)));
  }

  lemma Shift(p: pos, w: int, k: int, r: int, f: int, g: int)
    requires Cong(p, w, k + r) && f - g == w - r
    ensures Cong(p, f, k + g)
  {
    Combine1(p, f, k + g, 1, w, k + r);
  }

  lemma ClosureBookkeeping(e: int, u: int, v: int, ss: int, mm: int, q1: int, q2: int, r1: int, r2: int, w1: int, w2: int)
    requires w1 == r1 + 4 * q1 && w2 == r2 + 4 * q2 && e * mm == u * q2 && e * mm == v * q1
    ensures (2 * e) * (ss + 4 * mm) - (u * w2 + v * w1 + (2 * e) * ss) == -(u * r2) - v * r1
  {
    assert u * w2 == u * r2 + 4 * (u * q2);
    assert v * w1 == v * r1 + 4 * (v * q1);
    assert (2 * e) * (ss + 4 * mm) == (2 * e) * ss + 8 * (e * mm);
  }

  /** The sum of two points of the curve is a point of the curve, reached without dividing by zero. */
  lemma SumOnCurve(c: Curve, a: Affine, b: Affine)
    requires Good(c) && OnCurve(c, a) && OnCurve(c, b)
    ensures OnCurve(c, Sum(c, a, b))
  {
    var p, e, r := c.p, Cross(c, a, b), Sum(c, a, b);
    var n1, n2 := a.x * b.y + b.x * a.y, a.y * b.y + a.x * b.x;
    var D1, D2 := 1 + e, 1 - e;
    DenominatorsNonZero(c, a, b);
    Quotient(p, n1, D1);
    Quotient(p, n2, D2);
    ClosureNumerators(c, a, b);
    NonZeroProduct(p, D1, D2);
    ClearDenominators(c, r.x, r.y, D1, D2, n1, n2);
  }

  lemma Scaled(c: Curve, D: int, x: int, y: int)
    ensures (D * D) * (y * y - x * x) == (D * y) * (D * y) - (D * x) * (D * x)
    ensures (D * D) * (1 + c.d * ((x * y) * (x * y))) == D * D + c.d * ((D * (x * y)) * (D * (x * y)))
  {
    Interchange(D, x, D, x);
    Interchange(D, y, D, y);
    Interchange(D, x * y, D, x * y);
    Distribute(D * D, c.d, (x * y) * (x * y));
  }

  lemma Distribute(k: int, d: int, m: int)
    ensures k * (1 + d * m) == k + d * (k * m)
  {
  }

  lemma PullOut(D1: int, D2: int, x: int, y: int)
    ensures D1 * (y * D2) == (D1 * D2) * y && D2 * (x * D1) == (D1 * D2) * x
    ensures (x * D1) * (y * D2) == (D1 * D2) * (x * y)
  {
    Interchange(x, D1, y, D2);
  }

  lemma CongSquare(p: pos, a: int, b: int)
    requires Cong(p, a, b)
    ensures Cong(p, a * a, b * b)
  {
    CongMul(p, a, b, a, b);
  }

  lemma ClearDenominators(c: Curve, x: int, y: int, D1: int, D2: int, n1: int, n2: int)
    requires IsPrime(c.p) && NonZero(c.p, D1 * D2) && Cong(c.p, x * D1, n1) && Cong(c.p, y * D2, n2)
    requires Cong(c.p, (D1 * n2) * (D1 * n2) - (D2 * n1) * (D2 * n1), (D1 * D2) * (D1 * D2) + c.d * ((n1 * n2) * (n1 * n2)))
    ensures Satisfies(c, x, y)
  {
    var p, D, n := c.p, D1 * D2, n1 * n2;
    PullOut(D1, D2, x, y);
    CongMul(p, D1, D1, y * D2, n2);
    CongMul(p, D2, D2, x * D1, n1);
    CongMul(p, x * D1, n1, y * D2, n2);
    ClearedEquation(c, D, x, y, D1 * n2, D2 * n1, n);
    NonZeroProduct(p, D, D);
    Cancel(p, D * D, y * y - x * x, 1 + c.d * ((x * y) * (x * y)));
  }

  lemma ClearedEquation(c: Curve, D: int, x: int, y: int, ny: int, nx: int, n: int)
    requires Cong(c.p, D * y, ny) && Cong(c.p, D * x, nx) && Cong(c.p, D * (x * y), n)
    requires Cong(c.p, ny * ny - nx * nx, D * D + c.d * (n * n))
    ensures Cong(c.p, (D * D) * (y * y - x * x), (D * D) * (1 + c.d * ((x * y) * (x * y))))
  {
    var p := c.p;
    CongSquare(p, D * y, ny);
    CongSquare(p, D * x, nx);
    CongSquare(p, D * (x * y), n);
    CongAdd(p, (D * y) * (D * y), ny * ny, (D * x) * (D * x), nx * nx);
    CongMul(p, c.d, c.d, (D * (x * y)) * (D * (x * y)), n * n);
    CongAdd(p, D * D, D * D, c.d * ((D * (x * y)) * (D * (x * y))), c.d * (n * n));
    Scaled(c, D, x, y);
  }

  // The other group axioms.

  lemma ZeroOnCurve(c: Curve)
    requires Good(c)
    ensures OnCurve(c, Zero)
  {
  }

  lemma SumCommutes(c: Curve, a: Affine, b: Affine)
    requires c.p >= 2
    ensures Sum(c, a, b) == Sum(c, b, a)
  {
    assert (a.x * a.y) * (b.x * b.y) == (b.x * b.y) * (a.x * a.y);
  }

  lemma ZeroIsNeutral(c: Curve, a: Affine)
    requires Good(c) && OnCurve(c, a)
    ensures Sum(c, a, Zero) == a && Sum(c, Zero, a) == a
  {
    SumCommutes(c, a, Zero);
    SmallNonZero(c, 1);
    QuotientUnique(c.p, a.x, 1, a.x);
    QuotientUnique(c.p, a.y, 1, a.y);
  }

  ghost predicate AssociatesAt(c: Curve, a1: Affine, a2: Affine, a3: Affine)
    requires c.p >= 2
  {
    OnCurve(c, a1) && OnCurve(c, a2) && OnCurve(c, a3) ==> Sum(c, Sum(c, a1, a2), a3) == Sum(c, a1, Sum(c, a2, a3))
  }

  /** The remaining axiom: addition on the curve is associative. */
  ghost predicate Associative(c: Curve)
    requires c.p >= 2
  {
    forall a1: Affine, a2: Affine, a3: Affine :: AssociatesAt(c, a1, a2, a3)
  }
}
