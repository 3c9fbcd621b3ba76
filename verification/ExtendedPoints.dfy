/**
 Points in extended coordinates (X : Y : Z : T), as flasher_release_signature.py
 adds and compares them.
 */
module ExtendedPoints {
  import opened Modular
  import opened Primes
  import opened Edwards

  /** (X : Y : Z : T), the tuple of four integers of the source. */
  datatype Point = Point(x: int, y: int, z: int, t: int)

  const Identity := Point(0, 1, 1, 0)

  function Add(c: Curve, a: Point, b: Point): Point {
    var p := c.p;
    var pa := ((a.y - a.x) * (b.y - b.x)) % p;
    var pb := ((a.y + a.x) * (b.y + b.x)) % p;
    var pc := (2 * a.t * b.t * c.d) % p;
    var pd := (2 * a.z * b.z) % p;
    var e, f, g, h := pb - pa, pd - pc, pd + pc, pb + pa;
    Point((e * f) % p, (g * h) % p, (f * g) % p, (e * h) % p)
  }

  predicate Equal(c: Curve, a: Point, b: Point) {
    (a.x * b.z - b.x * a.z) % c.p == 0 && (a.y * b.z - b.y * a.z) % c.p == 0
  }

  // Extended coordinates against affine ones.

  /** P is a form of the affine point a: X = xZ, Y = yZ, T = xyZ with Z invertible. */
  predicate Represents(c: Curve, P: Point, a: Affine) {
    && NonZero(c.p, P.z)
    && Cong(c.p, P.x, a.x * P.z)
    && Cong(c.p, P.y, a.y * P.z)
    && Cong(c.p, P.t, (a.x * a.y) * P.z)
  }

  lemma CrossProducts(x1: int, y1: int, x2: int, y2: int)
    ensures (y1 + x1) * (y2 + x2) - (y1 - x1) * (y2 - x2) == 2 * (x1 * y2 + x2 * y1)
    ensures (y1 + x1) * (y2 + x2) + (y1 - x1) * (y2 - x2) == 2 * (y1 * y2 + x1 * x2)
  {
  }

  lemma ScaledProduct(p: pos, u: int, u': int, z1: int, v: int, v': int, z2: int)
    requires Cong(p, u, u' * z1) && Cong(p, v, v' * z2)
    ensures Cong(p, u * v, (z1 * z2) * (u' * v'))
  {
    CongMul(p, u, u' * z1, v, v' * z2);
    Interchange(u', z1, v', z2);
  }

  /** The four intermediate values of Add are 2 Z1 Z2 times the affine numerators and denominators. */
  lemma AddNumerators(c: Curve, P: Point, Q: Point, a: Affine, b: Affine)
    requires Represents(c, P, a) && Represents(c, Q, b)
    ensures var k := 2 * (P.z * Q.z);
            && Cong(c.p, 2 * (P.x * Q.y + Q.x * P.y), k * (a.x * b.y + b.x * a.y))
            && Cong(c.p, 2 * (P.y * Q.y + P.x * Q.x), k * (a.y * b.y + a.x * b.x))
            && Cong(c.p, 2 * P.t * Q.t * c.d, k * Cross(c, a, b))
  {
    var p, z := c.p, P.z * Q.z;
    ScaledProduct(p, P.x, a.x, P.z, Q.y, b.y, Q.z);
    ScaledProduct(p, Q.x, b.x, Q.z, P.y, a.y, P.z);
    ScaledProduct(p, P.y, a.y, P.z, Q.y, b.y, Q.z);
    ScaledProduct(p, P.x, a.x, P.z, Q.x, b.x, Q.z);
    ScaledProduct(p, P.t, a.x * a.y, P.z, Q.t, b.x * b.y, Q.z);
    Combine2(p, 2 * (P.x * Q.y + Q.x * P.y), (2 * z) * (a.x * b.y + b.x * a.y),
             2, P.x * Q.y, z * (a.x * b.y), 2, Q.x * P.y, z * (b.x * a.y));
    Combine2(p, 2 * (P.y * Q.y + P.x * Q.x), (2 * z) * (a.y * b.y + a.x * b.x),
             2, P.y * Q.y, z * (a.y * b.y), 2, P.x * Q.x, z * (a.x * b.x));
    TripleProduct(z, (a.x * a.y) * (b.x * b.y), c.d);
    Combine1(p, 2 * P.t * Q.t * c.d, (2 * z) * Cross(c, a, b), 2 * c.d, P.t * Q.t, z * ((a.x * a.y) * (b.x * b.y)));
  }

  lemma TripleProduct(z: int, m: int, d: int)
    ensures (2 * z) * (d * m) == (2 * d) * (z * m)
  {
  }

  /** The end of Add: from E = k n1, H = k n2, F = k (1 - e), G = k (1 + e) to a form of (x, y). */
  lemma AddDenominators(c: Curve, k: int, e: int, r: Affine, n1: int, n2: int, E: int, F: int, G: int, H: int)
    requires IsPrime(c.p) && NonZero(c.p, k) && NonZero(c.p, 1 + e) && NonZero(c.p, 1 - e)
    requires Cong(c.p, r.x * (1 + e), n1) && Cong(c.p, r.y * (1 - e), n2)
    requires Cong(c.p, E, k * n1) && Cong(c.p, H, k * n2) && Cong(c.p, F, k * (1 - e)) && Cong(c.p, G, k * (1 + e))
    ensures Represents(c, Point(E * F, G * H, F * G, E * H), r)
  {
    var p := c.p;
    var D1, D2 := 1 + e, 1 - e;
    CongMul(p, k, k, r.x * D1, n1);
    CongMul(p, k, k, r.y * D2, n2);
    assert Cong(p, E, r.x * G) by {
      CongMul(p, r.x, r.x, G, k * D1);
      SwapLeft(k, r.x, D1);
    }
    assert Cong(p, H, r.y * F) by {
      CongMul(p, r.y, r.y, F, k * D2);
      SwapLeft(k, r.y, D2);
    }
    CongMul(p, E, r.x * G, F, F);
    CongMul(p, G, G, H, r.y * F);
    CongMul(p, E, r.x * G, H, r.y * F);
    FormProducts(r.x, r.y, F, G);
    NonZeroProduct(p, k, D1);
    NonZeroProduct(p, k, D2);
    NonZeroProduct(p, F, G);
  }

  lemma SwapLeft(k: int, x: int, D: int)
    ensures k * (x * D) == x * (k * D)
  {
  }

  lemma FormProducts(x: int, y: int, F: int, G: int)
    ensures (x * G) * F == x * (F * G) && G * (y * F) == y * (F * G) && (x * G) * (y * F) == (x * y) * (F * G)
  {
    Interchange(x, G, y, F);
  }

  lemma ReducedForm(c: Curve, P: Point, r: Affine)
    requires Represents(c, P, r)
    ensures Represents(c, Point(P.x % c.p, P.y % c.p, P.z % c.p, P.t % c.p), r)
  {
    var p := c.p;
    Reduce(p, P.x);
    Reduce(p, P.y);
    Reduce(p, P.z);
    Reduce(p, P.t);
    CongMul(p, r.x, r.x, P.z % p, P.z);
    CongMul(p, r.y, r.y, P.z % p, P.z);
    CongMul(p, r.x * r.y, r.x * r.y, P.z % p, P.z);
  }

  /** E, F, G, H of Add, before the final products. */
  lemma AddFactors(c: Curve, P: Point, Q: Point, a: Affine, b: Affine)
    requires Represents(c, P, a) && Represents(c, Q, b)
    ensures var p, e, k := c.p, Cross(c, a, b), 2 * (P.z * Q.z);
            var pa, pb := ((P.y - P.x) * (Q.y - Q.x)) % p, ((P.y + P.x) * (Q.y + Q.x)) % p;
            var pc, pd := (2 * P.t * Q.t * c.d) % p, (2 * P.z * Q.z) % p;
            && Cong(p, pb - pa, k * (a.x * b.y + b.x * a.y)) && Cong(p, pb + pa, k * (a.y * b.y + a.x * b.x))
            && Cong(p, pd - pc, k * (1 - e)) && Cong(p, pd + pc, k * (1 + e))
  {
    var k := 2 * (P.z * Q.z);
    AddNumerators(c, P, Q, a, b);
    CrossProducts(P.x, P.y, Q.x, Q.y);
    ReducedSumAndDifference(c.p, (P.y + P.x) * (Q.y + Q.x), (P.y - P.x) * (Q.y - Q.x));
    Associate(2, P.z, Q.z);
    ReducedSumAndDifference(c.p, k, 2 * P.t * Q.t * c.d);
    CongAdd(c.p, k, k, 2 * P.t * Q.t * c.d, k * Cross(c, a, b));
    OneMinus(k, Cross(c, a, b));
  }

  lemma ReducedSumAndDifference(p: pos, u: int, v: int)
    ensures Cong(p, u % p - v % p, u - v) && Cong(p, u % p + v % p, u + v)
  {
    Reduce(p, u);
    Reduce(p, v);
    CongAdd(p, u % p, u, v % p, v);
  }

  lemma OneMinus(k: int, e: int)
    ensures k * (1 - e) == k - k * e && k * (1 + e) == k + k * e
  {
  }

  lemma SumQuotients(c: Curve, a: Affine, b: Affine)
    requires Good(c) && OnCurve(c, a) && OnCurve(c, b)
    ensures var e, r := Cross(c, a, b), Sum(c, a, b);
            && NonZero(c.p, 1 + e) && Cong(c.p, r.x * (1 + e), a.x * b.y + b.x * a.y)
            && NonZero(c.p, 1 - e) && Cong(c.p, r.y * (1 - e), a.y * b.y + a.x * b.x)
  {
    DenominatorsNonZero(c, a, b);
    Quotient(c.p, a.x * b.y + b.x * a.y, 1 + Cross(c, a, b));
    Quotient(c.p, a.y * b.y + a.x * b.x, 1 - Cross(c, a, b));
  }

  /** Add computes the affine sum of section 5.1.4 of RFC 8032, and its result is again a form of a point of the curve. */
  lemma AddIsSum(c: Curve, P: Point, Q: Point, a: Affine, b: Affine)
    requires Good(c) && OnCurve(c, a) && OnCurve(c, b) && Represents(c, P, a) && Represents(c, Q, b)
    ensures Represents(c, Add(c, P, Q), Sum(c, a, b)) && OnCurve(c, Sum(c, a, b))
  {
    var p := c.p;
    var pa, pb := ((P.y - P.x) * (Q.y - Q.x)) % p, ((P.y + P.x) * (Q.y + Q.x)) % p;
    var pc, pd := (2 * P.t * Q.t * c.d) % p, (2 * P.z * Q.z) % p;
    var e, f, g, h := pb - pa, pd - pc, pd + pc, pb + pa;
    AddFactors(c, P, Q, a, b);
    SmallNonZero(c, 2);
    NonZeroProduct(p, P.z, Q.z);
    NonZeroProduct(p, 2, P.z * Q.z);
    SumQuotients(c, a, b);
    AddDenominators(c, 2 * (P.z * Q.z), Cross(c, a, b), Sum(c, a, b), a.x * b.y + b.x * a.y, a.y * b.y + a.x * b.x, e, f, g, h);
    ReducedForm(c, Point(e * f, g * h, f * g, e * h), Sum(c, a, b));
    SumOnCurve(c, a, b);
  }

  /** Equal decides equality of the affine points. */
  lemma EqualIsAffineEquality(c: Curve, P: Point, Q: Point, a: Affine, b: Affine)
    requires Good(c) && OnCurve(c, a) && OnCurve(c, b) && Represents(c, P, a) && Represents(c, Q, b)
    ensures Equal(c, P, Q) <==> a == b
  {
    CoordinateEqual(c.p, P.x, a.x, P.z, Q.x, b.x, Q.z);
    CoordinateEqual(c.p, P.y, a.y, P.z, Q.y, b.y, Q.z);
  }

  lemma CoordinateEqual(p: pos, u: int, u': int, z1: int, v: int, v': int, z2: int)
    requires IsPrime(p) && NonZero(p, z1) && NonZero(p, z2) && 0 <= u' < p && 0 <= v' < p
    requires Cong(p, u, u' * z1) && Cong(p, v, v' * z2)
    ensures (u * z2 - v * z1) % p == 0 <==> u' == v'
  {
    var z := z1 * z2;
    CongMul(p, u, u' * z1, z2, z2);
    CongMul(p, v, v' * z2, z1, z1);
    FactorOut(u', v', z1, z2);
    CongAdd(p, u * z2, z * u', v * z1, z * v');
    NonZeroProduct(p, z1, z2);
    SmallRemainder(p, 0);
    if (u * z2 - v * z1) % p == 0 {
      Combine1(p, z * u', z * v', 1, z * u' - z * v', 0);
      Cancel(p, z, u', v');
      CanonicalEqual(p, u', v');
    }
  }

  lemma FactorOut(u: int, v: int, z1: int, z2: int)
    ensures (u * z1) * z2 == (z1 * z2) * u && (v * z2) * z1 == (z1 * z2) * v
  {
  }

  // Extended coordinates on their own: X Y = Z T and -X^2 + Y^2 = Z^2 + d T^2.

  predicate Extended(c: Curve, P: Point) {
    && NonZero(c.p, P.z)
    && Cong(c.p, P.x * P.y, P.z * P.t)
    && Cong(c.p, P.y * P.y - P.x * P.x, P.z * P.z + c.d * (P.t * P.t))
  }

  function ToAffine(c: Curve, P: Point): Affine
    requires c.p >= 2
  {
    Affine(Div(c.p, P.x, P.z), Div(c.p, P.y, P.z))
  }

  /** The homogeneous curve equation of a form of (x, y) is Z^2 times the affine one. */
  lemma HomogeneousEquation(c: Curve, P: Point, a: Affine)
    requires Represents(c, P, a)
    ensures var m, zz := a.x * a.y, P.z * P.z;
            && Cong(c.p, P.y * P.y - P.x * P.x, zz * (a.y * a.y - a.x * a.x))
            && Cong(c.p, zz + c.d * (P.t * P.t), zz * (1 + c.d * (m * m)))
  {
    var p, m, zz := c.p, a.x * a.y, P.z * P.z;
    ScaledProduct(p, P.x, a.x, P.z, P.x, a.x, P.z);
    ScaledProduct(p, P.y, a.y, P.z, P.y, a.y, P.z);
    ScaledProduct(p, P.t, m, P.z, P.t, m, P.z);
    CongAdd(p, P.y * P.y, zz * (a.y * a.y), P.x * P.x, zz * (a.x * a.x));
    SpreadDifference(zz, a.y * a.y, a.x * a.x);
    CongMul(p, c.d, c.d, P.t * P.t, zz * (m * m));
    CongAdd(p, zz, zz, c.d * (P.t * P.t), c.d * (zz * (m * m)));
    Distribute(zz, c.d, m * m);
  }

  lemma SpreadDifference(z: int, u: int, v: int)
    ensures z * (u - v) == z * u - z * v
  {
  }

  lemma RepresentedIsExtended(c: Curve, P: Point, a: Affine)
    requires Good(c) && OnCurve(c, a) && Represents(c, P, a)
    ensures Extended(c, P) && ToAffine(c, P) == a
  {
    var p, m := c.p, a.x * a.y;
    ScaledProduct(p, P.x, a.x, P.z, P.y, a.y, P.z);
    CongMul(p, P.z, P.z, P.t, m * P.z);
    ZTimesT(P.z, m);
    HomogeneousEquation(c, P, a);
    CongMul(p, P.z * P.z, P.z * P.z, a.y * a.y - a.x * a.x, 1 + c.d * (m * m));
    QuotientUnique(p, P.x, P.z, a.x);
    QuotientUnique(p, P.y, P.z, a.y);
  }

  lemma ZTimesT(z: int, m: int)
    ensures z * (m * z) == (z * z) * m
  {
  }

  lemma ExtendedIsRepresented(c: Curve, P: Point)
    requires Good(c) && Extended(c, P)
    ensures OnCurve(c, ToAffine(c, P)) && Represents(c, P, ToAffine(c, P))
  {
    var p, a := c.p, ToAffine(c, P);
    var m := a.x * a.y;
    Quotient(p, P.x, P.z);
    Quotient(p, P.y, P.z);
    ScaledProduct(p, P.x, a.x, P.z, P.y, a.y, P.z);
    ZTimesT(P.z, m);
    Cancel(p, P.z, P.t, m * P.z);
    HomogeneousEquation(c, P, a);
    NonZeroProduct(p, P.z, P.z);
    Cancel(p, P.z * P.z, a.y * a.y - a.x * a.x, 1 + c.d * (m * m));
  }

  /** Add on extended points of the curve: closed, and the affine sum of section 5.1.4 of RFC 8032 when Z is divided out. */
  lemma AddCorrect(c: Curve, P: Point, Q: Point)
    requires Good(c) && Extended(c, P) && Extended(c, Q)
    ensures Extended(c, Add(c, P, Q))
    ensures ToAffine(c, Add(c, P, Q)) == Sum(c, ToAffine(c, P), ToAffine(c, Q))
  {
    ExtendedIsRepresented(c, P);
    ExtendedIsRepresented(c, Q);
    AddIsSum(c, P, Q, ToAffine(c, P), ToAffine(c, Q));
    RepresentedIsExtended(c, Add(c, P, Q), Sum(c, ToAffine(c, P), ToAffine(c, Q)));
  }

  lemma EqualIffSameAffine(c: Curve, P: Point, Q: Point)
    requires Good(c) && Extended(c, P) && Extended(c, Q)
    ensures Equal(c, P, Q) <==> ToAffine(c, P) == ToAffine(c, Q)
  {
    ExtendedIsRepresented(c, P);
    ExtendedIsRepresented(c, Q);
    EqualIsAffineEquality(c, P, Q, ToAffine(c, P), ToAffine(c, Q));
  }

  /** Equal is an equivalence on the points of the curve, and Add respects it. */
  lemma EqualIsCongruence(c: Curve, P: Point, Q: Point, R: Point, S: Point)
    requires Good(c) && Extended(c, P) && Extended(c, Q) && Extended(c, R) && Extended(c, S)
    ensures Equal(c, P, P)
    ensures Equal(c, P, Q) ==> Equal(c, Q, P)
    ensures Equal(c, P, Q) && Equal(c, Q, R) ==> Equal(c, P, R)
    ensures Equal(c, P, Q) && Equal(c, R, S) ==> Equal(c, Add(c, P, R), Add(c, Q, S))
    ensures Equal(c, Add(c, P, R), Add(c, R, P)) && Equal(c, Add(c, P, Identity), P)
  {
    EqualIffSameAffine(c, P, P);
    EqualIffSameAffine(c, P, Q);
    EqualIffSameAffine(c, Q, P);
    EqualIffSameAffine(c, Q, R);
    EqualIffSameAffine(c, P, R);
    EqualIffSameAffine(c, R, S);
    AddCorrect(c, P, R);
    AddCorrect(c, R, P);
    AddCorrect(c, Q, S);
    EqualIffSameAffine(c, Add(c, P, R), Add(c, Q, S));
    EqualIffSameAffine(c, Add(c, P, R), Add(c, R, P));
    SumCommutes(c, ToAffine(c, P), ToAffine(c, R));
    IdentityIsZero(c);
    RepresentedIsExtended(c, Identity, Zero);
    AddCorrect(c, P, Identity);
    ExtendedIsRepresented(c, P);
    ZeroIsNeutral(c, ToAffine(c, P));
    EqualIffSameAffine(c, Add(c, P, Identity), P);
  }

  lemma IdentityIsZero(c: Curve)
    requires Good(c)
    ensures Represents(c, Identity, Zero) && OnCurve(c, Zero)
  {
    SmallNonZero(c, 1);
  }
}
