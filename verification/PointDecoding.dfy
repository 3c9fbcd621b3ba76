/**
 Recovery of x from y and a sign bit, and the 32-byte encoding of points
 (sections 5.1.2 and 5.1.3 of RFC 8032).
 */
module PointDecoding {
  import opened Modular
  import opened Primes
  import opened Edwards
  import opened ExtendedPoints
  import opened Bytes
  import opened Wrappers

  /** The square root candidate and its correction by i, tried in the order of the source. */
  function SquareRoot(c: Curve, n: int): Option<int> {
    var p := c.p;
    var x0 := Pow(n, (p + 3) / 8) % p;
    var x := if (x0 * x0 - n) % p != 0 then (x0 * c.i) % p else x0;
    if (x * x - n) % p != 0 then None else Some(x)
  }

  function XSquared(c: Curve, y: int): int
    requires c.p >= 2
  {
    ((y * y - 1) * Inv(c.p, c.d * y * y + 1)) % c.p
  }

  function RecoverX(c: Curve, y: int, sign: int): Option<int>
    requires c.p >= 2
  {
    if y >= c.p then None
    else
      var x2 := XSquared(c, y);
      if x2 == 0 then (if sign != 0 then None else Some(0))
      else
        match SquareRoot(c, x2)
        case None => None
        case Some(x) => Some(if x % 2 != sign then c.p - x else x)
  }

  /** d y^2 + 1 never vanishes: -1/d is not a square. */
  lemma RecoveryDenominator(c: Curve, y: int)
    requires Good(c)
    ensures NonZero(c.p, c.d * y * y + 1)
  {
    var p, d := c.p, c.d;
    SmallRemainder(p, 0);
    Associate(d, y, y);
    if !NonZero(p, d * y * y + 1) {
      if NonZero(p, y) {
        RootOfMinusOne(p, c.i);
        Combine2(p, c.i * c.i, d * (y * y), 1, c.i * c.i, -1, -1, d * y * y + 1, 0);
        RootOfQuotient(c, c.i, y);
      } else {
        SmallNonZero(c, 1);
        CongMul(p, y, 0, y, 0);
        CongMul(p, d, d, y * y, 0);
        Combine2(p, 1, 0, 1, d * y * y + 1, 0, -1, d * (y * y), 0);
      }
    }
  }

  /** Solving the curve equation for x^2. */
  lemma SatisfiesIffRoot(c: Curve, x: int, y: int)
    requires Good(c)
    ensures Satisfies(c, x, y) <==> IsRoot(c.p, x, XSquared(c, y))
    ensures 0 <= XSquared(c, y) < c.p
  {
    var p, den, num, x2 := c.p, c.d * y * y + 1, y * y - 1, XSquared(c, y);
    RecoveryDenominator(c, y);
    Quotient(p, num, den);
    assert x2 == Div(p, num, den);
    var left, right := y * y - x * x, 1 + c.d * ((x * y) * (x * y));
    EquationRearranged(c.d, x, y);
    assert left - right == num - (x * x) * den;
    if Satisfies(c, x, y) {
      Combine1(p, (x * x) * den, num, -1, left, right);
      assert den * (x * x) == (x * x) * den && den * x2 == x2 * den;
      Cancel(p, den, x * x, x2);
    }
    if IsRoot(p, x, x2) {
      CongMul(p, x * x, x2, den, den);
      Combine1(p, left, right, -1, (x * x) * den, num);
    }
  }

  lemma EquationRearranged(d: int, x: int, y: int)
    ensures y * y - x * x - (1 + d * ((x * y) * (x * y))) == y * y - 1 - (x * x) * (d * y * y + 1)
  {
    Interchange(x, y, x, y);
    Associate(d, y, y);
    Commute(x * x, y * y, d);
    assert d * ((x * x) * (y * y)) == (x * x) * (d * (y * y));
  }

  // The square roots of a residue.

  lemma RootsAreOpposite(p: pos, x: int, r: int, n: int)
    requires IsPrime(p) && IsRoot(p, x, n) && IsRoot(p, r, n)
    ensures Cong(p, x, r) || Cong(p, x, 0 - r)
  {
    SmallRemainder(p, 0);
    DifferenceOfSquares(x, r);
    Combine1(p, (x - r) * (x + r), 0, 1, x * x, r * r);
    ZeroProduct(p, x - r, x + r);
    if !NonZero(p, x - r) {
      Combine1(p, x, r, 1, x - r, 0);
    } else {
      Combine1(p, x, 0 - r, 1, x + r, 0);
    }
  }

  lemma {:induction false} PowOfPow(b: int, m: nat, n: nat)
    ensures m * n >= 0 && Pow(Pow(b, m), n) == Pow(b, m * n)
  {
    assert m * n >= 0;
    if n != 0 {
      PowOfPow(b, m, n - 1);
      assert m * n == m + m * (n - 1);
      PowSum(b, m, m * (n - 1));
    }
  }

  /** If n = r^2 then the candidate x0 = n^((p+3)/8) satisfies x0^4 = n^2, by Fermat. */
  lemma CandidateFourth(c: Curve, n: int, r: int)
    requires Good(c) && NonZero(c.p, n) && IsRoot(c.p, r, n)
    ensures var x0 := Pow(n, (c.p + 3) / 8); Cong(c.p, (x0 * x0) * (x0 * x0), n * n)
  {
    var p := c.p;
    var k: int := (p + 3) / 8;
    var x0 := Pow(n, k);
    assert p == 8 * (k - 1) + 5;
    PowSum(n, k, k);
    PowSum(n, 2 * k, 2 * k);
    assert (x0 * x0) * (x0 * x0) == Pow(n, 4 * k);
    PowSum(n, 4 * k - 2, 2);
    assert Pow(n, 2) == n * n by { assert Pow(n, 1) == n; }
    var h := 4 * k - 2;
    PowCong(p, r * r, n, h);
    PowSum(r, h, h);
    PowOfProduct(r, r, h);
    assert Pow(r * r, h) == Pow(r, p - 1);
    RootNonZero(p, r, n);
    Fermat(p, r);
    CongMul(p, Pow(n, h), 1, n * n, n * n);
  }

  lemma RootNonZero(p: pos, r: int, n: int)
    requires p >= 2 && NonZero(p, n) && IsRoot(p, r, n)
    ensures NonZero(p, r)
  {
    SmallRemainder(p, 0);
    if !NonZero(p, r) {
      CongMul(p, r, 0, r, 0);
    }
  }

  /** u^2 = n^2 leaves u = n or u = -n. */
  lemma SignedSquare(p: pos, u: int, n: int)
    requires IsPrime(p) && Cong(p, u * u, n * n)
    ensures Cong(p, u, n) || Cong(p, u, 0 - n)
  {
    RootsAreOpposite(p, u, n, n * n);
  }

  lemma RootTest(p: pos, x: int, n: int)
    ensures (x * x - n) % p == 0 <==> IsRoot(p, x, n)
  {
    SmallRemainder(p, 0);
    if (x * x - n) % p == 0 {
      Combine1(p, x * x, n, 1, x * x - n, 0);
    }
    if IsRoot(p, x, n) {
      Combine1(p, x * x - n, 0, 1, x * x, n);
    }
  }

  lemma RotatedCandidate(c: Curve, x0: int, n: int)
    requires Good(c) && Cong(c.p, x0 * x0, 0 - n)
    ensures IsRoot(c.p, (x0 * c.i) % c.p, n)
  {
    var p, x := c.p, x0 * c.i;
    RootOfMinusOne(p, c.i);
    Interchange(x0, c.i, x0, c.i);
    CongMul(p, x0 * x0, 0 - n, c.i * c.i, -1);
    Reduce(p, x);
    CongSquare(p, x % p, x);
  }

  /** SquareRoot returns a canonical root exactly when there is one. */
  lemma SquareRootExact(c: Curve, n: int)
    requires Good(c) && NonZero(c.p, n)
    ensures SquareRoot(c, n).Some? <==> exists r :: IsRoot(c.p, r, n)
    ensures SquareRoot(c, n).Some? ==> 0 <= SquareRoot(c, n).value < c.p && IsRoot(c.p, SquareRoot(c, n).value, n)
  {
    var p := c.p;
    var w := Pow(n, (p + 3) / 8);
    var x0 := w % p;
    var x1 := (x0 * c.i) % p;
    Reduce(p, w);
    Reduce(p, x0 * c.i);
    RootTest(p, x0, n);
    RootTest(p, x1, n);
    if r :| IsRoot(p, r, n) {
      CandidateFourth(c, n, r);
      CongSquare(p, x0, w);
      SignedSquare(p, w * w, n);
      if !IsRoot(p, x0, n) {
        RotatedCandidate(c, x0, n);
      }
    }
  }

  /** Opposite parities: of x and p - x exactly one has a given parity, p being odd. */
  lemma OtherRoot(c: Curve, x: int, r: int, n: int)
    requires Good(c) && NonZero(c.p, n) && IsRoot(c.p, x, n) && IsRoot(c.p, r, n) && 0 <= x < c.p && 0 <= r < c.p
    ensures 0 < x && (r == x || r == c.p - x) && IsRoot(c.p, c.p - x, n) && (c.p - x) % 2 != x % 2
  {
    var p := c.p;
    RootNonZero(p, x, n);
    SmallRemainder(p, 0);
    OppositeSquare(p, x, n);
    OppositeParity(p, x);
    RootsAreOpposite(p, r, x, n);
    if Cong(p, r, x) {
      CanonicalEqual(p, r, x);
    } else {
      FromMultiple(p, p - x, 0 - x, 1);
      CanonicalEqual(p, r, p - x);
    }
  }

  lemma OppositeParity(p: int, x: int)
    requires p % 8 == 5
    ensures (p - x) % 2 != x % 2
  {
  }

  lemma OppositeSquare(p: pos, x: int, n: int)
    requires IsRoot(p, x, n)
    ensures IsRoot(p, p - x, n)
  {
    assert (p - x) * (p - x) - x * x == (p - 2 * x) * p;
    FromMultiple(p, (p - x) * (p - x), x * x, p - 2 * x);
  }

  lemma ZeroRoot(c: Curve, x: int)
    requires Good(c) && 0 <= x < c.p
    ensures IsRoot(c.p, x, 0) <==> x == 0
  {
    if IsRoot(c.p, x, 0) {
      ZeroProduct(c.p, x, x);
      SmallRemainder(c.p, x);
    }
  }

  /** The answer of RecoverX: a canonical x with the asked parity on the curve. */
  predicate Solves(c: Curve, y: int, sign: int, x: int) {
    y < c.p && 0 <= x < c.p && x % 2 == sign && Satisfies(c, x, y)
  }

  /**
   RecoverX returns x exactly when x solves the curve equation for y with the
   asked parity. So the solution it returns is the only one, and it returns
   None exactly when there is none.
   */
  lemma RecoverXExact(c: Curve, y: nat, sign: int, x: int)
    requires Good(c) && 0 <= sign <= 1
    ensures RecoverX(c, y, sign) == Some(x) <==> Solves(c, y, sign, x)
  {
    var p := c.p;
    if y < p && 0 <= x < p {
      SatisfiesIffRoot(c, x, y);
      var n := XSquared(c, y);
      SmallRemainder(p, n);
      if n == 0 {
        ZeroRoot(c, x);
      } else {
        SquareRootExact(c, n);
        if SquareRoot(c, n).Some? {
          var r := SquareRoot(c, n).value;
          OtherRoot(c, r, r, n);
          if IsRoot(p, x, n) {
            OtherRoot(c, r, x, n);
          }
        }
      }
    } else if y < p {
      SatisfiesIffRoot(c, x, y);
      var n := XSquared(c, y);
      SmallRemainder(p, n);
      if n != 0 {
        SquareRootExact(c, n);
        if SquareRoot(c, n).Some? {
          var r := SquareRoot(c, n).value;
          OtherRoot(c, r, r, n);
        }
      }
    }
  }

  // Decompression and the encoding it undoes.

  const TWO_255: int := 0x8000000000000000_0000000000000000_0000000000000000_0000000000000000

  /** _decompress: 255 bits of y, one sign bit. */
  function Decompress(c: Curve, data: Data): Option<Point>
    requires c.p >= 2
  {
    var n := FromLE(data);
    var sign, y := n / TWO_255, n % TWO_255;
    match RecoverX(c, y, sign)
    case None => None
    case Some(x) => Some(Point(x, y, 1, (x * y) % c.p))
  }

  /** The encoding of section 5.1.2: y with the parity of x in the top bit. */
  function Encode(a: Affine): Data {
    ToLE(a.y + TWO_255 * (a.x % 2), 32)
  }

  lemma Pow256Of32()
    ensures Pow256(32) == 2 * TWO_255
  {
    assert Pow256(8) == 0x1_0000000000000000;
    Pow256Sum(8, 8);
    Pow256Sum(16, 16);
  }

  lemma {:induction false} Pow256Sum(m: nat, n: nat)
    ensures Pow256(m + n) == Pow256(m) * Pow256(n)
  {
    if m != 0 {
      Pow256Sum(m - 1, n);
      Associate(256, Pow256(m - 1), Pow256(n));
    }
  }

  /** An affine point as Decompress writes it. */
  function FromAffine(c: Curve, a: Affine): Point {
    Point(a.x, a.y, 1, (a.x * a.y) % c.p)
  }

  lemma FromAffineRepresents(c: Curve, a: Affine)
    requires Good(c) && OnCurve(c, a)
    ensures Represents(c, FromAffine(c, a), a)
  {
    SmallNonZero(c, 1);
    Reduce(c.p, a.x * a.y);
  }

  lemma SignBit(y: nat, sign: int)
    requires y < TWO_255 && 0 <= sign <= 1
    ensures (y + TWO_255 * sign) / TWO_255 == sign && (y + TWO_255 * sign) % TWO_255 == y
  {
  }

  lemma SplitBits(n: nat)
    requires n < 2 * TWO_255
    ensures 0 <= n / TWO_255 <= 1 && 0 <= n % TWO_255 < TWO_255 && n == n % TWO_255 + TWO_255 * (n / TWO_255)
  {
  }

  /** decode(encode(a)) = a for every point of the curve. */
  lemma DecodeEncode(c: Curve, a: Affine)
    requires Good(c) && c.p <= TWO_255 && OnCurve(c, a)
    ensures Decompress(c, Encode(a)) == Some(FromAffine(c, a))
  {
    hide RecoverX, FromLE, ToLE, Pow256, Good, Satisfies;
    SignBit(a.y, a.x % 2);
    Pow256Of32();
    FromToLE(a.y + TWO_255 * (a.x % 2), 32);
    RecoverXExact(c, a.y, a.x % 2, a.x);
  }

  /** Every accepted 32-byte string decodes to a point of the curve, and encode(decode(b)) = b. */
  lemma EncodeDecode(c: Curve, b: Data)
    requires Good(c) && |b| == 32 && Decompress(c, b).Some?
    ensures var P := Decompress(c, b).value;
            P.x >= 0 && P.y >= 0 &&
            var a := Affine(P.x, P.y);
            OnCurve(c, a) && P == FromAffine(c, a) && Encode(a) == b
  {
    hide RecoverX, FromLE, ToLE, Pow256, Satisfies;
    var n, P := FromLE(b), Decompress(c, b).value;
    FromLEBound(b);
    Pow256Of32();
    SplitBits(n);
    RecoverXExact(c, n % TWO_255, n / TWO_255, P.x);
    ToFromLE(b);
  }
}
