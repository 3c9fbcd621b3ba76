/**
 ed25519_verify: what it accepts, that it accepts every signature made by
 section 5.1.6 of RFC 8032, and that the second half of a signature is unique.
 SHA-512 is a parameter: any function from byte strings to byte strings.
 */
module SignatureVerification {
  import opened Modular
  import opened Primes
  import opened Edwards
  import opened ExtendedPoints
  import opened ScalarMultiplication
  import opened PointDecoding
  import opened Bytes
  import opened Wrappers

  /** Curve, group order and base point. */
  datatype Group = Group(c: Curve, q: pos, base: Affine)

  /** The hypotheses on a group: a good curve whose addition associates, and q B = 0. */
  ghost predicate GoodGroup(g: Group) {
    && Good(g.c)
    && g.c.p <= TWO_255
    && g.q <= TWO_255
    && Associative(g.c)
    && OnCurve(g.c, g.base)
    && Times(g.c, g.q, g.base) == Zero
  }

  function Verification(g: Group, sha512: Data -> Data, public: Data, message: Data, signature: Data): bool
    requires g.c.p >= 2
  {
    if |public| != 32 || |signature| != 64 then false
    else
      var a, r := Decompress(g.c, public), Decompress(g.c, signature[..32]);
      var s := FromLE(signature[32..]);
      if a.None? || r.None? || s >= g.q then false
      else
        var h := FromLE(sha512(signature[..32] + public + message)) % g.q;
        Equal(g.c, Ladder(g.c, s, Identity, FromAffine(g.c, g.base)),
              Add(g.c, r.value, Ladder(g.c, h, Identity, a.value)))
  }

  /** Section 5.1.7 of RFC 8032 without the cofactor: S B = R + h A for the points the two encodings stand for, with S < q. */
  predicate EquationHolds(g: Group, h: nat, s: nat, r: Affine, a: Affine)
    requires g.c.p >= 2
  {
    s < g.q && Times(g.c, s, g.base) == Sum(g.c, r, Times(g.c, h, a))
  }

  predicate Encodes(c: Curve, a: Affine, data: Data) {
    OnCurve(c, a) && Encode(a) == data
  }

  /** Section 5.1.7: R, then S; the hash is that of R, the key and the message, in this order. */
  ghost predicate IsSignature(g: Group, sha512: Data -> Data, public: Data, message: Data, signature: Data)
    requires g.c.p >= 2
  {
    && |public| == 32 && |signature| == 64
    && exists a: Affine, r: Affine :: Encodes(g.c, a, public) && Encodes(g.c, r, signature[..32]) &&
         EquationHolds(g, FromLE(sha512(signature[..32] + public + message)) % g.q, FromLE(signature[32..]), r, a)
  }

  lemma EquationDecided(g: Group, h: nat, s: nat, r: Affine, a: Affine)
    requires GoodGroup(g) && OnCurve(g.c, r) && OnCurve(g.c, a)
    ensures Equal(g.c, Ladder(g.c, s, Identity, FromAffine(g.c, g.base)),
                  Add(g.c, FromAffine(g.c, r), Ladder(g.c, h, Identity, FromAffine(g.c, a))))
            <==> Times(g.c, s, g.base) == Sum(g.c, r, Times(g.c, h, a))
  {
    var B, R, A := FromAffine(g.c, g.base), FromAffine(g.c, r), FromAffine(g.c, a);
    FromAffineRepresents(g.c, g.base);
    FromAffineRepresents(g.c, r);
    FromAffineRepresents(g.c, a);
    MulIsTimes(g.c, s, B, g.base);
    MulIsTimes(g.c, h, A, a);
    var L := Ladder(g.c, h, Identity, A);
    AddIsSum(g.c, R, L, r, Times(g.c, h, a));
    EqualIsAffineEquality(g.c, Ladder(g.c, s, Identity, B), Add(g.c, R, L), Times(g.c, s, g.base), Sum(g.c, r, Times(g.c, h, a)));
  }

  /** The verifier accepts exactly the signatures. */
  lemma VerificationExact(g: Group, sha512: Data -> Data, public: Data, message: Data, signature: Data)
    requires GoodGroup(g)
    ensures Verification(g, sha512, public, message, signature) <==> IsSignature(g, sha512, public, message, signature)
  {
    if |public| == 32 && |signature| == 64 {
      var c, rb := g.c, signature[..32];
      var h, s := FromLE(sha512(rb + public + message)) % g.q, FromLE(signature[32..]);
      var da, dr := Decompress(c, public), Decompress(c, rb);
      if da.Some? && dr.Some? {
        EncodeDecode(c, public);
        EncodeDecode(c, rb);
        var a, r := Affine(da.value.x, da.value.y), Affine(dr.value.x, dr.value.y);
        EquationDecided(g, h, s, r, a);
        if Verification(g, sha512, public, message, signature) {
          assert Encodes(c, a, public) && Encodes(c, r, rb) && EquationHolds(g, h, s, r, a);
        }
      }
      if a: Affine, r: Affine :| Encodes(c, a, public) && Encodes(c, r, rb) && EquationHolds(g, h, s, r, a) {
        DecodeEncode(c, a);
        DecodeEncode(c, r);
        EquationDecided(g, h, s, r, a);
      }
    }
  }

  /** ed25519_verify */
  method Verify(g: Group, sha512: Data -> Data, public: Data, message: Data, signature: Data) returns (ok: bool)
    requires g.c.p >= 2
    ensures ok == Verification(g, sha512, public, message, signature)
    ensures GoodGroup(g) ==> (ok <==> IsSignature(g, sha512, public, message, signature))
  {
    ghost var accepted := Verification(g, sha512, public, message, signature);
    assert GoodGroup(g) ==> (accepted <==> IsSignature(g, sha512, public, message, signature)) by {
      if GoodGroup(g) {
        VerificationExact(g, sha512, public, message, signature);
      }
    }
    hide GoodGroup, IsSignature, Decompress, Equal, Add, Ladder, FromAffine, FromLE;
    if |public| != 32 || |signature| != 64 {
      return false;
    }
    var a, r := Decompress(g.c, public), Decompress(g.c, signature[..32]);
    var s := FromLE(signature[32..]);
    if a.None? || r.None? || s >= g.q {
      return false;
    }
    var h := FromLE(sha512(signature[..32] + public + message)) % g.q;
    var left := Mul(g.c, s, FromAffine(g.c, g.base));
    var right := Mul(g.c, h, a.value);
    ok := Equal(g.c, left, Add(g.c, r.value, right));
  }

  /** Section 5.1.6 of RFC 8032: public key A = a B, R = r B, h the hash of R, A and the message, S = (r + h a) mod q. */
  function PublicKey(g: Group, a: nat): Data
    requires g.c.p >= 2
  {
    Encode(Times(g.c, a, g.base))
  }

  function Sign(g: Group, sha512: Data -> Data, a: nat, r: nat, message: Data): Data
    requires g.c.p >= 2
  {
    var R := Encode(Times(g.c, r, g.base));
    var h := FromLE(sha512(R + PublicKey(g, a) + message)) % g.q;
    R + ToLE((r + h * a) % g.q, 32)
  }

  lemma SignedEquation(g: Group, a: nat, r: nat, h: nat)
    requires GoodGroup(g)
    ensures var A, R := Times(g.c, a, g.base), Times(g.c, r, g.base);
            r + h * a >= 0 && Times(g.c, (r + h * a) % g.q, g.base) == Sum(g.c, R, Times(g.c, h, A))
  {
    assert h * a >= 0;
    TimesModulo(g.c, g.q, r + h * a, g.base);
    TimesSum(g.c, r, h * a, g.base);
    TimesProduct(g.c, h, a, g.base);
  }

  /** A signature built from two curve points and an S that satisfies the equation is accepted. */
  lemma AssembledIsAccepted(g: Group, sha512: Data -> Data, A: Affine, R: Affine, s: nat, message: Data)
    requires GoodGroup(g) && OnCurve(g.c, A) && OnCurve(g.c, R)
    requires EquationHolds(g, FromLE(sha512(Encode(R) + Encode(A) + message)) % g.q, s, R, A)
    ensures Verification(g, sha512, Encode(A), message, Encode(R) + ToLE(s, 32))
  {
    var signature := Encode(R) + ToLE(s, 32);
    assert signature[..32] == Encode(R) && signature[32..] == ToLE(s, 32);
    Pow256Of32();
    FromToLE(s, 32);
    assert Encodes(g.c, A, Encode(A)) && Encodes(g.c, R, signature[..32]);
    VerificationExact(g, sha512, Encode(A), message, signature);
  }

  /** Every signature made by the scheme is accepted. */
  lemma SignedIsAccepted(g: Group, sha512: Data -> Data, a: nat, r: nat, message: Data)
    requires GoodGroup(g)
    ensures Verification(g, sha512, PublicKey(g, a), message, Sign(g, sha512, a, r, message))
  {
    hide Times, Encode, OnCurve, Verification, FromLE;
    TimesOnCurve(g.c, a, g.base);
    TimesOnCurve(g.c, r, g.base);
    var A, R := Times(g.c, a, g.base), Times(g.c, r, g.base);
    var h := FromLE(sha512(Encode(R) + Encode(A) + message)) % g.q;
    SignedEquation(g, a, r, h);
    AssembledIsAccepted(g, sha512, A, R, (r + h * a) % g.q, message);
  }

  // Uniqueness of S.

  function Negative(c: Curve, a: Affine): Affine {
    Affine((0 - a.x) % c.p, a.y)
  }

  lemma NegativeOnCurve(c: Curve, a: Affine)
    requires Good(c) && OnCurve(c, a)
    ensures OnCurve(c, Negative(c, a))
  {
    Reduce(c.p, 0 - a.x);
    CongSquare(c.p, Negative(c, a).x, 0 - a.x);
    Negation(a.x, 0);
    SatisfiesIffRoot(c, a.x, a.y);
    SatisfiesIffRoot(c, Negative(c, a).x, a.y);
  }

  /** For b = -a: x1 y2 + x2 y1 = 0, and y1 y2 + x1 x2 = 1 - d x1 x2 y1 y2. */
  lemma NegativeNumerators(c: Curve, a: Affine, v: int)
    requires OnCurve(c, a) && Cong(c.p, v, 0 - a.x)
    ensures Cong(c.p, a.x * a.y + v * a.y, 0)
    ensures Cong(c.p, a.y * a.y + a.x * v, 1 - c.d * ((a.x * a.y) * (v * a.y)))
  {
    var p, m, w := c.p, a.x * a.y, v * a.y;
    CongMul(p, v, 0 - a.x, a.y, a.y);
    CongMul(p, a.x, a.x, v, 0 - a.x);
    Negation(a.x, a.y);
    Negation(a.x, a.x);
    CongAdd(p, m, m, w, 0 - m);
    CongMul(p, m, m, w, 0 - m);
    Negation(m, m);
    CongMul(p, c.d, c.d, m * w, 0 - m * m);
    Negation(c.d, m * m);
    CongAdd(p, 1, 1, c.d * (m * w), 0 - c.d * (m * m));
    CongAdd(p, a.y * a.y, a.y * a.y, a.x * v, 0 - a.x * a.x);
  }

  lemma NegativeIsInverse(c: Curve, a: Affine)
    requires Good(c) && OnCurve(c, a)
    ensures OnCurve(c, Negative(c, a)) && Sum(c, a, Negative(c, a)) == Zero
  {
    var n := Negative(c, a);
    NegativeOnCurve(c, a);
    Reduce(c.p, 0 - a.x);
    NegativeNumerators(c, a, n.x);
    DenominatorsNonZero(c, a, n);
    QuotientUnique(c.p, a.x * n.y + n.x * a.y, 1 + Cross(c, a, n), 0);
    QuotientUnique(c.p, a.y * n.y + a.x * n.x, 1 - Cross(c, a, n), 1);
  }

  /** k B = 0 with 0 < k < q, q prime, forces B = 0. */
  lemma OrderIsPrime(g: Group, k: nat)
    requires GoodGroup(g) && IsPrime(g.q) && 0 < k < g.q && Times(g.c, k, g.base) == Zero
    ensures g.base == Zero
  {
    var u := InverseExists(g.q, k);
    Reduce(g.q, u);
    var v := u % g.q;
    CongMul(g.q, v, u, k, k);
    assert v * k >= 0;
    SmallRemainder(g.q, 1);
    TimesModulo(g.c, g.q, v * k, g.base);
    TimesProduct(g.c, v, k, g.base);
    TimesZero(g.c, v);
    TimesTwo(g.c, g.base);
  }

  lemma EqualMultiples(g: Group, s: nat, t: nat)
    requires GoodGroup(g) && IsPrime(g.q) && g.base != Zero && s <= t < g.q
    requires Times(g.c, s, g.base) == Times(g.c, t, g.base)
    ensures s == t
  {
    if s < t {
      var c, S, K := g.c, Times(g.c, s, g.base), Times(g.c, t - s, g.base);
      TimesOnCurve(c, s, g.base);
      TimesOnCurve(c, t - s, g.base);
      TimesSum(c, t - s, s, g.base);
      NegativeIsInverse(c, S);
      SumAssociates(c, K, S, Negative(c, S));
      ZeroIsNeutral(c, K);
      OrderIsPrime(g, t - s);
    }
  }

  /** With q prime, a message, a key and an R leave one S only: no accepted signature can be altered in its second half. */
  lemma SecondHalfUnique(g: Group, sha512: Data -> Data, public: Data, message: Data, signature: Data, other: Data)
    requires GoodGroup(g) && IsPrime(g.q) && g.base != Zero
    requires Verification(g, sha512, public, message, signature) && Verification(g, sha512, public, message, other)
    requires signature[..32] == other[..32]
    ensures signature == other
  {
    var c, rb := g.c, signature[..32];
    var h := FromLE(sha512(rb + public + message)) % g.q;
    var s, t := FromLE(signature[32..]), FromLE(other[32..]);
    EncodeDecode(c, public);
    EncodeDecode(c, rb);
    var da, dr := Decompress(c, public).value, Decompress(c, rb).value;
    EquationDecided(g, h, s, Affine(dr.x, dr.y), Affine(da.x, da.y));
    EquationDecided(g, h, t, Affine(dr.x, dr.y), Affine(da.x, da.y));
    if s <= t { EqualMultiples(g, s, t); } else { EqualMultiples(g, t, s); }
    ToFromLE(signature[32..]);
    ToFromLE(other[32..]);
    assert signature == signature[..32] + signature[32..] && other == other[..32] + other[32..];
  }
}
