/** The constants of flasher_release_signature.py, checked as far as arithmetic on literals can check them. */
module Ed25519Constants {
  import opened Modular
  import opened Primes
  import opened Edwards
  import opened PointDecoding
  import opened Ed25519NonSquare
  import opened Wrappers

  const Q: pos := 0x1000000000000000000000000000000014def9dea2f79cd65812631a5cf5d3ed
  const SQRT_M1: int := 0x2b8324804fc1df0b2b4d00993dfbd7a72f431806ad2fe478c4ee1b274a0ea0b0
  const GX: int := 0x216936d3cd6e53fec0a4e231fdd6dc5c692cc7609525a7b2c9562d608f25d51a
  const GY: int := 0x6666666666666666666666666666666666666666666666666666666666666658

  const ED25519 := Curve(P, D, SQRT_M1)
  const BASE := Affine(GX, GY)

  /**
   The numeric side of Good: p = 2^255 - 19 = 5 (mod 8), i^2 = -1, d = -121665/121666, q = 2^252 + ...,
   the base point has y = 4/5, even x, and lies on the curve. What is left open is
   that P is prime.
   */
  lemma ConstantsCheck()
    ensures P == TWO_255 - 19 && P % 8 == 5 && Q == TWO_255 / 8 + 27742317777372353535851937790883648493
    ensures IsRoot(P, SQRT_M1, -1) && Cong(P, 121666 * D, -121665)
    ensures Cong(P, 5 * GY, 4) && OnCurve(ED25519, BASE) && GX % 2 == 0
  {
  }

  /** _GY and _GX as the source computes them give this base point. */
  lemma BasePointRecovered()
    requires IsPrime(P)
    ensures Good(ED25519)
    ensures Div(P, 4, 5) == GY && RecoverX(ED25519, GY, 0) == Some(GX)
  {
    ConstantsCheck();
    DIsNotSquare();
    RootOfMinusOne(P, SQRT_M1);
    assert NonZero(P, 5);
    QuotientUnique(P, 4, 5, GY);
    RecoverXExact(ED25519, GY, 0, GX);
  }
}
