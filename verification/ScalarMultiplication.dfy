/**
 Double-and-add: the loop of the source, its specification as a function, and
 the proof that it is repeated addition.
 */
module ScalarMultiplication {
  import opened Modular
  import opened Edwards
  import opened ExtendedPoints

  /** n-fold affine addition. */
  function Times(c: Curve, n: nat, a: Affine): Affine
    requires c.p >= 2
  {
    if n == 0 then Zero else Sum(c, Times(c, n - 1, a), a)
  }

  /** The same with Add, in extended coordinates: Identity + P + ... + P. */
  function RepeatedAdd(c: Curve, n: nat, P: Point): Point {
    if n == 0 then Identity else Add(c, RepeatedAdd(c, n - 1, P), P)
  }

  /** What the loop still has to do: `scalar` more times `point` on top of `result`. */
  function Ladder(c: Curve, scalar: int, result: Point, point: Point): Point
    decreases if scalar < 0 then 0 else scalar
  {
    if scalar <= 0 then result
    else Ladder(c, scalar / 2, if scalar % 2 == 1 then Add(c, result, point) else result, Add(c, point, point))
  }

  method Mul(c: Curve, scalar: int, point: Point) returns (result: Point)
    ensures result == Ladder(c, scalar, Identity, point)
  {
    result := Identity;
    var s, P := scalar, point;
    while s > 0
      invariant Ladder(c, s, result, P) == Ladder(c, scalar, Identity, point)
    {
      if s % 2 == 1 {
        result := Add(c, result, P);
      }
      P := Add(c, P, P);
      s := s / 2;
    }
  }

  lemma {:induction false} TimesOnCurve(c: Curve, n: nat, a: Affine)
    requires Good(c) && OnCurve(c, a)
    ensures OnCurve(c, Times(c, n, a))
  {
    if n == 0 {
      ZeroOnCurve(c);
    } else {
      TimesOnCurve(c, n - 1, a);
      SumOnCurve(c, Times(c, n - 1, a), a);
    }
  }

  lemma SumAssociates(c: Curve, a1: Affine, a2: Affine, a3: Affine)
    requires Good(c) && Associative(c) && OnCurve(c, a1) && OnCurve(c, a2) && OnCurve(c, a3)
    ensures Sum(c, Sum(c, a1, a2), a3) == Sum(c, a1, Sum(c, a2, a3))
  {
    assert AssociatesAt(c, a1, a2, a3);
  }

  lemma {:induction false} TimesSum(c: Curve, m: nat, n: nat, a: Affine)
    requires Good(c) && Associative(c) && OnCurve(c, a)
    ensures Times(c, m + n, a) == Sum(c, Times(c, m, a), Times(c, n, a))
  {
    TimesOnCurve(c, m, a);
    if n == 0 {
      ZeroIsNeutral(c, Times(c, m, a));
    } else {
      TimesSum(c, m, n - 1, a);
      TimesOnCurve(c, n - 1, a);
      SumAssociates(c, Times(c, m, a), Times(c, n - 1, a), a);
    }
  }

  lemma TimesTwo(c: Curve, a: Affine)
    requires Good(c) && OnCurve(c, a)
    ensures Times(c, 1, a) == a && Times(c, 2, a) == Sum(c, a, a)
  {
    ZeroIsNeutral(c, a);
    assert Times(c, 1, a) == Sum(c, Times(c, 0, a), a);
    assert Times(c, 2, a) == Sum(c, Times(c, 1, a), a);
  }

  lemma {:induction false} TimesProduct(c: Curve, m: nat, n: nat, a: Affine)
    requires Good(c) && Associative(c) && OnCurve(c, a)
    ensures Times(c, m, Times(c, n, a)) == Times(c, m * n, a)
  {
    if m != 0 {
      TimesProduct(c, m - 1, n, a);
      assert m * n == (m - 1) * n + n && (m - 1) * n >= 0;
      TimesSum(c, (m - 1) * n, n, a);
    }
  }

  lemma {:induction false} TimesZero(c: Curve, n: nat)
    requires Good(c)
    ensures Times(c, n, Zero) == Zero
  {
    if n != 0 {
      TimesZero(c, n - 1);
      ZeroOnCurve(c);
      ZeroIsNeutral(c, Zero);
    }
  }

  lemma TimesWholeTurns(c: Curve, q: pos, k: nat, r: nat, a: Affine)
    requires Good(c) && Associative(c) && OnCurve(c, a) && Times(c, q, a) == Zero
    ensures k * q >= 0 && Times(c, k * q + r, a) == Times(c, r, a)
  {
    assert k * q >= 0;
    TimesSum(c, k * q, r, a);
    TimesProduct(c, k, q, a);
    TimesZero(c, k);
    TimesOnCurve(c, r, a);
    ZeroIsNeutral(c, Times(c, r, a));
  }

  /** A point whose q-fold sum is the identity only sees scalars modulo q. */
  lemma TimesModulo(c: Curve, q: pos, n: nat, a: Affine)
    requires Good(c) && Associative(c) && OnCurve(c, a) && Times(c, q, a) == Zero
    ensures Times(c, n % q, a) == Times(c, n, a)
  {
    var k, r := WholeTurns(q, n);
    TimesWholeTurns(c, q, k, r, a);
  }

  lemma WholeTurns(q: pos, n: nat) returns (k: nat, r: nat)
    ensures k * q + r == n && r == n % q
  {
    k, r := n / q, n % q;
  }

  lemma OddTimes(c: Curve, k: nat, a: Affine)
    requires Good(c) && Associative(c) && OnCurve(c, a)
    ensures Times(c, 2 * k + 1, a) == Sum(c, a, Times(c, k * 2, a))
  {
    TimesTwo(c, a);
    TimesSum(c, 1, k * 2, a);
  }

  /** One turn of the loop keeps result + scalar * point. */
  lemma LadderStep(c: Curve, s: nat, b: Affine, a: Affine)
    requires Good(c) && Associative(c) && OnCurve(c, a) && OnCurve(c, b)
    ensures Sum(c, if s % 2 == 1 then Sum(c, b, a) else b, Times(c, s / 2, Sum(c, a, a))) == Sum(c, b, Times(c, s, a))
  {
    var k := s / 2;
    TimesTwo(c, a);
    TimesProduct(c, k, 2, a);
    if s % 2 == 1 {
      OddTimes(c, k, a);
      TimesOnCurve(c, k * 2, a);
      SumAssociates(c, b, a, Times(c, k * 2, a));
    }
  }

  lemma {:induction false} LadderIsTimes(c: Curve, scalar: nat, R: Point, P: Point, b: Affine, a: Affine)
    requires Good(c) && Associative(c) && OnCurve(c, a) && OnCurve(c, b) && Represents(c, R, b) && Represents(c, P, a)
    ensures Represents(c, Ladder(c, scalar, R, P), Sum(c, b, Times(c, scalar, a)))
    decreases scalar
  {
    if scalar == 0 {
      ZeroIsNeutral(c, b);
    } else {
      AddIsSum(c, R, P, b, a);
      AddIsSum(c, P, P, a, a);
      LadderStep(c, scalar, b, a);
      LadderIsTimes(c, scalar / 2, if scalar % 2 == 1 then Add(c, R, P) else R, Add(c, P, P),
                    if scalar % 2 == 1 then Sum(c, b, a) else b, Sum(c, a, a));
    }
  }

  /** The result of Mul is a form of the n-fold sum. */
  lemma MulIsTimes(c: Curve, n: nat, P: Point, a: Affine)
    requires Good(c) && Associative(c) && OnCurve(c, a) && Represents(c, P, a)
    ensures Represents(c, Ladder(c, n, Identity, P), Times(c, n, a)) && OnCurve(c, Times(c, n, a))
  {
    IdentityIsZero(c);
    LadderIsTimes(c, n, Identity, P, Zero, a);
    TimesOnCurve(c, n, a);
    ZeroIsNeutral(c, Times(c, n, a));
  }

  lemma {:induction false} RepeatedAddIsTimes(c: Curve, n: nat, P: Point, a: Affine)
    requires Good(c) && OnCurve(c, a) && Represents(c, P, a)
    ensures Represents(c, RepeatedAdd(c, n, P), Times(c, n, a))
  {
    if n == 0 {
      IdentityIsZero(c);
    } else {
      RepeatedAddIsTimes(c, n - 1, P, a);
      TimesOnCurve(c, n - 1, a);
      AddIsSum(c, RepeatedAdd(c, n - 1, P), P, Times(c, n - 1, a), a);
    }
  }

  /** Double-and-add equals adding the point n times, for every scalar and every extended point of the curve. */
  lemma MulIsRepeatedAdd(c: Curve, n: nat, P: Point)
    requires Good(c) && Associative(c) && Extended(c, P)
    ensures Equal(c, Ladder(c, n, Identity, P), RepeatedAdd(c, n, P))
  {
    var a := ToAffine(c, P);
    ExtendedIsRepresented(c, P);
    MulIsTimes(c, n, P, a);
    RepeatedAddIsTimes(c, n, P, a);
    EqualIsAffineEquality(c, Ladder(c, n, Identity, P), RepeatedAdd(c, n, P), Times(c, n, a), Times(c, n, a));
  }
}
