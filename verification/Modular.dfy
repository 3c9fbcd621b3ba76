/**
 Congruences modulo a positive integer. Every other module reasons about `%`
 through the lemmas of this one: an equation modulo p is proved by writing the
 difference of its sides as a combination of differences already known to be
 multiples of p.
 */
module Modular {

  type pos = x: int | 1 <= x witness 1

  /** a and b leave the same remainder modulo p. */
  predicate Cong(p: pos, a: int, b: int) {
    a % p == b % p
  }

  /** p does not divide a. */
  predicate NonZero(p: pos, a: int) {
    a % p != 0
  }

  lemma SmallMultiple(p: pos, r: int, m: int)
    requires r == m * p && 0 - p < r < p
    ensures m == 0 && r == 0
  {
    assert m >= 1 ==> m * p >= p;
    assert m <= -1 ==> m * p <= 0 - p;
  }

  lemma SmallRemainder(p: pos, a: int)
    requires 0 <= a < p
    ensures a % p == a
  {
    SmallMultiple(p, a - a % p, a / p);
  }

  lemma CongWitness(p: pos, a: int, b: int) returns (k: int)
    requires Cong(p, a, b)
    ensures a - b == k * p
  {
    k := a / p - b / p;
  }

  lemma FromMultiple(p: pos, a: int, b: int, k: int)
    requires a - b == k * p
    ensures Cong(p, a, b)
  {
    var m := k - a / p + b / p;
    assert a % p - b % p == m * p;
    SmallMultiple(p, a % p - b % p, m);
  }

  lemma Reduce(p: pos, a: int)
    ensures Cong(p, a % p, a) && 0 <= a % p < p
  {
    FromMultiple(p, a % p, a, -(a / p));
  }

  lemma Combine1(p: pos, f: int, g: int, c: int, a: int, b: int)
    requires Cong(p, a, b) && f - g == c * (a - b)
    ensures Cong(p, f, g)
  {
    var k := CongWitness(p, a, b);
    assert f - g == (c * k) * p;
    FromMultiple(p, f, g, c * k);
  }

  lemma Combine2(p: pos, f: int, g: int, c1: int, a1: int, b1: int, c2: int, a2: int, b2: int)
    requires Cong(p, a1, b1) && Cong(p, a2, b2) && f - g == c1 * (a1 - b1) + c2 * (a2 - b2)
    ensures Cong(p, f, g)
  {
    var k1 := CongWitness(p, a1, b1);
    var k2 := CongWitness(p, a2, b2);
    assert f - g == (c1 * k1 + c2 * k2) * p;
    FromMultiple(p, f, g, c1 * k1 + c2 * k2);
  }

  lemma Combine4(p: pos, f: int, g: int, c1: int, a1: int, b1: int, c2: int, a2: int, b2: int,
                 c3: int, a3: int, b3: int, c4: int, a4: int, b4: int)
    requires Cong(p, a1, b1) && Cong(p, a2, b2) && Cong(p, a3, b3) && Cong(p, a4, b4)
    requires f - g == c1 * (a1 - b1) + c2 * (a2 - b2) + c3 * (a3 - b3) + c4 * (a4 - b4)
    ensures Cong(p, f, g)
  {
    var h := g + c3 * (a3 - b3) + c4 * (a4 - b4);
    Combine2(p, f, h, c1, a1, b1, c2, a2, b2);
    Combine2(p, h, g, c3, a3, b3, c4, a4, b4);
  }

  lemma CongAdd(p: pos, a: int, a': int, b: int, b': int)
    requires Cong(p, a, a') && Cong(p, b, b')
    ensures Cong(p, a + b, a' + b') && Cong(p, a - b, a' - b')
  {
    Combine2(p, a + b, a' + b', 1, a, a', 1, b, b');
    Combine2(p, a - b, a' - b', 1, a, a', -1, b, b');
  }

  lemma CongMul(p: pos, a: int, a': int, b: int, b': int)
    requires Cong(p, a, a') && Cong(p, b, b')
    ensures Cong(p, a * b, a' * b')
  {
    Combine2(p, a * b, a' * b', b, a, a', a', b, b');
  }

  lemma CanonicalEqual(p: pos, a: int, b: int)
    requires 0 <= a < p && 0 <= b < p && Cong(p, a, b)
    ensures a == b
  {
    SmallRemainder(p, a);
    SmallRemainder(p, b);
  }

  lemma Interchange(a: int, b: int, u: int, v: int)
    ensures (a * b) * (u * v) == (a * u) * (b * v)
  {
  }

  lemma Associate(a: int, b: int, c: int)
    ensures a * (b * c) == (a * b) * c
  {
  }

  lemma Negation(x: int, y: int)
    ensures (0 - x) * (0 - x) == x * x && x * (0 - y) == 0 - x * y && (0 - x) * y == 0 - x * y
  {
  }

  lemma DifferenceOfSquares(x: int, y: int)
    ensures (x - y) * (x + y) == x * x - y * y
  {
  }

  // Powers.

  function Pow(b: int, e: nat): int {
    if e == 0 then 1 else b * Pow(b, e - 1)
  }

  lemma {:induction false} PowSum(b: int, m: nat, n: nat)
    ensures Pow(b, m + n) == Pow(b, m) * Pow(b, n)
  {
    if m != 0 {
      PowSum(b, m - 1, n);
      Associate(b, Pow(b, m - 1), Pow(b, n));
    }
  }

  lemma {:induction false} PowOfProduct(a: int, b: int, e: nat)
    ensures Pow(a * b, e) == Pow(a, e) * Pow(b, e)
  {
    if e != 0 {
      PowOfProduct(a, b, e - 1);
      Interchange(a, b, Pow(a, e - 1), Pow(b, e - 1));
    }
  }

  lemma {:induction false} PowCong(p: pos, a: int, b: int, e: nat)
    requires Cong(p, a, b)
    ensures Cong(p, Pow(a, e), Pow(b, e))
  {
    if e != 0 {
      PowCong(p, a, b, e - 1);
      CongMul(p, a, b, Pow(a, e - 1), Pow(b, e - 1));
    }
  }
}
