/**
 Number theory of a prime modulus: inverses, cancellation, Fermat's little
 theorem. Nothing is assumed here beyond the definition of a prime number.
 */
module Primes {
  import opened Modular

  predicate Divides(m: pos, n: int) {
    n % m == 0
  }

  ghost predicate IsPrime(p: int) {
    2 <= p && forall m: pos :: 2 <= m < p ==> !Divides(m, p)
  }

  /** Every residue 1..p-1 has an inverse, found by descending on remainders of p. */
  lemma {:induction false} InverseExists(p: pos, a: int) returns (u: int)
    requires IsPrime(p) && 0 < a < p
    ensures Cong(p, u * a, 1)
    decreases a
  {
    if a == 1 {
      u := 1;
    } else {
      var q, r := p / a, p % a;
      assert !Divides(a, p);
      var v := InverseExists(p, r);
      u := -(q * v);
      assert u * a - v * r == (-v) * p;
      FromMultiple(p, u * a, v * r, -v);
    }
  }

  /** Euclid's lemma: a prime that divides a product divides a factor. */
  lemma ZeroProduct(p: pos, a: int, b: int)
    requires IsPrime(p) && Cong(p, a * b, 0)
    ensures !NonZero(p, a) || !NonZero(p, b)
  {
    if NonZero(p, a) {
      Reduce(p, a);
      var u := InverseExists(p, a % p);
      CongMul(p, u, u, a % p, a);
      assert Cong(p, u * a, 1);
      Combine2(p, b, 0, -b, u * a, 1, u, a * b, 0);
      SmallRemainder(p, 0);
    }
  }

  lemma NonZeroProduct(p: pos, a: int, b: int)
    requires IsPrime(p) && NonZero(p, a) && NonZero(p, b)
    ensures NonZero(p, a * b)
  {
    SmallRemainder(p, 0);
    if !NonZero(p, a * b) {
      ZeroProduct(p, a, b);
    }
  }

  /** A factor that p does not divide may be cancelled. */
  lemma Cancel(p: pos, c: int, a: int, b: int)
    requires IsPrime(p) && NonZero(p, c) && Cong(p, c * a, c * b)
    ensures Cong(p, a, b)
  {
    Combine1(p, c * (a - b), 0, 1, c * a, c * b);
    ZeroProduct(p, c, a - b);
    SmallRemainder(p, 0);
    Combine1(p, a, b, 1, a - b, 0);
  }

  // Fermat's little theorem: multiplication by a permutes the residues 1..p-1.

  function Factorial(n: nat): int {
    if n == 0 then 1 else n * Factorial(n - 1)
  }

  /** The product of the elements of s below n. */
  ghost function ProductBelow(s: set<int>, n: nat): int {
    if n == 0 then 1 else (if n - 1 in s then n - 1 else 1) * ProductBelow(s, n - 1)
  }

  lemma {:induction false} ProductExcept(s: set<int>, n: nat, x: int)
    requires x !in s
    ensures ProductBelow(s + {x}, n) == (if 0 <= x < n then x else 1) * ProductBelow(s, n)
  {
    if n != 0 {
      ProductExcept(s, n - 1, x);
      var rest := ProductBelow(s, n - 1);
      if n - 1 == x {
        assert ProductBelow(s, n) == rest;
      } else {
        var f := if n - 1 in s then n - 1 else 1;
        var g := if 0 <= x < n then x else 1;
        assert f * (g * rest) == g * (f * rest);
      }
    }
  }

  lemma {:induction false} ProductOfRange(s: set<int>, n: nat)
    requires forall k :: 1 <= k <= n ==> k in s
    requires 0 !in s
    ensures ProductBelow(s, n + 1) == Factorial(n)
  {
    if n != 0 {
      ProductOfRange(s, n - 1);
    }
  }

  function Residue(p: pos, a: int, j: int): int {
    (a * j) % p
  }

  /** The residues of a, 2a, ..., ka. */
  function Multiples(p: pos, a: int, k: nat): set<int> {
    if k == 0 then {} else Multiples(p, a, k - 1) + {Residue(p, a, k)}
  }

  lemma {:induction false} MultiplesContain(p: pos, a: int, k: nat, r: int)
    ensures r in Multiples(p, a, k) <==> exists j :: 1 <= j <= k && r == Residue(p, a, j)
  {
    if k != 0 {
      MultiplesContain(p, a, k - 1, r);
    }
  }

  lemma MultiplesDistinct(p: pos, a: int, j: int, k: int)
    requires IsPrime(p) && NonZero(p, a) && 1 <= j < k < p
    ensures Residue(p, a, j) != Residue(p, a, k)
  {
    if Residue(p, a, j) == Residue(p, a, k) {
      Cancel(p, a, j, k);
      CanonicalEqual(p, j, k);
    }
  }

  lemma {:induction false} ProductOfMultiples(p: pos, a: int, k: nat)
    requires IsPrime(p) && NonZero(p, a) && k < p
    ensures Cong(p, ProductBelow(Multiples(p, a, k), p), Pow(a, k) * Factorial(k))
  {
    if k == 0 {
      EmptyProduct(p);
    } else {
      ProductOfMultiples(p, a, k - 1);
      var r, m := Residue(p, a, k), Multiples(p, a, k - 1);
      MultiplesContain(p, a, k - 1, r);
      forall j | 1 <= j <= k - 1 ensures r != Residue(p, a, j) {
        MultiplesDistinct(p, a, j, k);
      }
      ProductExcept(m, p, r);
      Reduce(p, a * k);
      CongMul(p, r, a * k, ProductBelow(m, p), Pow(a, k - 1) * Factorial(k - 1));
      Interchange(a, k, Pow(a, k - 1), Factorial(k - 1));
    }
  }

  lemma {:induction false} EmptyProduct(n: nat)
    ensures ProductBelow({}, n) == 1
  {
    if n != 0 { EmptyProduct(n - 1); }
  }

  lemma ResidueInRange(p: pos, a: int, j: int)
    requires IsPrime(p) && NonZero(p, a) && 1 <= j < p
    ensures 1 <= Residue(p, a, j) < p
  {
    SmallRemainder(p, j);
    NonZeroProduct(p, a, j);
  }

  lemma ResidueReached(p: pos, a: int, r: int) returns (j: int)
    requires IsPrime(p) && NonZero(p, a) && 1 <= r < p
    ensures 1 <= j < p && Residue(p, a, j) == r
  {
    var u := InverseExists(p, a % p);
    Reduce(p, a);
    CongMul(p, u, u, a % p, a);
    j := (u * r) % p;
    Reduce(p, u * r);
    CongMul(p, a, a, j, u * r);
    Combine1(p, a * (u * r), r, r, u * a, 1);
    SmallRemainder(p, r);
    if j == 0 { SmallRemainder(p, 0); }
  }

  lemma MultiplesArePermutation(p: pos, a: int, r: int)
    requires IsPrime(p) && NonZero(p, a)
    ensures r in Multiples(p, a, p - 1) <==> 1 <= r < p
  {
    MultiplesContain(p, a, p - 1, r);
    if 1 <= r < p {
      var j := ResidueReached(p, a, r);
    }
    if j :| 1 <= j <= p - 1 && r == Residue(p, a, j) {
      ResidueInRange(p, a, j);
    }
  }

  lemma {:induction false} FactorialNonZero(p: pos, n: nat)
    requires IsPrime(p) && n < p
    ensures NonZero(p, Factorial(n))
  {
    if n == 0 {
      SmallRemainder(p, 1);
    } else {
      FactorialNonZero(p, n - 1);
      SmallRemainder(p, n);
      NonZeroProduct(p, n, Factorial(n - 1));
    }
  }

  lemma Fermat(p: pos, a: int)
    requires IsPrime(p) && NonZero(p, a)
    ensures Cong(p, Pow(a, p - 1), 1)
  {
    var m, f := Multiples(p, a, p - 1), Factorial(p - 1);
    ProductOfMultiples(p, a, p - 1);
    forall r ensures r in m <==> 1 <= r < p {
      MultiplesArePermutation(p, a, r);
    }
    ProductOfRange(m, p - 1);
    FactorialNonZero(p, p - 1);
    assert f * Pow(a, p - 1) == Pow(a, p - 1) * f;
    Cancel(p, f, Pow(a, p - 1), 1);
  }

  // Inverses as the source computes them.

  function Inv(p: pos, x: int): int
    requires 2 <= p
  {
    Pow(x, p - 2) % p
  }

  lemma InverseOf(p: pos, x: int)
    requires IsPrime(p) && NonZero(p, x)
    ensures Cong(p, x * Inv(p, x), 1)
  {
    Fermat(p, x);
    Reduce(p, Pow(x, p - 2));
    CongMul(p, x, x, Inv(p, x), Pow(x, p - 2));
  }

  /** The quotient: the only canonical number whose product with the divisor is the dividend. */
  function Div(p: pos, n: int, m: int): nat
    requires 2 <= p
  {
    (n * Inv(p, m)) % p
  }

  lemma UnitFactor(p: pos, n: int, m: int, v: int)
    requires Cong(p, m * v, 1)
    ensures Cong(p, n * v * m, n)
  {
    Combine1(p, n * v * m, n, n, m * v, 1);
  }

  lemma Quotient(p: pos, n: int, m: int)
    requires IsPrime(p) && NonZero(p, m)
    ensures 0 <= Div(p, n, m) < p && Cong(p, Div(p, n, m) * m, n)
  {
    var v := Inv(p, m);
    InverseOf(p, m);
    UnitFactor(p, n, m, v);
    Reduce(p, n * v);
    CongMul(p, Div(p, n, m), n * v, m, m);
  }

  lemma QuotientUnique(p: pos, n: int, m: int, r: int)
    requires IsPrime(p) && NonZero(p, m) && 0 <= r < p && Cong(p, r * m, n)
    ensures r == Div(p, n, m)
  {
    Quotient(p, n, m);
    Cancel(p, m, r, Div(p, n, m));
    CanonicalEqual(p, r, Div(p, n, m));
  }
}
