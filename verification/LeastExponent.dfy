/**
 What every universal exponent modulo a prime power is a multiple of.

 The units modulo p have to be counted (Lagrange's bound on roots); modulo higher powers one unit of large
 order suffices, 1 + p for odd p and 5 for powers of two.
 */
module LeastExponent {
  import opened DiscreteLog
  import opened Hensel
  import opened ModArith
  import opened Primes
  import opened QuadraticResidues

  /** Every unit a modulo n has a^lambda = 1. */
  ghost predicate IsUniversal(lambda: nat, n: int)
    requires n > 0
  {
    forall a | Coprime(a, n) :: Cong(Pow(a, lambda), 1, n)
  }

  /** The exponent the algorithm puts in for the factor p^e. */
  ghost function LocalExponent(p: nat, e: nat): int
    requires e >= 1
  {
    (p - 1) * Pow(p, (if p == 2 && e > 2 then e - 1 else e) - 1)
  }

  /** The exponents of 1 are closed under remainders, hence under greatest common divisors. */
  lemma {:induction false} GcdExponent(a: int, n: int, x: nat, y: nat)
    requires n > 0 && Coprime(a, n) && Cong(Pow(a, x), 1, n) && Cong(Pow(a, y), 1, n)
    ensures Cong(Pow(a, Gcd(x, y)), 1, n)
    decreases y
  {
    if y > 0 {
      var r := x % y;
      DivModEquation(x, y);
      QuotientNatural(x, y);
      DropMultiple(a, y, n, x / y, r);
      CongSymmetric(Pow(a, x), Pow(a, r), n);
      CongTransitive(Pow(a, r), Pow(a, x), 1, n);
      GcdExponent(a, n, y, r);
    }
  }

  // ----- modulo a prime

  ghost function Units(p: nat): (s: seq<int>)
    requires p > 0
    ensures |s| == p - 1 && forall i | 0 <= i < p - 1 :: s[i] == i + 1
  {
    seq(p - 1, i => i + 1)
  }

  lemma UnitsDiffer(i: int, j: int, p: nat)
    requires 0 <= i < j < p - 1
    ensures !Cong(i + 1, j + 1, p)
  {
    if Cong(i + 1, j + 1, p) {
      CongSmall(i + 1, j + 1, p);
    }
  }

  lemma SmallUnit(a: int, p: nat)
    requires IsPrime(p) && 0 < a < p
    ensures Coprime(a, p) && !Divides(p, a)
  {
    NoLargerDivisor(p, a);
    PrimeCoprime(p, a);
  }

  /** All p - 1 units are roots of x^g - 1. */
  lemma ManyRoots(g: nat, p: nat)
    requires IsPrime(p) && g > 0 && IsUniversal(g, p)
    ensures p - 1 <= g
  {
    var roots, c := Units(p), PowerMinusOne(g);
    forall i | 0 <= i < |roots|
      ensures Divides(p, Eval(c, roots[i]))
    {
      SmallUnit(i + 1, p);
      PowerMinusOneValue(g, i + 1);
    }
    forall i, j | 0 <= i < j < |roots|
      ensures !Cong(roots[i], roots[j], p)
    {
      UnitsDiffer(i, j, p);
    }
    NoLargerDivisor(p, 1);
    RootBound(roots, c, p);
  }

  lemma GcdIsUniversal(m: nat, p: nat)
    requires IsPrime(p) && IsUniversal(m, p)
    ensures IsUniversal(Gcd(m, p - 1), p)
  {
    forall a | Coprime(a, p)
      ensures Cong(Pow(a, Gcd(m, p - 1)), 1, p)
    {
      UnitNotDivisible(a, p);
      Fermat(a, p);
      GcdExponent(a, p, m, p - 1);
    }
  }

  lemma PrimeMultiple(m: nat, p: nat)
    requires IsPrime(p) && IsUniversal(m, p)
    ensures Divides(p - 1, m)
  {
    var g := Gcd(m, p - 1);
    GcdDivides(m, p - 1);
    GcdIsUniversal(m, p);
    ManyRoots(g, p);
    DividesBound(g, p - 1);
  }

  // ----- modulo higher powers: units close to 1

  /** n (n - 1) / 2 */
  ghost function Triangle(n: nat): nat {
    if n == 0 then 0 else Triangle(n - 1) + (n - 1)
  }

  lemma {:induction false} TriangleValue(n: nat)
    ensures 2 * Triangle(n) == n * (n - 1)
  {
    if n > 0 {
      TriangleValue(n - 1);
      assert n * (n - 1) == (n - 1) * (n - 2) + 2 * (n - 1);
    }
  }

  /** (1 + d)^n = 1 + n d + n (n - 1) / 2 d^2 + w d^3 for some integer w. */
  lemma {:induction false} CubicPower(d: int, n: nat) returns (w: int)
    ensures Pow(1 + d, n) == 1 + n * d + Triangle(n) * (d * d) + w * (d * d * d)
  {
    if n == 0 {
      w := 0;
    } else {
      var v := CubicPower(d, n - 1);
      w := Triangle(n - 1) + v + v * d;
      CubicStep(d, n - 1, Triangle(n - 1), v);
    }
  }

  lemma CubicStep(d: int, m: int, t: int, v: int)
    ensures (1 + d) * (1 + m * d + t * (d * d) + v * (d * d * d))
         == 1 + (m + 1) * d + (t + m) * (d * d) + (t + v + v * d) * (d * d * d)
  {
    assert d * (m * d) == m * (d * d) && d * (t * (d * d)) == t * (d * d * d);
    assert d * (v * (d * d * d)) == (v * d) * (d * d * d);
    assert (1 + d) * (1 + m * d + t * (d * d) + v * (d * d * d))
        == (1 + m * d + t * (d * d) + v * (d * d * d)) + (d + d * (m * d) + d * (t * (d * d)) + d * (v * (d * d * d)));
    assert (t + m) * (d * d) == t * (d * d) + m * (d * d);
    assert (t + v + v * d) * (d * d * d) == t * (d * d * d) + v * (d * d * d) + (v * d) * (d * d * d);
    assert (m + 1) * d == m * d + d;
  }

  /** x is 1 modulo p^i but not modulo p^(i+1). */
  ghost predicate IsNearOne(x: int, p: int, i: nat, c: int)
    requires p > 0
  {
    x == 1 + c * Pow(p, i) && !Divides(p, c)
  }

  /** The p-th power is one step closer to 1. */
  lemma NearOneStep(x: int, p: nat, i: nat, c: int) returns (c': int)
    requires IsPrime(p) && i >= 1 && (p == 2 ==> i >= 2) && IsNearOne(x, p, i, c)
    ensures IsNearOne(Pow(x, p), p, i + 1, c')
  {
    var z := Pow(p, i - 1);
    var w := CubicPower(c * Pow(p, i), p);
    var h := TriangleMultiple(p, i, z);
    // the second and third terms are multiples of p^(i+2)
    var k := c * c * h + w * (c * c * c) * z * z;
    c' := c + p * k;
    CollectTerms(c, p, z, Triangle(p), h, w);
    PowerSteps(p, i);
    StaysIndivisible(p, c, k);
  }

  lemma PowerSteps(p: nat, i: nat)
    requires i >= 1
    ensures Pow(p, i) == p * Pow(p, i - 1) && Pow(p, i + 1) == p * Pow(p, i)
  {
  }

  lemma StaysIndivisible(p: nat, c: int, k: int)
    requires p > 0 && !Divides(p, c)
    ensures !Divides(p, c + p * k)
  {
    if Divides(p, c + p * k) {
      MultipleDivides(p, p * k, k);
      DividesCombination(p, c + p * k, p * k, 1, -1);
    }
  }

  /** p divides p (p - 1) / 2 p^(i-1) under these conditions. */
  lemma TriangleMultiple(p: nat, i: nat, z: int) returns (h: int)
    requires IsPrime(p) && i >= 1 && (p == 2 ==> i >= 2) && z == Pow(p, i - 1)
    ensures Triangle(p) * z == p * h
  {
    TriangleValue(p);
    if p == 2 {
      h := Pow(2, i - 2);
      assert z == 2 * h;
    } else {
      OddPrime(p);
      var k := (p - 1) / 2;
      h := k * z;
      assert p * (2 * k) == 2 * (p * k);
      assert (p * k) * z == p * (k * z);
    }
  }

  lemma CollectTerms(c: int, p: int, z: int, t: int, h: int, w: int)
    requires t * z == p * h
    ensures var P := p * z; var d := c * P;
      1 + p * d + t * (d * d) + w * (d * d * d) == 1 + (c + p * (c * c * h + w * (c * c * c) * z * z)) * (p * P)
  {
    var P := p * z;
    var d := c * P;
    SquareTerm(c, p, z, t, h);
    CubeTerm(c, p, z, w);
    var u, v := c * c * h, w * (c * c * c) * z * z;
    assert p * d == c * (p * P);
    assert (c + p * (u + v)) * (p * P) == c * (p * P) + (p * u) * (p * P) + (p * v) * (p * P);
  }

  lemma SquareTerm(c: int, p: int, z: int, t: int, h: int)
    requires t * z == p * h
    ensures var P := p * z; var d := c * P; t * (d * d) == (p * (c * c * h)) * (p * P)
  {
    var P := p * z;
    var d := c * P;
    assert d * d == (c * c) * (P * P);
    assert P * P == z * (p * P);
    assert t * (d * d) == ((t * z) * (c * c)) * (p * P) by {
      assert t * ((c * c) * (z * (p * P))) == ((t * z) * (c * c)) * (p * P);
    }
    assert (p * h) * (c * c) == p * (c * c * h);
  }

  lemma CubeTerm(c: int, p: int, z: int, w: int)
    ensures var P := p * z; var d := c * P; w * (d * d * d) == (p * (w * (c * c * c) * z * z)) * (p * P)
  {
    var P := p * z;
    var d := c * P;
    assert d * d * d == (c * c * c) * (P * P * P);
    assert P * P * P == (p * z * z) * (p * P);
    var k := c * c * c;
    assert w * (k * ((p * z * z) * (p * P))) == (p * (w * k * z * z)) * (p * P);
  }

  lemma {:induction false} NearOnePower(x: int, p: nat, i: nat, c: int, t: nat) returns (c': int)
    requires IsPrime(p) && i >= 1 && (p == 2 && t > 0 ==> i >= 2) && IsNearOne(x, p, i, c)
    ensures Pow(p, t) > 0 && IsNearOne(Pow(x, Pow(p, t)), p, i + t, c')
    decreases t
  {
    PowPositive(p, t);
    if t == 0 {
      c' := c;
      assert Pow(x, 1) == x * Pow(x, 0);
    } else {
      var b := NearOnePower(x, p, i, c, t - 1);
      c' := NearOneStep(Pow(x, Pow(p, t - 1)), p, i + t - 1, b);
      PowMul(x, Pow(p, t - 1), p);
      assert Pow(p, t - 1) * p == Pow(p, t);
    }
  }

  /** A power of a unit near 1 that is 1 modulo a higher power of p has p in its exponent. */
  lemma ExponentHasPrime(y: int, p: nat, j: nat, c: int, q: nat)
    requires IsPrime(p) && j >= 1 && IsNearOne(y, p, j, c) && Pow(p, j + 1) > 0 && Cong(Pow(y, q), 1, Pow(p, j + 1))
    ensures Divides(p, q)
  {
    if q == 0 {
      MultipleDivides(p, 0, 0);
    } else {
      var P := Pow(p, j);
      PowPositive(p, j);
      var w := TaylorPower(1, c * P, q);
      PowOne(q);
      PowOne(q - 1);
      var s := CongWitness(Pow(y, q), 1, Pow(p, j + 1));
      var z := Pow(p, j - 1);
      var r := s - w * (c * c) * z;
      CancelPower(q, c, w, s, p, P, z);
      assert Pow(p, j + 1) == p * P;
      MultipleDivides(p, q * c, r);
      PrimeDividesProduct(p, q, c);
    }
  }

  lemma CancelPower(q: int, c: int, w: int, s: int, p: int, P: int, z: int)
    requires P > 0 && P == p * z
    requires q * 1 * (c * P) + w * ((c * P) * (c * P)) == s * (p * P)
    ensures q * c == (s - w * (c * c) * z) * p
  {
    var v := w * (c * c) * z;
    SquaredTerm(w, c, p, P, z);
    assert q * 1 * (c * P) == (q * c) * P;
    assert s * (p * P) == (s * p) * P;
    CancelRight(q * c, v * p, s * p, P);
    assert (s - v) * p == s * p - v * p;
  }

  lemma SquaredTerm(w: int, c: int, p: int, P: int, z: int)
    requires P == p * z
    ensures w * ((c * P) * (c * P)) == ((w * (c * c) * z) * p) * P
  {
    assert (c * P) * (c * P) == (c * c) * P * P;
    assert w * ((c * c) * P * P) == (w * (c * c) * P) * P;
    assert w * (c * c) * (p * z) == (w * (c * c) * z) * p;
  }

  lemma CancelRight(a: int, b: int, c: int, P: int)
    requires P > 0 && a * P + b * P == c * P
    ensures a == c - b
  {
    assert (a + b - c) * P == a * P + b * P - c * P;
  }

  lemma NaturalQuotient(u: int, q: int, m: nat)
    requires u > 0 && m == q * u
    ensures q >= 0
  {
    if q < 0 {
      MulAtLeast(q, u);
    }
  }

  /** A unit near 1 has order p^(e-i) modulo p^e. */
  lemma {:induction false} NearOneMultiple(x: int, p: nat, i: nat, c: int, e: nat, m: nat, t: nat)
    requires IsPrime(p) && i >= 1 && IsNearOne(x, p, i, c) && i + t <= e && (p == 2 && t > 1 ==> i >= 2)
    requires Pow(p, e) > 0 && Cong(Pow(x, m), 1, Pow(p, e))
    ensures Pow(p, t) > 0 && Divides(Pow(p, t), m)
    decreases t
  {
    PowPositive(p, t);
    if t == 0 {
      MultipleDivides(1, m, m);
    } else {
      NearOneMultiple(x, p, i, c, e, m, t - 1);
      var b := NearOnePower(x, p, i, c, t - 1);
      LowerModulus(Pow(x, m), p, i + t, e);
      OneMorePrime(x, p, i + t - 1, b, m, Pow(p, t - 1));
    }
  }

  /** If u divides m, x^u is near 1 and x^m is 1 one step further, then p u divides m. */
  lemma OneMorePrime(x: int, p: nat, j: nat, b: int, m: nat, u: nat)
    requires IsPrime(p) && j >= 1 && u > 0 && Divides(u, m) && IsNearOne(Pow(x, u), p, j, b)
    requires Pow(p, j + 1) > 0 && Cong(Pow(x, m), 1, Pow(p, j + 1))
    ensures p * u > 0 && Divides(p * u, m)
  {
    var q := Quotient(u, m);
    NaturalQuotient(u, q, m);
    PowerOfPower(x, u, q, m);
    ExponentHasPrime(Pow(x, u), p, j, b, q);
    MultipleOfBoth(p, u, q, m);
  }

  lemma PowerOfPower(x: int, u: nat, q: nat, m: nat)
    requires m == q * u
    ensures Pow(x, m) == Pow(Pow(x, u), q)
  {
    PowMul(x, u, q);
    assert u * q == m;
  }

  lemma MultipleOfBoth(p: nat, u: nat, q: int, m: int)
    requires p > 0 && u > 0 && Divides(p, q) && m == q * u
    ensures p * u > 0 && Divides(p * u, m)
  {
    var r := Quotient(p, q);
    MulAtLeast(p, u);
    RegroupMultiple(r, p, u, q, m);
    MultipleDivides(p * u, m, r);
  }

  lemma RegroupMultiple(r: int, p: int, u: int, q: int, m: int)
    requires q == r * p && m == q * u
    ensures m == r * (p * u)
  {
  }

  lemma LowerModulus(x: int, p: nat, j: nat, e: nat)
    requires p >= 2 && j <= e && Pow(p, e) > 0 && Cong(x, 1, Pow(p, e))
    ensures Pow(p, j) > 0 && Cong(x, 1, Pow(p, j))
  {
    PowPositive(p, j);
    PowAdd(p, e - j, j);
    MultipleDivides(Pow(p, j), Pow(p, e), Pow(p, e - j));
    CongModulus(x, 1, Pow(p, j), Pow(p, e));
  }

  lemma NearOneIsUnit(p: nat, k: int, e: nat)
    requires p >= 2
    ensures Coprime(1 + k * p, Pow(p, e))
  {
    assert 1 * (1 + k * p) + (-k) * p == 1;
    CoprimeFromBezout(1 + k * p, p, 1, -k);
    CoprimeSymmetric(1 + k * p, p);
    CoprimePow(p, e, 1 + k * p);
    CoprimeSymmetric(Pow(p, e), 1 + k * p);
  }

  // ----- modulo a prime power

  lemma UniversalModPrime(m: nat, p: nat, e: nat)
    requires IsPrime(p) && e >= 1 && Pow(p, e) > 0 && IsUniversal(m, Pow(p, e))
    ensures IsUniversal(m, p)
  {
    assert Pow(p, 1) == p * Pow(p, 0);
    forall a | Coprime(a, p)
      ensures Cong(Pow(a, m), 1, p)
    {
      CoprimeSymmetric(a, p);
      CoprimePow(p, e, a);
      CoprimeSymmetric(Pow(p, e), a);
      LowerModulus(Pow(a, m), p, 1, e);
    }
  }

  lemma CoprimeMultiple(a: int, b: int, m: int)
    requires a > 0 && b > 0 && Coprime(a, b) && Divides(a, m) && Divides(b, m)
    ensures a * b > 0 && Divides(a * b, m)
  {
    MulAtLeast(a, b);
    var q := Quotient(a, m);
    CoprimeSymmetric(a, b);
    assert q * a == a * q;
    EuclidLemma(b, a, q);
    var r := Quotient(b, q);
    assert (r * b) * a == r * (a * b);
    MultipleDivides(a * b, m, r);
  }

  lemma OddMultiple(m: nat, p: nat, e: nat)
    requires IsPrime(p) && p > 2 && e >= 1 && Pow(p, e) > 0 && IsUniversal(m, Pow(p, e))
    ensures LocalExponent(p, e) > 0 && Divides(LocalExponent(p, e), m)
  {
    UniversalModPrime(m, p, e);
    PrimeMultiple(m, p);
    NearOneIsUnit(p, 1, e);
    assert Pow(p, 1) == p * Pow(p, 0);
    NoLargerDivisor(p, 1);
    NearOneMultiple(1 + p, p, 1, 1, e, m, e - 1);
    assert 1 * p + (-1) * (p - 1) == 1;
    CoprimeFromBezout(p, p - 1, 1, -1);
    CoprimePow(p, e - 1, p - 1);
    CoprimeSymmetric(Pow(p, e - 1), p - 1);
    CoprimeMultiple(p - 1, Pow(p, e - 1), m);
  }

  lemma TwoMultiple(m: nat, e: nat)
    requires IsPrime(2) && e >= 1 && Pow(2, e) > 0 && IsUniversal(m, Pow(2, e))
    ensures LocalExponent(2, e) > 0 && Divides(LocalExponent(2, e), m)
  {
    assert Pow(2, 1) == 2 * Pow(2, 0) && Pow(2, 2) == 2 * Pow(2, 1);
    NoLargerDivisor(2, 1);
    if e <= 2 {
      NearOneIsUnit(2, 1, e);
      NearOneMultiple(3, 2, 1, 1, e, m, e - 1);
    } else {
      NearOneIsUnit(2, 2, e);
      NearOneMultiple(5, 2, 2, 1, e, m, e - 2);
    }
  }

  /** Every universal exponent modulo p^e is a multiple of the one the algorithm puts in. */
  lemma LocalMultiple(m: nat, p: nat, e: nat)
    requires IsPrime(p) && e >= 1 && Pow(p, e) > 0 && IsUniversal(m, Pow(p, e))
    ensures LocalExponent(p, e) > 0 && Divides(LocalExponent(p, e), m)
  {
    if p == 2 {
      TwoMultiple(m, e);
    } else {
      OddMultiple(m, p, e);
    }
  }
}
