/** carmichael and multiplicative_order of src/ntheory.cpp. */
module Carmichael {
  import opened ChineseRemainder
  import opened Common
  import opened DiscreteLog
  import opened Factorization
  import opened Hensel
  import opened LeastExponent
  import opened ModArith
  import opened PrimeSieve
  import opened Primes
  import opened TonelliShanks

  // ----- exponents for prime powers

  /** Raising to the p-th power turns 1 modulo p^i into 1 modulo p^(i+1). */
  lemma LiftOne(x: int, p: int, i: nat)
    requires p >= 2 && i >= 1 && Pow(p, i) > 0 && Pow(p, i + 1) > 0 && Cong(x, 1, Pow(p, i))
    ensures Cong(Pow(x, p), 1, Pow(p, i + 1))
  {
    var P := Pow(p, i);
    var c := CongWitness(x, 1, P);
    var d := c * P;
    var w := TaylorPower(1, d, p);
    PowOne(p);
    PowOne(p - 1);
    // 1 + p d + w d^2, and p^(i+1) divides both p d and d^2
    assert Pow(p, i + 1) == p * P && P == p * Pow(p, i - 1);
    LiftTerms(p, c, Pow(p, i - 1), w);
    CongBy(Pow(x, p), 1, p * P, c + w * c * c * Pow(p, i - 1));
  }

  lemma LiftTerms(p: int, c: int, z: int, w: int)
    ensures var P := p * z; var d := c * P; p * 1 * d + w * (d * d) == (c + w * c * c * z) * (p * P)
  {
    var P := p * z;
    var d := c * P;
    assert d * d == (c * c * z) * (p * P);
    assert w * ((c * c * z) * (p * P)) == (w * c * c * z) * (p * P);
    assert p * 1 * d == c * (p * P);
  }

  /** Euler's theorem for prime powers. */
  lemma {:induction false} EulerPrimePower(a: int, p: int, e: nat)
    requires IsPrime(p) && e >= 1 && Coprime(a, p)
    ensures Pow(p, e) > 0 && Pow(p, e - 1) > 0 && (p - 1) * Pow(p, e - 1) >= 0
    ensures Cong(Pow(a, (p - 1) * Pow(p, e - 1)), 1, Pow(p, e))
    decreases e
  {
    PowPositive(p, e);
    PowPositive(p, e - 1);
    NonNegativeProduct(p - 1, Pow(p, e - 1));
    if e == 1 {
      UnitNotDivisible(a, p);
      Fermat(a, p);
      assert Pow(p, 1) == p * Pow(p, 0) == p;
    } else {
      EulerPrimePower(a, p, e - 1);
      var k := (p - 1) * Pow(p, e - 2);
      LiftOne(Pow(a, k), p, e - 1);
      ExponentStep(p, Pow(p, e - 2), Pow(p, e - 1), k);
      PowMul(a, k, p);
    }
  }

  lemma ExponentStep(p: int, x: int, y: int, k: int)
    requires y == p * x && k == (p - 1) * x
    ensures k * p == (p - 1) * y
  {
    assert ((p - 1) * x) * p == (p - 1) * (p * x);
  }

  /** For powers of two from 8 on, half of that exponent suffices. */
  lemma {:induction false} OddPower(a: int, e: nat)
    requires e >= 3 && Coprime(a, 2)
    ensures Two(e - 2) >= 0 && Pow(2, e) > 0
    ensures Cong(Pow(a, Two(e - 2)), 1, Pow(2, e))
    decreases e
  {
    PowPositive(2, e);
    if e == 3 {
      SquareModEight(a);
    } else {
      OddPower(a, e - 1);
      LiftOne(Pow(a, Two(e - 3)), 2, e - 1);
      TwoStep(e - 2);
      PowMul(a, Two(e - 3), 2);
    }
  }

  lemma SquareModEight(a: int)
    requires Coprime(a, 2)
    ensures Pow(2, 3) == 8 && Two(1) == 2 && Cong(Pow(a, Two(1)), 1, 8)
  {
    assert Pow(2, 1) == 2 * Pow(2, 0) && Pow(2, 2) == 2 * Pow(2, 1) && Pow(2, 3) == 2 * Pow(2, 2);
    assert Pow(a, 2) == a * a by {
      assert Pow(a, 1) == a * Pow(a, 0);
    }
    if a % 2 == 0 {
      MultipleDivides(2, 2, 1);
      GcdGreatest(a, 2, 2);
      DividesBound(2, 1);
      assert false;
    }
    var h := a / 2;
    assert a == 2 * h + 1;
    assert a * a == 1 + 4 * (h * (h + 1)) by {
      assert (2 * h + 1) * (2 * h + 1) == 4 * (h * h) + 4 * h + 1;
    }
    ConsecutiveEven(h);
    var q := Quotient(2, h * (h + 1));
    CongBy(a * a, 1, 8, q);
  }

  lemma ConsecutiveEven(h: int)
    ensures Divides(2, h * (h + 1))
  {
    var k := h / 2;
    if h % 2 == 0 {
      EvenProduct(h, k, h + 1);
    } else {
      EvenProduct(h + 1, k + 1, h);
      assert (h + 1) * h == h * (h + 1);
    }
  }

  lemma EvenProduct(x: int, k: int, y: int)
    requires x == 2 * k
    ensures Divides(2, x * y)
  {
    assert x * y == (k * y) * 2;
    MultipleDivides(2, x * y, k * y);
  }

  lemma LocalUniversal(a: int, p: nat, e: nat)
    requires IsPrime(p) && e >= 1 && Coprime(a, p)
    ensures LocalExponent(p, e) > 0 && Pow(p, e) > 0
    ensures Cong(Pow(a, LocalExponent(p, e)), 1, Pow(p, e))
  {
    EulerPrimePower(a, p, e);
    if p == 2 && e > 2 {
      OddPower(a, e);
    }
    var m := (if p == 2 && e > 2 then e - 1 else e) - 1;
    PowPositive(p, m);
    MulAtLeast(p - 1, Pow(p, m));
  }

  // ----- universal exponents

  /** lambda is a multiple of the exponent of each of the first i prime powers. */
  ghost predicate CoversFirst(lambda: int, fs: Factors, i: nat)
    requires i <= |fs| && IsAscending(fs)
  {
    && lambda > 0
    && forall j | 0 <= j < i ::
      LocalExponent(fs[j].p, fs[j].e) > 0 && Divides(LocalExponent(fs[j].p, fs[j].e), lambda)
  }

  lemma CoversNext(lambda: int, l: int, fs: Factors, i: nat, m: nat)
    requires IsAscending(fs) && i < |fs| && CoversFirst(lambda, fs, i)
    requires l > 0 && Divides(lambda, l) && Divides(fs[i].p - 1, l)
    requires m == (if fs[i].p == 2 && fs[i].e > 2 then fs[i].e - 1 else fs[i].e) - 1
    ensures CoversFirst(l * Pow(fs[i].p, m), fs, i + 1)
  {
    var x := Pow(fs[i].p, m);
    PowPositive(fs[i].p, m);
    forall j | 0 <= j < i
      ensures LocalExponent(fs[j].p, fs[j].e) > 0 && Divides(LocalExponent(fs[j].p, fs[j].e), l * x)
    {
      DividesTransitive(LocalExponent(fs[j].p, fs[j].e), lambda, l);
      DividesMultiple(LocalExponent(fs[j].p, fs[j].e), l, x);
    }
    ScaledDivisor(fs[i].p - 1, l, x);
  }

  lemma DividesMultiple(d: int, l: int, x: int)
    requires d > 0 && Divides(d, l)
    ensures Divides(d, l * x)
  {
    DividesCombination(d, l, l, x, 0);
    assert x * l + 0 * l == l * x;
  }

  lemma ScaledDivisor(d: int, l: int, x: int)
    requires d > 0 && l > 0 && x > 0 && Divides(d, l)
    ensures d * x > 0 && l * x > 0 && Divides(d * x, l * x)
  {
    var q := Quotient(d, l);
    MulAtLeast(d, x);
    MulAtLeast(l, x);
    assert (q * d) * x == q * (d * x);
    MultipleDivides(d * x, l * x, q);
  }

  lemma {:induction false} UniversalPrefix(a: int, lambda: int, fs: Factors, i: nat)
    requires i <= |fs| && IsAscending(fs) && CoversFirst(lambda, fs, |fs|)
    requires forall j | 0 <= j < |fs| :: Coprime(a, fs[j].p)
    ensures IsAscending(fs[..i]) && Value(fs[..i]) > 0
    ensures Cong(Pow(a, lambda), 1, Value(fs[..i]))
  {
    ValuePositive(fs[..i]);
    if i == 0 {
      CongBy(Pow(a, lambda), 1, 1, Pow(a, lambda) - 1);
    } else {
      var p, e := fs[i - 1].p, fs[i - 1].e;
      UniversalPrefix(a, lambda, fs, i - 1);
      LocalUniversal(a, p, e);
      var k := Quotient(LocalExponent(p, e), lambda);
      PositiveQuotient(LocalExponent(p, e), k, lambda);
      assert LocalExponent(p, e) * k == lambda;
      PowMul(a, LocalExponent(p, e), k);
      CongPowOne(Pow(a, LocalExponent(p, e)), k, Pow(p, e));
      assert fs[..i][..i - 1] == fs[..i - 1];
      PrefixCoprime(fs, i - 1);
      CongCombine(Pow(a, lambda), 1, Value(fs[..i - 1]), Pow(p, e));
    }
  }

  lemma PositiveQuotient(d: int, k: int, x: int)
    requires d > 0 && x > 0 && x == k * d
    ensures k > 0
  {
    CancelLess(0, k, d);
  }

  /** The value of the factors before i is coprime to the i-th prime power. */
  lemma PrefixCoprime(fs: Factors, i: nat)
    requires IsAscending(fs) && i < |fs|
    ensures Coprime(Value(fs[..i]), Pow(fs[i].p, fs[i].e))
  {
    PrefixCoprimeTo(fs, i, fs[i].p);
    CoprimeSymmetric(Value(fs[..i]), fs[i].p);
    CoprimePow(fs[i].p, fs[i].e, Value(fs[..i]));
    CoprimeSymmetric(Pow(fs[i].p, fs[i].e), Value(fs[..i]));
  }

  lemma PrefixCoprimeTo(fs: Factors, i: nat, p: nat)
    requires IsAscending(fs) && i <= |fs| && IsPrime(p) && forall j | 0 <= j < i :: fs[j].p != p
    ensures Coprime(Value(fs[..i]), p)
  {
    var v := Value(fs[..i]);
    if Divides(p, v) {
      ListedPrimes(fs[..i], p);
      assert false;
    }
    PrimeCoprime(p, v);
  }

  lemma CoprimeToFactors(a: int, fs: Factors, n: int)
    requires IsFactorization(fs, n) && Coprime(a, n)
    ensures forall j | 0 <= j < |fs| :: Coprime(a, fs[j].p)
  {
    forall j | 0 <= j < |fs|
      ensures Coprime(a, fs[j].p)
    {
      FactorDivides(fs, j);
      CoprimeSymmetric(a, n);
      CoprimeDivisor(fs[j].p, n, a);
      CoprimeSymmetric(fs[j].p, a);
    }
  }

  lemma CoversIsUniversal(lambda: int, fs: Factors, n: int)
    requires IsFactorization(fs, n) && n > 0 && CoversFirst(lambda, fs, |fs|)
    ensures IsUniversal(lambda, n)
  {
    forall a | Coprime(a, n)
      ensures Cong(Pow(a, lambda), 1, n)
    {
      CoprimeToFactors(a, fs, n);
      UniversalPrefix(a, lambda, fs, |fs|);
      assert fs[..|fs|] == fs;
    }
  }

  lemma StaysBelow(lambda: int, l: int, fs: Factors, i: nat, m: nat)
    requires IsAscending(fs) && i < |fs| && m < fs[i].e
    requires 0 < lambda <= Value(fs[..i]) && 0 < l <= lambda * (fs[i].p - 1)
    ensures 0 < l * Pow(fs[i].p, m) <= Value(fs[..i + 1])
  {
    var p, e, v := fs[i].p, fs[i].e, Value(fs[..i]);
    assert fs[..i + 1][..i] == fs[..i];
    PowPositive(p, m);
    PowPositive(p, e - m - 1);
    PowAdd(p, m, e - m - 1);
    MulAtLeast(l, Pow(p, m));
    BoundProduct(lambda, l, v, p, Pow(p, m), Pow(p, e - m - 1));
    assert Pow(p, e) == p * (Pow(p, m) * Pow(p, e - m - 1));
  }

  lemma BoundProduct(lambda: int, l: int, v: int, p: int, x: int, y: int)
    requires 0 < lambda <= v && l <= lambda * (p - 1) && p >= 2 && x > 0 && y > 0
    ensures l * x <= v * (p * (x * y))
  {
    NonNegativeProduct(v - lambda, p - 1);
    assert (v - lambda) * (p - 1) == v * (p - 1) - lambda * (p - 1);
    NonNegativeProduct(v * (p - 1) - l, x);
    assert (v * (p - 1) - l) * x == (v * (p - 1)) * x - l * x;
    assert v * (p - 1) == v * p - v;
    MulAtLeast(v, x);
    assert (v * (p - 1)) * x == (v * p) * x - v * x;
    NonNegativeProduct(v, p);
    NonNegativeProduct(v * p, x);
    NonNegativeProduct((v * p) * x, y - 1);
    assert ((v * p) * x) * (y - 1) == ((v * p) * x) * y - (v * p) * x;
    assert ((v * p) * x) * y == v * (p * (x * y));
  }

  // ----- the least universal exponent

  /** A universal exponent modulo a product is one modulo each of two coprime factors. */
  lemma UniversalFactor(m: nat, M: int, P: int)
    requires M > 0 && P > 0 && M * P > 0 && Coprime(M, P) && IsUniversal(m, M * P)
    ensures IsUniversal(m, P)
  {
    forall a | Coprime(a, P)
      ensures Cong(Pow(a, m), 1, P)
    {
      var b := LiftUnit(a, M, P);
      MultipleDivides(P, M * P, M);
      CongModulus(Pow(b, m), 1, P, M * P);
      CongPow(b, a, m, P);
      CongSymmetric(Pow(b, m), Pow(a, m), P);
      CongTransitive(Pow(a, m), Pow(b, m), 1, P);
    }
  }

  /** A unit modulo P comes from a unit modulo M P. */
  lemma LiftUnit(a: int, M: int, P: int) returns (b: int)
    requires M > 0 && P > 0 && M * P > 0 && Coprime(M, P) && Coprime(a, P)
    ensures Coprime(b, M * P) && Cong(b, a, P)
  {
    var s, t := Bezout(M, P);
    b := a * (s * M) + t * P;
    LiftedUnit(a, s, M, t, P);
    CongBy(b, a, P, t - a * t);
    CongBy(b, 1, M, (a - 1) * s);
    CongSymmetric(b, a, P);
    CoprimeCong(a, b, P);
    CoprimeFromBezout(1, M, 1, 0);
    CongSymmetric(b, 1, M);
    CoprimeCong(1, b, M);
    CoprimeSymmetric(b, P);
    CoprimeSymmetric(b, M);
    CoprimeProduct(M, P, b);
    CoprimeSymmetric(M * P, b);
  }

  lemma LiftedUnit(a: int, s: int, M: int, t: int, P: int)
    requires s * M + t * P == 1
    ensures a * (s * M) + t * P == a + (t - a * t) * P == 1 + ((a - 1) * s) * M
  {
    assert a * (s * M) == a - a * (t * P);
    assert (t - a * t) * P == t * P - a * (t * P);
    assert ((a - 1) * s) * M == a * (s * M) - s * M;
  }

  lemma {:induction false} UniversalParts(m: nat, fs: Factors, i: nat)
    requires IsAscending(fs) && i <= |fs| && Value(fs[..i]) > 0 && IsUniversal(m, Value(fs[..i]))
    ensures forall j | 0 <= j < i :: Pow(fs[j].p, fs[j].e) > 0 && IsUniversal(m, Pow(fs[j].p, fs[j].e))
  {
    if i > 0 {
      var M, P := Value(fs[..i - 1]), Pow(fs[i - 1].p, fs[i - 1].e);
      assert fs[..i][..i - 1] == fs[..i - 1];
      ValuePositive(fs[..i - 1]);
      PowPositive(fs[i - 1].p, fs[i - 1].e);
      PrefixCoprime(fs, i - 1);
      UniversalFactor(m, M, P);
      CoprimeSymmetric(M, P);
      assert P * M == M * P;
      UniversalFactor(m, P, M);
      UniversalParts(m, fs, i - 1);
    }
  }

  /** z is a multiple of the exponents of the first i prime powers. */
  ghost predicate CommonMultiple(z: int, fs: Factors, i: nat)
    requires i <= |fs| && IsAscending(fs)
  {
    forall j | 0 <= j < i :: LocalExponent(fs[j].p, fs[j].e) > 0 && Divides(LocalExponent(fs[j].p, fs[j].e), z)
  }

  /** lambda divides all of these, and has no prime beyond the i-th. */
  ghost predicate DividesAll(lambda: int, fs: Factors, i: nat)
    requires i <= |fs| && IsAscending(fs) && lambda > 0
  {
    && (forall z | CommonMultiple(z, fs, i) :: Divides(lambda, z))
    && (forall q | IsPrime(q) && Divides(q, lambda) :: i > 0 && q <= fs[i - 1].p)
  }

  lemma StartDividesAll(fs: Factors)
    requires IsAscending(fs)
    ensures DividesAll(1, fs, 0)
  {
    forall z | CommonMultiple(z, fs, 0)
      ensures Divides(1, z)
    {
      MultipleDivides(1, z, z);
    }
    forall q | IsPrime(q)
      ensures !Divides(q, 1)
    {
      NoLargerDivisor(q, 1);
    }
  }

  /** The primes of lcm(lambda, p - 1) lie below p. */
  lemma PrimesBelow(lambda: int, l: int, fs: Factors, i: nat)
    requires IsAscending(fs) && i < |fs| && lambda > 0 && l > 0 && DividesAll(lambda, fs, i)
    requires Divides(l, lambda * (fs[i].p - 1))
    ensures forall q | IsPrime(q) && Divides(q, l) :: q < fs[i].p
  {
    var p := fs[i].p;
    forall q | IsPrime(q) && Divides(q, l)
      ensures q < p
    {
      DividesTransitive(q, l, lambda * (p - 1));
      PrimeDividesProduct(q, lambda, p - 1);
      if Divides(q, p - 1) {
        DividesBound(q, p - 1);
      } else {
        assert i > 0 && q <= fs[i - 1].p;
      }
    }
  }

  lemma NextMultiple(lambda: int, l: int, fs: Factors, i: nat, m: nat, z: int)
    requires IsAscending(fs) && i < |fs| && lambda > 0 && l > 0 && DividesAll(lambda, fs, i)
    requires forall y | Divides(lambda, y) && Divides(fs[i].p - 1, y) :: Divides(l, y)
    requires m == (if fs[i].p == 2 && fs[i].e > 2 then fs[i].e - 1 else fs[i].e) - 1
    requires Coprime(l, Pow(fs[i].p, m)) && CommonMultiple(z, fs, i + 1)
    ensures l * Pow(fs[i].p, m) > 0 && Divides(l * Pow(fs[i].p, m), z)
  {
    var p, x := fs[i].p, Pow(fs[i].p, m);
    PowPositive(p, m);
    assert LocalExponent(p, fs[i].e) == (p - 1) * x;
    assert CommonMultiple(z, fs, i);
    FactorsDivide(p - 1, x, z);
    CoprimeMultiple(l, x, z);
  }

  lemma FactorsDivide(a: int, b: int, z: int)
    requires a > 0 && b > 0 && a * b > 0 && Divides(a * b, z)
    ensures Divides(a, z) && Divides(b, z)
  {
    MultipleDivides(a, a * b, b);
    MultipleDivides(b, a * b, a);
    DividesTransitive(a, a * b, z);
    DividesTransitive(b, a * b, z);
  }

  lemma NextDividesAll(lambda: int, l: int, fs: Factors, i: nat, m: nat)
    requires IsAscending(fs) && i < |fs| && lambda > 0 && l > 0 && DividesAll(lambda, fs, i)
    requires Divides(l, lambda * (fs[i].p - 1))
    requires forall y | Divides(lambda, y) && Divides(fs[i].p - 1, y) :: Divides(l, y)
    requires m == (if fs[i].p == 2 && fs[i].e > 2 then fs[i].e - 1 else fs[i].e) - 1
    ensures l * Pow(fs[i].p, m) > 0 && DividesAll(l * Pow(fs[i].p, m), fs, i + 1)
  {
    var p, x := fs[i].p, Pow(fs[i].p, m);
    PowPositive(p, m);
    MulAtLeast(l, x);
    PrimesBelow(lambda, l, fs, i);
    PrimeCoprime(p, l);
    CoprimeSymmetric(l, p);
    CoprimePow(p, m, l);
    CoprimeSymmetric(x, l);
    forall z | CommonMultiple(z, fs, i + 1)
      ensures Divides(l * x, z)
    {
      NextMultiple(lambda, l, fs, i, m, z);
    }
    forall q | IsPrime(q) && Divides(q, l * x)
      ensures q <= p
    {
      PrimeDividesProduct(q, l, x);
      if Divides(q, x) {
        PrimeDividesPow(q, p, m);
        DividesBound(q, p);
      }
    }
  }

  /** lambda is universal and divides every universal exponent. */
  ghost predicate IsLeastUniversal(lambda: nat, n: int)
    requires n > 0
  {
    lambda > 0 && IsUniversal(lambda, n) && forall m: nat | IsUniversal(m, n) :: Divides(lambda, m)
  }

  lemma LeastIsUniversal(lambda: nat, fs: Factors, n: int)
    requires IsFactorization(fs, n) && n > 0 && lambda > 0
    requires CoversFirst(lambda, fs, |fs|) && DividesAll(lambda, fs, |fs|)
    ensures IsLeastUniversal(lambda, n)
  {
    CoversIsUniversal(lambda, fs, n);
    forall m: nat | IsUniversal(m, n)
      ensures Divides(lambda, m)
    {
      assert fs[..|fs|] == fs;
      UniversalParts(m, fs, |fs|);
      forall j | 0 <= j < |fs|
        ensures LocalExponent(fs[j].p, fs[j].e) > 0 && Divides(LocalExponent(fs[j].p, fs[j].e), m)
      {
        LocalMultiple(m, fs[j].p, fs[j].e);
      }
      assert CommonMultiple(m, fs, |fs|);
    }
  }

  /** mpz_lcm of positive numbers. */
  method Lcm(a: int, b: int) returns (l: int)
    requires a > 0 && b > 0
    ensures 0 < l <= a * b && Divides(a, l) && Divides(b, l) && Divides(l, a * b)
    ensures forall z | Divides(a, z) && Divides(b, z) :: Divides(l, z)
  {
    GcdPositive(a, b);
    l := a * (b / Gcd(a, b));
    JointMultiples(a, b, l);
    MultipleDivides(l, l, 1);
    MulAtLeast(a, b);
    MultipleDivides(a, a * b, b);
    MultipleDivides(b, a * b, a);
    JointMultiples(a, b, a * b);
    DividesBound(l, a * b);
    forall z | Divides(a, z) && Divides(b, z)
      ensures Divides(l, z)
    {
      JointMultiples(a, b, z);
    }
  }

  /** carmichael: the least universal exponent modulo |n|. */
  method ComputeCarmichael(n: int, primes: seq<nat>, ghost b: nat) returns (lambda: nat)
    requires primes == PrimesUpTo(b) && Abs(n) < (b + 1) * (b + 1)
    ensures n == 0 ==> lambda == 1
    ensures n != 0 ==> 0 < lambda <= Abs(n) && IsLeastUniversal(lambda, Abs(n))
  {
    if n == 0 {
      return 1;
    }
    var fs := PrimeFactorMultiplicities(n, primes, b);
    lambda := 1;
    StartDividesAll(fs);
    for i := 0 to |fs|
      invariant CoversFirst(lambda, fs, i) && DividesAll(lambda, fs, i) && lambda <= Value(fs[..i])
    {
      var p, multiplicity := fs[i].p, fs[i].e;
      if p == 2 && multiplicity > 2 {
        multiplicity := multiplicity - 1;
      }
      var l := Lcm(lambda, p - 1);
      CoversNext(lambda, l, fs, i, multiplicity - 1);
      NextDividesAll(lambda, l, fs, i, multiplicity - 1);
      StaysBelow(lambda, l, fs, i, multiplicity - 1);
      lambda := l * Pow(p, multiplicity - 1);
    }
    assert fs[..|fs|] == fs;
    LeastIsUniversal(lambda, fs, Abs(n));
  }

  // ----- multiplicative order

  /** No prime can be taken out of the exponent any more, as far as the listed primes go. */
  ghost predicate Reduced(a: int, n: int, order: int, fs: Factors, i: nat)
    requires n > 0 && order > 0 && i <= |fs| && IsAscending(fs)
  {
    forall j | 0 <= j < i && Divides(fs[j].p, order) :: order / fs[j].p >= 0 && !Cong(Pow(a, order / fs[j].p), 1, n)
  }

  /** A fully reduced exponent is the order. */
  lemma ReducedIsOrder(a: int, n: int, order: nat, lambda: int, fs: Factors)
    requires n > 0 && Coprime(a, n) && order > 0 && IsFactorization(fs, lambda)
    requires lambda > 0 && Divides(order, lambda) && Cong(Pow(a, order), 1, n) && Reduced(a, n, order, fs, |fs|)
    ensures HasOrder(a, order, n)
  {
    forall k | 0 < k < order
      ensures !Cong(Pow(a, k), 1, n)
    {
      if Cong(Pow(a, k), 1, n) {
        var q := SmallerExponentPrime(a, n, order, k);
        DividesTransitive(q, order, lambda);
        ListedPrimes(fs, q);
        assert false;
      }
    }
  }

  /** A smaller exponent of 1 leaves a prime that can be taken out. */
  lemma SmallerExponentPrime(a: int, n: int, order: nat, k: nat) returns (q: int)
    requires n > 0 && Coprime(a, n) && 0 < k < order && Cong(Pow(a, order), 1, n) && Cong(Pow(a, k), 1, n)
    ensures IsPrime(q) && Divides(q, order) && order / q >= 0 && Cong(Pow(a, order / q), 1, n)
  {
    GcdExponent(a, n, k, order);
    GcdDivides(k, order);
    var g := Gcd(k, order);
    DividesBound(g, k);
    q := PrimeOfCofactor(a, n, order, g);
  }

  lemma PrimeOfCofactor(a: int, n: int, order: nat, g: nat) returns (q: int)
    requires n > 0 && 0 < g < order && Divides(g, order) && Cong(Pow(a, g), 1, n)
    ensures IsPrime(q) && Divides(q, order) && order / q >= 0 && Cong(Pow(a, order / q), 1, n)
  {
    var m := Quotient(g, order);
    CancelLess(1, m, g);
    q := PrimeDivisor(m);
    TakeOut(a, n, order, g, m, q);
    FactorOfMultiple(q, m, order, g);
  }

  lemma FactorOfMultiple(q: int, m: int, order: int, g: int)
    requires q > 0 && m > 0 && order == m * g && Divides(q, m)
    ensures Divides(q, order)
  {
    assert g * m == m * g;
    MultipleDivides(m, order, g);
    DividesTransitive(q, m, order);
  }

  lemma TakeOut(a: int, n: int, order: int, g: nat, m: int, q: int)
    requires n > 0 && g > 0 && q > 0 && order > 0 && order == m * g && Divides(q, m) && Cong(Pow(a, g), 1, n)
    ensures order / q >= 0 && Cong(Pow(a, order / q), 1, n)
  {
    var c := Quotient(q, m);
    assert order == (g * c) * q by {
      assert (c * q) * g == (g * c) * q;
    }
    ExactQuotient(order, g * c, q);
    PositiveQuotient(q, g * c, order);
    PositiveQuotient(g, c, g * c);
    PowMul(a, g, c);
    CongPowOne(Pow(a, g), c, n);
  }

  /** Dividing the exponent further keeps what was reduced before. */
  lemma ReducedStays(a: int, n: int, order: int, order': int, k: nat, fs: Factors, i: nat)
    requires n > 0 && order > 0 && order' > 0 && i <= |fs| && IsAscending(fs)
    requires order == order' * k && Reduced(a, n, order, fs, i)
    ensures Reduced(a, n, order', fs, i)
  {
    forall j | 0 <= j < i && Divides(fs[j].p, order')
      ensures order' / fs[j].p >= 0 && !Cong(Pow(a, order' / fs[j].p), 1, n)
    {
      SmallerExponent(a, n, order, order', k, fs[j].p);
    }
  }

  lemma SmallerExponent(a: int, n: int, order: int, order': int, k: nat, p: nat)
    requires n > 0 && order > 0 && order' > 0 && p > 0 && order == order' * k && Divides(p, order')
    ensures Divides(p, order) && order / p >= 0 && order' / p >= 0
    ensures Cong(Pow(a, order' / p), 1, n) ==> Cong(Pow(a, order / p), 1, n)
  {
    var m := Quotient(p, order');
    ExactQuotient(order', m, p);
    PositiveQuotient(p, m, order');
    assert order == (m * k) * p by {
      assert (m * p) * k == (m * k) * p;
    }
    ExactQuotient(order, m * k, p);
    NonNegativeProduct(m, k);
    if Cong(Pow(a, m), 1, n) {
      PowMul(a, m, k);
      CongPowOne(Pow(a, m), k, n);
    }
  }

  /** What is still to be processed: the factors from i on. */
  ghost function Rest(fs: Factors, i: nat): int
    requires i <= |fs|
    decreases |fs| - i
  {
    if i == |fs| then 1 else Pow(fs[i].p, fs[i].e) * Rest(fs, i + 1)
  }

  lemma {:induction false} RestIsValue(fs: Factors, i: nat)
    requires i <= |fs|
    ensures Value(fs[..i]) * Rest(fs, i) == Value(fs)
    decreases |fs| - i
  {
    if i == |fs| {
      assert fs[..i] == fs;
    } else {
      RestIsValue(fs, i + 1);
      assert fs[..i + 1][..i] == fs[..i];
      Associative(Value(fs[..i]), Pow(fs[i].p, fs[i].e), Rest(fs, i + 1));
    }
  }

  lemma {:induction false} RestCoprime(fs: Factors, i: nat, p: nat)
    requires IsAscending(fs) && i <= |fs| && IsPrime(p) && forall j | i <= j < |fs| :: fs[j].p != p
    ensures Coprime(Rest(fs, i), p) && Rest(fs, i) > 0
    decreases |fs| - i
  {
    if i == |fs| {
      CoprimeFromBezout(1, p, 1, 0);
    } else {
      RestCoprime(fs, i + 1, p);
      DistinctPrimesCoprime(fs[i].p, p);
      CoprimePow(fs[i].p, fs[i].e, p);
      CoprimeProduct(Pow(fs[i].p, fs[i].e), Rest(fs, i + 1), p);
      PowPositive(fs[i].p, fs[i].e);
      MulAtLeast(Pow(fs[i].p, fs[i].e), Rest(fs, i + 1));
    }
  }

  /** The state before factor i: order is u times the factors still to come, and u has none of their primes. */
  ghost predicate OrderState(a: int, n: int, order: int, lambda: int, fs: Factors, i: nat, u: int)
    requires n > 0 && i <= |fs| && IsAscending(fs)
  {
    && order > 0 && u > 0 && order == u * Rest(fs, i)
    && (forall j | i <= j < |fs| :: Coprime(u, fs[j].p))
    && lambda > 0 && Divides(order, lambda)
    && Cong(Pow(a, order), 1, n)
    && Reduced(a, n, order, fs, i)
  }

  /** The order with the i-th prime taken out completely. */
  lemma TakenOut(a: int, n: int, order: int, lambda: int, fs: Factors, i: nat, u: int) returns (base: nat)
    requires n > 1 && i < |fs| && IsAscending(fs) && OrderState(a, n, order, lambda, fs, i, u)
    ensures base == u * Rest(fs, i + 1) && base > 0 && Pow(fs[i].p, fs[i].e) > 0
    ensures order == base * Pow(fs[i].p, fs[i].e) && order / Pow(fs[i].p, fs[i].e) == base
    ensures order % Pow(fs[i].p, fs[i].e) == 0
  {
    var p, e, rest := fs[i].p, fs[i].e, Rest(fs, i + 1);
    RestCoprime(fs, i + 1, p);
    PowPositive(p, e);
    MulAtLeast(u, rest);
    base := u * rest;
    Exchange(u, Pow(p, e), rest);
    ExactQuotient(order, base, Pow(p, e));
  }

  lemma Exchange(u: int, x: int, r: int)
    ensures u * (x * r) == (u * r) * x
  {
  }

  /** The exponent grows by factors p until the power is 1, at the latest after e of them. */
  method RestorePrime(a: int, n: int, base: nat, p: nat, ghost e: nat) returns (order: nat, ghost f: nat)
    requires n > 1 && base > 0 && p >= 2
    requires base * Pow(p, e) >= 0 && Cong(Pow(a, base * Pow(p, e)), 1, n)
    ensures f <= e && order == base * Pow(p, f) && order > 0
    ensures Cong(Pow(a, order), 1, n)
    ensures f > 0 ==> order / p >= 0 && !Cong(Pow(a, order / p), 1, n)
  {
    order, f := base, 0;
    var t := PowMod(a, order, n);
    PowModCong(a, order, n);
    assert base * Pow(p, 0) == base;
    while t != 1
      invariant f <= e && order == base * Pow(p, f) && order > 0
      invariant 0 <= t < n && Cong(t, Pow(a, order), n)
      invariant f > 0 ==> order / p >= 0 && !Cong(Pow(a, order / p), 1, n)
      decreases e - f
    {
      NotYetOne(t, Pow(a, order), n);
      ghost var before := order;
      NonNegativeProduct(order, p);
      t := NextPower(a, n, t, p, order);
      order := order * p;
      Raised(base, Pow(p, f), p, before);
      f := f + 1;
    }
    CongSymmetric(t, Pow(a, order), n);
  }

  lemma Raised(base: int, x: int, p: int, order: int)
    requires order == base * x && order > 0 && p >= 2
    ensures order * p == base * (p * x) && order * p > 0 && (order * p) / p == order
  {
    assert (base * x) * p == base * (p * x);
    MulAtLeast(order, p);
    ExactQuotient(order * p, order, p);
  }

  method NextPower(a: int, n: int, t: int, p: nat, ghost order: nat) returns (t': int)
    requires n > 1 && order * p >= 0 && Cong(t, Pow(a, order), n)
    ensures 0 <= t' < n && Cong(t', Pow(a, order * p), n)
  {
    t' := PowMod(t, p, n);
    PowModCong(t, p, n);
    CongPow(t, Pow(a, order), p, n);
    PowMul(a, order, p);
    CongTransitive(t', Pow(t, p), Pow(a, order * p), n);
  }

  /** Processing one prime: takes it out of the order completely and puts it back as often as needed. */
  method ReducePrime(a: int, n: int, order: nat, ghost lambda: int, fs: Factors, i: nat, ghost u: int)
    returns (order': nat, ghost u': int)
    requires n > 1 && i < |fs| && IsAscending(fs)
    requires OrderState(a, n, order, lambda, fs, i, u)
    ensures OrderState(a, n, order', lambda, fs, i + 1, u')
  {
    var p, e := fs[i].p, fs[i].e;
    ghost var base := TakenOut(a, n, order, lambda, fs, i, u);
    ghost var f;
    order', f := RestorePrime(a, n, order / Pow(p, e), p, e);
    u' := u * Pow(p, f);
    FinishPrime(a, n, order, order', lambda, fs, i, u, f);
  }

  lemma FinishPrime(a: int, n: int, order: int, order': int, lambda: int, fs: Factors, i: nat, u: int, f: nat)
    requires n > 1 && i < |fs| && IsAscending(fs) && OrderState(a, n, order, lambda, fs, i, u)
    requires f <= fs[i].e && order' > 0 && order' == (u * Rest(fs, i + 1)) * Pow(fs[i].p, f)
    requires Cong(Pow(a, order'), 1, n)
    requires f > 0 ==> order' / fs[i].p >= 0 && !Cong(Pow(a, order' / fs[i].p), 1, n)
    ensures OrderState(a, n, order', lambda, fs, i + 1, u * Pow(fs[i].p, f))
  {
    var p, e, rest := fs[i].p, fs[i].e, Rest(fs, i + 1);
    PowPositive(p, f);
    MulAtLeast(u, Pow(p, f));
    Exchange(u, Pow(p, f), rest);
    Associative(u, Pow(p, f), rest);
    FinishDivisor(order, order', lambda, p, e, f, u, rest);
    ReducedStays(a, n, order, order', Pow(p, e - f), fs, i);
    UnitStays(fs, i, u, f);
    if f == 0 {
      RestCoprime(fs, i + 1, p);
      CoprimeProduct(u, rest, p);
      UnitNotDivisible(u * rest, p);
    }
  }

  lemma FinishDivisor(order: int, order': int, lambda: int, p: nat, e: nat, f: nat, u: int, rest: int)
    requires p >= 2 && f <= e && order' > 0 && order > 0 && Divides(order, lambda)
    requires order == u * (Pow(p, e) * rest) && order' == (u * rest) * Pow(p, f)
    ensures Pow(p, e - f) > 0 && order == order' * Pow(p, e - f) && Divides(order', lambda)
  {
    PowAdd(p, f, e - f);
    PowPositive(p, e - f);
    SplitPower(u, rest, Pow(p, f), Pow(p, e - f));
    MultipleDivides(order', order, Pow(p, e - f));
    DividesTransitive(order', order, lambda);
  }

  lemma UnitStays(fs: Factors, i: nat, u: int, f: nat)
    requires IsAscending(fs) && i < |fs| && forall j | i <= j < |fs| :: Coprime(u, fs[j].p)
    ensures forall j | i + 1 <= j < |fs| :: Coprime(u * Pow(fs[i].p, f), fs[j].p)
  {
    forall j | i + 1 <= j < |fs|
      ensures Coprime(u * Pow(fs[i].p, f), fs[j].p)
    {
      DistinctPrimesCoprime(fs[i].p, fs[j].p);
      CoprimePow(fs[i].p, f, fs[j].p);
      CoprimeProduct(u, Pow(fs[i].p, f), fs[j].p);
    }
  }

  lemma SplitPower(u: int, rest: int, x: int, y: int)
    ensures u * ((x * y) * rest) == ((u * rest) * x) * y
  {
  }

  lemma StartOrder(a: int, n: int, r: int, lambda: nat, fs: Factors)
    requires n > 0 && Coprime(a, n) && r == a % n && IsUniversal(lambda, n)
    requires lambda > 0 && IsFactorization(fs, lambda)
    ensures Coprime(r, n) && OrderState(r, n, lambda, lambda, fs, 0, 1)
  {
    CongRemainder(a, n);
    CoprimeCong(a, r, n);
    RestIsValue(fs, 0);
    assert fs[..0] == [];
    MultipleDivides(lambda, lambda, 1);
    forall j | 0 <= j < |fs|
      ensures Coprime(1, fs[j].p)
    {
      CoprimeFromBezout(1, fs[j].p, 1, 0);
    }
  }

  lemma OrderOfRemainder(a: int, n: int, r: int, order: nat)
    requires n > 0 && r == a % n && HasOrder(r, order, n)
    ensures HasOrder(a, order, n)
  {
    CongRemainder(a, n);
    forall k: nat
      ensures Cong(Pow(r, k), 1, n) <==> Cong(Pow(a, k), 1, n)
    {
      CongPow(a, r, k, n);
      CongPow(r, a, k, n);
      if Cong(Pow(r, k), 1, n) {
        CongTransitive(Pow(a, k), Pow(r, k), 1, n);
      }
      if Cong(Pow(a, k), 1, n) {
        CongTransitive(Pow(r, k), Pow(a, k), 1, n);
      }
    }
  }

  lemma CoprimeToSize(a: int, n: int)
    requires Coprime(a, n)
    ensures Coprime(a, Abs(n))
  {
    var s, t := Bezout(a, n);
    CoprimeFromBezout(a, Abs(n), s, if n < 0 then -t else t);
  }

  /**
   multiplicative_order: false exactly when a is no unit modulo n, and otherwise the least positive
   exponent with a^o = 1.  For n = 0 and a = 1 or -1 the source divides by zero.
   */
  method MultiplicativeOrder(a: int, n: int, primes: seq<nat>, ghost b: nat) returns (defined: bool, o: nat)
    requires n == 0 ==> Abs(a) != 1
    requires primes == PrimesUpTo(b) && Abs(n) < (b + 1) * (b + 1)
    ensures defined <==> Coprime(a, n)
    ensures defined ==> n != 0 && HasOrder(a, o, Abs(n))
  {
    if Gcd(a, n) != 1 {
      return false, 0;
    }
    CoprimeToSize(a, n);
    var m := Abs(n);
    var lambda := ComputeCarmichael(n, primes, b);
    var fs := PrimeFactorMultiplicities(lambda, primes, b);
    var r := a % m;
    o := lambda;
    StartOrder(a, m, r, lambda, fs);
    ghost var u := 1;
    for i := 0 to |fs|
      invariant OrderState(r, m, o, lambda, fs, i, u)
    {
      assert m > 1 by {
        FactorsAboveOne(fs, lambda, m);
      }
      o, u := ReducePrime(r, m, o, lambda, fs, i, u);
    }
    ReducedIsOrder(r, m, o, lambda, fs);
    OrderOfRemainder(a, m, r, o);
    defined := true;
  }

  /** Only 1 has no prime factor, so a modulus with a nontrivial exponent exceeds 1. */
  lemma FactorsAboveOne(fs: Factors, lambda: int, n: int)
    requires IsFactorization(fs, lambda) && fs != [] && 0 < lambda <= n
    ensures n > 1
  {
    FactorDivides(fs, 0);
    DividesBound(fs[0].p, lambda);
  }
}
