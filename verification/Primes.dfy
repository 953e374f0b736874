/** Primes, Fermat's little theorem, and its lifting to prime powers. */
module Primes {
  import opened Combinatorics
  import opened ModArith

  ghost predicate IsPrime(p: int) {
    p >= 2 && forall d | 1 < d < p :: !Divides(d, p)
  }

  lemma PrimeCoprime(p: int, a: int)
    requires IsPrime(p) && !Divides(p, a)
    ensures Coprime(a, p)
  {
    GcdDivides(a, p);
    DividesBound(Gcd(a, p), p);
  }

  lemma UnitNotDivisible(a: int, p: int)
    requires IsPrime(p) && Coprime(a, p)
    ensures !Divides(p, a)
  {
    if Divides(p, a) {
      MultipleDivides(p, p, 1);
      GcdGreatest(a, p, p);
      DividesBound(p, 1);
    }
  }

  lemma OddPrime(p: int)
    requires IsPrime(p) && p > 2
    ensures p % 2 == 1 && p - 1 == 2 * ((p - 1) / 2)
  {
    assert !Divides(2, p);
  }

  lemma PrimeDividesProduct(p: int, x: int, y: int)
    requires IsPrime(p) && Divides(p, x * y)
    ensures Divides(p, x) || Divides(p, y)
  {
    if !Divides(p, x) {
      PrimeCoprime(p, x);
      CoprimeSymmetric(x, p);
      EuclidLemma(p, x, y);
    }
  }

  lemma {:induction false} PrimeDividesPow(p: int, x: int, e: nat)
    requires IsPrime(p) && Divides(p, Pow(x, e))
    ensures Divides(p, x)
  {
    if e == 0 {
      DividesBound(p, 1);
    } else {
      PrimeDividesProduct(p, x, Pow(x, e - 1));
      if !Divides(p, x) {
        PrimeDividesPow(p, x, e - 1);
      }
    }
  }

  lemma DistinctPrimesCoprime(p: int, q: int)
    requires IsPrime(p) && IsPrime(q) && p != q
    ensures Coprime(p, q)
  {
    if p < q {
      PrimeCoprime(q, p) by {
        NoLargerDivisor(q, p);
      }
    } else {
      NoLargerDivisor(p, q);
      PrimeCoprime(p, q);
      CoprimeSymmetric(q, p);
    }
  }

  lemma NoLargerDivisor(d: int, x: int)
    requires 0 < x < d
    ensures !Divides(d, x)
  {
    DivModUnique(x, 0, x, d);
  }

  /** Every number from 2 on has a prime divisor. */
  lemma {:induction false} PrimeDivisor(n: int) returns (p: int)
    requires n >= 2
    ensures IsPrime(p) && Divides(p, n)
    decreases n
  {
    if IsPrime(n) {
      p := n;
      MultipleDivides(n, n, 1);
    } else {
      var d :| 1 < d < n && Divides(d, n);
      p := PrimeDivisor(d);
      DividesTransitive(p, d, n);
    }
  }

  // ----- Fermat's little theorem

  lemma {:induction false} FactCoprime(p: int, k: nat)
    requires IsPrime(p) && k < p
    ensures Coprime(Fact(k), p)
  {
    if k == 0 {
      CoprimeFromBezout(1, p, 1, 0);
    } else {
      FactCoprime(p, k - 1);
      NoLargerDivisor(p, k);
      PrimeCoprime(p, k);
      CoprimeProduct(k, Fact(k - 1), p);
    }
  }

  lemma PrimeDividesBinom(p: int, k: nat)
    requires IsPrime(p) && 0 < k < p
    ensures Divides(p, Binom(p, k))
  {
    BinomFact(p, k);
    FactCoprime(p, k);
    FactCoprime(p, p - k);
    CoprimeProduct(Fact(k), Fact(p - k), p);
    CoprimeSymmetric(Fact(k) * Fact(p - k), p);
    Reassociate(Binom(p, k), Fact(k), Fact(p - k), p, Fact(p - 1));
    MultipleDivides(p, (Fact(k) * Fact(p - k)) * Binom(p, k), Fact(p - 1));
    EuclidLemma(p, Fact(k) * Fact(p - k), Binom(p, k));
  }

  lemma Reassociate(b: int, f: int, g: int, p: int, h: int)
    requires b * f * g == p * h
    ensures (f * g) * b == h * p
  {
  }

  /** The first k terms of the binomial expansion of (1 + a)^n. */
  ghost function BinomialSum(a: int, n: nat, k: nat): int {
    if k == 0 then 0 else BinomialSum(a, n, k - 1) + Binom(n, k - 1) * Pow(a, k - 1)
  }

  lemma FirstTermIsOne(a: int, n: nat)
    ensures BinomialSum(a, n, 1) == 1 && BinomialSum(a, n, 0) == 0
  {
    assert Pow(a, 0) == 1 && Binom(n, 0) == 1;
    assert BinomialSum(a, n, 1) == BinomialSum(a, n, 0) + Binom(n, 0) * Pow(a, 0);
  }

  lemma {:induction false} BinomialSumStep(a: int, n: nat, k: nat)
    ensures BinomialSum(a, n + 1, k + 1) == BinomialSum(a, n, k + 1) + a * BinomialSum(a, n, k)
  {
    if k == 0 {
      FirstTermIsOne(a, n);
      FirstTermIsOne(a, n + 1);
    } else {
      BinomialSumStep(a, n, k - 1);
      PascalTerm(Binom(n, k), Binom(n, k - 1), a, Pow(a, k - 1), BinomialSum(a, n, k - 1));
    }
  }

  lemma PascalTerm(b: int, c: int, a: int, x: int, s: int)
    ensures (b + c) * (a * x) + a * s == b * (a * x) + a * (s + c * x)
  {
    assert (b + c) * (a * x) == b * (a * x) + a * (c * x);
    assert a * (s + c * x) == a * s + a * (c * x);
  }

  lemma {:induction false} BinomialTheorem(a: int, n: nat)
    ensures Pow(1 + a, n) == BinomialSum(a, n, n + 1)
  {
    if n == 0 {
      assert BinomialSum(a, 0, 1) == BinomialSum(a, 0, 0) + Binom(0, 0) * Pow(a, 0);
    } else {
      BinomialTheorem(a, n - 1);
      BinomialSumStep(a, n - 1, n);
      BinomAbove(n - 1, n);
      var s := BinomialSum(a, n - 1, n);
      assert BinomialSum(a, n - 1, n + 1) == s + 0 * Pow(a, n);
      assert (1 + a) * s == s + a * s;
    }
  }

  lemma {:induction false} MiddleTermsVanish(a: int, p: int, k: nat)
    requires IsPrime(p) && 1 <= k <= p
    ensures Cong(BinomialSum(a, p, k), 1, p)
  {
    if k == 1 {
      assert BinomialSum(a, p, 1) == BinomialSum(a, p, 0) + Binom(p, 0) * Pow(a, 0);
      CongReflexive(1, p);
    } else {
      MiddleTermsVanish(a, p, k - 1);
      PrimeDividesBinom(p, k - 1);
      var q := Quotient(p, Binom(p, k - 1));
      var x := Pow(a, k - 1);
      assert (q * p) * x == (q * x) * p;
      CongBy((q * p) * x, 0, p, q * x);
      CongAdd(BinomialSum(a, p, k - 1), 1, Binom(p, k - 1) * x, 0, p);
    }
  }

  lemma {:induction false} FermatNat(a: nat, p: int)
    requires IsPrime(p)
    ensures Cong(Pow(a, p), a, p)
  {
    if a == 0 {
      assert Pow(0, p) == 0 * Pow(0, p - 1) == 0;
      CongReflexive(0, p);
    } else {
      FermatNat(a - 1, p);
      BinomialTheorem(a - 1, p);
      MiddleTermsVanish(a - 1, p, p);
      BinomAbove(p - 1, p);
      BinomTop(p);
      assert Pow(a, p) == BinomialSum(a - 1, p, p) + 1 * Pow(a - 1, p);
      CongAdd(BinomialSum(a - 1, p, p), 1, Pow(a - 1, p), a - 1, p);
    }
  }

  lemma {:induction false} BinomTop(n: nat)
    ensures Binom(n, n) == 1
  {
    if n > 0 {
      BinomAbove(n - 1, n);
      BinomTop(n - 1);
    }
  }

  /** Fermat's little theorem. */
  lemma Fermat(a: int, p: int)
    requires IsPrime(p) && !Divides(p, a)
    ensures Cong(Pow(a, p - 1), 1, p)
  {
    var r := a % p;
    FermatNat(r, p);
    CongRemainder(a, p);
    CongPow(a, r, p, p);
    CongTransitive(Pow(a, p), Pow(r, p), r, p);
    CongTransitive(Pow(a, p), r, a, p);
    PrimeCoprime(p, a);
    assert a * Pow(a, p - 1) == Pow(a, p) && a * 1 == a;
    CongCancel(a, Pow(a, p - 1), 1, p);
  }

  /** Modulo a prime, 1 has no square roots but 1 and -1. */
  lemma RootsOfOne(x: int, p: int)
    requires IsPrime(p) && Cong(x * x, 1, p)
    ensures Cong(x, 1, p) || Cong(x, -1, p)
  {
    assert x * x - 1 == (x - 1) * (x + 1);
    PrimeDividesProduct(p, x - 1, x + 1);
  }

  lemma OneIsNotMinusOne(x: int, p: int)
    requires p > 2 && Cong(x, 1, p)
    ensures !Cong(x, -1, p)
  {
    if Cong(x, -1, p) {
      CongSymmetric(x, 1, p);
      CongTransitive(1, x, -1, p);
      DividesBound(p, 2);
    }
  }
}
