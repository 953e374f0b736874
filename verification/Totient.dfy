/** totient of src/ntheory.cpp against its definition as a count. */
module Totient {
  import opened Common
  import opened Factorization
  import opened ModArith
  import opened PrimeSieve
  import opened Primes

  /** How many of 1, ..., k are coprime to n. */
  ghost function CountCoprime(n: int, k: nat): nat {
    if k == 0 then 0 else CountCoprime(n, k - 1) + if Coprime(k, n) then 1 else 0
  }

  ghost predicate DistinctPrimes(ps: seq<nat>) {
    && (forall i | 0 <= i < |ps| :: IsPrime(ps[i]))
    && (forall i, j | 0 <= i < j < |ps| :: ps[i] != ps[j])
  }

  ghost predicate Avoids(k: int, ps: seq<nat>)
    requires DistinctPrimes(ps)
  {
    forall i | 0 <= i < |ps| :: !Divides(ps[i], k)
  }

  /** How many of 1, ..., k have no divisor among ps. */
  ghost function CountAvoiding(ps: seq<nat>, k: nat): nat
    requires DistinctPrimes(ps)
  {
    if k == 0 then 0 else CountAvoiding(ps, k - 1) + if Avoids(k, ps) then 1 else 0
  }

  /** Sieving by one more prime p removes the multiples p m, with m avoiding the others. */
  lemma {:induction false} SieveOut(ps: seq<nat>, p: nat, k: nat)
    requires DistinctPrimes(ps + [p])
    ensures DistinctPrimes(ps) && p >= 2 && k / p >= 0
    ensures CountAvoiding(ps + [p], k) == CountAvoiding(ps, k) - CountAvoiding(ps, k / p)
  {
    var qs := ps + [p];
    assert qs[|ps|] == p;
    assert forall i | 0 <= i < |ps| :: qs[i] == ps[i];
    if k == 0 {
      DivModUnique(0, 0, 0, p);
    } else {
      SieveOut(ps, p, k - 1);
      AvoidsSnoc(ps, p, k);
      StepQuotient(k, p);
      if Divides(p, k) {
        AvoidsMultiple(ps, p, k / p, k);
      }
    }
  }

  lemma AvoidsSnoc(ps: seq<nat>, p: nat, k: int)
    requires DistinctPrimes(ps + [p]) && DistinctPrimes(ps)
    ensures p >= 2
    ensures Avoids(k, ps + [p]) <==> Avoids(k, ps) && !Divides(p, k)
  {
    var qs := ps + [p];
    assert qs[|ps|] == p;
    assert forall i | 0 <= i < |ps| :: qs[i] == ps[i];
  }

  lemma StepQuotient(k: int, p: int)
    requires p >= 2 && k > 0
    ensures k / p >= 0 && (k - 1) / p >= 0
    ensures Divides(p, k) ==> k / p == (k - 1) / p + 1 && k == (k / p) * p
    ensures !Divides(p, k) ==> k / p == (k - 1) / p
  {
    DivModEquation(k, p);
    var q, r := k / p, k % p;
    if r == 0 {
      assert k - 1 == (q - 1) * p + (p - 1);
      DivModUnique(k - 1, q - 1, p - 1, p);
    } else {
      DivModUnique(k - 1, q, r - 1, p);
    }
  }

  lemma AvoidsMultiple(ps: seq<nat>, p: nat, m: int, k: int)
    requires DistinctPrimes(ps + [p]) && DistinctPrimes(ps) && k == m * p
    ensures Avoids(k, ps) <==> Avoids(m, ps)
  {
    var qs := ps + [p];
    assert qs[|ps|] == p;
    forall i | 0 <= i < |ps|
      ensures Divides(ps[i], k) <==> Divides(ps[i], m)
    {
      assert qs[i] == ps[i];
      if Divides(ps[i], k) {
        PrimeDividesProduct(ps[i], m, p);
        if Divides(ps[i], p) {
          PrimeDividesPrime(ps[i], p);
        }
      }
      if Divides(ps[i], m) {
        DividesCombination(ps[i], m, m, p, 0);
        assert p * m + 0 * m == k;
      }
    }
  }

  // ----- the product formula

  ghost function Product(ps: seq<nat>): int {
    if ps == [] then 1 else Product(ps[..|ps| - 1]) * ps[|ps| - 1]
  }

  ghost function ReducedProduct(ps: seq<nat>): int {
    if ps == [] then 1 else ReducedProduct(ps[..|ps| - 1]) * (ps[|ps| - 1] as int - 1)
  }

  /** Of t p_1 ... p_i numbers, t (p_1 - 1) ... (p_i - 1) avoid all the primes. */
  lemma {:induction false} CountFormula(ps: seq<nat>, t: nat, n: nat)
    requires DistinctPrimes(ps) && n == t * Product(ps)
    ensures CountAvoiding(ps, n) == t * ReducedProduct(ps)
    decreases |ps|
  {
    if ps == [] {
      CountAll(n);
    } else {
      var init, p := ps[..|ps| - 1], ps[|ps| - 1];
      assert ps == init + [p];
      PositivePrimeProduct(init);
      var m := t * Product(init);
      assert n == m * p && n == (t * p) * Product(init) by {
        assert t * (Product(init) * p) == (t * Product(init)) * p == (t * p) * Product(init);
      }
      NonNegativeProduct(t, Product(init));
      SieveOut(init, p, n);
      ExactQuotient(n, m, p);
      CountFormula(init, t * p, n);
      CountFormula(init, t, m);
      FactorOut(t, p, ReducedProduct(init));
    }
  }

  lemma FactorOut(t: int, p: int, r: int)
    ensures (t * p) * r - t * r == t * (r * (p - 1))
  {
  }

  lemma {:induction false} CountAll(n: nat)
    ensures CountAvoiding([], n) == n
  {
    if n > 0 {
      CountAll(n - 1);
    }
  }

  lemma {:induction false} PositivePrimeProduct(ps: seq<nat>)
    requires DistinctPrimes(ps)
    ensures Product(ps) > 0
  {
    if ps != [] {
      PositivePrimeProduct(ps[..|ps| - 1]);
      MulAtLeast(Product(ps[..|ps| - 1]), ps[|ps| - 1]);
    }
  }

  // ----- from the factorization to the count

  ghost function PrimesOf(fs: Factors): (ps: seq<nat>)
    ensures |ps| == |fs| && forall i | 0 <= i < |fs| :: ps[i] == fs[i].p
  {
    seq(|fs|, i requires 0 <= i < |fs| => fs[i].p)
  }

  /** Coprime to n means divisible by none of its primes. */
  lemma {:induction false} CountsAgree(fs: Factors, n: int, k: nat)
    requires IsFactorization(fs, n)
    ensures DistinctPrimes(PrimesOf(fs)) && CountAvoiding(PrimesOf(fs), k) == CountCoprime(n, k)
  {
    assert DistinctPrimes(PrimesOf(fs));
    if k > 0 {
      CountsAgree(fs, n, k - 1);
      CoprimeMeansAvoiding(fs, n, k);
    }
  }

  lemma CoprimeMeansAvoiding(fs: Factors, n: int, k: nat)
    requires IsFactorization(fs, n) && DistinctPrimes(PrimesOf(fs)) && k > 0
    ensures Coprime(k, n) <==> Avoids(k, PrimesOf(fs))
  {
    var ps := PrimesOf(fs);
    if Coprime(k, n) {
      forall i | 0 <= i < |ps|
        ensures !Divides(ps[i], k)
      {
        FactorDivides(fs, i);
        if Divides(ps[i], k) {
          GcdGreatest(k, n, ps[i]);
          DividesBound(ps[i], 1);
        }
      }
    } else {
      GcdDivides(k, n);
      var q := PrimeDivisor(Gcd(k, n));
      DividesTransitive(q, Gcd(k, n), k);
      DividesTransitive(q, Gcd(k, n), n);
      ListedPrimes(fs, q);
      var i :| 0 <= i < |fs| && fs[i].p == q;
      assert Divides(ps[i], k);
    }
  }

  /** n is a multiple of the product of its primes. */
  lemma {:induction false} ProductDivides(fs: Factors) returns (t: nat)
    requires IsAscending(fs)
    ensures Value(fs) == t * Product(PrimesOf(fs))
  {
    if fs == [] {
      t := 1;
    } else {
      var init, last := fs[..|fs| - 1], fs[|fs| - 1];
      var u := ProductDivides(init);
      assert PrimesOf(fs)[..|fs| - 1] == PrimesOf(init);
      PowPositive(last.p, last.e - 1);
      NonNegativeProduct(u, Pow(last.p, last.e - 1));
      t := u * Pow(last.p, last.e - 1);
      FourFactors(u, Product(PrimesOf(init)), Pow(last.p, last.e - 1), last.p);
    }
  }

  // ----- the algorithm

  /** n is t p_i ... p_k times the first i primes, and phi that much times the reduced ones. */
  ghost predicate Progress(ps: seq<nat>, i: nat, n: int, phi: int, t: nat)
    requires i <= |ps|
  {
    phi == (t * Product(ps[i..])) * ReducedProduct(ps[..i])
  }

  lemma {:induction false} ProductFront(ps: seq<nat>)
    requires ps != []
    ensures Product(ps) == ps[0] * Product(ps[1..])
    decreases |ps|
  {
    if |ps| == 1 {
      assert ps[..0] == [] && ps[1..] == [];
    } else {
      var init, p := ps[..|ps| - 1], ps[|ps| - 1];
      ProductFront(init);
      assert init[1..] == ps[1..][..|ps| - 2];
      assert (ps[0] * Product(init[1..])) * p == ps[0] * (Product(init[1..]) * p);
    }
  }

  lemma TotientStep(ps: seq<nat>, i: nat, n: int, phi: int, t: nat, p: int)
    requires i < |ps| && p == ps[i] && p >= 1 && Progress(ps, i, n, phi, t)
    ensures Progress(ps, i + 1, n, (phi / p) * (p - 1), t)
  {
    var a, r := t * Product(ps[i + 1..]), ReducedProduct(ps[..i]);
    ProductFront(ps[i..]);
    assert ps[i..][1..] == ps[i + 1..];
    assert ps[..i + 1][..i] == ps[..i];
    PullOut(t, p, Product(ps[i + 1..]), r);
    ExactQuotient(phi, a * r, p);
    assert (a * r) * (p - 1) == a * (r * (p - 1));
  }

  lemma PullOut(t: int, p: int, x: int, r: int)
    ensures (t * (p * x)) * r == ((t * x) * r) * p
  {
  }

  /** totient: the number of k in 1, ..., |n| that are coprime to n; every division is exact. */
  method ComputeTotient(n: int, primes: seq<nat>, ghost b: nat) returns (phi: int)
    requires primes == PrimesUpTo(b) && Abs(n) < (b + 1) * (b + 1)
    ensures n == 0 ==> phi == 1
    ensures n != 0 ==> phi == CountCoprime(Abs(n), Abs(n))
  {
    if n == 0 {
      return 1;
    }
    phi := Abs(n);
    var fs := PrimeFactorMultiplicities(n, primes, b);
    ghost var ps := PrimesOf(fs);
    ghost var t := ProductDivides(fs);
    StartProgress(ps, Abs(n), t);
    for i := 0 to |fs|
      invariant Progress(ps, i, Abs(n), phi, t)
    {
      var p := fs[i].p;
      TotientStep(ps, i, Abs(n), phi, t, p);
      phi := phi / p;
      phi := phi * (p - 1);
    }
    EndProgress(fs, ps, Abs(n), phi, t);
  }

  lemma StartProgress(ps: seq<nat>, n: int, t: nat)
    requires n == t * Product(ps)
    ensures Progress(ps, 0, n, n, t)
  {
    assert ps[0..] == ps && ps[..0] == [];
  }

  lemma EndProgress(fs: Factors, ps: seq<nat>, n: nat, phi: int, t: nat)
    requires n > 0 && IsFactorization(fs, n) && ps == PrimesOf(fs) && Progress(ps, |ps|, n, phi, t)
      && n == t * Product(ps)
    ensures phi == CountCoprime(n, n)
  {
    assert ps[|ps|..] == [] && ps[..|ps|] == ps;
    CountsAgree(fs, n, n);
    CountFormula(ps, t, n);
  }
}
