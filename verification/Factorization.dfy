/**
 The multiplicities of the prime factors by trial division with the sieve's primes (src/ntheory.cpp).  A map
 from primes to multiplicities is the list of its entries in ascending order.
 */
module Factorization {
  import opened Common
  import opened ModArith
  import opened PrimeSieve
  import opened Primes

  datatype Factor = Factor(p: nat, e: nat)

  type Factors = seq<Factor>

  ghost function Value(fs: Factors): int {
    if fs == [] then 1 else Value(fs[..|fs| - 1]) * Pow(fs[|fs| - 1].p, fs[|fs| - 1].e)
  }

  ghost predicate IsAscending(fs: Factors) {
    && (forall i | 0 <= i < |fs| :: IsPrime(fs[i].p) && fs[i].e >= 1)
    && (forall i, j | 0 <= i < j < |fs| :: fs[i].p < fs[j].p)
  }

  /** fs is the prime factorization of n. */
  ghost predicate IsFactorization(fs: Factors, n: int) {
    IsAscending(fs) && Value(fs) == n
  }

  lemma ValueSnoc(fs: Factors, p: nat, e: nat)
    ensures Value(fs + [Factor(p, e)]) == Value(fs) * Pow(p, e)
  {
    var gs := fs + [Factor(p, e)];
    assert gs[..|gs| - 1] == fs;
  }

  lemma {:induction false} ValuePositive(fs: Factors)
    requires IsAscending(fs)
    ensures Value(fs) > 0
  {
    if fs != [] {
      ValuePositive(fs[..|fs| - 1]);
      PowPositive(fs[|fs| - 1].p, fs[|fs| - 1].e);
      MulAtLeast(Value(fs[..|fs| - 1]), Pow(fs[|fs| - 1].p, fs[|fs| - 1].e));
    }
  }

  /** The primes that divide n are exactly those listed. */
  lemma {:induction false} ListedPrimes(fs: Factors, q: int)
    requires IsAscending(fs) && IsPrime(q) && Divides(q, Value(fs))
    ensures exists i :: 0 <= i < |fs| && fs[i].p == q
  {
    if fs == [] {
      DividesBound(q, 1);
    } else {
      var init, last := fs[..|fs| - 1], fs[|fs| - 1];
      PrimeDividesProduct(q, Value(init), Pow(last.p, last.e));
      if Divides(q, Value(init)) {
        ListedPrimes(init, q);
        var i :| 0 <= i < |init| && init[i].p == q;
        assert fs[i].p == q;
      } else {
        PrimeDividesPow(q, last.p, last.e);
        PrimeDividesPrime(q, last.p);
      }
    }
  }

  lemma PrimeDividesPrime(q: int, p: int)
    requires IsPrime(q) && IsPrime(p) && Divides(q, p)
    ensures q == p
  {
    DividesBound(q, p);
  }

  lemma {:induction false} FactorDivides(fs: Factors, i: nat)
    requires IsAscending(fs) && i < |fs|
    ensures Divides(fs[i].p, Value(fs))
    decreases |fs|
  {
    var init, last := fs[..|fs| - 1], fs[|fs| - 1];
    var v := Value(init);
    if i == |fs| - 1 {
      assert Pow(last.p, last.e) == last.p * Pow(last.p, last.e - 1);
      assert v * (last.p * Pow(last.p, last.e - 1)) == (v * Pow(last.p, last.e - 1)) * last.p;
      MultipleDivides(last.p, Value(fs), v * Pow(last.p, last.e - 1));
    } else {
      FactorDivides(init, i);
      DividesCombination(fs[i].p, v, v, Pow(last.p, last.e), 0);
      assert Pow(last.p, last.e) * v + 0 * v == v * Pow(last.p, last.e);
    }
  }

  // ----- trial division

  /** Divides p out of x as often as possible. */
  method DivideOut(x: nat, p: nat) returns (rest: nat, count: nat)
    requires x > 0 && p >= 2
    ensures x == Pow(p, count) * rest && rest > 0 && !Divides(p, rest)
  {
    rest, count := x, 0;
    while rest % p == 0
      invariant rest > 0 && x == Pow(p, count) * rest
      decreases rest
    {
      var q := rest / p;
      DivModEquation(rest, p);
      DividesBound(p, rest);
      assert Pow(p, count) * (q * p) == (p * Pow(p, count)) * q;
      MulAtLeast(p, q);
      assert p * q >= 2 * q by {
        NonNegativeProduct(p - 2, q);
        assert (p - 2) * q == p * q - 2 * q;
      }
      count := count + 1;
      rest := q;
    }
  }

  /**
   The state of the trial division: found is listed, rest is what is left, with no prime factor up to the
   bound done.
   */
  ghost predicate DividedUpTo(fs: Factors, rest: int, n: int, done: int) {
    && IsAscending(fs) && rest > 0 && Value(fs) * rest == n
    && (forall i | 0 <= i < |fs| :: fs[i].p <= done)
    && (forall q | IsPrime(q) && q <= done :: !Divides(q, rest))
  }

  lemma DivideStep(fs: Factors, rest: int, n: int, done: int, p: nat, rest': int, count: nat)
    requires DividedUpTo(fs, rest, n, done) && IsPrime(p) && done < p
    requires forall q | IsPrime(q) && q < p :: q <= done
    requires rest == Pow(p, count) * rest' && rest' > 0 && !Divides(p, rest')
    ensures DividedUpTo(if count > 0 then fs + [Factor(p, count)] else fs, rest', n, p)
  {
    var gs := if count > 0 then fs + [Factor(p, count)] else fs;
    DivideValue(fs, rest, n, p, rest', count);
    StillAscending(fs, done, p, count);
    NothingLeft(rest, p, rest', count);
  }

  lemma NothingLeft(rest: int, p: nat, rest': int, count: nat)
    requires p > 0 && forall q | IsPrime(q) && q < p :: !Divides(q, rest)
    requires rest == Pow(p, count) * rest' && !Divides(p, rest')
    ensures forall q | IsPrime(q) && q <= p :: !Divides(q, rest')
  {
    forall q | IsPrime(q) && q <= p
      ensures !Divides(q, rest')
    {
      if q < p {
        MultipleHasFactor(q, Pow(p, count), rest', rest);
      }
    }
  }

  lemma StillAscending(fs: Factors, done: int, p: nat, count: nat)
    requires IsAscending(fs) && IsPrime(p) && done < p && forall i | 0 <= i < |fs| :: fs[i].p <= done
    ensures var gs := if count > 0 then fs + [Factor(p, count)] else fs;
      IsAscending(gs) && forall i | 0 <= i < |gs| :: gs[i].p <= p
  {
  }

  lemma DivideValue(fs: Factors, rest: int, n: int, p: nat, rest': int, count: nat)
    requires Value(fs) * rest == n && rest == Pow(p, count) * rest'
    ensures Value(if count > 0 then fs + [Factor(p, count)] else fs) * rest' == n
  {
    ValueSnoc(fs, p, count);
    Associative(Value(fs), Pow(p, count), rest');
    if count == 0 {
      assert Pow(p, 0) == 1;
    }
  }

  lemma MultipleHasFactor(q: int, a: int, b: int, x: int)
    requires q > 0 && x == a * b
    ensures Divides(q, b) ==> Divides(q, x)
  {
    if Divides(q, b) {
      DividesCombination(q, b, b, a, 0);
    }
  }

  /** What is left after all primes up to the square root is 1 or a prime. */
  lemma LeftoverIsPrime(fs: Factors, rest: int, n: nat, done: nat, b: nat)
    requires DividedUpTo(fs, rest, n, done) && RootReaches(b, n)
    requires forall q: nat | IsPrime(q) && q <= b :: q <= done
    ensures rest == 1 || (IsPrime(rest) && rest > done)
  {
    ValuePositive(fs);
    MulAtLeast(Value(fs), rest);
    if rest != 1 {
      if !IsPrime(rest) {
        var q := SmallFactor(rest);
        BelowRoot(q, b, rest);
        assert false;
      }
      MultipleDivides(rest, rest, 1);
    }
  }

  lemma InsertLeftover(fs: Factors, rest: int, n: int, done: nat)
    requires DividedUpTo(fs, rest, n, done) && IsPrime(rest) && rest > done
    ensures IsFactorization(fs + [Factor(rest, 1)], n)
  {
    ValueSnoc(fs, rest, 1);
    assert Pow(rest, 1) == rest * Pow(rest, 0) == rest;
  }

  /**
   prime_factor_multiplicities; primes is the ascending stream of all primes up to some b beyond the
   square root of |n|.
   */
  method PrimeFactorMultiplicities(n: int, primes: seq<nat>, ghost b: nat) returns (fs: Factors)
    requires primes == PrimesUpTo(b) && Abs(n) < (b + 1) * (b + 1)
    ensures n == 0 ==> fs == []
    ensures n != 0 ==> IsFactorization(fs, Abs(n))
  {
    fs := [];
    if n == 0 {
      return;
    }
    var rest: nat := Abs(n);
    var limit := FloorSqrt(rest);
    PrimesUpToIsList(b);
    ghost var done := 1;
    var i := 0;
    while i < |primes| && primes[i] <= limit && rest != 1
      invariant 0 <= i <= |primes|
      invariant DividedUpTo(fs, rest, Abs(n), done)
      invariant done == if i == 0 then 1 else primes[i - 1]
      decreases |primes| - i
    {
      var p := primes[i];
      NextListed(primes, b, i);
      var rest', count := DivideOut(rest, p);
      DivideStep(fs, rest, Abs(n), done, p, rest', count);
      if count > 0 {
        fs := fs + [Factor(p, count)];
      }
      rest := rest';
      done := p;
      i := i + 1;
    }
    if rest != 1 {
      AddLeftover(fs, rest, Abs(n), done, primes, b, i, limit);
      fs := fs + [Factor(rest, 1)];
    }
  }

  lemma AddLeftover(fs: Factors, rest: nat, n: nat, done: nat, primes: seq<nat>, b: nat, i: nat, limit: nat)
    requires IsPrimeList(primes, b) && RootReaches(b, n) && RootReaches(limit, n) && i <= |primes|
    requires DividedUpTo(fs, rest, n, done) && done == (if i == 0 then 1 else primes[i - 1])
    requires rest != 1 && (i < |primes| ==> primes[i] > limit)
    ensures IsFactorization(fs + [Factor(rest, 1)], n)
  {
    AllTried(primes, b, i, limit);
    LeftoverIsPrime(fs, rest, n, done, Min(limit, b));
    InsertLeftover(fs, rest, n, done);
  }

  lemma NextListed(primes: seq<nat>, b: int, i: nat)
    requires IsPrimeList(primes, b) && i < |primes|
    ensures IsPrime(primes[i]) && (if i == 0 then 1 else primes[i - 1]) < primes[i]
    ensures forall q | IsPrime(q) && q < primes[i] :: q <= if i == 0 then 1 else primes[i - 1]
  {
    forall q | IsPrime(q) && q < primes[i]
      ensures q <= if i == 0 then 1 else primes[i - 1]
    {
      var k :| 0 <= k < |primes| && primes[k] == q;
      assert k < i;
    }
  }

  /** When the stream has passed the limit or ended, every prime up to the smaller bound has been tried. */
  lemma AllTried(primes: seq<nat>, b: nat, i: nat, limit: nat)
    requires IsPrimeList(primes, b) && i <= |primes| && (i == |primes| || primes[i] > limit)
    ensures forall q: nat | IsPrime(q) && q <= Min(limit, b) :: q <= if i == 0 then 1 else primes[i - 1]
  {
    forall q: nat | IsPrime(q) && q <= Min(limit, b)
      ensures q <= if i == 0 then 1 else primes[i - 1]
    {
      var k :| 0 <= k < |primes| && primes[k] == q;
      assert k < i;
    }
  }
}
