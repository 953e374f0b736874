/** Square roots modulo a prime (src/ntheory.cpp): Tonelli-Shanks and the case analysis around it. */
module TonelliShanks {
  import opened ModArith
  import opened Primes
  import opened QuadraticResidues

  /** mpz_powm for a nonnegative exponent. */
  function PowMod(b: int, e: nat, n: int): (r: int)
    requires n > 0
    ensures 0 <= r < n
  {
    Pow(b, e) % n
  }

  lemma PowModCong(b: int, e: nat, n: int)
    requires n > 0
    ensures Cong(PowMod(b, e, n), Pow(b, e), n) && Cong(Pow(b, e), PowMod(b, e, n), n)
  {
    CongRemainder(Pow(b, e), n);
  }

  function Two(e: nat): (r: int)
    ensures r > 0
  {
    PowPositive(2, e);
    Pow(2, e)
  }

  lemma TwoStep(e: nat)
    requires e > 0
    ensures Two(e) == 2 * Two(e - 1)
  {
  }

  lemma TwoSplit(a: nat, b: nat)
    ensures Two(a + b) == Two(a) * Two(b)
  {
    PowAdd(2, a, b);
  }

  /** Raising to Two(e) is squaring e times. */
  lemma SquareStep(x: int, e: nat)
    ensures Pow(x, Two(e + 1)) == Pow(x, Two(e)) * Pow(x, Two(e))
  {
    PowAdd(x, Two(e), Two(e));
  }

  /** Writes x as 2^e q with q odd: mpz_scan1 and mpz_tdiv_q_2exp. */
  method SplitPowerOfTwo(x: int) returns (e: nat, q: nat)
    requires x > 0
    ensures x == Two(e) * q && q % 2 == 1
  {
    e, q := 0, x;
    while q % 2 == 0
      invariant q > 0 && x == Two(e) * q
      decreases q
    {
      assert q == 2 * (q / 2);
      assert Two(e) * (2 * (q / 2)) == (2 * Two(e)) * (q / 2);
      q := q / 2;
      e := e + 1;
    }
  }

  /** How often b must be squared to reach 1. */
  method SquaringsToOne(b: int, p: int, e: nat) returns (m: nat)
    requires p > 1 && 0 <= b < p && Cong(Pow(b, Two(e)), 1, p)
    ensures m <= e && Cong(Pow(b, Two(m)), 1, p)
    ensures forall i | 0 <= i < m :: !Cong(Pow(b, Two(i)), 1, p)
  {
    m := 0;
    var t := b;
    assert Pow(b, 1) == b * Pow(b, 0) == b;
    CongReflexive(b, p);
    while t != 1
      invariant m <= e && 0 <= t < p && Cong(t, Pow(b, Two(m)), p)
      invariant forall i | 0 <= i < m :: !Cong(Pow(b, Two(i)), 1, p)
      decreases e - m
    {
      NotYetOne(t, Pow(b, Two(m)), p);
      CongMul(t, Pow(b, Two(m)), t, Pow(b, Two(m)), p);
      SquareStep(b, m);
      assert Pow(t, 2) == t * t by {
        assert Pow(t, 1) == t * Pow(t, 0);
      }
      PowModCong(t, 2, p);
      CongTransitive(PowMod(t, 2, p), t * t, Pow(b, Two(m + 1)), p);
      t := PowMod(t, 2, p);
      m := m + 1;
    }
    CongSymmetric(t, Pow(b, Two(m)), p);
  }

  lemma NotYetOne(t: int, x: int, p: int)
    requires p > 1 && 0 <= t < p && t != 1 && Cong(t, x, p)
    ensures !Cong(x, 1, p)
  {
    if Cong(x, 1, p) {
      CongTransitive(t, x, 1, p);
      CongSmall(t, 1, p);
    }
  }

  /**
   The loop invariant: y has order 2^e, the order of b divides 2^e, and rop is a root of a b.
   The first round may still find out that a has no root; after it b has order below 2^e.
   */
  ghost predicate LoopOk(a: int, p: int, e: nat, y: int, b: int, rop: int, first: bool)
    requires p > 2
  {
    && e >= 1 && 0 <= b < p && 0 <= rop < p
    && Cong(Pow(y, Two(e - 1)), -1, p)
    && Cong(rop * rop, a * b, p)
    && Cong(Pow(b, Two(e)), 1, p)
    && (first ==> Cong(Pow(b, Two(e - 1)), Pow(a, (p - 1) / 2), p))
    && (!first ==> Cong(Pow(b, Two(e - 1)), 1, p) && Cong(Pow(a, (p - 1) / 2), 1, p))
  }

  /** With p - 1 = 2^e q, half of it is q 2^(e-1). */
  lemma HalfOrder(p: int, e: nat, q: nat)
    requires IsPrime(p) && p > 2 && p - 1 == Two(e) * q && q % 2 == 1
    ensures e >= 1 && (p - 1) / 2 == q * Two(e - 1) && q * Two(e) == p - 1
  {
    OddPrime(p);
    assert e >= 1 by {
      assert Two(0) * q == q;
    }
    TwoStep(e);
    assert Two(e) * q == 2 * (q * Two(e - 1));
  }

  /** The square of a^((q+1)/2) is a a^q. */
  lemma StartRoot(a: int, p: int, q: nat)
    requires p > 2 && q % 2 == 1
    ensures Cong(PowMod(a, (q + 1) / 2, p) * PowMod(a, (q + 1) / 2, p), a * PowMod(a, q, p), p)
  {
    var s := (q + 1) / 2;
    assert s + s == 1 + q;
    PowAdd(a, s, s);
    PowModCong(a, s, p);
    PowModCong(a, q, p);
    CongMul(PowMod(a, s, p), Pow(a, s), PowMod(a, s, p), Pow(a, s), p);
    CongReflexive(a, p);
    CongSymmetric(PowMod(a, q, p), Pow(a, q), p);
    CongMul(a, a, Pow(a, q), PowMod(a, q, p), p);
    CongTransitive(PowMod(a, s, p) * PowMod(a, s, p), a * Pow(a, q), a * PowMod(a, q, p), p);
  }

  lemma StartLoop(a: int, n: int, p: int, e: nat, q: nat)
    requires IsPrime(p) && p > 2 && !Divides(p, a) && !Divides(p, n) && !IsSquareMod(n, p)
    requires p - 1 == Two(e) * q && q % 2 == 1
    ensures LoopOk(a, p, e, PowMod(n, q, p), PowMod(a, q, p), PowMod(a, (q + 1) / 2, p), true)
  {
    var h := (p - 1) / 2;
    HalfOrder(p, e, q);
    EulerCriterion(n, p);
    Fermat(a, p);
    PowerOfRemainder(n, q, Two(e - 1), p);
    PowerOfRemainder(a, q, Two(e - 1), p);
    PowerOfRemainder(a, q, Two(e), p);
    CongTransitive(Pow(PowMod(n, q, p), Two(e - 1)), Pow(n, h), -1, p);
    CongTransitive(Pow(PowMod(a, q, p), Two(e)), Pow(a, p - 1), 1, p);
    StartRoot(a, p, q);
  }

  /** (x^q mod p)^k = x^(q k). */
  lemma PowerOfRemainder(x: int, q: nat, k: nat, p: int)
    requires p > 0 && q * k >= 0
    ensures Cong(Pow(PowMod(x, q, p), k), Pow(x, q * k), p)
  {
    PowModCong(x, q, p);
    CongPow(PowMod(x, q, p), Pow(x, q), k, p);
    PowMul(x, q, k);
  }

  /** One round: e drops to m, and both invariant powers move along. */
  lemma RoundKeeps(a: int, p: int, e: nat, y: int, b: int, rop: int, first: bool, m: nat, t: int)
    requires IsPrime(p) && p > 2 && LoopOk(a, p, e, y, b, rop, first) && b != 1
    requires m < e && Cong(Pow(b, Two(m)), 1, p) && forall i | 0 <= i < m :: !Cong(Pow(b, Two(i)), 1, p)
    requires t == PowMod(y, Two(e - m - 1), p)
    ensures m >= 1
    ensures LoopOk(a, p, m, PowMod(t, 2, p), (b * PowMod(t, 2, p)) % p, (rop * t) % p, false)
  {
    var y' := PowMod(t, 2, p);
    if m == 0 {
      assert Pow(b, 1) == b * Pow(b, 0) == b;
      CongSmall(b, 1, p);
      assert false;
    }
    RoundPowers(p, e, y, b, m, t);
    RoundRoot(a, p, b, rop, t);
    if first {
      LowerPower(b, m, e - 1, p);
      CongSymmetric(Pow(b, Two(e - 1)), Pow(a, (p - 1) / 2), p);
      CongTransitive(Pow(a, (p - 1) / 2), Pow(b, Two(e - 1)), 1, p);
    }
    var b' := (b * y') % p;
    LowerPower(b', m - 1, m, p);
  }

  /** Once a repeated square is 1, later ones are too. */
  lemma LowerPower(b: int, m: nat, e: nat, p: int)
    requires p > 0 && m <= e && Cong(Pow(b, Two(m)), 1, p)
    ensures Cong(Pow(b, Two(e)), 1, p)
  {
    TwoSplit(m, e - m);
    PowMul(b, Two(m), Two(e - m));
    CongPowOne(Pow(b, Two(m)), Two(e - m), p);
  }

  lemma RoundPowers(p: int, e: nat, y: int, b: int, m: nat, t: int)
    requires IsPrime(p) && p > 2 && 1 <= m < e && Cong(Pow(y, Two(e - 1)), -1, p)
    requires Cong(Pow(b, Two(m)), 1, p) && !Cong(Pow(b, Two(m - 1)), 1, p)
    requires t == PowMod(y, Two(e - m - 1), p)
    ensures Cong(Pow(PowMod(t, 2, p), Two(m - 1)), -1, p)
    ensures Cong(Pow((b * PowMod(t, 2, p)) % p, Two(m - 1)), 1, p)
  {
    var y', k := PowMod(t, 2, p), Two(m - 1);
    // y'^k = t^(2 k) = t^Two(m) = y^Two(e - 1) = -1
    TwoStep(m);
    PowerOfRemainder(t, 2, k, p);
    PowerOfRemainder(y, Two(e - m - 1), Two(m), p);
    TwoSplit(e - m - 1, m);
    CongTransitive(Pow(y', k), Pow(t, Two(m)), Pow(y, Two(e - 1)), p);
    CongTransitive(Pow(y', k), Pow(y, Two(e - 1)), -1, p);
    // b^k squares to 1 without being 1
    SquareStep(b, m - 1);
    RootsOfOne(Pow(b, k), p);
    CongMul(Pow(b, k), -1, Pow(y', k), -1, p);
    PowProduct(b, y', k);
    CongRemainder(b * y', p);
    CongPow((b * y') % p, b * y', k, p);
    CongTransitive(Pow((b * y') % p, k), Pow(b * y', k), 1, p);
  }

  lemma SquareOfRemainder(x: int, t: int, p: int, r: int)
    requires p > 0 && r == (x * t) % p
    ensures Cong(r * r, (x * x) * (t * t), p)
  {
    CongRemainder(x * t, p);
    CongMul(r, x * t, r, x * t, p);
    FourFactors(x, t, x, t);
  }

  lemma RoundRoot(a: int, p: int, b: int, rop: int, t: int)
    requires p > 2 && Cong(rop * rop, a * b, p)
    ensures Cong(((rop * t) % p) * ((rop * t) % p), a * ((b * PowMod(t, 2, p)) % p), p)
  {
    var r', y', b' := (rop * t) % p, PowMod(t, 2, p), (b * PowMod(t, 2, p)) % p;
    SquareOfRemainder(rop, t, p, r');
    SquareByPower(t, p, y');
    CongMul(rop * rop, a * b, t * t, y', p);
    CongTransitive(r' * r', (rop * rop) * (t * t), (a * b) * y', p);
    LastFactorReduced(a, b, y', p, b');
    CongTransitive(r' * r', (a * b) * y', a * b', p);
  }

  lemma SquareByPower(t: int, p: int, y: int)
    requires p > 0 && y == PowMod(t, 2, p)
    ensures Cong(t * t, y, p)
  {
    assert Pow(t, 2) == t * t by {
      assert Pow(t, 1) == t * Pow(t, 0);
    }
    PowModCong(t, 2, p);
  }

  lemma LastFactorReduced(a: int, b: int, y: int, p: int, z: int)
    requires p > 0 && z == (b * y) % p
    ensures Cong((a * b) * y, a * z, p)
  {
    CongReflexive(a, p);
    CongRemainder(b * y, p);
    CongMul(a, a, b * y, z, p);
    assert (a * b) * y == a * (b * y);
  }

  /**
   _sqrt_mod_tonelli_shanks, with n the drawn number whose Legendre symbol is -1: decides whether a is
   a square modulo p, and if so returns a root.
   */
  method SqrtModTonelliShanks(a: int, p: int, n: int) returns (found: bool, rop: int)
    requires IsPrime(p) && p > 2 && !Divides(p, a)
    requires !Divides(p, n) && !IsSquareMod(n, p)
    ensures found <==> IsSquareMod(a, p)
    ensures found ==> 0 <= rop < p && Cong(rop * rop, a, p)
  {
    var e, q := SplitPowerOfTwo(p - 1);
    var y := PowMod(n, q, p);
    var b := PowMod(a, q, p);
    rop := PowMod(a, (q + 1) / 2, p);
    StartLoop(a, n, p, e, q);
    EulerCriterion(a, p);
    ghost var first := true;
    while b != 1
      invariant LoopOk(a, p, e, y, b, rop, first)
      decreases e
    {
      var m := SquaringsToOne(b, p, e);
      if m == e {
        assert !Cong(Pow(b, Two(e - 1)), 1, p);
        NoRoot(Pow(b, Two(e - 1)), Pow(a, (p - 1) / 2), p, first);
        return false, rop;
      }
      var t := PowMod(y, Two(e - m - 1), p);
      RoundKeeps(a, p, e, y, b, rop, first, m, t);
      y := PowMod(t, 2, p);
      e := m;
      rop := (rop * t) % p;
      b := (b * y) % p;
      first := false;
    }
    assert a * b == a;
    return true, rop;
  }

  lemma NoRoot(x: int, z: int, p: int, first: bool)
    requires p > 0 && !Cong(x, 1, p) && (first ==> Cong(x, z, p)) && (!first ==> Cong(x, 1, p))
    ensures !Cong(z, 1, p)
  {
    if Cong(z, 1, p) {
      CongTransitive(x, z, 1, p);
    }
  }
}
