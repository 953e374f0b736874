/** The case analysis of _sqrt_mod_prime (src/ntheory.cpp). */
module SqrtModPrime {
  import opened Combinatorics
  import opened ModArith
  import opened Primes
  import opened QuadraticResidues
  import opened TonelliShanks

  // ----- 2 is no square modulo a prime p = 8 k + 5

  /** 2 * 4 * ... * 2m. */
  ghost function Evens(m: nat): int {
    if m == 0 then 1 else Evens(m - 1) * (2 * m)
  }

  /** 1 * 3 * ... * (2m - 1). */
  ghost function Odds(m: nat): int {
    if m == 0 then 1 else Odds(m - 1) * (2 * m - 1)
  }

  lemma {:induction false} EvensAreScaled(m: nat)
    ensures Evens(m) == Pow(2, m) * Fact(m)
  {
    if m > 0 {
      EvensAreScaled(m - 1);
      Regrouped(Pow(2, m - 1), Fact(m - 1), m);
    }
  }

  lemma Regrouped(x: int, f: int, m: int)
    ensures (x * f) * (2 * m) == (2 * x) * (m * f)
  {
  }

  lemma {:induction false} EvensTimesOdds(m: nat)
    ensures Evens(m) * Odds(m) == Fact(2 * m)
  {
    if m > 0 {
      EvensTimesOdds(m - 1);
      assert Fact(2 * m) == (2 * m) * ((2 * m - 1) * Fact(2 * m - 2));
      Regrouped2(Evens(m - 1), Odds(m - 1), 2 * m, 2 * m - 1);
    }
  }

  lemma Regrouped2(e: int, o: int, x: int, y: int)
    ensures (e * x) * (o * y) == x * (y * (e * o))
  {
  }

  /** The even numbers h + 2 i above h = (p-1)/2 are the negatives of odd numbers below it. */
  lemma {:induction false} UpperEvens(p: int, m: nat, j: nat)
    requires p == 4 * m + 1 && j <= m
    ensures Cong(Evens(m + j) * Odds(m - j), Evens(m) * (Odds(m) * Pow(-1, j)), p)
  {
    if j == 0 {
      assert Odds(m) * Pow(-1, 0) == Odds(m);
      CongReflexive(Evens(m) * Odds(m), p);
    } else {
      UpperEvens(p, m, j - 1);
      var e, o := Evens(m + j - 1), Odds(m - j);
      var x, y := 2 * (m + j), 2 * (m - j + 1) - 1;
      assert x == -y + 1 * p;
      CongBy(x, -y, p, 1);
      CongReflexive(e * o, p);
      CongMul(e * o, e * o, x, -y, p);
      assert Evens(m + j) == e * x && Odds(m - j + 1) == o * y;
      SignedSwap(e, o, x, y);
      var u, v := e * (o * y), Evens(m) * (Odds(m) * Pow(-1, j - 1));
      CongReflexive(-1, p);
      CongMul(-1, -1, u, v, p);
      MoveSign(Evens(m), Odds(m), Pow(-1, j - 1));
      CongTransitive((e * x) * o, -1 * u, -1 * v, p);
    }
  }

  lemma SignedSwap(e: int, o: int, x: int, y: int)
    ensures (e * x) * o == (e * o) * x
    ensures (e * o) * (-y) == -1 * (e * (o * y))
  {
  }

  lemma MoveSign(e: int, o: int, s: int)
    ensures -1 * (e * (o * s)) == e * (o * (-1 * s))
  {
    assert o * (-1 * s) == -1 * (o * s);
    assert e * (-1 * (o * s)) == -1 * (e * (o * s));
  }

  lemma {:induction false} OddSign(j: nat)
    ensures Pow(-1, j) == if j % 2 == 0 then 1 else -1
  {
    if j > 0 {
      OddSign(j - 1);
    }
  }

  lemma TwoIsNonresidue(p: int)
    requires IsPrime(p) && p % 8 == 5
    ensures Cong(Pow(2, (p - 1) / 2), -1, p)
  {
    var m := (p - 1) / 4;
    var h := 2 * m;
    EighthParts(p, (p - 5) / 8, m);
    assert (p - 1) / 2 == h;
    ScaledFactorial(p, m);
    FactCoprime(p, h);
    CongCancel(Fact(h), Pow(2, h), -1, p);
  }

  /** h! 2^h = -h! for h = 2 m and odd m, by collecting the even factors. */
  lemma ScaledFactorial(p: int, m: nat)
    requires IsPrime(p) && p == 4 * m + 1 && m % 2 == 1
    ensures Cong(Fact(2 * m) * Pow(2, 2 * m), Fact(2 * m) * -1, p)
  {
    var h := 2 * m;
    UpperEvens(p, m, m);
    OddSign(m);
    EvensAreScaled(h);
    EvensTimesOdds(m);
    assert Odds(m - m) == 1;
    CollectFactors(Evens(m), Odds(m), Fact(h), Evens(h), Pow(2, h));
  }

  lemma CollectFactors(e: int, o: int, f: int, u: int, t: int)
    requires e * o == f && u == t * f
    ensures e * (o * -1) == f * -1 && u * 1 == f * t
  {
    assert e * (o * -1) == (e * o) * -1;
  }

  // ----- the algorithm

  /** The remainder of C++, which takes the sign of the dividend. */
  function TruncMod(x: int, p: int): (r: int)
    requires p > 0
    ensures x >= 0 ==> 0 <= r < p
    ensures x < 0 ==> -p < r <= 0
  {
    if x >= 0 then x % p else -((-x) % p)
  }

  lemma TruncModCong(x: int, p: int)
    requires p > 0
    ensures Cong(TruncMod(x, p), x, p)
  {
    CongRemainder(x, p);
    if x < 0 {
      CongRemainder(-x, p);
      CongReflexive(0, p);
      CongAdd(0, 0, (-x) % p, -x, p);
    }
  }

  /** A residue modulo p, which has the sign that the remainder of C++ gives it. */
  ghost predicate IsResidueFor(rop: int, a: int, p: int) {
    -p < rop < p && (a >= 0 ==> rop >= 0)
  }

  /** The Legendre symbol, by Euler's criterion. */
  method Legendre(a: int, p: int) returns (l: int)
    requires IsPrime(p) && p > 2
    ensures l == 0 || l == 1 || l == -1
    ensures l == 0 <==> Divides(p, a)
    ensures l == 1 <==> !Divides(p, a) && IsSquareMod(a, p)
  {
    if a % p == 0 {
      return 0;
    }
    EulerCriterion(a, p);
    var t := PowMod(a, (p - 1) / 2, p);
    PowModCong(a, (p - 1) / 2, p);
    l := if t == 1 then 1 else -1;
    if t == 1 {
      CongTransitive(Pow(a, (p - 1) / 2), t, 1, p);
    } else {
      NotYetOne(t, Pow(a, (p - 1) / 2), p);
    }
  }

  method ModTwo(a: int) returns (rop: int)
    ensures Cong(rop * rop, a, 2) && IsSquareMod(a, 2) && IsResidueFor(rop, a, 2)
  {
    rop := TruncMod(a, 2);
    TruncModCong(a, 2);
    RootModTwo(a, rop);
  }

  lemma RemaindersOfEight(p: int)
    ensures p % 4 == (p % 8) % 4 && p % 2 == (p % 8) % 2
  {
    var q, r := p / 8, p % 8;
    DivModUnique(p, q * 2 + r / 4, r % 4, 4);
    DivModUnique(p, q * 4 + r / 2, r % 2, 2);
  }

  /** The case p = 3 modulo 4: of the two roots the one that is a square itself. */
  method ThreeModFour(a: int, p: int) returns (rop: int)
    requires IsPrime(p) && p % 4 == 3 && !Divides(p, a) && IsSquareMod(a, p)
    ensures Cong(rop * rop, a, p) && 0 <= rop < p && IsSquareMod(rop, p)
  {
    rop := PowMod(a, (p + 1) / 4, p);
    RootThreeModFour(a, p);
    PowerOfSquare(a, p, (p + 1) / 4);
  }

  /** Powers of squares are squares. */
  lemma PowerOfSquare(a: int, p: int, s: nat)
    requires p > 0 && IsSquareMod(a, p)
    ensures IsSquareMod(PowMod(a, s, p), p)
  {
    var x :| Cong(x * x, a, p);
    CongPow(x * x, a, s, p);
    PowProduct(x, x, s);
    PowModCong(a, s, p);
    var y := Pow(x, s);
    CongTransitive(y * y, Pow(a, s), PowMod(a, s, p), p);
  }

  /** The case p = 5 modulo 8. */
  method FiveModEight(a: int, p: int) returns (rop: int)
    requires IsPrime(p) && p % 8 == 5 && !Divides(p, a) && IsSquareMod(a, p)
    ensures Cong(rop * rop, a, p) && IsResidueFor(rop, a, p)
  {
    var t := PowMod(a, (p - 1) / 4, p);
    if t == 1 {
      rop := PowMod(a, (p + 3) / 8, p);
      RootFiveModEight(a, p);
    } else {
      t := PowMod(4 * a, (p - 5) / 8, p);
      RootFiveModEightOther(a, p, t);
      rop := TruncMod(2 * a * t, p);
      TruncModCong(2 * a * t, p);
      if a >= 0 {
        NonNegativeProduct(2 * a, t);
      }
      RemainderRoot(rop, 2 * a * t, a, p);
    }
  }

  /**
   _sqrt_mod_prime; n is the nonresidue drawn in the Tonelli-Shanks case.  The root is reduced modulo p, and
   negative only if a is; for p = 3 modulo 4 it is the root that is a square itself.
   */
  method SqrtModPrime(a: int, p: int, n: int) returns (found: bool, rop: int)
    requires IsPrime(p)
    requires p >= 10000 && p % 8 == 1 ==> !Divides(p, n) && !IsSquareMod(n, p)
    ensures found <==> IsSquareMod(a, p)
    ensures found ==> Cong(rop * rop, a, p) && IsResidueFor(rop, a, p)
    ensures found && p % 4 == 3 ==> IsSquareMod(rop, p)
  {
    if p == 2 {
      rop := ModTwo(a);
      return true, rop;
    }
    var l := Legendre(a, p);
    if l == -1 {
      return false, 0;
    } else if l == 0 {
      rop := 0;
      ZeroRoot(a, p);
      CongReflexive(0 * 0, p);
    } else {
      rop := RootOfResidue(a, p, n);
    }
    found := true;
  }

  lemma ResidueCases(p: int)
    requires IsPrime(p) && p > 2
    ensures p % 4 != 3 && p % 8 != 5 ==> p % 8 == 1 && p % 2 == 1
  {
    OddPrime(p);
    RemaindersOfEight(p);
  }

  /** The cases for a quadratic residue. */
  method RootOfResidue(a: int, p: int, n: int) returns (rop: int)
    requires IsPrime(p) && p > 2 && !Divides(p, a) && IsSquareMod(a, p)
    requires p >= 10000 && p % 8 == 1 ==> !Divides(p, n) && !IsSquareMod(n, p)
    ensures Cong(rop * rop, a, p) && IsResidueFor(rop, a, p) && (p % 4 == 3 ==> IsSquareMod(rop, p))
  {
    ResidueCases(p);
    if p % 4 == 3 {
      rop := ThreeModFour(a, p);
    } else if p % 8 == 5 {
      rop := FiveModEight(a, p);
    } else {
      var found;
      if p < 10000 {
        found, rop := BruteForce(a, p);
      } else {
        found, rop := SqrtModTonelliShanks(a, p, n);
      }
    }
  }

  /** The search for small primes finds the least root: sq runs through the squares by adding odd numbers. */
  method BruteForce(a: int, p: int) returns (found: bool, rop: int)
    requires IsPrime(p) && p > 2 && !Divides(p, a)
    ensures found <==> IsSquareMod(a, p)
    ensures found ==> Cong(rop * rop, a, p) && 1 <= rop < p && forall x | 1 <= x < rop :: !Cong(x * x, a, p)
  {
    var r := a % p;
    CongRemainder(a, p);
    var sq := 1;
    var i := 1;
    CongReflexive(1, p);
    while i < p
      invariant 1 <= i <= p && 0 <= sq < p && Cong(sq, i * i, p)
      invariant forall x | 1 <= x < i :: !Cong(x * x, a, p)
    {
      if sq == r {
        CongSymmetric(sq, i * i, p);
        CongTransitive(i * i, sq, a, p);
        return true, i;
      }
      if Cong(i * i, a, p) {
        CongTransitive(sq, i * i, a, p);
        CongTransitive(sq, a, r, p);
        CongSmall(sq, r, p);
        assert false;
      }
      assert (i + 1) * (i + 1) == i * i + (2 * i + 1);
      CongReflexive(2 * i + 1, p);
      CongAdd(sq, i * i, 2 * i + 1, 2 * i + 1, p);
      CongRemainder(sq + 2 * i + 1, p);
      CongTransitive((sq + 2 * i + 1) % p, sq + 2 * i + 1, (i + 1) * (i + 1), p);
      sq := (sq + 2 * i + 1) % p;
      i := i + 1;
    }
    forall x
      ensures !Cong(x * x, a, p)
    {
      SmallRoot(x, a, p);
    }
    return false, 0;
  }

  /** If x is a root of a, so is x mod p, which is not zero. */
  lemma SmallRoot(x: int, a: int, p: int)
    requires IsPrime(p) && !Divides(p, a)
    ensures Cong(x * x, a, p) ==> 1 <= x % p < p && Cong((x % p) * (x % p), a, p)
  {
    if Cong(x * x, a, p) {
      CongRemainder(x, p);
      CongMul(x % p, x, x % p, x, p);
      CongTransitive((x % p) * (x % p), x * x, a, p);
      if x % p == 0 {
        CongSymmetric(0, a, p);
        assert false;
      }
    }
  }

  lemma RemainderRoot(r: int, x: int, a: int, p: int)
    requires p > 0 && r == TruncMod(x, p) && Cong(x * x, a, p)
    ensures Cong(r * r, a, p)
  {
    TruncModCong(x, p);
    CongMul(r, x, r, x, p);
    CongTransitive(r * r, x * x, a, p);
  }

  lemma RootModTwo(a: int, r: int)
    requires Cong(r, a, 2)
    ensures Cong(r * r, a, 2)
  {
    assert r * r == r + (r * (r - 1));
    assert Divides(2, r * (r - 1)) by {
      if r % 2 == 0 {
        DividesCombination(2, r, r, r - 1, 0);
      } else {
        DividesCombination(2, r - 1, r - 1, r, 0);
      }
    }
    CongReflexive(0, 2);
    CongAdd(r, a, r * (r - 1), 0, 2);
  }

  lemma ZeroRoot(a: int, p: int)
    requires p > 0 && Divides(p, a)
    ensures Cong(0 * 0, a, p)
  {
    DividesCombination(p, a, a, -1, 0);
  }

  /** If a^k is 1 modulo p and 2 s = k + 1, then a^s is a root of a. */
  lemma HalfPowerRoot(a: int, p: int, s: nat, k: nat)
    requires p > 0 && s + s == k + 1 && Cong(Pow(a, k), 1, p)
    ensures Cong(PowMod(a, s, p) * PowMod(a, s, p), a, p)
  {
    PowModCong(a, s, p);
    CongMul(PowMod(a, s, p), Pow(a, s), PowMod(a, s, p), Pow(a, s), p);
    PowAdd(a, s, s);
    assert Pow(a, k + 1) == a * Pow(a, k);
    CongReflexive(a, p);
    CongMul(a, a, Pow(a, k), 1, p);
    CongTransitive(PowMod(a, s, p) * PowMod(a, s, p), a * Pow(a, k), a * 1, p);
  }

  lemma RootThreeModFour(a: int, p: int)
    requires IsPrime(p) && p % 4 == 3 && !Divides(p, a) && IsSquareMod(a, p)
    ensures Cong(PowMod(a, (p + 1) / 4, p) * PowMod(a, (p + 1) / 4, p), a, p)
  {
    EulerCriterion(a, p);
    HalfPowerRoot(a, p, (p + 1) / 4, (p - 1) / 2);
  }

  lemma RootFiveModEight(a: int, p: int)
    requires IsPrime(p) && p % 8 == 5 && PowMod(a, (p - 1) / 4, p) == 1
    ensures Cong(PowMod(a, (p + 3) / 8, p) * PowMod(a, (p + 3) / 8, p), a, p)
  {
    PowModCong(a, (p - 1) / 4, p);
    HalfPowerRoot(a, p, (p + 3) / 8, (p - 1) / 4);
  }

  /** (2 a s)^2 = 4 a^2 (4 a)^(2 k) = a (4 a)^m */
  lemma FourthPower(a: int, p: int, k: nat, m: nat, s: int)
    requires p > 0 && m == 2 * k + 1 && s == PowMod(4 * a, k, p)
    ensures Cong((2 * a * s) * (2 * a * s), a * Pow(4 * a, m), p)
  {
    PowModCong(4 * a, k, p);
    CongMul(s, Pow(4 * a, k), s, Pow(4 * a, k), p);
    PowAdd(4 * a, k, k);
    CongReflexive(a * (4 * a), p);
    CongMul(a * (4 * a), a * (4 * a), s * s, Pow(4 * a, 2 * k), p);
    assert Pow(4 * a, m) == (4 * a) * Pow(4 * a, 2 * k);
    SquareOut(a, s, Pow(4 * a, 2 * k));
  }

  /** a^((p-1)/4) = -1 when it is not 1. */
  lemma OtherFourthRoot(a: int, p: int, m: nat)
    requires IsPrime(p) && p == 4 * m + 1 && !Divides(p, a) && IsSquareMod(a, p) && PowMod(a, m, p) != 1
    ensures Cong(Pow(a, m), -1, p)
  {
    EulerCriterion(a, p);
    PowAdd(a, m, m);
    RootsOfOne(Pow(a, m), p);
    PowModCong(a, m, p);
    NotYetOne(PowMod(a, m, p), Pow(a, m), p);
  }

  /** (4 a)^m = 4^m a^m = 2^((p-1)/2) a^m = 1 */
  lemma PowerOfFourA(a: int, p: int, m: nat)
    requires IsPrime(p) && p % 8 == 5 && p == 4 * m + 1 && Cong(Pow(a, m), -1, p)
    ensures Cong(Pow(4 * a, m), 1, p)
  {
    TwoIsNonresidue(p);
    PowMul(2, 2, m);
    assert Pow(2, 2) == 4 by {
      assert Pow(2, 1) == 2 * Pow(2, 0);
    }
    PowProduct(4, a, m);
    CongMul(Pow(4, m), -1, Pow(a, m), -1, p);
  }

  /** The other fourth power: a^((p-1)/4) = -1, and the missing sign comes from 2^((p-1)/2). */
  lemma RootFiveModEightOther(a: int, p: int, t: int)
    requires IsPrime(p) && p % 8 == 5 && !Divides(p, a) && IsSquareMod(a, p)
    requires PowMod(a, (p - 1) / 4, p) != 1 && t == PowMod(4 * a, (p - 5) / 8, p)
    ensures Cong((2 * a * t) * (2 * a * t), a, p)
  {
    var k, m := (p - 5) / 8, (p - 1) / 4;
    EighthParts(p, k, m);
    FourthPower(a, p, k, m, t);
    OtherFourthRoot(a, p, m);
    PowerOfFourA(a, p, m);
    FactorOne((2 * a * t) * (2 * a * t), a, Pow(4 * a, m), p);
  }

  lemma EighthParts(p: int, k: int, m: int)
    requires p % 8 == 5 && k == (p - 5) / 8 && m == (p - 1) / 4
    ensures p == 8 * k + 5 && m == 2 * k + 1 && p == 4 * m + 1 && m % 2 == 1
  {
  }

  lemma FactorOne(x: int, a: int, f: int, p: int)
    requires p > 0 && Cong(x, a * f, p) && Cong(f, 1, p)
    ensures Cong(x, a, p)
  {
    CongReflexive(a, p);
    CongMul(a, a, f, 1, p);
    CongTransitive(x, a * f, a * 1, p);
  }

  lemma SquareOut(a: int, s: int, x: int)
    ensures (2 * a * s) * (2 * a * s) == (a * (4 * a)) * (s * s)
    ensures (a * (4 * a)) * x == a * ((4 * a) * x)
  {
  }
}
