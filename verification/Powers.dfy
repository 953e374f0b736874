/**
 Powers of reals with integer exponents, and sums and products over finite sets.

 Products are written with Times, so that equal factors give equal products without arithmetic.
 */
module Powers {

  function Times(x: real, y: real): real {
    x * y
  }

  lemma TimesAssociative(x: real, y: real, z: real)
    ensures Times(x, Times(y, z)) == Times(Times(x, y), z)
  {
    assert x * (y * z) == (x * y) * z;
  }

  lemma TimesCommutative(x: real, y: real)
    ensures Times(x, y) == Times(y, x)
  {
  }

  /** x (y z) = y (x z) */
  lemma TimesExchange(x: real, y: real, z: real)
    ensures Times(x, Times(y, z)) == Times(y, Times(x, z))
  {
    TimesAssociative(x, y, z);
    TimesAssociative(y, x, z);
    TimesCommutative(x, y);
  }

  /** (x p) (y q) = (x y) (p q) */
  lemma TimesInterchange(x: real, p: real, y: real, q: real)
    ensures Times(Times(x, p), Times(y, q)) == Times(Times(x, y), Times(p, q))
  {
    TimesAssociative(x, p, Times(y, q));
    TimesExchange(p, y, q);
    TimesAssociative(x, y, Times(p, q));
  }

  lemma TimesDistributes(x: real, y: real, z: real)
    ensures Times(x + y, z) == Times(x, z) + Times(y, z)
    ensures Times(z, x + y) == Times(z, x) + Times(z, y)
  {
    assert (x + y) * z == x * z + y * z;
  }

  lemma TimesNegates(x: real, y: real)
    ensures Times(-x, y) == -Times(x, y) == Times(x, -y)
  {
  }

  lemma RealProduct(a: int, b: int)
    ensures (a * b) as real == Times(a as real, b as real)
  {
  }

  lemma TimesUnits(x: real)
    ensures Times(1.0, x) == x == Times(x, 1.0) && Times(0.0, x) == 0.0 == Times(x, 0.0)
  {
  }

  lemma TimesNonzero(x: real, y: real)
    ensures Times(x, y) != 0.0 <==> x != 0.0 && y != 0.0
  {
  }

  /** u p q = u when p q = 1. */
  lemma TimesCancel(u: real, p: real, q: real)
    requires Times(p, q) == 1.0
    ensures Times(Times(u, p), q) == u
  {
    TimesAssociative(u, p, q);
    TimesUnits(u);
  }

  lemma InverseIsUnique(x: real, y: real, z: real)
    requires Times(x, y) == 1.0 && Times(x, z) == 1.0
    ensures y == z
  {
    TimesCommutative(x, y);
    TimesAssociative(y, x, z);
    TimesUnits(y);
    TimesUnits(z);
  }

  function Inverse(x: real): (y: real)
    ensures x != 0.0 ==> y != 0.0
  {
    if x == 0.0 then 0.0 else 1.0 / x
  }

  lemma InverseTimes(x: real)
    requires x != 0.0
    ensures Times(x, Inverse(x)) == 1.0
  {
  }

  // ----- powers

  function PowerNat(x: real, n: nat): real {
    if n == 0 then 1.0 else Times(x, PowerNat(x, n - 1))
  }

  function Power(x: real, n: int): real {
    if n >= 0 then PowerNat(x, n) else PowerNat(Inverse(x), -n)
  }

  lemma {:induction false} PowerNatAdd(x: real, a: nat, b: nat)
    ensures PowerNat(x, a + b) == Times(PowerNat(x, a), PowerNat(x, b))
  {
    if a == 0 {
      TimesUnits(PowerNat(x, b));
    } else {
      PowerNatAdd(x, a - 1, b);
      TimesAssociative(x, PowerNat(x, a - 1), PowerNat(x, b));
    }
  }

  lemma {:induction false} PowerNatTimes(x: real, y: real, n: nat)
    ensures PowerNat(Times(x, y), n) == Times(PowerNat(x, n), PowerNat(y, n))
  {
    if n == 0 {
      TimesUnits(1.0);
    } else {
      PowerNatTimes(x, y, n - 1);
      TimesInterchange(x, PowerNat(x, n - 1), y, PowerNat(y, n - 1));
    }
  }

  lemma {:induction false} PowerNatOne(n: nat)
    ensures PowerNat(1.0, n) == 1.0
  {
    if n > 0 {
      PowerNatOne(n - 1);
      TimesUnits(1.0);
    }
  }

  lemma {:induction false} PowerNatNonzero(x: real, n: nat)
    requires x != 0.0
    ensures PowerNat(x, n) != 0.0
  {
    if n > 0 {
      PowerNatNonzero(x, n - 1);
      TimesNonzero(x, PowerNat(x, n - 1));
    }
  }

  lemma {:induction false} PowerNatPower(x: real, a: nat, b: nat)
    ensures PowerNat(PowerNat(x, a), b) == PowerNat(x, a * b)
  {
    if b > 0 {
      PowerNatPower(x, a, b - 1);
      assert a * (b - 1) >= 0 && a * b == a + a * (b - 1);
      PowerNatAdd(x, a, a * (b - 1));
    }
  }

  lemma PowerNonzero(x: real, n: int)
    requires x != 0.0
    ensures Power(x, n) != 0.0
  {
    if n >= 0 {
      PowerNatNonzero(x, n);
    } else {
      PowerNatNonzero(Inverse(x), -n);
    }
  }

  lemma PowerNatInverse(x: real, n: nat)
    requires x != 0.0
    ensures Times(PowerNat(x, n), PowerNat(Inverse(x), n)) == 1.0
  {
    PowerNatTimes(x, Inverse(x), n);
    InverseTimes(x);
    PowerNatOne(n);
  }

  lemma PowerMinus(x: real, n: int)
    requires x != 0.0
    ensures Times(Power(x, n), Power(x, -n)) == 1.0
  {
    if n > 0 {
      PowerNatInverse(x, n);
    } else if n < 0 {
      PowerNatInverse(x, -n);
      TimesCommutative(Power(x, n), Power(x, -n));
    } else {
      TimesUnits(1.0);
    }
  }

  lemma PowerAddBelow(x: real, a: nat, b: nat)
    requires x != 0.0 && a <= b
    ensures Times(PowerNat(x, b), PowerNat(Inverse(x), a)) == PowerNat(x, b - a)
    ensures Times(PowerNat(x, a), PowerNat(Inverse(x), b)) == PowerNat(Inverse(x), b - a)
  {
    var y := Inverse(x);
    PowerNatInverse(x, a);
    PowerNatAdd(x, b - a, a);
    TimesCancel(PowerNat(x, b - a), PowerNat(x, a), PowerNat(y, a));
    PowerNatAdd(y, b - a, a);
    TimesCommutative(PowerNat(x, a), PowerNat(y, a));
    TimesCancel(PowerNat(y, b - a), PowerNat(y, a), PowerNat(x, a));
    TimesCommutative(PowerNat(x, a), PowerNat(y, b));
  }

  /** x^(a + b) = x^a x^b, also for negative exponents when x is not zero. */
  lemma PowerAdd(x: real, a: int, b: int)
    requires x != 0.0 || (a >= 0 && b >= 0)
    ensures Power(x, a + b) == Times(Power(x, a), Power(x, b))
  {
    if a >= 0 && b >= 0 {
      PowerNatAdd(x, a, b);
    } else if a < 0 && b < 0 {
      PowerNatAdd(Inverse(x), -a, -b);
    } else if a < 0 {
      PowerAddMixed(x, b, -a);
      TimesCommutative(Power(x, a), Power(x, b));
    } else {
      PowerAddMixed(x, a, -b);
    }
  }

  lemma PowerAddMixed(x: real, a: int, b: int)
    requires x != 0.0 && a >= 0 && b > 0
    ensures Power(x, a - b) == Times(Power(x, a), Power(x, -b))
  {
    if a >= b {
      PowerAddBelow(x, b, a);
    } else {
      PowerAddBelow(x, a, b);
    }
  }

  lemma InverseOfTimes(x: real, y: real)
    ensures Inverse(Times(x, y)) == Times(Inverse(x), Inverse(y))
  {
    TimesNonzero(x, y);
    if x != 0.0 && y != 0.0 {
      InverseTimes(x);
      InverseTimes(y);
      InverseTimes(Times(x, y));
      TimesInterchange(x, y, Inverse(x), Inverse(y));
      TimesInterchange(x, Inverse(x), y, Inverse(y));
      TimesUnits(1.0);
      InverseIsUnique(Times(x, y), Inverse(Times(x, y)), Times(Inverse(x), Inverse(y)));
    } else {
      TimesUnits(Inverse(x));
      TimesUnits(Inverse(y));
    }
  }

  /** (x y)^n = x^n y^n */
  lemma PowerTimes(x: real, y: real, n: int)
    ensures Power(Times(x, y), n) == Times(Power(x, n), Power(y, n))
  {
    if n >= 0 {
      PowerNatTimes(x, y, n);
    } else {
      InverseOfTimes(x, y);
      PowerNatTimes(Inverse(x), Inverse(y), -n);
    }
  }

  lemma PowerOne(n: int)
    ensures Power(1.0, n) == 1.0
  {
    PowerNatOne(if n >= 0 then n else -n);
    assert Inverse(1.0) == 1.0;
  }

  lemma {:induction false} PowerNatMinusOne(n: nat)
    ensures PowerNat(-1.0, n) == if n % 2 == 0 then 1.0 else -1.0
  {
    if n > 0 {
      PowerNatMinusOne(n - 1);
    }
  }

  lemma PowerMinusOne(n: int)
    ensures Power(-1.0, n) == if n % 2 == 0 then 1.0 else -1.0
  {
    PowerNatMinusOne(if n >= 0 then n else -n);
    assert Inverse(-1.0) == -1.0;
  }

  lemma {:induction false} PowerPowerNat(x: real, a: int, b: nat)
    requires x != 0.0 || a >= 0
    ensures PowerNat(Power(x, a), b) == Power(x, a * b)
  {
    if a >= 0 {
      PowerNatPower(x, a, b);
      assert a * b >= 0;
    } else {
      PowerNatPower(Inverse(x), -a, b);
      assert -a * b == -(a * b);
      if b > 0 {
        assert a * b < 0;
      }
    }
  }

  lemma InverseOfPower(x: real, a: int)
    requires x != 0.0
    ensures Inverse(Power(x, a)) == Power(x, -a)
  {
    PowerNonzero(x, a);
    PowerMinus(x, a);
    InverseTimes(Power(x, a));
    InverseIsUnique(Power(x, a), Inverse(Power(x, a)), Power(x, -a));
  }

  /** (x^a)^b = x^(a b) */
  lemma PowerPower(x: real, a: int, b: int)
    requires x != 0.0 || (a >= 0 && b >= 0)
    ensures Power(Power(x, a), b) == Power(x, a * b)
  {
    if b >= 0 {
      PowerPowerNat(x, a, b);
    } else {
      InverseOfPower(x, a);
      PowerPowerNat(x, -a, -b);
      assert -a * -b == a * b;
    }
  }

  // ----- sums and products over finite sets

  ghost function Pick<K>(s: set<K>): (k: K)
    requires s != {}
    ensures k in s
  {
    var k :| k in s; k
  }

  ghost function SumOver<K(!new)>(s: set<K>, f: K -> real): real {
    if s == {} then 0.0 else f(Pick(s)) + SumOver(s - {Pick(s)}, f)
  }

  /** The order of summation does not matter. */
  lemma {:induction false} SumTake<K(!new)>(s: set<K>, f: K -> real, k: K)
    requires k in s
    ensures SumOver(s, f) == f(k) + SumOver(s - {k}, f)
  {
    var j := Pick(s);
    if j != k {
      SumTake(s - {j}, f, k);
      SumTake(s - {k}, f, j);
      assert s - {j} - {k} == s - {k} - {j};
    }
  }

  lemma {:induction false} SumSame<K(!new)>(s: set<K>, f: K -> real, g: K -> real)
    requires forall k | k in s :: f(k) == g(k)
    ensures SumOver(s, f) == SumOver(s, g)
  {
    if s != {} {
      SumSame(s - {Pick(s)}, f, g);
    }
  }

  lemma {:induction false} SumZero<K(!new)>(s: set<K>, f: K -> real)
    requires forall k | k in s :: f(k) == 0.0
    ensures SumOver(s, f) == 0.0
  {
    if s != {} {
      SumZero(s - {Pick(s)}, f);
    }
  }

  ghost function ProductOver<K(!new)>(s: set<K>, f: K -> real): real {
    if s == {} then 1.0 else Times(f(Pick(s)), ProductOver(s - {Pick(s)}, f))
  }

  lemma {:induction false} ProductTake<K(!new)>(s: set<K>, f: K -> real, k: K)
    requires k in s
    ensures ProductOver(s, f) == Times(f(k), ProductOver(s - {k}, f))
  {
    var j := Pick(s);
    if j != k {
      ProductTake(s - {j}, f, k);
      ProductTake(s - {k}, f, j);
      assert s - {j} - {k} == s - {k} - {j};
      TimesExchange(f(j), f(k), ProductOver(s - {j} - {k}, f));
    }
  }

  lemma {:induction false} ProductSame<K(!new)>(s: set<K>, f: K -> real, g: K -> real)
    requires forall k | k in s :: f(k) == g(k)
    ensures ProductOver(s, f) == ProductOver(s, g)
  {
    if s != {} {
      ProductSame(s - {Pick(s)}, f, g);
    }
  }
}
