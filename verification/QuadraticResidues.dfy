/**
 Squares modulo an odd prime: Euler's criterion, which mpz_legendre stands on, by counting the roots of
 x^((p-1)/2) - 1.
 */
module QuadraticResidues {
  import opened ModArith
  import opened Primes

  ghost predicate IsSquareMod(a: int, p: int)
    requires p > 0
  {
    exists x :: Cong(x * x, a, p)
  }

  // ----- polynomials have at most as many roots as their degree

  type Poly = seq<int>

  /** The value at x; entry i is the coefficient of x^i. */
  ghost function Eval(c: Poly, x: int): int {
    if c == [] then 0 else c[0] + x * Eval(c[1..], x)
  }

  /** Synthetic division by x - r. */
  ghost function DivideRoot(c: Poly, r: int): (g: Poly)
    requires c != []
    ensures |g| == |c| - 1
    ensures |c| >= 2 ==> g[|g| - 1] == c[|c| - 1]
  {
    if |c| == 1 then []
    else
      assert |c| == 2 ==> Eval(c[1..], r) == c[1] + r * 0;
      [Eval(c[1..], r)] + DivideRoot(c[1..], r)
  }

  lemma {:induction false} DivideRootValue(c: Poly, r: int, x: int)
    requires c != []
    ensures Eval(c, x) == Eval(c, r) + (x - r) * Eval(DivideRoot(c, r), x)
  {
    if |c| == 1 {
      assert c[1..] == [] && x * 0 == 0 && r * 0 == 0 && (x - r) * 0 == 0;
    } else {
      DivideRootValue(c[1..], r, x);
      var g := DivideRoot(c[1..], r);
      assert DivideRoot(c, r)[1..] == g;
      HornerStep(c[0], x, r, Eval(c[1..], r), Eval(g, x));
    }
  }

  lemma HornerStep(c: int, x: int, r: int, e: int, g: int)
    ensures c + x * (e + (x - r) * g) == c + r * e + (x - r) * (e + x * g)
  {
    assert x * ((x - r) * g) == (x - r) * (x * g);
    assert x * (e + (x - r) * g) == x * e + x * ((x - r) * g);
    assert (x - r) * (e + x * g) == (x - r) * e + (x - r) * (x * g);
    assert (x - r) * e == x * e - r * e;
  }

  ghost predicate DistinctRoots(roots: seq<int>, c: Poly, p: int)
    requires p > 0
  {
    && (forall i | 0 <= i < |roots| :: Divides(p, Eval(c, roots[i])))
    && (forall i, j | 0 <= i < j < |roots| :: !Cong(roots[i], roots[j], p))
  }

  /** Lagrange: a polynomial that is not zero modulo p has at most degree-many roots. */
  lemma {:induction false} RootBound(roots: seq<int>, c: Poly, p: int)
    requires IsPrime(p) && c != [] && !Divides(p, c[|c| - 1]) && DistinctRoots(roots, c, p)
    ensures |roots| <= |c| - 1
    decreases |c|
  {
    if roots != [] {
      var r, rest := roots[0], roots[1..];
      ConstantValue(c, r);
      if |c| > 1 {
        var g := DivideRoot(c, r);
        forall i | 0 <= i < |rest|
          ensures Divides(p, Eval(g, rest[i]))
        {
          RootOfQuotient(c, r, rest[i], p);
        }
        RootBound(rest, g, p);
      }
    }
  }

  lemma ConstantValue(c: Poly, x: int)
    requires c != []
    ensures |c| == 1 ==> Eval(c, x) == c[0]
  {
    assert x * 0 == 0;
  }

  lemma RootOfQuotient(c: Poly, r: int, x: int, p: int)
    requires IsPrime(p) && c != []
    requires Divides(p, Eval(c, r)) && Divides(p, Eval(c, x)) && !Cong(r, x, p)
    ensures Divides(p, Eval(DivideRoot(c, r), x))
  {
    DivideRootValue(c, r, x);
    OtherRoot(Eval(c, x), Eval(c, r), Eval(DivideRoot(c, r), x), r, x, p);
  }

  lemma OtherRoot(e: int, f: int, g: int, r: int, x: int, p: int)
    requires IsPrime(p) && e == f + (x - r) * g
    requires Divides(p, e) && Divides(p, f) && !Cong(r, x, p)
    ensures Divides(p, g)
  {
    DividesCombination(p, e, f, 1, -1);
    PrimeDividesProduct(p, x - r, g);
    if Cong(x, r, p) {
      CongSymmetric(x, r, p);
    }
  }

  // ----- Euler's criterion

  /** x^h - 1. */
  ghost function PowerMinusOne(h: nat): (c: Poly)
    requires h > 0
    ensures |c| == h + 1 && c[h] == 1
  {
    [-1] + Monomial(h - 1)
  }

  ghost function Monomial(h: nat): (c: Poly)
    ensures |c| == h + 1 && c[h] == 1
  {
    if h == 0 then [1] else [0] + Monomial(h - 1)
  }

  lemma {:induction false} MonomialValue(h: nat, x: int)
    ensures Eval(Monomial(h), x) == Pow(x, h)
  {
    var c := Monomial(h);
    if h == 0 {
      assert c[1..] == [] && Eval(c[1..], x) == 0 && x * 0 == 0;
    } else {
      MonomialValue(h - 1, x);
      assert c[1..] == Monomial(h - 1);
    }
  }

  lemma PowerMinusOneValue(h: nat, x: int)
    requires h > 0
    ensures Eval(PowerMinusOne(h), x) == Pow(x, h) - 1
  {
    assert PowerMinusOne(h)[1..] == Monomial(h - 1);
    MonomialValue(h - 1, x);
  }

  /** The squares 1, 4, ..., k^2. */
  ghost function Squares(k: nat): (s: seq<int>)
    ensures |s| == k && forall i | 0 <= i < k :: s[i] == (i + 1) * (i + 1)
  {
    seq(k, i => (i + 1) * (i + 1))
  }

  lemma SquaresDiffer(i: int, j: int, p: int)
    requires IsPrime(p) && 0 < i < j && i + j < p
    ensures !Cong(i * i, j * j, p)
  {
    if Cong(i * i, j * j, p) {
      assert i * i - j * j == (i - j) * (i + j);
      PrimeDividesProduct(p, i - j, i + j);
      NoLargerDivisor(p, i + j);
      CongSymmetric(i, j, p);
      NoLargerDivisor(p, j - i);
      assert false;
    }
  }

  /** Squares have the value 1 under Euler's criterion. */
  lemma SquareIsResidue(x: int, a: int, p: int)
    requires IsPrime(p) && p > 2 && !Divides(p, a) && Cong(x * x, a, p)
    ensures Cong(Pow(a, (p - 1) / 2), 1, p)
  {
    var h := (p - 1) / 2;
    OddPrime(p);
    if Divides(p, x) {
      DividesCombination(p, x, x, x, 0);
      DividesCombination(p, x * x, x * x - a, 1, -1);
      assert false;
    }
    Fermat(x, p);
    assert x * x == Pow(x, 2) by {
      assert Pow(x, 1) == x * Pow(x, 0);
    }
    PowMul(x, 2, h);
    CongPow(x * x, a, h, p);
    CongSymmetric(Pow(x * x, h), Pow(a, h), p);
    CongTransitive(Pow(a, h), Pow(x * x, h), 1, p);
  }

  /** Euler's criterion: exactly the squares have (p-1)/2-th power 1. */
  lemma EulerCriterion(a: int, p: int)
    requires IsPrime(p) && p > 2 && !Divides(p, a)
    ensures IsSquareMod(a, p) <==> Cong(Pow(a, (p - 1) / 2), 1, p)
    ensures !IsSquareMod(a, p) <==> Cong(Pow(a, (p - 1) / 2), -1, p)
  {
    var h := (p - 1) / 2;
    OddPrime(p);
    if x :| Cong(x * x, a, p) {
      SquareIsResidue(x, a, p);
    } else if Cong(Pow(a, h), 1, p) {
      TooManyRoots(a, p);
      assert false;
    }
    Fermat(a, p);
    PowAdd(a, h, h);
    RootsOfOne(Pow(a, h), p);
    if Cong(Pow(a, h), 1, p) {
      OneIsNotMinusOne(Pow(a, h), p);
    }
  }

  /** If a is a root of x^((p-1)/2) - 1, the squares leave no room for it unless it is one of them. */
  lemma TooManyRoots(a: int, p: int)
    requires IsPrime(p) && p > 2 && !Divides(p, a) && Cong(Pow(a, (p - 1) / 2), 1, p)
    ensures IsSquareMod(a, p)
  {
    var h := (p - 1) / 2;
    OddPrime(p);
    if !IsSquareMod(a, p) {
      var roots, c := Squares(h) + [a], PowerMinusOne(h);
      forall i | 0 <= i < |roots|
        ensures Divides(p, Eval(c, roots[i]))
      {
        PowerMinusOneValue(h, roots[i]);
        if i < h {
          NoLargerDivisor(p, i + 1);
          SquareNotDivisible(i + 1, p);
          CongReflexive((i + 1) * (i + 1), p);
          SquareIsResidue(i + 1, (i + 1) * (i + 1), p);
        }
      }
      forall i, j | 0 <= i < j < |roots|
        ensures !Cong(roots[i], roots[j], p)
      {
        if j < h {
          SquaresDiffer(i + 1, j + 1, p);
        }
      }
      NoLargerDivisor(p, 1);
      RootBound(roots, c, p);
      assert false;
    }
  }

  lemma SquareNotDivisible(x: int, p: int)
    requires IsPrime(p) && !Divides(p, x)
    ensures !Divides(p, x * x)
  {
    if Divides(p, x * x) {
      PrimeDividesProduct(p, x, x);
    }
  }
}
