/** Factorials, binomials and multinomial coefficients as exact integers. */
module Combinatorics {

  function Fact(n: nat): (f: nat)
    ensures f > 0
  {
    if n == 0 then 1 else n * Fact(n - 1)
  }

  /** Binomial coefficients by Pascal's rule. */
  function Binom(n: nat, k: nat): nat {
    if k == 0 then 1 else if n == 0 then 0 else Binom(n - 1, k) + Binom(n - 1, k - 1)
  }

  lemma {:induction false} BinomAbove(n: nat, k: nat)
    requires k > n
    ensures Binom(n, k) == 0
  {
    if n > 0 {
      BinomAbove(n - 1, k);
      BinomAbove(n - 1, k - 1);
    }
  }

  lemma {:induction false} BinomFact(n: nat, k: nat)
    requires k <= n
    ensures Prod(Prod(Binom(n, k), Fact(k)), Fact(n - k)) == Fact(n)
  {
    if k == 0 {
    } else if k == n {
      BinomAbove(n - 1, n);
      BinomFact(n - 1, n - 1);
      assert Binom(n, n) == Binom(n - 1, n - 1) && Fact(0) == 1;
      Regroup(Binom(n - 1, n - 1), n, Fact(n - 1));
    } else {
      BinomFact(n - 1, k);
      BinomFact(n - 1, k - 1);
      PascalStep(Binom(n - 1, k), Binom(n - 1, k - 1), Fact(k - 1), Fact(n - k - 1), k, n - k, Fact(n - 1));
    }
  }

  lemma Regroup(b: int, n: int, f: int)
    requires b * f == f
    ensures b * (n * f) * 1 == n * f
  {
    assert b * (n * f) == n * (b * f);
  }

  lemma PascalStep(b: int, c: int, f: int, g: int, k: int, m: int, h: int)
    requires b * (k * f) * g == h
    requires c * f * (m * g) == h
    ensures (b + c) * (k * f) * (m * g) == (k + m) * h
  {
    assert b * (k * f) * (m * g) == m * (b * (k * f) * g);
    assert c * (k * f) * (m * g) == k * (c * f * (m * g));
    assert (b + c) * (k * f) * (m * g) == b * (k * f) * (m * g) + c * (k * f) * (m * g);
  }

  // ----- vectors of naturals

  /** A product, named so that equal factors give equal products without arithmetic. */
  function Prod(a: int, b: int): int {
    a * b
  }

  lemma ProdNat(a: nat, b: nat)
    ensures Prod(a, b) >= 0 && (a > 0 && b > 0 ==> Prod(a, b) > 0)
  {
  }

  lemma ProdAssociative(a: int, b: int, c: int)
    ensures Prod(a, Prod(b, c)) == Prod(Prod(a, b), c)
  {
    assert a * (b * c) == (a * b) * c;
  }

  lemma ProdCommutative(a: int, b: int)
    ensures Prod(a, b) == Prod(b, a)
  {
  }

  lemma ProdInterchange(a: int, b: int, c: int, d: int)
    ensures Prod(Prod(a, b), Prod(c, d)) == Prod(Prod(a, c), Prod(b, d))
  {
    assert (a * b) * (c * d) == (a * c) * (b * d);
  }

  lemma ProdCancel(a: int, b: int, c: int)
    requires c != 0 && Prod(a, c) == Prod(b, c)
    ensures a == b
  {
    assert (a - b) * c == 0;
  }

  lemma ProdDistributes(a: int, b: int, c: int)
    ensures Prod(a + b, c) == Prod(a, c) + Prod(b, c) && Prod(c, a + b) == Prod(c, a) + Prod(c, b)
  {
  }

  function Sum(t: seq<nat>): nat {
    if t == [] then 0 else t[0] + Sum(t[1..])
  }

  function FactProduct(t: seq<nat>): (f: nat)
    ensures f > 0
  {
    if t == [] then 1 else
    ProdNat(Fact(t[0]), FactProduct(t[1..]));
    Prod(Fact(t[0]), FactProduct(t[1..]))
  }

  /** The multinomial coefficient (t_0 + ... + t_(m-1))! / (t_0! ... t_(m-1)!). */
  function Multinomial(t: seq<nat>): nat {
    if t == [] then 1 else
    ProdNat(Binom(Sum(t), t[0]), Multinomial(t[1..]));
    Prod(Binom(Sum(t), t[0]), Multinomial(t[1..]))
  }

  lemma {:induction false} MultinomialFact(t: seq<nat>)
    ensures Prod(Multinomial(t), FactProduct(t)) == Fact(Sum(t))
  {
    if t != [] {
      MultinomialFact(t[1..]);
      BinomFact(Sum(t), t[0]);
      ProdInterchange(Binom(Sum(t), t[0]), Multinomial(t[1..]), Fact(t[0]), FactProduct(t[1..]));
      assert Sum(t) - t[0] == Sum(t[1..]);
    }
  }

  /** This determines the coefficient: it is the exact quotient of the factorials. */
  lemma MultinomialIsQuotient(t: seq<nat>, c: int)
    requires Prod(c, FactProduct(t)) == Fact(Sum(t))
    ensures c == Multinomial(t)
  {
    MultinomialFact(t);
    ProdCancel(c, Multinomial(t), FactProduct(t));
  }

  lemma {:induction false} SumSplit(t: seq<nat>, k: nat)
    requires k <= |t|
    ensures Sum(t) == Sum(t[..k]) + Sum(t[k..])
  {
    if k > 0 {
      SumSplit(t[1..], k - 1);
      assert t[..k][1..] == t[1..][..k - 1] && t[k..] == t[1..][k - 1..];
    } else {
      assert t[0..] == t && t[..0] == [];
    }
  }

  lemma {:induction false} SumUpdate(t: seq<nat>, k: nat, x: nat)
    requires k < |t|
    ensures Sum(t[k := x]) == Sum(t) - t[k] + x
  {
    if k == 0 {
      assert t[k := x][1..] == t[1..];
    } else {
      assert t[k := x][1..] == t[1..][k - 1 := x];
      SumUpdate(t[1..], k - 1, x);
    }
  }

  lemma {:induction false} SumAtLeast(t: seq<nat>, k: nat)
    requires k < |t|
    ensures t[k] <= Sum(t)
  {
    if k > 0 {
      SumAtLeast(t[1..], k - 1);
    }
  }

  lemma {:induction false} SumZero(t: seq<nat>)
    requires forall k | 0 <= k < |t| :: t[k] == 0
    ensures Sum(t) == 0
  {
    if t != [] {
      SumZero(t[1..]);
    }
  }

  /** Raising one entry multiplies the product of factorials by it. */
  lemma {:induction false} FactProductUp(t: seq<nat>, k: nat)
    requires k < |t|
    ensures FactProduct(t[k := t[k] + 1]) == Prod(FactProduct(t), t[k] + 1)
  {
    var u, c := t[k := t[k] + 1], t[k] + 1;
    if k == 0 {
      assert u[1..] == t[1..];
      assert Fact(u[0]) == Prod(c, Fact(t[0]));
      ProdAssociative(c, Fact(t[0]), FactProduct(t[1..]));
      ProdCommutative(c, FactProduct(t));
    } else {
      assert u[1..] == t[1..][k - 1 := c];
      FactProductUp(t[1..], k - 1);
      ProdAssociative(Fact(t[0]), FactProduct(t[1..]), c);
    }
  }
}
