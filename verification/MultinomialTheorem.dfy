/** The binomial and multinomial theorems over the reals, for the coefficients of Combinatorics. */
module MultinomialTheorem {
  import opened Combinatorics
  import opened MultinomialTable
  import opened Powers

  // ----- the binomial theorem

  ghost function BinomialTerm(x: real, y: real, n: nat, h: nat): real
    requires h <= n
  {
    Times(Binom(n, h) as real, Times(PowerNat(x, h), PowerNat(y, n - h)))
  }

  ghost function BinomialPrefix(x: real, y: real, n: nat, j: nat): real
    requires j <= n + 1
  {
    if j == 0 then 0.0 else BinomialPrefix(x, y, n, j - 1) + BinomialTerm(x, y, n, j - 1)
  }

  /** Moving a factor into the last product: z (c (p q)) = c (p (z q)). */
  lemma MoveIn(z: real, c: real, p: real, q: real)
    ensures Times(z, Times(c, Times(p, q))) == Times(c, Times(p, Times(z, q))) == Times(c, Times(Times(z, p), q))
  {
    TimesExchange(z, c, Times(p, q));
    TimesExchange(z, p, q);
    TimesAssociative(z, p, q);
  }

  /** Pascal's rule for a term that has both neighbours. */
  lemma PascalTerm(x: real, y: real, n: nat, h: nat)
    requires 0 < h < n
    ensures BinomialTerm(x, y, n, h) == Times(y, BinomialTerm(x, y, n - 1, h)) + Times(x,
      BinomialTerm(x, y, n - 1, h - 1))
  {
    var p, q := PowerNat(x, h), PowerNat(y, n - h);
    TimesDistributes(Binom(n - 1, h) as real, Binom(n - 1, h - 1) as real, Times(p, q));
    MoveIn(y, Binom(n - 1, h) as real, p, PowerNat(y, n - 1 - h));
    MoveIn(x, Binom(n - 1, h - 1) as real, PowerNat(x, h - 1), q);
  }

  lemma FirstTerm(x: real, y: real, n: nat)
    requires n > 0
    ensures BinomialTerm(x, y, n, 0) == Times(y, BinomialTerm(x, y, n - 1, 0))
  {
    MoveIn(y, 1.0, 1.0, PowerNat(y, n - 1));
  }

  lemma LastTerm(x: real, y: real, n: nat)
    requires n > 0
    ensures BinomialTerm(x, y, n, n) == Times(x, BinomialTerm(x, y, n - 1, n - 1))
  {
    BinomAbove(n - 1, n);
    MoveIn(x, Binom(n - 1, n - 1) as real, PowerNat(x, n - 1), 1.0);
  }

  lemma {:induction false} PrefixStep(x: real, y: real, n: nat, j: nat)
    requires 0 < j <= n
    ensures BinomialPrefix(x, y, n, j)
         == Times(y, BinomialPrefix(x, y, n - 1, j)) + Times(x, BinomialPrefix(x, y, n - 1, j - 1))
    decreases j
  {
    var h := j - 1;
    TimesDistributes(BinomialPrefix(x, y, n - 1, h), BinomialTerm(x, y, n - 1, h), y);
    if h == 0 {
      FirstTerm(x, y, n);
      TimesUnits(x);
      TimesUnits(y);
    } else {
      PrefixStep(x, y, n, h);
      PascalTerm(x, y, n, h);
      TimesDistributes(BinomialPrefix(x, y, n - 1, h - 1), BinomialTerm(x, y, n - 1, h - 1), x);
    }
  }

  lemma {:induction false} BinomialTheorem(x: real, y: real, n: nat)
    ensures BinomialPrefix(x, y, n, n + 1) == PowerNat(x + y, n)
  {
    if n == 0 {
      TimesUnits(1.0);
      assert BinomialPrefix(x, y, 0, 1) == BinomialPrefix(x, y, 0, 0) + BinomialTerm(x, y, 0, 0);
    } else {
      BinomialTheorem(x, y, n - 1);
      PrefixStep(x, y, n, n);
      LastTerm(x, y, n);
      var s := BinomialPrefix(x, y, n - 1, n);
      TimesDistributes(BinomialPrefix(x, y, n - 1, n - 1), BinomialTerm(x, y, n - 1, n - 1), x);
      TimesDistributes(x, y, s);
    }
  }

  // ----- the multinomial theorem

  ghost function SumSeq(w: seq<real>): real {
    if w == [] then 0.0 else w[0] + SumSeq(w[1..])
  }

  /** The product of the w[i] raised to the t[i]. */
  ghost function Monomial(w: seq<real>, t: Exponents): real
    requires |w| == |t|
  {
    if w == [] then 1.0 else Times(PowerNat(w[0], t[0]), Monomial(w[1..], t[1..]))
  }

  ghost function Contribution(w: seq<real>): Exponents -> real {
    t => if |t| == |w| then Times(Multinomial(t) as real, Monomial(w, t)) else 0.0
  }

  /** The compositions whose first entry is h, without that entry. */
  ghost function Prepended(h: nat, s: set<Exponents>): set<Exponents> {
    set t | t in s :: [h] + t
  }

  /** The compositions whose first entry is below j. */
  ghost function FirstBelow(m: nat, n: nat, j: nat): set<Exponents> {
    set t | t in Compositions(m, n) && |t| > 0 && t[0] < j
  }

  lemma {:induction false} SumUnion<K(!new)>(s: set<K>, t: set<K>, f: K -> real)
    requires s !! t
    ensures SumOver(s + t, f) == SumOver(s, f) + SumOver(t, f)
    decreases t
  {
    if t == {} {
      assert s + t == s;
    } else {
      var k := Pick(t);
      SumUnion(s, t - {k}, f);
      SumTake(s + t, f, k);
      assert s + t - {k} == s + (t - {k});
    }
  }

  lemma {:induction false} SumPrepended(h: nat, s: set<Exponents>, f: Exponents -> real, g: Exponents -> real, c: real)
    requires forall t | t in s :: f([h] + t) == Times(c, g(t))
    ensures SumOver(Prepended(h, s), f) == Times(c, SumOver(s, g))
  {
    if s == {} {
      TimesUnits(c);
    } else {
      var t := Pick(s);
      SumPrepended(h, s - {t}, f, g, c);
      PrependedTake(h, s, t);
      SumTake(Prepended(h, s), f, [h] + t);
      TimesDistributes(g(t), SumOver(s - {t}, g), c);
    }
  }

  lemma PrependedTake(h: nat, s: set<Exponents>, t: Exponents)
    requires t in s
    ensures [h] + t in Prepended(h, s)
    ensures Prepended(h, s) - {[h] + t} == Prepended(h, s - {t})
  {
    forall u
      ensures u in Prepended(h, s) - {[h] + t} <==> u in Prepended(h, s - {t})
    {
      if u in Prepended(h, s) && u != [h] + t {
        var r :| r in s && u == [h] + r;
        assert r in s - {t};
      }
      if u in Prepended(h, s - {t}) {
        var r :| r in s - {t} && u == [h] + r;
        assert u[1..] == r && ([h] + t)[1..] == t;
      }
    }
  }

  lemma FirstBelowStep(m: nat, n: nat, j: nat)
    requires m > 0 && j <= n
    ensures FirstBelow(m, n, j + 1) == FirstBelow(m, n, j) + Prepended(j, Compositions(m - 1, n - j))
    ensures FirstBelow(m, n, j) !! Prepended(j, Compositions(m - 1, n - j))
  {
    forall t
      ensures t in FirstBelow(m, n, j + 1) <==> t in FirstBelow(m, n, j) || t in Prepended(j,
        Compositions(m - 1, n - j))
    {
      if t in FirstBelow(m, n, j + 1) && t[0] == j {
        CompositionsMembers(m, n, t);
        CompositionsMembers(m - 1, n - j, t[1..]);
        assert t == [j] + t[1..];
      }
      if t in Prepended(j, Compositions(m - 1, n - j)) {
        var u :| u in Compositions(m - 1, n - j) && t == [j] + u;
        assert t[1..] == u;
        CompositionsMembers(m - 1, n - j, u);
        CompositionsMembers(m, n, t);
      }
    }
  }

  lemma FirstBelowAll(m: nat, n: nat)
    requires m > 0
    ensures FirstBelow(m, n, n + 1) == Compositions(m, n) && FirstBelow(m, n, 0) == {}
  {
    forall t | t in Compositions(m, n)
      ensures |t| > 0 && t[0] <= n
    {
      CompositionsMembers(m, n, t);
      SumAtLeast(t, 0);
    }
  }

  lemma PrependedContribution(w: seq<real>, n: nat, h: nat, s: Exponents)
    requires w != [] && h <= n && |s| == |w| - 1 && Sum(s) == n - h
    ensures Contribution(w)([h] + s) == Times(Times(Binom(n, h) as real, PowerNat(w[0], h)), Contribution(w[1..])(s))
  {
    var t := [h] + s;
    assert t[1..] == s && Sum(t) == n;
    var b, c := Binom(n, h) as real, Multinomial(s) as real;
    assert Multinomial(t) as real == Times(b, c) by {
      RealProduct(Binom(n, h), Multinomial(s));
    }
    TimesInterchange(b, c, PowerNat(w[0], h), Monomial(w[1..], s));
  }

  lemma SliceContributions(w: seq<real>, n: nat, h: nat)
    requires w != [] && h <= n
    ensures forall s | s in Compositions(|w| - 1, n - h) ::
      Contribution(w)([h] + s) == Times(Times(Binom(n, h) as real, PowerNat(w[0], h)), Contribution(w[1..])(s))
  {
    forall s | s in Compositions(|w| - 1, n - h)
      ensures Contribution(w)([h] + s) == Times(Times(Binom(n, h) as real, PowerNat(w[0], h)), Contribution(w[1..])(s))
    {
      CompositionsMembers(|w| - 1, n - h, s);
      PrependedContribution(w, n, h, s);
    }
  }

  ghost predicate TheoremHolds(w: seq<real>, n: nat) {
    SumOver(Compositions(|w|, n), Contribution(w)) == PowerNat(SumSeq(w), n)
  }

  lemma SliceSum(w: seq<real>, n: nat, h: nat)
    requires w != [] && h <= n
    requires TheoremHolds(w[1..], n - h)
    ensures SumOver(Prepended(h, Compositions(|w| - 1, n - h)), Contribution(w)) == BinomialTerm(w[0], SumSeq(w[1..]),
      n, h)
  {
    var C, c := Compositions(|w| - 1, n - h), Times(Binom(n, h) as real, PowerNat(w[0], h));
    SliceContributions(w, n, h);
    SumPrepended(h, C, Contribution(w), Contribution(w[1..]), c);
    TimesAssociative(Binom(n, h) as real, PowerNat(w[0], h), PowerNat(SumSeq(w[1..]), n - h));
  }

  lemma NextSlice(w: seq<real>, n: nat, h: nat)
    requires w != [] && h <= n
    requires SumOver(FirstBelow(|w|, n, h), Contribution(w)) == BinomialPrefix(w[0], SumSeq(w[1..]), n, h)
    requires TheoremHolds(w[1..], n - h)
    ensures SumOver(FirstBelow(|w|, n, h + 1), Contribution(w)) == BinomialPrefix(w[0], SumSeq(w[1..]), n, h + 1)
  {
    var slice := Prepended(h, Compositions(|w| - 1, n - h));
    FirstBelowStep(|w|, n, h);
    SliceSum(w, n, h);
    JoinSlice(FirstBelow(|w|, n, h), slice, FirstBelow(|w|, n, h + 1), Contribution(w), w[0], SumSeq(w[1..]), n, h);
  }

  lemma JoinSlice(below: set<Exponents>, slice: set<Exponents>, next: set<Exponents>, f: Exponents -> real,
    x: real, y: real, n: nat, h: nat)
    requires h <= n && next == below + slice && below !! slice
    requires SumOver(below, f) == BinomialPrefix(x, y, n, h) && SumOver(slice, f) == BinomialTerm(x, y, n, h)
    ensures SumOver(next, f) == BinomialPrefix(x, y, n, h + 1)
  {
    SumUnion(below, slice, f);
  }

  lemma {:induction false} FirstBelowSum(w: seq<real>, n: nat, j: nat)
    requires w != [] && j <= n + 1 && forall k: nat | k <= n :: TheoremHolds(w[1..], k)
    ensures SumOver(FirstBelow(|w|, n, j), Contribution(w)) == BinomialPrefix(w[0], SumSeq(w[1..]), n, j)
    decreases j
  {
    if j == 0 {
      FirstBelowAll(|w|, n);
    } else {
      FirstBelowSum(w, n, j - 1);
      NextSlice(w, n, j - 1);
    }
  }

  /** (w_0 + ... + w_(m-1))^n is the sum over all compositions of n of coefficient times monomial. */
  lemma {:induction false} MultinomialTheorem(w: seq<real>, n: nat)
    ensures SumOver(Compositions(|w|, n), Contribution(w)) == PowerNat(SumSeq(w), n)
    decreases |w|
  {
    if w == [] {
      if n == 0 {
        assert Compositions(0, 0) == {[]};
        SumTake({[]}, Contribution(w), []);
        TimesUnits(1.0);
      } else {
        TimesUnits(PowerNat(0.0, n - 1));
      }
    } else {
      forall k: nat | k <= n
        ensures TheoremHolds(w[1..], k)
      {
        MultinomialTheorem(w[1..], k);
      }
      FirstBelowSum(w, n, n + 1);
      FirstBelowAll(|w|, n);
      BinomialTheorem(w[0], SumSeq(w[1..]), n);
    }
  }
}
