/** The parts of an expanded power do not depend on the order in which the terms of the base are taken. */
module SummandOrder {
  import Combinatorics
  import MultinomialTable
  import opened Common
  import opened Expressions
  import opened MonomialForm
  import opened Powers
  import opened Products

  // ----- exchanging neighbours

  lemma AddExponentCommutes(d: map<Basic, int>, a: Basic, n: int, b: Basic, m: int)
    ensures AddExponent(AddExponent(d, a, n), b, m) == AddExponent(AddExponent(d, b, m), a, n)
  {
    var x, y := AddExponent(AddExponent(d, a, n), b, m), AddExponent(AddExponent(d, b, m), a, n);
    forall k
      ensures k in x <==> k in y
      ensures k in x ==> x[k] == y[k]
    {
    }
  }

  lemma EntriesCommute(d: map<Basic, int>, k: Basic, e: nat, l: Basic, f: nat)
    ensures EntryFactors(EntryFactors(d, k, e), l, f) == EntryFactors(EntryFactors(d, l, f), k, e)
  {
    if e > 0 && !k.Number? && f > 0 && !l.Number? {
      var (a, n) := EntryFactor(k, e);
      var (b, m) := EntryFactor(l, f);
      AddExponentCommutes(d, a, n, b, m);
    }
  }

  /** The base and the exponent that k^e contributes. */
  ghost function EntryFactor(k: Basic, e: nat): (r: (Basic, int))
    ensures e > 0 && !k.Number? ==> forall d :: EntryFactors(d, k, e) == AddExponent(d, r.0, r.1)
  {
    if k.Mul? then (Mul(1.0, ScaledExponents(k.factors, e)), 1)
    else if k.Pow? then (k.base, k.exp * e)
    else (k, e)
  }

  lemma SwapPrefix<T>(s: seq<T>, i: nat)
    requires i + 2 < |s|
    ensures var n := |s| - 1; Swap(s, i, i + 1)[..n] == Swap(s[..n], i, i + 1) && Swap(s, i, i + 1)[n] == s[n]
  {
  }

  lemma SwapLast<T>(s: seq<T>)
    requires |s| >= 2
    ensures var n := |s| - 1; var u := Swap(s, n - 1, n);
      u[n] == s[n - 1] && u[..n][n - 1] == s[n] && u[..n][..n - 1] == s[..n][..n - 1] && s[..n][n - 1] == s[n - 1]
  {
  }

  lemma {:induction false} FactorsSwap(keys: seq<Basic>, t: Exponents, i: nat)
    requires |t| == |keys| && i + 1 < |keys|
    ensures MonomialFactors(Swap(keys, i, i + 1), Swap(t, i, i + 1)) == MonomialFactors(keys, t)
    decreases |keys|
  {
    var n := |keys| - 1;
    if i + 1 < n {
      SwapPrefix(keys, i);
      SwapPrefix(t, i);
      FactorsSwap(keys[..n], t[..n], i);
    } else {
      SwapLast(keys);
      SwapLast(t);
      EntriesCommute(MonomialFactors(keys[..n][..n - 1], t[..n][..n - 1]), keys[n - 1], t[n - 1], keys[n], t[n]);
    }
  }

  lemma {:induction false} ScaleSwap(keys: seq<Basic>, base: map<Basic, real>, t: Exponents, i: nat)
    requires |t| == |keys| && i + 1 < |keys| && forall j | 0 <= j < |keys| :: keys[j] in base
    ensures MonomialScale(Swap(keys, i, i + 1), base, Swap(t, i, i + 1)) == MonomialScale(keys, base, t)
    decreases |keys|
  {
    var n := |keys| - 1;
    if i + 1 < n {
      SwapPrefix(keys, i);
      SwapPrefix(t, i);
      ScaleSwap(keys[..n], base, t[..n], i);
    } else {
      SwapLast(keys);
      SwapLast(t);
      LastFactorsCommute(MonomialScale(keys[..n][..n - 1], base, t[..n][..n - 1]),
        EntryScale(keys[n - 1], base[keys[n - 1]], t[n - 1]), EntryScale(keys[n], base[keys[n]], t[n]));
    }
  }

  lemma LastFactorsCommute(x: real, y: real, z: real)
    ensures Times(Times(x, y), z) == Times(Times(x, z), y)
  {
    TimesAssociative(x, y, z);
    TimesAssociative(x, z, y);
    TimesCommutative(y, z);
  }

  lemma {:induction false} SumSwap(t: Exponents, i: nat)
    requires i + 1 < |t|
    ensures Combinatorics.Sum(Swap(t, i, i + 1)) == Combinatorics.Sum(t)
  {
    var u := Swap(t, i, i + 1);
    if i == 0 {
      assert u[1..][1..] == t[1..][1..];
    } else {
      assert u[1..] == Swap(t[1..], i - 1, i);
      SumSwap(t[1..], i - 1);
    }
  }

  lemma {:induction false} FactProductSwap(t: Exponents, i: nat)
    requires i + 1 < |t|
    ensures Combinatorics.FactProduct(Swap(t, i, i + 1)) == Combinatorics.FactProduct(t)
  {
    var u := Swap(t, i, i + 1);
    if i == 0 {
      assert u[1..][1..] == t[1..][1..];
      var x, y, z := Combinatorics.Fact(t[0]), Combinatorics.Fact(t[1]), Combinatorics.FactProduct(t[1..][1..]);
      Combinatorics.ProdAssociative(x, y, z);
      Combinatorics.ProdAssociative(y, x, z);
      Combinatorics.ProdCommutative(x, y);
    } else {
      assert u[1..] == Swap(t[1..], i - 1, i);
      FactProductSwap(t[1..], i - 1);
    }
  }

  lemma MultinomialSwap(t: Exponents, i: nat)
    requires i + 1 < |t|
    ensures Combinatorics.Multinomial(Swap(t, i, i + 1)) == Combinatorics.Multinomial(t)
  {
    SumSwap(t, i);
    FactProductSwap(t, i);
    Combinatorics.MultinomialFact(t);
    Combinatorics.MultinomialIsQuotient(Swap(t, i, i + 1), Combinatorics.Multinomial(t));
  }

  // ----- sums over all compositions

  /** p takes every member of s to one of r with the same value, and back. */
  ghost predicate Pairs<K(!new)>(s: set<K>, r: set<K>, f: K -> real, g: K -> real, p: K -> K) {
    && (forall k | k in s :: p(k) in r && p(p(k)) == k && g(p(k)) == f(k))
    && (forall k | k in r :: p(k) in s && p(p(k)) == k)
  }

  lemma {:induction false} SumPaired<K(!new)>(s: set<K>, r: set<K>, f: K -> real, g: K -> real, p: K -> K)
    requires Pairs(s, r, f, g, p)
    ensures SumOver(s, f) == SumOver(r, g)
    decreases |s|
  {
    if s == {} {
      assert r == {} by {
        assert forall k | k in r :: p(k) in s;
      }
    } else {
      var k := Pick(s);
      SumTake(r, g, p(k));
      SumPaired(s - {k}, r - {p(k)}, f, g, p);
    }
  }

  ghost function Exchange(i: nat): Exponents -> Exponents {
    t => if i + 1 < |t| then Swap(t, i, i + 1) else t
  }

  lemma TermSwap(keys: seq<Basic>, base: map<Basic, real>, n: nat, t: Basic, i: nat)
    requires i + 1 < |keys| && forall j | 0 <= j < |keys| :: keys[j] in base
    ensures PowerParts(Swap(keys, i, i + 1), base, n)(t) == PowerParts(keys, base, n)(t)
  {
    var s := MultinomialTable.Compositions(|keys|, n);
    var f, g := TermShare(keys, base, t), TermShare(Swap(keys, i, i + 1), base, t);
    forall e | e in s
      ensures Exchange(i)(e) in s && Exchange(i)(Exchange(i)(e)) == e && g(Exchange(i)(e)) == f(e)
    {
      ExchangedComposition(|keys|, n, i, e);
      ExchangedShare(keys, base, t, i, e);
    }
    SumPaired(s, s, f, g, Exchange(i));
  }

  lemma ExchangedComposition(m: nat, n: nat, i: nat, e: Exponents)
    requires i + 1 < m && e in MultinomialTable.Compositions(m, n)
    ensures |e| == m && Exchange(i)(e) in MultinomialTable.Compositions(m, n) && Exchange(i)(Exchange(i)(e)) == e
  {
    MultinomialTable.CompositionsMembers(m, n, e);
    SumSwap(e, i);
    MultinomialTable.CompositionsMembers(m, n, Exchange(i)(e));
  }

  lemma ExchangedShare(keys: seq<Basic>, base: map<Basic, real>, t: Basic, i: nat, e: Exponents)
    requires i + 1 < |keys| == |e| && forall j | 0 <= j < |keys| :: keys[j] in base
    ensures TermShare(Swap(keys, i, i + 1), base, t)(Exchange(i)(e)) == TermShare(keys, base, t)(e)
  {
    FactorsSwap(keys, e, i);
    ScaleSwap(keys, base, e, i);
    MultinomialSwap(e, i);
  }

  // ----- any order

  /** The lists have the same members, each once, and are the same from position m on. */
  ghost predicate SameFrom(keys: seq<Basic>, other: seq<Basic>, m: nat) {
    && m <= |keys| == |other| && Distinct(keys) && Distinct(other)
    && (forall j | m <= j < |keys| :: keys[j] == other[j])
    && (forall k :: k in keys <==> k in other)
  }

  lemma {:induction false} Reorder(keys: seq<Basic>, other: seq<Basic>, base: map<Basic, real>, n: nat, t: Basic,
      m: nat)
    requires SameFrom(keys, other, m) && forall k | k in keys :: k in base
    ensures PowerParts(keys, base, n)(t) == PowerParts(other, base, n)(t)
    decreases m, 0, 0
  {
    if m == 0 {
      assert keys == other;
    } else {
      assert other[m - 1] in keys;
      var i :| 0 <= i < |keys| && keys[i] == other[m - 1];
      MoveUp(keys, other, base, n, t, m, i);
    }
  }

  /** keys[i] belongs at position m - 1 and is moved there step by step. */
  lemma {:induction false} MoveUp(keys: seq<Basic>, other: seq<Basic>, base: map<Basic, real>, n: nat, t: Basic,
      m: nat, i: nat)
    requires SameFrom(keys, other, m) && 0 < m && i < m && keys[i] == other[m - 1]
    requires forall k | k in keys :: k in base
    ensures PowerParts(keys, base, n)(t) == PowerParts(other, base, n)(t)
    decreases m - 1, 1, m - i
  {
    if i == m - 1 {
      Reorder(keys, other, base, n, t, m - 1);
    } else {
      TermSwap(keys, base, n, t, i);
      SwapKeepsMembers(keys, other, m, i);
      MoveUp(Swap(keys, i, i + 1), other, base, n, t, m, i + 1);
    }
  }

  lemma SwapKeepsMembers(keys: seq<Basic>, other: seq<Basic>, m: nat, i: nat)
    requires SameFrom(keys, other, m) && i + 1 < m
    ensures SameFrom(Swap(keys, i, i + 1), other, m)
  {
    var u := Swap(keys, i, i + 1);
    forall k
      ensures k in u <==> k in keys
    {
      if k in keys {
        var j :| 0 <= j < |keys| && keys[j] == k;
        assert u[if j == i then i + 1 else if j == i + 1 then i else j] == k;
      }
    }
  }

  lemma AnyOrder(keys: seq<Basic>, other: seq<Basic>, base: map<Basic, real>, n: nat, t: Basic)
    requires Enumerates(keys, base) && Enumerates(other, base)
    ensures PowerParts(keys, base, n)(t) == PowerParts(other, base, n)(t)
  {
    Reorder(keys, other, base, n, t, |keys|);
  }
}
