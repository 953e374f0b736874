/**
 The form of what pow_expand builds.

 The powers of the terms are collected in a dictionary from base to exponent, as in a product, but a term
 that is itself a product is entered as one base (src/pow.cpp:388-392).  Such a dictionary is no canonical
 product, and when it has further factors the term made of it is none either.  These are the definitions
 that say which terms come out and with which coefficients.
 */
module MonomialForm {
  import opened Expressions
  import opened Powers
  import opened Products
  import opened Sums
  import Combinatorics
  import MultinomialTable

  type Exponents = MultinomialTable.Exponents

  // ----- the terms of the base

  /** keys lists the keys of d, each once. */
  ghost predicate Enumerates(keys: seq<Basic>, d: map<Basic, real>) {
    && |keys| == |d|
    && (forall i | 0 <= i < |keys| :: keys[i] in d)
    && (forall k | k in d :: k in keys)
    && (forall i, j | 0 <= i < j < |keys| :: keys[i] != keys[j])
  }

  /** A term of the base, or its constant. */
  ghost predicate IsSummand(k: Basic) {
    k.Number? || IsTerm(k)
  }

  ghost predicate CanonicalSummand(k: Basic) {
    IsSummand(k) && Canonical(k)
  }

  /** The terms of the base, with its constant as one more. */
  ghost function SummandsOf(base: Basic): map<Basic, real>
    requires base.Add?
  {
    if base.constant == 0.0 then base.terms else base.terms[Number(base.constant) := 1.0]
  }

  /** d times k^e, as pow_expand writes it: a product enters as one factor. */
  ghost function EntryFactors(d: map<Basic, int>, k: Basic, e: nat): map<Basic, int> {
    if e == 0 || k.Number? then d
    else if k.Mul? then AddExponent(d, Mul(1.0, ScaledExponents(k.factors, e)), 1)
    else if k.Pow? then AddExponent(d, k.base, k.exp * e)
    else AddExponent(d, k, e)
  }

  /** The number that k^e contributes. */
  ghost function NumberPart(k: Basic, e: nat): real {
    if k.Number? then PowerNat(k.value, e) else 1.0
  }

  lemma EntryOfPower(d: map<Basic, int>, k: Basic, tmp: Basic, e: nat)
    requires CanonicalSummand(k) && !k.Number? && e > 0
    requires k.Symbol? || k.Add? ==> tmp == PowerOf(k, e)
    requires k.Pow? ==> tmp == PowerOf(k.base, k.exp * e)
    requires k.Mul? ==> tmp == Mul(1.0, ScaledExponents(k.factors, e))
    ensures var (n, t) := AsBaseExp(tmp); EntryFactors(d, k, e) == AddExponent(d, t, n)
  {
    if k.Pow? {
      assert IsBase(k.base);
    }
  }

  lemma CanonicalPower(k: Basic)
    requires CanonicalSummand(k)
    ensures k.Pow? ==> (k.base.Symbol? || k.base.Add?) && k.exp != 1
    ensures k.Mul? ==> k.coef == 1.0 && |k.factors| != 1
  {
    if k.Pow? {
      assert IsBase(k.base);
    }
  }

  /** The number that (c k)^e contributes. */
  ghost function EntryScale(k: Basic, c: real, e: nat): real {
    Times(NumberPart(k, e), PowerNat(c, e))
  }

  lemma ScaleTwice(coef: real, coef1: real, coef2: real, k: Basic, c: real, e: nat)
    requires coef1 == Times(coef, NumberPart(k, e)) && coef2 == if c == 1.0 then coef1 else Times(coef1, PowerNat(c, e))
    ensures coef2 == Times(coef, EntryScale(k, c, e))
  {
    TimesAssociative(coef, NumberPart(k, e), PowerNat(c, e));
    if c == 1.0 {
      PowerNatOne(e);
      TimesUnits(coef1);
    }
  }

  lemma ScaleNothing(coef: real, k: Basic, c: real)
    ensures coef == Times(coef, EntryScale(k, c, 0))
  {
    TimesUnits(1.0);
    TimesUnits(coef);
  }

  ghost predicate CanonicalSummands(keys: seq<Basic>) {
    forall i | 0 <= i < |keys| :: CanonicalSummand(keys[i])
  }

  lemma SummandsAreCanonical(base: Basic, keys: seq<Basic>)
    requires base.Add? && IsBase(base) && Enumerates(keys, SummandsOf(base))
    ensures CanonicalSummands(keys)
  {
    forall i | 0 <= i < |keys|
      ensures CanonicalSummand(keys[i])
    {
      var k := keys[i];
      if k in base.terms {
        CanonicalIsWellFormed(k);
      }
    }
  }

  // ----- the dictionary of a monomial

  /** The factors of the monomial with the exponents t. */
  ghost function MonomialFactors(keys: seq<Basic>, t: Exponents): map<Basic, int>
    requires |t| == |keys|
  {
    var n := |keys| - 1;
    if keys == [] then map[] else EntryFactors(MonomialFactors(keys[..n], t[..n]), keys[n], t[n])
  }

  /** Its numerical factor. */
  ghost function MonomialScale(keys: seq<Basic>, base: map<Basic, real>, t: Exponents): real
    requires |t| == |keys| && forall i | 0 <= i < |keys| :: keys[i] in base
  {
    var n := |keys| - 1;
    if keys == [] then 1.0
    else Times(MonomialScale(keys[..n], base, t[..n]), EntryScale(keys[n], base[keys[n]], t[n]))
  }

  ghost predicate HasProduct(d: map<Basic, int>) {
    exists k :: k in d && k.Mul?
  }

  /** A product among the terms takes part in the monomial. */
  ghost predicate ProductTakesPart(keys: seq<Basic>, t: Exponents)
    requires |t| == |keys|
  {
    exists i :: 0 <= i < |keys| && keys[i].Mul? && t[i] > 0
  }

  /** Bases, and products with positive exponents. */
  ghost predicate MonomialShape(d: map<Basic, int>) {
    forall k | k in d :: d[k] != 0 && if k.Mul? then d[k] > 0 && Canonical(k) && IsTerm(k) else IsBase(k)
  }

  lemma ShapeIsCanonical(d: map<Basic, int>)
    requires MonomialShape(d)
    ensures CanonicalFactors(d) <==> !HasProduct(d)
  {
  }

  lemma EntryShape(d: map<Basic, int>, k: Basic, e: nat)
    requires MonomialShape(d) && CanonicalSummand(k)
    ensures MonomialShape(EntryFactors(d, k, e))
    ensures HasProduct(EntryFactors(d, k, e)) <==> HasProduct(d) || (k.Mul? && e > 0)
  {
    if e == 0 || k.Number? {
    } else if k.Mul? {
      ProductEntry(d, k, e);
    } else if k.Pow? {
      assert IsBase(k.base);
      BaseEntry(d, k.base, k.exp * e);
    } else {
      BaseEntry(d, k, e);
    }
  }

  lemma ProductEntry(d: map<Basic, int>, k: Basic, e: nat)
    requires MonomialShape(d) && CanonicalSummand(k) && k.Mul? && e > 0
    ensures MonomialShape(EntryFactors(d, k, e)) && HasProduct(EntryFactors(d, k, e))
  {
    var m := Mul(1.0, ScaledExponents(k.factors, e));
    ScaledCanonical(k.factors, e);
    CanonicalIsWellFormed(m);
    assert m in EntryFactors(d, k, e);
  }

  lemma BaseEntry(d: map<Basic, int>, k: Basic, n: int)
    requires MonomialShape(d) && IsBase(k)
    ensures MonomialShape(AddExponent(d, k, n)) && (HasProduct(AddExponent(d, k, n)) <==> HasProduct(d))
  {
    var d' := AddExponent(d, k, n);
    assert forall j: Basic | j.Mul? :: j in d <==> j in d';
  }

  /**
   The dictionary has a product as a base exactly when a product of the base takes part; it is canonical
   otherwise.
   */
  lemma {:induction false} MonomialIsCanonical(keys: seq<Basic>, t: Exponents)
    requires |t| == |keys| && CanonicalSummands(keys)
    ensures MonomialShape(MonomialFactors(keys, t))
    ensures HasProduct(MonomialFactors(keys, t)) <==> ProductTakesPart(keys, t)
    ensures CanonicalFactors(MonomialFactors(keys, t)) <==> !ProductTakesPart(keys, t)
  {
    if keys != [] {
      var n := |keys| - 1;
      MonomialIsCanonical(keys[..n], t[..n]);
      EntryShape(MonomialFactors(keys[..n], t[..n]), keys[n], t[n]);
      PartOfPrefix(keys, t);
    }
    ShapeIsCanonical(MonomialFactors(keys, t));
  }

  lemma PartOfPrefix(keys: seq<Basic>, t: Exponents)
    requires |t| == |keys| && keys != []
    ensures var n := |keys| - 1;
      ProductTakesPart(keys, t) <==> ProductTakesPart(keys[..n], t[..n]) || (keys[n].Mul? && t[n] > 0)
  {
    var n := |keys| - 1;
    if ProductTakesPart(keys, t) {
      var i :| 0 <= i < |keys| && keys[i].Mul? && t[i] > 0;
      assert i < n ==> keys[..n][i].Mul? && t[..n][i] > 0;
    }
  }

  // ----- the terms of the result

  /** What a composition adds to the coefficient of the product of the factors d. */
  ghost function Share(keys: seq<Basic>, base: map<Basic, real>, d: map<Basic, int>): Exponents -> real
    requires forall i | 0 <= i < |keys| :: keys[i] in base
  {
    t => if |t| == |keys| && MonomialFactors(keys, t) == d then Times(Combinatorics.Multinomial(t) as real,
      MonomialScale(keys, base, t)) else 0.0
  }

  /** The coefficient of the product of the factors d in the sum over the compositions in s. */
  ghost function CoefficientOf(keys: seq<Basic>, base: map<Basic, real>, d: map<Basic, int>, s: set<Exponents>): real
    requires forall i | 0 <= i < |keys| :: keys[i] in base
  {
    SumOver(s, Share(keys, base, d))
  }

  /** What a composition adds to the coefficient of the term t. */
  ghost function TermShare(keys: seq<Basic>, base: map<Basic, real>, t: Basic): Exponents -> real
    requires forall i | 0 <= i < |keys| :: keys[i] in base
  {
    e => if |e| == |keys| && Monic(MonomialFactors(keys, e)) == t then Times(Combinatorics.Multinomial(e) as real,
      MonomialScale(keys, base, e)) else 0.0
  }

  /** The coefficient of the term t in the sum over the compositions in s. */
  ghost function TermCoefficient(keys: seq<Basic>, base: map<Basic, real>, t: Basic, s: set<Exponents>): real
    requires forall i | 0 <= i < |keys| :: keys[i] in base
  {
    SumOver(s, TermShare(keys, base, t))
  }

  /** The parts of the power n of the sum of the given terms. */
  ghost function PowerParts(keys: seq<Basic>, base: map<Basic, real>, n: nat): Basic -> real
    requires forall i | 0 <= i < |keys| :: keys[i] in base
  {
    t => TermCoefficient(keys, base, t, MultinomialTable.Compositions(|keys|, n))
  }

  /** A crowded term comes from its own factors only. */
  lemma CrowdedMonic(f: map<Basic, int>, d: map<Basic, int>)
    requires MonomialShape(f) && IsCrowded(Mul(1.0, d))
    ensures Monic(f) == Mul(1.0, d) <==> f == d
  {
    if |f| == 1 {
      var k := Pick(f.Keys);
      assert k in f;
      if k.Mul? {
        ScaledCanonical(k.factors, f[k]);
      }
    }
  }

  lemma CrowdedCoefficient(keys: seq<Basic>, base: map<Basic, real>, d: map<Basic, int>, s: set<Exponents>)
    requires CanonicalSummands(keys) && (forall i | 0 <= i < |keys| :: keys[i] in base) && IsCrowded(Mul(1.0, d))
    ensures TermCoefficient(keys, base, Mul(1.0, d), s) == CoefficientOf(keys, base, d, s)
  {
    forall e | e in s
      ensures TermShare(keys, base, Mul(1.0, d))(e) == Share(keys, base, d)(e)
    {
      if |e| == |keys| {
        MonomialIsCanonical(keys, e);
        CrowdedMonic(MonomialFactors(keys, e), d);
      }
    }
    SumSame(s, TermShare(keys, base, Mul(1.0, d)), Share(keys, base, d));
  }

  /** Every product that would have a product among several factors has coefficient 0. */
  ghost predicate NothingCrowded(keys: seq<Basic>, base: map<Basic, real>, n: nat)
    requires forall i | 0 <= i < |keys| :: keys[i] in base
  {
    forall d | IsCrowded(Mul(1.0, d)) :: CoefficientOf(keys, base, d, MultinomialTable.Compositions(|keys|, n)) == 0.0
  }

  /** Without a product among the terms there is nothing crowded. */
  lemma NoProductNothingCrowded(keys: seq<Basic>, base: map<Basic, real>, n: nat)
    requires CanonicalSummands(keys) && forall i | 0 <= i < |keys| :: keys[i] in base && !keys[i].Mul?
    ensures NothingCrowded(keys, base, n)
  {
    var s := MultinomialTable.Compositions(|keys|, n);
    forall d | IsCrowded(Mul(1.0, d))
      ensures CoefficientOf(keys, base, d, s) == 0.0
    {
      forall t | t in s
        ensures Share(keys, base, d)(t) == 0.0
      {
        if |t| == |keys| {
          MonomialIsCanonical(keys, t);
        }
      }
      SumZero(s, Share(keys, base, d));
    }
  }
}
