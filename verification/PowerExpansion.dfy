/**
 pow_expand and pow_number (src/pow.cpp): a sum raised to a natural power becomes the sum over all
 compositions of the exponent of multinomial coefficient times monomial.
 */
module PowerExpansion {
  import opened CrowdedTerms
  import opened Expressions
  import opened MonomialForm
  import opened MultinomialTheorem
  import opened Parts
  import opened Powers
  import opened Products
  import opened SummandOrder
  import opened Sums
  import Combinatorics
  import ModArith
  import MultinomialTable

  // ----- binary powering of a number

  const LONG_LIMIT := 0x8000_0000_0000_0000

  /** mask << 1 on a positive signed 64-bit integer. */
  function ShiftLeft(mask: int): int {
    if mask * 2 < LONG_LIMIT then mask * 2 else mask * 2 - 2 * LONG_LIMIT
  }

  /** The bits of n below the next mask. */
  lemma NextBits(n: nat, mask: nat)
    requires mask > 0
    ensures n % (mask * 2) == n % mask + (if (n / mask) % 2 == 1 then mask else 0)
  {
    var q, r := n / mask, n % mask;
    var h, b := q / 2, q % 2;
    ModArith.DivModEquation(n, mask);
    assert q * mask == h * (mask * 2) + b * mask by {
      assert (2 * h + b) * mask == h * (mask * 2) + b * mask;
    }
    assert b * mask == if b == 1 then mask else 0;
    ModArith.DivModUnique(n, h, b * mask + r, mask * 2);
  }

  /** What the loop has computed when it stands at the given mask. */
  ghost predicate PowerState(x: real, n: nat, mask: int, p: real, r: real) {
    if mask > 0 then p == PowerNat(x, mask) && r == PowerNat(x, n % mask) else r == PowerNat(x, n)
  }

  lemma NextPowerState(x: real, n: nat, mask: int, p: real, r: real, r': real)
    requires 0 < mask <= n < LONG_LIMIT && PowerState(x, n, mask, p, r)
    requires r' == if (n / mask) % 2 == 1 then Times(r, p) else r
    ensures PowerState(x, n, ShiftLeft(mask), Times(p, p), r')
  {
    NextBits(n, mask);
    PowerNatAdd(x, n % mask, mask);
    PowerNatAdd(x, mask, mask);
    if mask * 2 >= LONG_LIMIT {
      ModArith.DivModUnique(n, 0, n, mask * 2);
    }
  }

  lemma LastPowerState(x: real, n: nat, mask: int, p: real, r: real)
    requires PowerState(x, n, mask, p, r) && (mask <= 0 || n < mask)
    ensures r == Power(x, n)
  {
    if mask > 0 {
      ModArith.DivModUnique(n, 0, n, mask);
    }
  }

  /**
   pow_number: n is read bit by bit; the loop also ends when the mask leaves the range of long.  A negative
   exponent is answered with 1.
   */
  method PowNumber(x: real, n: int) returns (r: real)
    requires -LONG_LIMIT <= n < LONG_LIMIT
    ensures r == if n >= 0 then Power(x, n) else 1.0
  {
    var mask, p := 1, x;
    r := 1.0;
    FirstPower(x);
    while mask > 0 && n >= mask
      invariant if n >= 0 then PowerState(x, n, mask, p, r) else r == 1.0 && mask == 1
      decreases if mask > 0 then n - mask + 1 else -1
    {
      var r' := r;
      if (n / mask) % 2 == 1 {
        r' := Times(r, p);
      }
      NextPowerState(x, n, mask, p, r, r');
      r := r';
      mask := ShiftLeft(mask);
      p := Times(p, p);
    }
    if n >= 0 {
      LastPowerState(x, n, mask, p, r);
    }
  }

  // ----- the terms of the base as a list

  method Enumerate(d: map<Basic, real>) returns (keys: seq<Basic>)
    ensures Enumerates(keys, d)
  {
    keys := [];
    var items := d.Keys;
    while items != {}
      invariant items <= d.Keys && |keys| + |items| == |d.Keys|
      invariant forall i | 0 <= i < |keys| :: keys[i] in d && keys[i] !in items
      invariant forall k | k in d :: k in items || k in keys
      invariant forall i, j | 0 <= i < j < |keys| :: keys[i] != keys[j]
      decreases |items|
    {
      var k :| k in items;
      keys := keys + [k];
      items := items - {k};
    }
  }

  /** The values of the terms, with their coefficients. */
  ghost function Weights(keys: seq<Basic>, d: map<Basic, real>, v: Basic -> real): (w: seq<real>)
    requires forall i | 0 <= i < |keys| :: keys[i] in d
    ensures |w| == |keys| && forall i | 0 <= i < |keys| :: w[i] == Times(d[keys[i]], v(keys[i]))
  {
    seq(|keys|, i requires 0 <= i < |keys| => Times(d[keys[i]], v(keys[i])))
  }

  lemma {:induction false} WeightsSum(keys: seq<Basic>, d: map<Basic, real>, v: Basic -> real)
    requires Enumerates(keys, d)
    ensures SumSeq(Weights(keys, d, v)) == Total(d, v)
    decreases |keys|
  {
    if keys == [] {
      assert d.Keys == {};
    } else {
      var k, rest := keys[0], d - {keys[0]};
      TailEnumerates(keys, d);
      WeightsSum(keys[1..], rest, v);
      TotalTake(d, v, k);
      WeightsTail(keys, d, v);
    }
  }

  lemma WeightsTail(keys: seq<Basic>, d: map<Basic, real>, v: Basic -> real)
    requires Enumerates(keys, d) && keys != [] && Enumerates(keys[1..], d - {keys[0]})
    ensures SumSeq(Weights(keys, d, v)) == Times(d[keys[0]], v(keys[0])) + SumSeq(Weights(keys[1..], d - {keys[0]}, v))
  {
    WeightsShift(keys, keys[1..], d, d - {keys[0]}, v);
  }

  lemma WeightsShift(keys: seq<Basic>, rest: seq<Basic>, d: map<Basic, real>, e: map<Basic, real>, v: Basic -> real)
    requires keys != [] && rest == keys[1..] && (forall i | 0 <= i < |keys| :: keys[i] in d)
    requires forall i | 0 <= i < |rest| :: rest[i] in e && e[rest[i]] == d[rest[i]]
    ensures Weights(keys, d, v)[1..] == Weights(rest, e, v)
  {
    var w, u := Weights(keys, d, v)[1..], Weights(rest, e, v);
    forall i | 0 <= i < |rest|
      ensures w[i] == u[i]
    {
      assert rest[i] == keys[i + 1];
    }
    assert w == u;
  }

  lemma TailEnumerates(keys: seq<Basic>, d: map<Basic, real>)
    requires Enumerates(keys, d) && keys != []
    ensures Enumerates(keys[1..], d - {keys[0]})
  {
    forall k | k in d - {keys[0]}
      ensures k in keys[1..]
    {
      var i :| 0 <= i < |keys| && keys[i] == k;
      assert keys[1..][i - 1] == k;
    }
  }

  lemma {:induction false} MonomialNext(w: seq<real>, t: Exponents, i: nat)
    requires |w| == |t| && i < |w|
    ensures Monomial(w[..i + 1], t[..i + 1]) == Times(Monomial(w[..i], t[..i]), PowerNat(w[i], t[i]))
  {
    var w', t' := w[..i + 1], t[..i + 1];
    if i == 0 {
      assert w'[1..] == [] && t'[1..] == [];
      TimesUnits(PowerNat(w[0], t[0]));
    } else {
      MonomialNext(w[1..], t[1..], i - 1);
      assert w'[1..] == w[1..][..i] && t'[1..] == t[1..][..i];
      assert w[..i][1..] == w[1..][..i - 1] && t[..i][1..] == t[1..][..i - 1];
      TimesAssociative(PowerNat(w[0], t[0]), Monomial(w[1..][..i - 1], t[1..][..i - 1]), PowerNat(w[i], t[i]));
    }
  }

  // ----- one monomial

  /** Mul::dict_add_term: multiplies d by t^exp. */
  method DictAddExponent(d: map<Basic, int>, exp: int, t: Basic) returns (d': map<Basic, int>)
    requires exp != 0
    ensures d' == AddExponent(d, t, exp)
  {
    if t !in d {
      d' := d[t := exp];
    } else {
      var sum := d[t] + exp;
      d' := if sum == 0 then d - {t} else d[t := sum];
    }
  }

  /** coef times d has grown by the factor x. */
  ghost predicate MultipliedBy(v: Basic -> real, coef: real, d: map<Basic, int>, coef': real, d': map<Basic, int>,
      x: real) {
    FactorsDefined(v, d') && Times(coef', Product(d', v)) == Times(Times(coef, Product(d, v)), x)
  }

  lemma CoefficientGrows(v: Basic -> real, coef: real, d: map<Basic, int>, x: real)
    requires FactorsDefined(v, d)
    ensures MultipliedBy(v, coef, d, Times(coef, x), d, x)
  {
    var q := Product(d, v);
    TimesAssociative(coef, x, q);
    TimesCommutative(x, q);
    TimesAssociative(coef, q, x);
  }

  lemma FactorsGrow(v: Basic -> real, coef: real, d: map<Basic, int>, t: Basic, n: int)
    requires FactorsDefined(v, d) && FactorOk(v, t, n) && Defined(v, t)
    ensures MultipliedBy(v, coef, d, coef, AddExponent(d, t, n), Power(v(t), n))
  {
    var q := Product(d, v);
    AddExponentValue(v, d, t, n);
    TimesCommutative(Power(v(t), n), q);
    TimesAssociative(coef, q, Power(v(t), n));
  }

  lemma GrowTwice(v: Basic -> real, coef: real, d: map<Basic, int>, coef1: real, d1: map<Basic, int>, coef2: real,
      d2: map<Basic, int>, x: real, y: real)
    requires MultipliedBy(v, coef, d, coef1, d1, x) && MultipliedBy(v, coef1, d1, coef2, d2, y)
    ensures MultipliedBy(v, coef, d, coef2, d2, Times(x, y))
  {
    TimesAssociative(Times(coef, Product(d, v)), x, y);
  }

  lemma BaseExpValue(v: Basic -> real, e: Basic)
    requires IsValuation(v) && WellFormed(e) && !e.Number? && Defined(v, e)
    ensures var (n, t) := AsBaseExp(e); FactorOk(v, t, n) && Defined(v, t) && Power(v(t), n) == v(e)
    ensures var (n, t) := AsBaseExp(e); e.Mul? || (n != 0 && IsTerm(t))
  {
    FirstPower(v(e));
  }

  /** The factor k^e of a monomial, e > 0. */
  method MultiplyBase(coef: real, d: map<Basic, int>, k: Basic, e: nat) returns (coef': real, d': map<Basic, int>)
    requires GoodFactors(d) && IsSummand(k) && e > 0
    ensures GoodFactors(d')
    ensures CanonicalSummand(k) ==> d' == EntryFactors(d, k, e) && coef' == Times(coef, NumberPart(k, e))
    ensures forall v | IsValuation(v) && FactorsDefined(v, d) && Defined(v, k) ::
      MultipliedBy(v, coef, d, coef', d', PowerNat(v(k), e))
  {
    coef', d' := coef, d;
    TimesUnits(coef);
    if k.Number? && k.value.Floor as real == k.value {
      coef' := Times(coef, Power(k.value, e));
      forall v | IsValuation(v) && FactorsDefined(v, d)
        ensures MultipliedBy(v, coef, d, coef', d', PowerNat(v(k), e))
      {
        CoefficientGrows(v, coef, d, PowerNat(v(k), e));
      }
    } else if k.Symbol? {
      AddExponentGood(d, k, e);
      d' := DictAddExponent(d, e, k);
      forall v | IsValuation(v) && FactorsDefined(v, d)
        ensures MultipliedBy(v, coef, d, coef', d', PowerNat(v(k), e))
      {
        FactorsGrow(v, coef, d, k, e);
      }
    } else {
      coef', d' := MultiplyPower(coef, d, k, e);
    }
  }

  /** The general branch: the power is computed and taken apart again. */
  method MultiplyPower(coef: real, d: map<Basic, int>, k: Basic, e: nat) returns (coef': real, d': map<Basic, int>)
    requires GoodFactors(d) && IsSummand(k) && e > 0
    ensures GoodFactors(d')
    ensures CanonicalSummand(k) ==> d' == EntryFactors(d, k, e) && coef' == Times(coef, NumberPart(k, e))
    ensures forall v | IsValuation(v) && FactorsDefined(v, d) && Defined(v, k) ::
      MultipliedBy(v, coef, d, coef', d', PowerNat(v(k), e))
  {
    var tmp := PowBasic(k, e);
    var (exp2, t) := AsBaseExp(tmp);
    if k.Number? {
      AsBaseExpNumber(tmp);
      coef', d' := DictAddTermNew(coef, d, exp2, t);
      forall v | IsValuation(v) && FactorsDefined(v, d)
        ensures MultipliedBy(v, coef, d, coef', d', PowerNat(v(k), e))
      {
        CoefficientGrows(v, coef, d, PowerNat(v(k), e));
      }
    } else {
      assert exp2 != 0 && IsTerm(t) by {
        if !tmp.Mul? {
          AsBaseExpFactors(tmp);
        }
      }
      if CanonicalSummand(k) {
        CanonicalPower(k);
        EntryOfPower(d, k, tmp, e);
        TimesUnits(coef);
      }
      coef', d' := DictAddTermNew(coef, d, exp2, t);
      AddExponentGood(d, t, exp2);
      forall v | IsValuation(v) && FactorsDefined(v, d) && Defined(v, k)
        ensures MultipliedBy(v, coef, d, coef', d', PowerNat(v(k), e))
      {
        BaseExpValue(v, tmp);
        FactorsGrow(v, coef, d, t, exp2);
      }
    }
  }

  /** One entry of the composition: the term k with its coefficient c, to the power e. */
  method MultiplyEntry(coef: real, d: map<Basic, int>, k: Basic, c: real, e: nat)
      returns (coef': real, d': map<Basic, int>)
    requires GoodFactors(d) && IsSummand(k)
    ensures GoodFactors(d')
    ensures CanonicalSummand(k) ==> d' == EntryFactors(d, k, e) && coef' == Times(coef, EntryScale(k, c, e))
    ensures forall v | IsValuation(v) && FactorsDefined(v, d) && Defined(v, k) ::
      MultipliedBy(v, coef, d, coef', d', PowerNat(Times(c, v(k)), e))
  {
    coef', d' := coef, d;
    if e > 0 {
      coef', d' := MultiplyBase(coef, d, k, e);
      ghost var coef1 := coef';
      if !(c == 1.0) {
        coef' := Times(coef', Power(c, e));
      }
      if CanonicalSummand(k) {
        ScaleTwice(coef, coef1, coef', k, c, e);
      }
      forall v | IsValuation(v) && FactorsDefined(v, d) && Defined(v, k)
        ensures MultipliedBy(v, coef, d, coef', d', PowerNat(Times(c, v(k)), e))
      {
        CoefficientGrows(v, coef1, d', PowerNat(c, e));
        if c == 1.0 {
          PowerNatOne(e);
          TimesUnits(coef1);
        }
        GrowTwice(v, coef, d, coef1, d', coef', d', PowerNat(v(k), e), PowerNat(c, e));
        PowerNatTimes(v(k), c, e);
        TimesCommutative(v(k), c);
      }
    } else {
      ScaleNothing(coef, k, c);
      forall v | IsValuation(v) && FactorsDefined(v, d)
        ensures MultipliedBy(v, coef, d, coef, d, PowerNat(Times(c, v(k)), e))
      {
        TimesUnits(Times(coef, Product(d, v)));
      }
    }
  }

  ghost predicate Summands(keys: seq<Basic>, base: map<Basic, real>) {
    forall i | 0 <= i < |keys| :: keys[i] in base && IsSummand(keys[i])
  }

  /** coef times d is the monomial with the exponents t. */
  ghost predicate IsMonomial(coef: real, d: map<Basic, int>, keys: seq<Basic>, base: map<Basic, real>, t: Exponents)
    requires Summands(keys, base) && |t| == |keys|
  {
    && GoodFactors(d)
    && forall v | IsValuation(v) && TermsDefined(v, base) ::
      FactorsDefined(v, d) && Times(coef, Product(d, v)) == Monomial(Weights(keys, base, v), t)
  }

  /** coef times d is the monomial of the first i entries. */
  ghost predicate IsPartial(coef: real, d: map<Basic, int>, keys: seq<Basic>, base: map<Basic, real>, t: Exponents,
      i: nat)
    requires Summands(keys, base) && |t| == |keys| && i <= |keys|
  {
    && GoodFactors(d)
    && forall v | IsValuation(v) && TermsDefined(v, base) ::
      FactorsDefined(v, d) && Times(coef, Product(d, v)) == Monomial(Weights(keys, base, v)[..i], t[..i])
  }

  lemma PartialNext(coef0: real, d0: map<Basic, int>, coef: real, d: map<Basic, int>,
    keys: seq<Basic>, base: map<Basic, real>, t: Exponents, i: nat)
    requires Summands(keys, base) && |t| == |keys| && i < |keys| && IsPartial(coef0, d0, keys, base, t, i)
      && GoodFactors(d)
    requires forall v | IsValuation(v) && FactorsDefined(v, d0) && Defined(v, keys[i]) ::
      MultipliedBy(v, coef0, d0, coef, d, PowerNat(Times(base[keys[i]], v(keys[i])), t[i]))
    ensures IsPartial(coef, d, keys, base, t, i + 1)
  {
    forall v | IsValuation(v) && TermsDefined(v, base)
      ensures FactorsDefined(v, d) && Times(coef, Product(d, v)) == Monomial(Weights(keys, base, v)[..i + 1],
        t[..i + 1])
    {
      MonomialNext(Weights(keys, base, v), t, i);
    }
  }

  lemma PartialStart(keys: seq<Basic>, base: map<Basic, real>, t: Exponents)
    requires Summands(keys, base) && |t| == |keys|
    ensures IsPartial(1.0, map[], keys, base, t, 0)
  {
    TimesUnits(1.0);
  }

  lemma PartialAll(coef: real, d: map<Basic, int>, keys: seq<Basic>, base: map<Basic, real>, t: Exponents)
    requires Summands(keys, base) && |t| == |keys| && IsPartial(coef, d, keys, base, t, |keys|)
    ensures IsMonomial(coef, d, keys, base, t)
  {
    forall v: Basic -> real
      ensures Weights(keys, base, v)[..|keys|] == Weights(keys, base, v)
    {
    }
    assert t[..|keys|] == t;
  }

  /** The loop over the entries of a composition. */
  method BuildMonomial(keys: seq<Basic>, base: map<Basic, real>, t: Exponents) returns (coef: real, d: map<Basic, int>)
    requires Summands(keys, base) && |t| == |keys|
    ensures IsMonomial(coef, d, keys, base, t)
    ensures CanonicalSummands(keys) ==> d == MonomialFactors(keys, t) && coef == MonomialScale(keys, base, t)
  {
    coef, d := 1.0, map[];
    PartialStart(keys, base, t);
    for i := 0 to |keys|
      invariant IsPartial(coef, d, keys, base, t, i)
      invariant CanonicalSummands(keys) ==> HasForm(coef, d, keys, base, t, i)
    {
      ghost var coef0, d0 := coef, d;
      coef, d := MultiplyEntry(coef, d, keys[i], base[keys[i]], t[i]);
      PartialNext(coef0, d0, coef, d, keys, base, t, i);
      if CanonicalSummands(keys) {
        FormNext(coef0, d0, keys, base, t, i);
      }
    }
    PartialAll(coef, d, keys, base, t);
    assert t[..|keys|] == t && keys[..|keys|] == keys;
  }

  /** What the loop has collected from the first i entries. */
  ghost predicate HasForm(coef: real, d: map<Basic, int>, keys: seq<Basic>, base: map<Basic, real>, t: Exponents,
      i: nat)
    requires Summands(keys, base) && |t| == |keys| && i <= |keys|
  {
    d == MonomialFactors(keys[..i], t[..i]) && coef == MonomialScale(keys[..i], base, t[..i])
  }

  lemma FormNext(coef: real, d: map<Basic, int>, keys: seq<Basic>, base: map<Basic, real>, t: Exponents, i: nat)
    requires Summands(keys, base) && |t| == |keys| && i < |keys| && HasForm(coef, d, keys, base, t, i)
    ensures HasForm(Times(coef, EntryScale(keys[i], base[keys[i]], t[i])), EntryFactors(d, keys[i], t[i]), keys, base,
      t, i + 1)
  {
    assert keys[..i + 1][..i] == keys[..i] && t[..i + 1][..i] == t[..i];
  }

  // ----- adding the monomials up

  /** From c and d to c' and d' the value has grown by mult times the monomial. */
  ghost predicate Added(v: Basic -> real, c: real, d: map<Basic, real>, c': real, d': map<Basic, real>, x: real) {
    TermsDefined(v, d') && c' + Total(d', v) == c + Total(d, v) + x
  }

  /** Every term is canonical or a product with a product among its factors. */
  ghost predicate IsFlagged(rd: map<Basic, real>) {
    forall t | t in rd :: Canonical(t) || IsCrowded(t)
  }

  /** coef2 times the term is mult times coef times the product of d. */
  ghost predicate IsTidied(term: Basic, coef2: real, coef: real, d: map<Basic, int>, mult: real) {
    forall v | IsValuation(v) && FactorsDefined(v, d) ::
      Defined(v, term) && Times(coef2, v(term)) == Times(mult, Times(coef, Product(d, v)))
  }

  /** A numeric factor of the collected term joins the multinomial coefficient; what is left carries none. */
  method Tidy(term0: Basic, coef: real, d: map<Basic, int>, mult: real) returns (term: Basic, coef2: real)
    requires GoodFactors(d) && WellFormed(term0) && !term0.Number? && StandsFor(term0, coef, d)
    requires if coef == 1.0 then IsTerm(term0) else term0 == Mul(coef, d)
    requires |d| != 1 ==> term0 == Mul(coef, d)
    requires |d| == 1 && coef == 1.0 && (forall k | k in d :: Canonical(k)) ==> Canonical(term0)
    requires |d| == 1 && coef == 1.0 && (forall k | k in d :: IsPlainFactor(k)) ==> term0 == Monic(d)
    requires d != map[]
    ensures IsTerm(term) && IsTidied(term, coef2, coef, d, mult)
    ensures |d| == 1 && MonomialShape(d) ==> Canonical(term)
    ensures MonomialShape(d) ==> term == Monic(d) && coef2 == Times(mult, coef)
  {
    term, coef2 := term0, mult;
    TimesUnits(mult);
    assert MonomialShape(d) ==> forall k | k in d :: Canonical(k) && IsPlainFactor(k);
    if term.Mul? && term.coef != 1.0 {
      coef2 := Times(coef2, term.coef);
      term := FromDict(1.0, term.factors, term);
    }
    forall v | IsValuation(v) && FactorsDefined(v, d)
      ensures Defined(v, term) && Times(coef2, v(term)) == Times(mult, Times(coef, Product(d, v)))
    {
      TimesUnits(Product(d, v));
      TimesAssociative(mult, coef, Product(d, v));
    }
  }

  lemma TidiedIsAdded(c: real, rd: map<Basic, real>, coef: real, d: map<Basic, int>, mult: real, term: Basic,
      coef2: real)
    requires IsTidied(term, coef2, coef, d, mult)
    ensures forall v | IsValuation(v) && TermsDefined(v, rd) && FactorsDefined(v, d) ::
      Added(v, c, rd, c, AddTerm(rd, term, coef2), Times(mult, Times(coef, Product(d, v))))
  {
    forall v | IsValuation(v) && TermsDefined(v, rd) && FactorsDefined(v, d)
      ensures Added(v, c, rd, c, AddTerm(rd, term, coef2), Times(mult, Times(coef, Product(d, v))))
    {
      AddTermValue(v, rd, term, coef2);
      AddTermDefined(v, rd, term, coef2);
    }
  }

  lemma NumberIsAdded(c: real, rd: map<Basic, real>, coef: real, d: map<Basic, int>, mult: real, x: real)
    requires StandsFor(Number(x), coef, d)
    ensures forall v | IsValuation(v) && TermsDefined(v, rd) && FactorsDefined(v, d) ::
      Added(v, c, rd, c + Times(x, mult), rd, Times(mult, Times(coef, Product(d, v))))
  {
    TimesCommutative(x, mult);
  }

  /** The tail of the loop over the table: a number goes to the constant, anything else to the dictionary. */
  method AddMonomial(c: real, rd: map<Basic, real>, coef: real, d: map<Basic, int>, mult: real)
      returns (c': real, rd': map<Basic, real>)
    requires GoodTerms(rd) && GoodFactors(d)
    ensures GoodTerms(rd')
    ensures MonomialShape(d) && IsFlagged(rd) ==> IsFlagged(rd')
    ensures MonomialShape(d) ==> Gains(c, rd, c', rd', Single(Monic(d), Times(mult, coef)))
    ensures forall v | IsValuation(v) && TermsDefined(v, rd) && FactorsDefined(v, d) ::
      Added(v, c, rd, c', rd', Times(mult, Times(coef, Product(d, v))))
  {
    c', rd' := c, rd;
    var term := FromDict(coef, d, Mul(1.0, d));
    if term.Number? {
      TimesUnits(mult);
      NumberIsAdded(c, rd, coef, d, mult, term.value);
      TimesCommutative(mult, term.value);
      c' := c' + Times(term.value, mult);
    } else {
      var coef2;
      term, coef2 := Tidy(term, coef, d, mult);
      AddTermGood(rd, term, coef2);
      rd' := DictAddTerm(rd, coef2, term);
      TidiedIsAdded(c, rd, coef, d, mult, term, coef2);
      SingleGains(c, rd, term, coef2);
    }
  }

  /** The sum of the contributions of the compositions in s. */
  ghost predicate HasSum(c: real, rd: map<Basic, real>, keys: seq<Basic>, base: map<Basic, real>, s: set<Exponents>)
    requires Summands(keys, base)
  {
    && GoodTerms(rd)
    && forall v | IsValuation(v) && TermsDefined(v, base) ::
      TermsDefined(v, rd) && c + Total(rd, v) == SumOver(s, Contribution(Weights(keys, base, v)))
  }

  /** The constant, the terms and their coefficients after the compositions in s. */
  ghost predicate HasCounts(c: real, rd: map<Basic, real>, keys: seq<Basic>, base: map<Basic, real>, s: set<Exponents>)
    requires Summands(keys, base)
  {
    IsFlagged(rd) && forall t :: Given(c, rd)(t) == TermCoefficient(keys, base, t, s)
  }

  lemma CountsNext(c: real, rd: map<Basic, real>, c': real, rd': map<Basic, real>, keys: seq<Basic>,
      base: map<Basic, real>, s: set<Exponents>, e: Exponents)
    requires Summands(keys, base) && HasCounts(c, rd, keys, base, s) && e !in s && |e| == |keys| && IsFlagged(rd')
    requires Gains(c, rd, c', rd', Single(Monic(MonomialFactors(keys, e)), Times(Combinatorics.Multinomial(e) as real,
      MonomialScale(keys, base, e))))
    ensures HasCounts(c', rd', keys, base, s + {e})
  {
    forall t
      ensures Given(c', rd')(t) == TermCoefficient(keys, base, t, s + {e})
    {
      SumTake(s + {e}, TermShare(keys, base, t), e);
      assert s + {e} - {e} == s;
      assert Given(c, rd)(t) == TermCoefficient(keys, base, t, s);
    }
  }

  /** What the loop over the table has collected from the compositions in s. */
  ghost predicate Collected(c: real, rd: map<Basic, real>, keys: seq<Basic>, base: map<Basic, real>, s: set<Exponents>)
    requires Summands(keys, base)
  {
    HasSum(c, rd, keys, base, s) && (CanonicalSummands(keys) ==> HasCounts(c, rd, keys, base, s))
  }

  /** One entry of the table. */
  method AddComposition(c: real, rd: map<Basic, real>, keys: seq<Basic>, base: map<Basic, real>, t: Exponents,
      mult: nat, ghost s: set<Exponents>)
    returns (c': real, rd': map<Basic, real>)
    requires Summands(keys, base) && Collected(c, rd, keys, base, s)
    requires t !in s && |t| == |keys| && mult == Combinatorics.Multinomial(t)
    ensures Collected(c', rd', keys, base, s + {t})
  {
    var coef, d := BuildMonomial(keys, base, t);
    c', rd' := AddMonomial(c, rd, coef, d, mult as real);
    if CanonicalSummands(keys) {
      MonomialIsCanonical(keys, t);
      CountsNext(c, rd, c', rd', keys, base, s, t);
    }
    SumNext(c, rd, coef, d, mult, c', rd', keys, base, t, s);
  }

  lemma SumNext(c: real, rd: map<Basic, real>, coef: real, d: map<Basic, int>, mult: nat, c': real,
      rd': map<Basic, real>, keys: seq<Basic>, base: map<Basic, real>, t: Exponents, s: set<Exponents>)
    requires Summands(keys, base) && HasSum(c, rd, keys, base, s) && t !in s && |t| == |keys|
      && mult == Combinatorics.Multinomial(t)
    requires IsMonomial(coef, d, keys, base, t) && GoodTerms(rd')
    requires forall v | IsValuation(v) && TermsDefined(v, rd) && FactorsDefined(v, d) ::
      Added(v, c, rd, c', rd', Times(mult as real, Times(coef, Product(d, v))))
    ensures HasSum(c', rd', keys, base, s + {t})
  {
    forall v | IsValuation(v) && TermsDefined(v, base)
      ensures TermsDefined(v, rd') && c' + Total(rd', v) == SumOver(s + {t}, Contribution(Weights(keys, base, v)))
    {
      SumTake(s + {t}, Contribution(Weights(keys, base, v)), t);
      assert s + {t} - {t} == s;
      assert Added(v, c, rd, c', rd', Times(mult as real, Times(coef, Product(d, v))));
    }
  }

  // ----- pow_expand

  /** SummandsOf, as the code builds it. */
  method BaseDict(base: Basic) returns (d: map<Basic, real>)
    requires base.Add? && WellFormed(base)
    ensures d == SummandsOf(base) && |d| >= 2 && forall k | k in d :: IsSummand(k)
    ensures forall v | IsValuation(v) && Defined(v, base) :: TermsDefined(v, d) && Total(d, v) == v(base)
  {
    d := base.terms;
    if base.constant != 0.0 {
      d := d[Number(base.constant) := 1.0];
      assert Number(base.constant) !in base.terms;
      assert d.Keys == base.terms.Keys + {Number(base.constant)};
      assert |base.terms| >= 1;
      forall v | IsValuation(v) && Defined(v, base)
        ensures TermsDefined(v, d) && Total(d, v) == v(base)
      {
        TotalInsert(base.terms, v, Number(base.constant), 1.0);
        TimesUnits(base.constant);
      }
    }
  }

  /** r has the value of e wherever e has one. */
  ghost predicate SameValue(r: Basic, e: Basic) {
    forall v | IsValuation(v) && Defined(v, e) :: Defined(v, r) && v(r) == v(e)
  }

  /** r has the parts of the power n of the base, in whatever order the terms of the base are taken. */
  ghost predicate IsExpansion(r: Basic, base: Basic, n: nat)
    requires base.Add?
  {
    forall keys | Enumerates(keys, SummandsOf(base)) :: HasParts(r, PowerParts(keys, SummandsOf(base), n))
  }

  /**
   pow_expand: the value of a power of a sum is unchanged; a negative exponent is refused.  The result of a
   canonical power is canonical exactly when the base has only one term beside its constant or no product
   among its terms; in any case it is in simplest form, with the coefficients of the multinomial theorem.
   */
  method PowExpand(self: Basic) returns (outcome: MultinomialTable.Outcome, r: Basic)
    requires self.Pow? && WellFormed(self)
    ensures self.base.Add? && self.exp < 0 ==> outcome.RuntimeError?
    ensures !self.base.Add? || self.exp >= 0 ==>
      outcome == MultinomialTable.Completed && WellFormed(r) && SameValue(r, self)
    ensures !self.base.Add? ==> r == self
    ensures self.base.Add? && self.exp >= 0 && Canonical(self) ==> (Canonical(r) <==> KeepsForm(self.base))
    ensures self.base.Add? && self.exp >= 0 && Canonical(self) ==> IsSimple(r) && IsExpansion(r, self.base, self.exp)
  {
    outcome, r := MultinomialTable.Completed, self;
    if !self.base.Add? {
      return;
    }
    var base := BaseDict(self.base);
    var keys := Enumerate(base);
    var n := self.exp;
    var table;
    outcome, table := MultinomialTable.MultinomialCoefficients(|keys|, n, map[]);
    if outcome.RuntimeError? {
      return;
    }
    TableCoefficients(table, |keys|, n);
    var c, rd := ExpandTable(keys, base, table);
    r := SumFromDict(c, rd);
    ExpansionValue(self, keys, base, c, rd, r);
    ExpansionForm(self, keys, base, c, rd, r);
  }

  lemma ExpansionValue(self: Basic, keys: seq<Basic>, base: map<Basic, real>, c: real, rd: map<Basic, real>, r: Basic)
    requires self.Pow? && self.base.Add? && self.exp >= 0 && Summands(keys, base) && Enumerates(keys, base)
    requires forall v | IsValuation(v) && Defined(v, self.base) ::
      TermsDefined(v, base) && Total(base, v) == v(self.base)
    requires HasSum(c, rd, keys, base, MultinomialTable.Compositions(|keys|, self.exp)) && IsSumOf(r, c, rd)
    ensures SameValue(r, self)
  {
    forall v | IsValuation(v) && Defined(v, self)
      ensures Defined(v, r) && v(r) == v(self)
    {
      ExpandedValue(keys, base, self.exp, v);
    }
  }

  lemma ExpansionForm(self: Basic, keys: seq<Basic>, base: map<Basic, real>, c: real, rd: map<Basic, real>, r: Basic)
    requires self.Pow? && self.base.Add? && self.exp >= 0 && base == SummandsOf(self.base) && Enumerates(keys, base)
    requires Summands(keys, base) && Collected(c, rd, keys, base, MultinomialTable.Compositions(|keys|, self.exp))
    requires CanonicalTerms(rd) ==> Canonical(r)
    requires (exists t :: t in rd && IsCrowded(t)) ==> !Canonical(r)
    requires SimpleTerms(rd) ==> IsSimple(r) && HasParts(r, Given(c, rd))
    ensures Canonical(self) ==> (Canonical(r) <==> KeepsForm(self.base))
    ensures Canonical(self) ==> IsSimple(r) && IsExpansion(r, self.base, self.exp)
  {
    if Canonical(self) {
      SummandsAreCanonical(self.base, keys);
      FlaggedAreSimple(rd);
      forall other | Enumerates(other, base)
        ensures HasParts(r, PowerParts(other, base, self.exp))
      {
        OtherOrder(r, c, rd, keys, other, base, self.exp);
      }
      CanonicalUnlessCrowded(c, rd, keys, base, self.exp);
      NothingCrowdedIff(self.base, keys, self.exp);
    }
  }

  lemma OtherOrder(r: Basic, c: real, rd: map<Basic, real>, keys: seq<Basic>, other: seq<Basic>,
      base: map<Basic, real>, n: nat)
    requires Enumerates(keys, base) && Enumerates(other, base) && Summands(keys, base)
    requires HasCounts(c, rd, keys, base, MultinomialTable.Compositions(|keys|, n)) && HasParts(r, Given(c, rd))
    ensures HasParts(r, PowerParts(other, base, n))
  {
    forall t
      ensures Given(c, rd)(t) == PowerParts(other, base, n)(t)
    {
      AnyOrder(keys, other, base, n, t);
    }
    SameSought(r, Given(c, rd), PowerParts(other, base, n));
  }

  lemma CrowdedCount(c: real, rd: map<Basic, real>, keys: seq<Basic>, base: map<Basic, real>, s: set<Exponents>,
      f: map<Basic, int>)
    requires Summands(keys, base) && CanonicalSummands(keys) && HasCounts(c, rd, keys, base, s)
    requires IsCrowded(Mul(1.0, f))
    ensures Coefficient(rd, Mul(1.0, f)) == CoefficientOf(keys, base, f, s)
  {
    CrowdedCoefficient(keys, base, f, s);
    assert Given(c, rd)(Mul(1.0, f)) == TermCoefficient(keys, base, Mul(1.0, f), s);
  }

  lemma FlaggedAreSimple(rd: map<Basic, real>)
    requires GoodTerms(rd) && IsFlagged(rd)
    ensures SimpleTerms(rd)
  {
    forall t | t in rd
      ensures IsMonic(t) && IsSimple(t)
    {
      if Canonical(t) {
        CanonicalIsMonic(t);
        CanonicalIsSimple(t);
      }
    }
  }

  /** The terms of the expansion are all canonical exactly when none is crowded. */
  lemma CanonicalUnlessCrowded(c: real, rd: map<Basic, real>, keys: seq<Basic>, base: map<Basic, real>, n: nat)
    requires Summands(keys, base) && CanonicalSummands(keys) && GoodTerms(rd)
    requires HasCounts(c, rd, keys, base, MultinomialTable.Compositions(|keys|, n))
    ensures if NothingCrowded(keys, base, n) then CanonicalTerms(rd) else exists t :: t in rd && IsCrowded(t)
  {
    var s := MultinomialTable.Compositions(|keys|, n);
    if NothingCrowded(keys, base, n) {
      forall t | t in rd
        ensures !IsCrowded(t)
      {
        if IsCrowded(t) {
          assert t == Mul(1.0, t.factors);
          CrowdedCount(c, rd, keys, base, s, t.factors);
        }
      }
    } else {
      var f :| IsCrowded(Mul(1.0, f)) && CoefficientOf(keys, base, f, s) != 0.0;
      CrowdedCount(c, rd, keys, base, s, f);
    }
  }

  ghost predicate HoldsCoefficients(table: map<Exponents, int>, m: nat) {
    forall t | t in table :: |t| == m && table[t] == Combinatorics.Multinomial(t)
  }

  /** The loop over the table of multinomial coefficients. */
  method ExpandTable(keys: seq<Basic>, base: map<Basic, real>, table: map<Exponents, int>)
      returns (c: real, rd: map<Basic, real>)
    requires Summands(keys, base) && HoldsCoefficients(table, |keys|)
    ensures Collected(c, rd, keys, base, table.Keys)
  {
    c, rd := 0.0, map[];
    var items := table.Keys;
    EmptySum(keys, base);
    assert table.Keys - items == {};
    while items != {}
      invariant items <= table.Keys && Collected(c, rd, keys, base, table.Keys - items)
      decreases |items|
    {
      var t :| t in items;
      c, rd := AddComposition(c, rd, keys, base, t, table[t], table.Keys - items);
      assert table.Keys - (items - {t}) == table.Keys - items + {t};
      items := items - {t};
    }
    assert table.Keys - items == table.Keys;
  }

  lemma TableCoefficients(table: map<Exponents, int>, m: nat, n: nat)
    requires MultinomialTable.IsTable(table, map[], m, n)
    ensures table.Keys == MultinomialTable.Compositions(m, n) && HoldsCoefficients(table, m)
  {
    forall t | t in table
      ensures |t| == m && table[t] == Combinatorics.Multinomial(t)
    {
      MultinomialTable.CompositionsMembers(m, n, t);
    }
  }

  lemma EmptySum(keys: seq<Basic>, base: map<Basic, real>)
    requires Summands(keys, base)
    ensures Collected(0.0, map[], keys, base, {})
  {
  }

  /** The multinomial theorem for the terms of the base. */
  lemma ExpandedValue(keys: seq<Basic>, base: map<Basic, real>, n: nat, v: Basic -> real)
    requires Enumerates(keys, base)
    ensures SumOver(MultinomialTable.Compositions(|keys|, n), Contribution(Weights(keys, base, v)))
      == Power(Total(base, v), n)
  {
    WeightsSum(keys, base, v);
    MultinomialTheorem.MultinomialTheorem(Weights(keys, base, v), n);
  }
}
