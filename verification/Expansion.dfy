/**
 Expansion of products of sums (mul_expand_two in src/mul.cpp).

 The product is multiplied out term by term, and its value is kept, with one exception: when a term of one
 factor cancels a term of the other, the number that is left is added without its coefficients.
 */
module Expansion {
  import opened Expressions
  import opened Parts
  import opened PartsProduct
  import opened Powers
  import opened Products
  import opened Sums

  // ----- what mul_expand_two loses

  ghost function PairLoss(c: real, p: Basic, e: real, q: Basic): real {
    if Reciprocal(p, q) then 1.0 - Times(c, e) else 0.0
  }

  ghost function Loss(c: real, p: Basic, d: map<Basic, real>): Basic -> real {
    q => if q in d then PairLoss(c, p, d[q], q) else 0.0
  }

  /** The error made on c p times the terms of d. */
  ghost function RowDefect(c: real, p: Basic, d: map<Basic, real>): real {
    SumOver(d.Keys, Loss(c, p, d))
  }

  ghost function RowLoss(a: map<Basic, real>, b: map<Basic, real>): Basic -> real {
    p => if p in a then RowDefect(a[p], p, b) else 0.0
  }

  /** The error made on the product of two sums: 1 - c e for every pair of terms c p, e q with p q = 1. */
  ghost function Defect(a: map<Basic, real>, b: map<Basic, real>): real {
    SumOver(a.Keys, RowLoss(a, b))
  }

  lemma RowDefectInsert(c: real, p: Basic, d: map<Basic, real>, q: Basic, e: real)
    requires q !in d
    ensures RowDefect(c, p, d[q := e]) == RowDefect(c, p, d) + PairLoss(c, p, e, q)
  {
    var d' := d[q := e];
    SumTake(d'.Keys, Loss(c, p, d'), q);
    assert d'.Keys - {q} == d.Keys;
    SumSame(d.Keys, Loss(c, p, d'), Loss(c, p, d));
  }

  lemma DefectInsert(a: map<Basic, real>, b: map<Basic, real>, p: Basic, c: real)
    requires p !in a
    ensures Defect(a[p := c], b) == Defect(a, b) + RowDefect(c, p, b)
  {
    var a' := a[p := c];
    SumTake(a'.Keys, RowLoss(a', b), p);
    assert a'.Keys - {p} == a.Keys;
    SumSame(a.Keys, RowLoss(a', b), RowLoss(a, b));
  }

  /** Positive exponents never cancel. */
  lemma PositiveNotReciprocal(p: Basic, q: Basic)
    requires AllPositive(p) && AllPositive(q) && IsTerm(q)
    ensures !Reciprocal(p, q)
  {
    var f, g := FactorsOf(p), FactorsOf(q);
    assert exists k :: k in g by {
      if q.Pow? {
        assert q.base in g;
      } else if !q.Mul? {
        assert q in g;
      }
    }
    var k :| k in g;
    assert PositiveFactors(f) && PositiveFactors(g);
    assert k in Merged(f, g);
  }

  lemma PositiveRow(c: real, p: Basic, d: map<Basic, real>)
    requires AllPositive(p) && forall q | q in d :: AllPositive(q) && IsTerm(q)
    ensures RowDefect(c, p, d) == 0.0
  {
    forall q | q in d
      ensures !Reciprocal(p, q)
    {
      PositiveNotReciprocal(p, q);
    }
    SumZero(d.Keys, Loss(c, p, d));
  }

  lemma PositiveDefect(a: map<Basic, real>, b: map<Basic, real>)
    requires forall p | p in a :: AllPositive(p)
    requires forall q | q in b :: AllPositive(q) && IsTerm(q)
    ensures Defect(a, b) == 0.0
  {
    forall p | p in a
      ensures RowDefect(a[p], p, b) == 0.0
    {
      PositiveRow(a[p], p, b);
    }
    SumZero(a.Keys, RowLoss(a, b));
  }

  // ----- the parts of the product

  /** x for the term 1, which stands for the constant. */
  ghost function AtOne(t: Basic, x: real): real {
    if t == Number(1.0) then x else 0.0
  }

  /** What one pair of terms adds, its loss included. */
  ghost function PairGain(c: real, p: Basic, e: real, q: Basic): Basic -> real {
    t => (if PairTerm(p, q) == t then Times(c, e) else 0.0) + AtOne(t, PairLoss(c, p, e, q))
  }

  ghost function RowGain(c: real, p: Basic, d: map<Basic, real>): Basic -> real {
    t => RowShare(t, p, c, d) + AtOne(t, RowDefect(c, p, d))
  }

  /** A row with the terms of b and its constant. */
  ghost function TermGain(c: real, p: Basic, b: Basic): Basic -> real
    requires b.Add?
  {
    t => RowShare(t, p, c, PartsOf(b)) + AtOne(t, RowDefect(c, p, b.terms))
  }

  ghost function TermsGain(a: map<Basic, real>, b: Basic): Basic -> real
    requires b.Add?
  {
    t => Convolution(t, a, PartsOf(b)) + AtOne(t, Defect(a, b.terms))
  }

  /** What the code should find: the product part by part, and what is lost in the constant. */
  ghost function ProductParts(a: Basic, b: Basic, lost: real): Basic -> real {
    t => Convolution(t, PartsOf(a), PartsOf(b)) + AtOne(t, lost)
  }

  lemma ProductFactors(term: Basic, p: Basic, q: Basic)
    requires Canonical(term) && HasProductForm(term, p, q) && CoefOf(p) != 0.0 && CoefOf(q) != 0.0
    ensures FactorsOf(term) == Merged(FactorsOf(p), FactorsOf(q))
  {
    FactorsOfCanonical(term);
    AddedExponents(FactorsOf(term), FactorsOf(p), FactorsOf(q));
  }

  lemma AddedExponents(f: map<Basic, int>, g: map<Basic, int>, h: map<Basic, int>)
    requires forall k | k in f :: f[k] != 0
    requires forall k :: Exponent(f, k) == Exponent(g, k) + Exponent(h, k)
    ensures f == Merged(g, h)
  {
    forall k
      ensures Exponent(f, k) == Exponent(Merged(g, h), k)
    {
      assert Exponent(f, k) == Exponent(g, k) + Exponent(h, k);
    }
    SameExponents(f, Merged(g, h));
  }

  /** mul on two monic terms gives the term they make. */
  lemma PairIsTerm(term: Basic, p: Basic, q: Basic)
    requires Canonical(term) && CoefOf(p) == 1.0 == CoefOf(q) && HasProductForm(term, p, q)
    ensures term == PairTerm(p, q) && (term.Number? ==> term.value == 1.0)
    ensures term.Number? <==> Reciprocal(p, q)
  {
    ProductFactors(term, p, q);
    TimesUnits(1.0);
    CanonicalIsMonic(term);
    OnlyNumberHasNone(term);
  }

  lemma OnlyNumberHasNone(e: Basic)
    requires Canonical(e)
    ensures e.Number? <==> FactorsOf(e) == map[]
  {
    if !e.Number? && !e.Mul? {
      assert (if e.Pow? then e.base else e) in FactorsOf(e);
    }
  }

  lemma PairGains(coef: real, d: map<Basic, real>, term: Basic, c: real, p: Basic, e: real, q: Basic)
    requires term == PairTerm(p, q) && (term.Number? ==> term.value == 1.0) && (term.Number? <==> Reciprocal(p, q))
    ensures if term.Number? then Gains(coef, d, coef + term.value, d, PairGain(c, p, e, q))
      else Gains(coef, d, coef, AddTerm(d, term, Times(c, e)), PairGain(c, p, e, q))
  {
    AddTermCoefficient(d, term, Times(c, e));
  }

  lemma RowGainNext(t: Basic, c: real, p: Basic, done: map<Basic, real>, q: Basic, e: real)
    requires q !in done
    ensures RowGain(c, p, done[q := e])(t) == RowGain(c, p, done)(t) + PairGain(c, p, e, q)(t)
  {
    RowDefectInsert(c, p, done, q, e);
    RowInsert(t, p, c, done, q, e);
    AtOneAdds(t, RowDefect(c, p, done), PairLoss(c, p, e, q));
  }

  lemma RowGains(coef: real, d: map<Basic, real>, coef0: real, d0: map<Basic, real>, coef': real,
      d': map<Basic, real>, c: real, p: Basic, done: map<Basic, real>, q: Basic, e: real)
    requires q !in done && Gains(coef, d, coef0, d0, RowGain(c, p, done))
    requires Gains(coef0, d0, coef', d', PairGain(c, p, e, q))
    ensures Gains(coef, d, coef', d', RowGain(c, p, done[q := e]))
  {
    forall t
      ensures RowGain(c, p, done[q := e])(t) == RowGain(c, p, done)(t) + PairGain(c, p, e, q)(t)
    {
      RowGainNext(t, c, p, done, q, e);
    }
    GainsTwice(coef, d, coef0, d0, coef', d', RowGain(c, p, done), PairGain(c, p, e, q), RowGain(c, p, done[q := e]));
  }

  lemma TermGainNext(t: Basic, c: real, p: Basic, b: Basic, x: real)
    requires b.Add? && Number(1.0) !in b.terms && GoodFactors(FactorsOf(p)) && IsMonic(p) && x == Times(b.constant, c)
    ensures TermGain(c, p, b)(t) == RowGain(c, p, b.terms)(t) + Single(p, x)(t)
  {
    RowWithConstant(t, p, c, b);
    TimesCommutative(b.constant, c);
  }

  /** The term times the constant completes its row. */
  lemma TermGains(coef: real, d: map<Basic, real>, coef0: real, d0: map<Basic, real>, coef': real,
      d': map<Basic, real>, c: real, p: Basic, b: Basic, x: real)
    requires b.Add? && Number(1.0) !in b.terms && GoodFactors(FactorsOf(p)) && IsMonic(p) && x == Times(b.constant, c)
    requires Gains(coef, d, coef0, d0, RowGain(c, p, b.terms)) && Gains(coef0, d0, coef', d', Single(p, x))
    ensures Gains(coef, d, coef', d', TermGain(c, p, b))
  {
    forall t
      ensures TermGain(c, p, b)(t) == RowGain(c, p, b.terms)(t) + Single(p, x)(t)
    {
      TermGainNext(t, c, p, b, x);
    }
    GainsTwice(coef, d, coef0, d0, coef', d', RowGain(c, p, b.terms), Single(p, x), TermGain(c, p, b));
  }

  lemma TermsGainNext(t: Basic, done: map<Basic, real>, p: Basic, c: real, b: Basic)
    requires b.Add? && p !in done
    ensures TermsGain(done[p := c], b)(t) == TermsGain(done, b)(t) + TermGain(c, p, b)(t)
  {
    DefectInsert(done, b.terms, p, c);
    ConvolutionInsert(t, done, PartsOf(b), p, c);
    AtOneAdds(t, Defect(done, b.terms), RowDefect(c, p, b.terms));
  }

  lemma AtOneAdds(t: Basic, x: real, y: real)
    ensures AtOne(t, x + y) == AtOne(t, x) + AtOne(t, y)
  {
  }

  lemma TermsGains(coef: real, coef0: real, d0: map<Basic, real>, coef': real, d': map<Basic, real>,
      done: map<Basic, real>, p: Basic, c: real, b: Basic)
    requires b.Add? && p !in done && Gains(coef, map[], coef0, d0, TermsGain(done, b))
    requires Gains(coef0, d0, coef', d', TermGain(c, p, b))
    ensures Gains(coef, map[], coef', d', TermsGain(done[p := c], b))
  {
    forall t
      ensures TermsGain(done[p := c], b)(t) == TermsGain(done, b)(t) + TermGain(c, p, b)(t)
    {
      TermsGainNext(t, done, p, c, b);
    }
    GainsTwice(coef, map[], coef0, d0, coef', d', TermsGain(done, b), TermGain(c, p, b), TermsGain(done[p := c], b));
  }

  /** d' has the coefficients of d and c times those of b. */
  ghost predicate HasScaled(d': map<Basic, real>, d: map<Basic, real>, c: real, b: map<Basic, real>) {
    forall t :: Coefficient(d', t) == Coefficient(d, t) + Times(c, Coefficient(b, t))
  }

  lemma ScaledGains(d0: map<Basic, real>, d: map<Basic, real>, c: real, done: map<Basic, real>, q: Basic, e: real)
    requires q !in done && HasScaled(d0, d, c, done)
    ensures HasScaled(AddTerm(d0, q, Times(c, e)), d, c, done[q := e])
  {
    AddTermCoefficient(d0, q, Times(c, e));
    TimesUnits(c);
  }

  /** The parts of two sums multiplied out. */
  lemma SumsGain(a: Basic, b: Basic, coef': real, d: map<Basic, real>, d': map<Basic, real>)
    requires a.Add? && b.Add? && Number(1.0) !in a.terms && Number(1.0) !in b.terms && Pairable(PartsOf(b))
    requires Gains(Times(a.constant, b.constant), map[], coef', d, TermsGain(a.terms, b))
    requires HasScaled(d', d, a.constant, b.terms)
    ensures forall t :: Given(coef', d')(t) == ProductParts(a, b, Defect(a.terms, b.terms))(t)
  {
    forall t
      ensures Given(coef', d')(t) == ProductParts(a, b, Defect(a.terms, b.terms))(t)
    {
      ConvolutionWithConstant(t, a, PartsOf(b));
      SumCoefficient(b, t);
      SumsGainAt(t, a, b, coef', d, d');
    }
  }

  lemma SumsGainAt(t: Basic, a: Basic, b: Basic, coef': real, d: map<Basic, real>, d': map<Basic, real>)
    requires a.Add? && b.Add? && Coefficient(PartsOf(b), t) == Given(b.constant, b.terms)(t)
    requires Convolution(t, PartsOf(a), PartsOf(b))
          == Convolution(t, a.terms, PartsOf(b)) + Times(a.constant, Coefficient(PartsOf(b), t))
    requires Given(coef', d)(t) == Given(Times(a.constant, b.constant), map[])(t) + TermsGain(a.terms, b)(t)
    requires Coefficient(d', t) == Coefficient(d, t) + Times(a.constant, Coefficient(b.terms, t))
    ensures Given(coef', d')(t) == ProductParts(a, b, Defect(a.terms, b.terms))(t)
  {
  }

  /** The parts of a term times a sum. */
  lemma TermSumGain(a: Basic, b: Basic, c: real, p: Basic, coef': real, d': map<Basic, real>)
    requires b.Add? && OnlyPart(PartsOf(a), p, c) && Pairable(PartsOf(b))
    requires forall u | u in PartsOf(a) :: PartsOf(a)[u] != 0.0
    requires p == Number(1.0) || c != 0.0
    requires Gains(0.0, map[], coef', d', TermGain(c, p, b))
    ensures forall t :: Given(coef', d')(t) == ProductParts(a, b, RowDefect(c, p, b.terms))(t)
  {
    forall t
      ensures Given(coef', d')(t) == ProductParts(a, b, RowDefect(c, p, b.terms))(t)
    {
      OnePartConvolution(t, PartsOf(a), p, c, PartsOf(b));
      TermSumGainAt(t, a, b, c, p, coef', d');
    }
  }

  lemma TermSumGainAt(t: Basic, a: Basic, b: Basic, c: real, p: Basic, coef': real, d': map<Basic, real>)
    requires b.Add? && Convolution(t, PartsOf(a), PartsOf(b)) == RowShare(t, p, c, PartsOf(b))
    requires Given(coef', d')(t) == Given(0.0, map[])(t) + TermGain(c, p, b)(t)
    ensures Given(coef', d')(t) == ProductParts(a, b, RowDefect(c, p, b.terms))(t)
  {
  }

  lemma OnePartConvolution(t: Basic, d: map<Basic, real>, p: Basic, c: real, b: map<Basic, real>)
    requires OnlyPart(d, p, c) && (forall u | u in d :: d[u] != 0.0) && Pairable(b)
    requires p == Number(1.0) || c != 0.0
    ensures Convolution(t, d, b) == RowShare(t, p, c, b)
  {
    assert forall u :: Coefficient(d, u) == if u == p then c else 0.0;
    if c == 0.0 {
      assert d == map[] by {
        assert forall u | u in d :: Coefficient(d, u) != 0.0;
      }
      EmptyConvolution(t, b);
      RowOfOne(t, 0.0, b);
      TimesUnits(Coefficient(b, t));
    } else {
      SameCoefficients(d, map[p := c]);
      ConvolutionSingle(t, p, c, b);
    }
  }

  // ----- one row of the product

  /** From coef and d to coef' and d' the value grows by x plus the lost amount. */
  ghost predicate Grows(v: Basic -> real, coef: real, d: map<Basic, real>, coef': real, d': map<Basic, real>, x: real,
      lost: real) {
    TermsDefined(v, d') && coef' + Total(d', v) == coef + Total(d, v) + x + lost
  }

  ghost function Restrict(d: map<Basic, real>, items: set<Basic>): map<Basic, real> {
    map k | k in d && k !in items :: d[k]
  }

  lemma RestrictStep(d: map<Basic, real>, items: set<Basic>, k: Basic)
    requires k in items && k in d
    ensures k !in Restrict(d, items) && Restrict(d, items - {k}) == Restrict(d, items)[k := d[k]]
  {
  }

  lemma RestrictAll(d: map<Basic, real>)
    ensures Restrict(d, {}) == d && Restrict(d, d.Keys) == map[]
  {
  }

  /** mul on two monic terms: the term they make, or 1 if they cancel. */
  method MulTerms(p: Basic, q: Basic) returns (term: Basic)
    requires (IsTerm(p) || p == Number(1.0)) && IsTerm(q)
    ensures (term.Number? || IsTerm(term)) && IsProductOf(term, p, q) && (term.Number? <==> Reciprocal(p, q))
    ensures term.Number? ==> term.value == 1.0
    ensures Canonical(p) && Canonical(q) ==> Canonical(term) && term == PairTerm(p, q)
  {
    OneIsNotReciprocal(q);
    FactorsOfGood(q);
    term := MulBasic(p, q);
    if Canonical(p) && Canonical(q) {
      PairIsTerm(term, p, q);
    }
  }

  /** One pair of terms: r is the product of p and q, added with the coefficient c e unless it is a number. */
  method AddPair(coef: real, d: map<Basic, real>, c: real, p: Basic, e: real, q: Basic)
      returns (coef': real, d': map<Basic, real>)
    requires GoodTerms(d) && (IsTerm(p) || p == Number(1.0)) && IsTerm(q)
    ensures GoodTerms(d') && (CanonicalTerms(d) && Canonical(p) && Canonical(q) ==> CanonicalTerms(d'))
    ensures forall v | IsValuation(v) && TermsDefined(v, d) && Defined(v, p) && Defined(v, q) ::
      Grows(v, coef, d, coef', d', Times(Times(c, v(p)), Times(e, v(q))), PairLoss(c, p, e, q))
    ensures Canonical(p) && Canonical(q) ==> Gains(coef, d, coef', d', PairGain(c, p, e, q))
  {
    coef', d' := coef, d;
    var term := MulTerms(p, q);
    if Canonical(p) && Canonical(q) {
      PairGains(coef, d, term, c, p, e, q);
    }
    if term.Number? {
      coef' := coef' + term.value;
    } else {
      AddTermGood(d, term, Times(c, e));
      d' := DictAddTerm(d', Times(c, e), term);
    }
    PairValue(coef, d, term, c, p, e, q);
  }

  lemma PairValue(coef: real, d: map<Basic, real>, term: Basic, c: real, p: Basic, e: real, q: Basic)
    requires IsProductOf(term, p, q) && (term.Number? <==> Reciprocal(p, q)) && (term.Number? ==> term.value == 1.0)
    ensures forall v | IsValuation(v) && TermsDefined(v, d) && Defined(v, p) && Defined(v, q) ::
      Grows(v, coef, d, if term.Number? then coef + term.value else coef,
        if term.Number? then d else AddTerm(d, term, Times(c, e)), Times(Times(c, v(p)), Times(e, v(q))),
        PairLoss(c, p, e, q))
  {
    forall v | IsValuation(v) && TermsDefined(v, d) && Defined(v, p) && Defined(v, q)
      ensures Grows(v, coef, d, if term.Number? then coef + term.value else coef,
        if term.Number? then d else AddTerm(d, term, Times(c, e)), Times(Times(c, v(p)), Times(e, v(q))),
        PairLoss(c, p, e, q))
    {
      TimesInterchange(c, v(p), e, v(q));
      TimesUnits(Times(c, e));
      AddTermValue(v, d, term, Times(c, e));
      AddTermDefined(v, d, term, Times(c, e));
    }
  }

  lemma OneIsNotReciprocal(q: Basic)
    requires IsTerm(q)
    ensures !Reciprocal(Number(1.0), q)
  {
    FactorsOfGood(q);
    MergedNone(FactorsOf(q));
    assert FactorsOf(q) != map[] by {
      if q.Pow? {
        assert q.base in FactorsOf(q);
      } else if !q.Mul? {
        assert q in FactorsOf(q);
      }
    }
  }

  /** The value has grown by c p times the terms of done, and by the loss of these pairs. */
  ghost predicate RowGrows(coef: real, d: map<Basic, real>, coef': real, d': map<Basic, real>, c: real, p: Basic,
      b: map<Basic, real>, done: map<Basic, real>) {
    forall v | IsValuation(v) && TermsDefined(v, d) && Defined(v, p) && TermsDefined(v, b) ::
      Grows(v, coef, d, coef', d', Times(Times(c, v(p)), Total(done, v)), RowDefect(c, p, done))
  }

  /** The inner loop: c p times every term of b. */
  method ExpandRow(coef: real, d: map<Basic, real>, c: real, p: Basic, b: map<Basic, real>)
      returns (coef': real, d': map<Basic, real>)
    requires GoodTerms(d) && GoodTerms(b) && (IsTerm(p) || p == Number(1.0))
    ensures GoodTerms(d') && (CanonicalTerms(d) && Canonical(p) && CanonicalTerms(b) ==> CanonicalTerms(d'))
    ensures RowGrows(coef, d, coef', d', c, p, b, b)
    ensures Canonical(p) && CanonicalTerms(b) ==> Gains(coef, d, coef', d', RowGain(c, p, b))
  {
    coef', d' := coef, d;
    var items := b.Keys;
    RestrictAll(b);
    RowStart(coef, d, c, p, b);
    while items != {}
      invariant items <= b.Keys && GoodTerms(d')
      invariant CanonicalTerms(d) && Canonical(p) && CanonicalTerms(b) ==> CanonicalTerms(d')
      invariant RowGrows(coef, d, coef', d', c, p, b, Restrict(b, items))
      invariant Canonical(p) && CanonicalTerms(b) ==> Gains(coef, d, coef', d', RowGain(c, p, Restrict(b, items)))
      decreases |items|
    {
      var q :| q in items;
      ghost var coef0, d0, done := coef', d', Restrict(b, items);
      RestrictStep(b, items, q);
      coef', d' := AddPair(coef', d', c, p, b[q], q);
      items := items - {q};
      if Canonical(p) && CanonicalTerms(b) {
        RowGains(coef, d, coef0, d0, coef', d', c, p, done, q, b[q]);
      }
      RowGrowsNext(coef, d, coef0, d0, coef', d', c, p, b, done, q);
    }
  }

  lemma RowStart(coef: real, d: map<Basic, real>, c: real, p: Basic, b: map<Basic, real>)
    ensures RowGrows(coef, d, coef, d, c, p, b, map[]) && Gains(coef, d, coef, d, RowGain(c, p, map[]))
  {
    forall v | IsValuation(v) && TermsDefined(v, d)
      ensures Grows(v, coef, d, coef, d, Times(Times(c, v(p)), Total(map[], v)), RowDefect(c, p, map[]))
    {
      TimesUnits(Times(c, v(p)));
    }
  }

  lemma RowGrowsNext(coef: real, d: map<Basic, real>, coef0: real, d0: map<Basic, real>, coef': real,
      d': map<Basic, real>, c: real, p: Basic, b: map<Basic, real>, done: map<Basic, real>, q: Basic)
    requires q in b && q !in done && RowGrows(coef, d, coef0, d0, c, p, b, done)
    requires forall v | IsValuation(v) && TermsDefined(v, d0) && Defined(v, p) && Defined(v, q) ::
      Grows(v, coef0, d0, coef', d', Times(Times(c, v(p)), Times(b[q], v(q))), PairLoss(c, p, b[q], q))
    ensures RowGrows(coef, d, coef', d', c, p, b, done[q := b[q]])
  {
    forall v | IsValuation(v) && TermsDefined(v, d) && Defined(v, p) && TermsDefined(v, b)
      ensures Grows(v, coef, d, coef', d', Times(Times(c, v(p)), Total(done[q := b[q]], v)),
        RowDefect(c, p, done[q := b[q]]))
    {
      RowStep(v, coef, d, coef0, d0, coef', d', c, p, done, q, b[q]);
    }
  }

  lemma RowStep(v: Basic -> real, coef: real, d: map<Basic, real>, coef0: real, d0: map<Basic, real>, coef': real,
      d': map<Basic, real>, c: real, p: Basic, done: map<Basic, real>, q: Basic, e: real)
    requires q !in done
    requires Grows(v, coef, d, coef0, d0, Times(Times(c, v(p)), Total(done, v)), RowDefect(c, p, done))
    requires Grows(v, coef0, d0, coef', d', Times(Times(c, v(p)), Times(e, v(q))),
      PairLoss(c, p, e, q))
    ensures Grows(v, coef, d, coef', d', Times(Times(c, v(p)), Total(done[q := e], v)), RowDefect(c, p, done[q := e]))
  {
    TotalInsert(done, v, q, e);
    RowDefectInsert(c, p, done, q, e);
    var l := PairLoss(c, p, e, q);
    Accumulate(coef + Total(d, v), coef0 + Total(d0, v), coef' + Total(d', v), Times(c, v(p)),
      Total(done, v), Times(e, v(q)), Total(done[q := e], v), RowDefect(c, p, done), l, RowDefect(c, p, done[q := e]));
  }

  /** Two steps s0 = s + x t + D and s1 = s0 + x u + l in one. */
  lemma Accumulate(s: real, s0: real, s1: real, x: real, t: real, u: real, t': real, D: real, l: real, D': real)
    requires s0 == s + Times(x, t) + D && s1 == s0 + Times(x, u) + l
    requires t' == t + u && D' == D + l
    ensures s1 == s + Times(x, t') + D'
  {
    TimesDistributes(t, u, x);
  }

  // ----- mul_expand_two

  /** One term of a: its row, and the term times the constant of b. */
  method ExpandTerm(coef: real, d: map<Basic, real>, c: real, p: Basic, b: Basic)
      returns (coef': real, d': map<Basic, real>)
    requires GoodTerms(d) && IsTerm(p) && b.Add? && WellFormed(b)
    ensures GoodTerms(d') && (CanonicalTerms(d) && Canonical(p) && Canonical(b) ==> CanonicalTerms(d'))
    ensures forall v | IsValuation(v) && TermsDefined(v, d) && Defined(v, p) && Defined(v, b) ::
      Grows(v, coef, d, coef', d', Times(Times(c, v(p)), v(b)), RowDefect(c, p, b.terms))
    ensures Canonical(p) && Canonical(b) ==> Gains(coef, d, coef', d', TermGain(c, p, b))
  {
    coef', d' := ExpandRow(coef, d, c, p, b.terms);
    if Canonical(p) && Canonical(b) {
      TermIsReadable(p);
      NoOneAmongTerms(b);
      SingleGains(coef', d', p, Times(b.constant, c));
      TermGains(coef, d, coef', d', coef', AddTerm(d', p, Times(b.constant, c)), c, p, b, Times(b.constant, c));
    }
    ghost var d1 := d';
    AddTermGood(d', p, Times(b.constant, c));
    d' := DictAddTerm(d', Times(b.constant, c), p);
    forall v | IsValuation(v) && TermsDefined(v, d) && Defined(v, p) && Defined(v, b)
      ensures Grows(v, coef, d, coef', d', Times(Times(c, v(p)), v(b)), RowDefect(c, p, b.terms))
    {
      ConstantStep(v, coef, d, coef', d1, c, p, b, RowDefect(c, p, b.terms));
    }
  }

  lemma TermIsReadable(p: Basic)
    requires Canonical(p) && IsTerm(p)
    ensures GoodFactors(FactorsOf(p)) && IsMonic(p) && !p.Number? && CoefOf(p) == 1.0
  {
    FactorsOfGood(p);
    CanonicalIsMonic(p);
  }

  lemma PartsArePairable(b: Basic)
    requires Canonical(b)
    ensures Pairable(PartsOf(b)) && forall t | t in PartsOf(b) :: PartsOf(b)[t] != 0.0
  {
    CanonicalIsSimple(b);
    SimpleParts(b);
    forall t | t in PartsOf(b)
      ensures GoodFactors(FactorsOf(t))
    {
      PartIsGood(b, t);
    }
  }

  lemma PartIsGood(b: Basic, t: Basic)
    requires Canonical(b) && t in PartsOf(b)
    ensures GoodFactors(FactorsOf(t))
  {
    if b.Add? && t in b.terms {
      CanonicalIsWellFormed(t);
      FactorsOfGood(t);
    } else if !b.Add? && !b.Number? {
      FactorsOfCanonical(b);
      MonicOfFactors(FactorsOf(b));
      CanonicalFactorsAreGood(FactorsOf(b));
    }
  }

  lemma CanonicalFactorsAreGood(f: map<Basic, int>)
    requires CanonicalFactors(f)
    ensures GoodFactors(f)
  {
    forall k | k in f
      ensures IsTerm(k)
    {
      CanonicalIsWellFormed(k);
    }
  }

  /** The row is done; the term times the constant of b completes it. */
  lemma ConstantStep(v: Basic -> real, coef: real, d: map<Basic, real>, coef': real, d1: map<Basic, real>, c: real,
      p: Basic, b: Basic, lost: real)
    requires b.Add? && IsValuation(v) && Defined(v, p)
    requires Grows(v, coef, d, coef', d1, Times(Times(c, v(p)), Total(b.terms, v)), lost)
    ensures Grows(v, coef, d, coef', AddTerm(d1, p, Times(b.constant, c)), Times(Times(c, v(p)), v(b)), lost)
  {
    var d', x := AddTerm(d1, p, Times(b.constant, c)), Times(c, v(p));
    AddTermDefined(v, d1, p, Times(b.constant, c));
    AddTermValue(v, d1, p, Times(b.constant, c));
    ConstantTerm(b.constant, c, v(p));
    Accumulate(coef + Total(d, v), coef' + Total(d1, v), coef' + Total(d', v), x, Total(b.terms, v), b.constant, v(b),
      lost, 0.0, lost);
  }

  lemma ConstantTerm(b: real, c: real, x: real)
    ensures Times(Times(b, c), x) == Times(Times(c, x), b)
  {
    TimesAssociative(b, c, x);
    TimesCommutative(b, Times(c, x));
  }

  /** The outer loop over the terms of a. */
  method ExpandTerms(coef: real, a: map<Basic, real>, b: Basic) returns (coef': real, d: map<Basic, real>)
    requires GoodTerms(a) && b.Add? && WellFormed(b)
    ensures GoodTerms(d) && (CanonicalTerms(a) && Canonical(b) ==> CanonicalTerms(d))
    ensures forall v | IsValuation(v) && TermsDefined(v, a) && Defined(v, b) ::
      Grows(v, coef, map[], coef', d, Times(Total(a, v), v(b)), Defect(a, b.terms))
    ensures CanonicalTerms(a) && Canonical(b) ==> Gains(coef, map[], coef', d, TermsGain(a, b))
  {
    coef', d := coef, map[];
    var items := a.Keys;
    RestrictAll(a);
    forall v: Basic -> real
      ensures Times(Total(map[], v), v(b)) == 0.0 && Defect(map[], b.terms) == 0.0
    {
      TimesUnits(v(b));
    }
    while items != {}
      invariant items <= a.Keys && GoodTerms(d)
      invariant CanonicalTerms(a) && Canonical(b) ==> CanonicalTerms(d)
      invariant forall v | IsValuation(v) && TermsDefined(v, a) && Defined(v, b) ::
        Grows(v, coef, map[], coef', d, Times(Total(Restrict(a, items), v), v(b)), Defect(Restrict(a, items), b.terms))
      invariant CanonicalTerms(a) && Canonical(b) ==> Gains(coef, map[], coef', d, TermsGain(Restrict(a, items), b))
      decreases |items|
    {
      var p :| p in items;
      ghost var coef0, d0, done := coef', d, Restrict(a, items);
      RestrictStep(a, items, p);
      coef', d := ExpandTerm(coef', d, a[p], p, b);
      items := items - {p};
      if CanonicalTerms(a) && Canonical(b) {
        TermsGains(coef, coef0, d0, coef', d, done, p, a[p], b);
      }
      forall v | IsValuation(v) && TermsDefined(v, a) && Defined(v, b)
        ensures Grows(v, coef, map[], coef', d, Times(Total(Restrict(a, items), v), v(b)),
          Defect(Restrict(a, items), b.terms))
      {
        TermStep(v, coef, coef0, d0, coef', d, done, p, a[p], b);
      }
    }
  }

  lemma TermStep(v: Basic -> real, coef: real, coef0: real, d0: map<Basic, real>, coef': real, d': map<Basic, real>,
    done: map<Basic, real>, p: Basic, c: real, b: Basic)
    requires b.Add? && p !in done
    requires Grows(v, coef, map[], coef0, d0, Times(Total(done, v), v(b)), Defect(done, b.terms))
    requires Grows(v, coef0, d0, coef', d', Times(Times(c, v(p)), v(b)), RowDefect(c, p, b.terms))
    ensures Grows(v, coef, map[], coef', d', Times(Total(done[p := c], v), v(b)), Defect(done[p := c], b.terms))
  {
    TotalInsert(done, v, p, c);
    DefectInsert(done, b.terms, p, c);
    TimesCommutative(Total(done, v), v(b));
    TimesCommutative(Times(c, v(p)), v(b));
    TimesCommutative(Total(done[p := c], v), v(b));
    Accumulate(coef + Total(map[], v), coef0 + Total(d0, v), coef' + Total(d', v), v(b), Total(done, v), Times(c, v(p)),
      Total(done[p := c], v), Defect(done, b.terms), RowDefect(c, p, b.terms), Defect(done[p := c], b.terms));
  }

  /** The last loop: the constant of a times every term of b. */
  method AddScaled(d: map<Basic, real>, c: real, b: map<Basic, real>) returns (d': map<Basic, real>)
    requires GoodTerms(d) && GoodTerms(b)
    ensures GoodTerms(d') && (CanonicalTerms(d) && CanonicalTerms(b) ==> CanonicalTerms(d'))
    ensures forall v | TermsDefined(v, d) && TermsDefined(v, b) ::
      TermsDefined(v, d') && Total(d', v) == Total(d, v) + Times(c, Total(b, v))
    ensures HasScaled(d', d, c, b)
  {
    d' := d;
    var items := b.Keys;
    RestrictAll(b);
    TimesUnits(c);
    while items != {}
      invariant items <= b.Keys && GoodTerms(d')
      invariant CanonicalTerms(d) && CanonicalTerms(b) ==> CanonicalTerms(d')
      invariant forall v | TermsDefined(v, d) && TermsDefined(v, b) ::
        TermsDefined(v, d') && Total(d', v) == Total(d, v) + Times(c, Total(Restrict(b, items), v))
      invariant HasScaled(d', d, c, Restrict(b, items))
      decreases |items|
    {
      var q :| q in items;
      ghost var d0, done := d', Restrict(b, items);
      RestrictStep(b, items, q);
      AddTermGood(d', q, Times(c, b[q]));
      ScaledGains(d0, d, c, done, q, b[q]);
      d' := DictAddTerm(d', Times(c, b[q]), q);
      items := items - {q};
      forall v | TermsDefined(v, d) && TermsDefined(v, b)
        ensures TermsDefined(v, d') && Total(d', v) == Total(d, v) + Times(c, Total(Restrict(b, items), v))
      {
        ScaledStep(v, Total(d, v), d0, c, done, q, b[q]);
      }
    }
  }

  lemma ScaledStep(v: Basic -> real, start: real, d0: map<Basic, real>, c: real, done: map<Basic, real>, q: Basic,
      e: real)
    requires q !in done && TermsDefined(v, d0) && Defined(v, q) && Total(d0, v) == start + Times(c, Total(done, v))
    ensures TermsDefined(v, AddTerm(d0, q, Times(c, e)))
    ensures Total(AddTerm(d0, q, Times(c, e)), v) == start + Times(c, Total(done[q := e], v))
  {
    AddTermDefined(v, d0, q, Times(c, e));
    AddTermValue(v, d0, q, Times(c, e));
    TotalInsert(done, v, q, e);
    TimesDistributes(Total(done, v), Times(e, v(q)), c);
    TimesAssociative(c, e, v(q));
  }

  /** r has the value of a times b plus the lost amount, wherever a and b have values. */
  ghost predicate IsProductUpTo(r: Basic, a: Basic, b: Basic, lost: real) {
    forall v | IsValuation(v) && Defined(v, a) && Defined(v, b) :: Defined(v, r) && v(r) == Times(v(a), v(b)) + lost
  }

  method ExpandSums(a: Basic, b: Basic) returns (r: Basic)
    requires a.Add? && b.Add? && WellFormed(a) && WellFormed(b)
    ensures WellFormed(r) && IsProductUpTo(r, a, b, Defect(a.terms, b.terms))
    ensures Canonical(a) && Canonical(b) ==>
      Canonical(r) && HasParts(r, ProductParts(a, b, Defect(a.terms, b.terms)))
  {
    var coef := Times(a.constant, b.constant);
    var coef', d := ExpandTerms(coef, a.terms, b);
    var d' := AddScaled(d, a.constant, b.terms);
    r := SumFromDict(coef', d');
    if Canonical(a) && Canonical(b) {
      SumsForm(r, a, b, coef', d, d');
    }
    forall v | IsValuation(v) && Defined(v, a) && Defined(v, b)
      ensures Defined(v, r) && v(r) == Times(v(a), v(b)) + Defect(a.terms, b.terms)
    {
      SumsValue(a.constant, Total(a.terms, v), v(a), b.constant, Total(b.terms, v), v(b));
    }
  }

  lemma SumsForm(r: Basic, a: Basic, b: Basic, coef': real, d: map<Basic, real>, d': map<Basic, real>)
    requires a.Add? && b.Add? && Canonical(a) && Canonical(b) && GoodTerms(d') && CanonicalTerms(d')
    requires Gains(Times(a.constant, b.constant), map[], coef', d, TermsGain(a.terms, b))
    requires HasScaled(d', d, a.constant, b.terms)
    requires SimpleTerms(d') ==> HasParts(r, Given(coef', d'))
    ensures HasParts(r, ProductParts(a, b, Defect(a.terms, b.terms)))
  {
    PartsArePairable(b);
    CanonicalIsSimple(a);
    CanonicalIsSimple(b);
    NoConstantTerm(a);
    NoConstantTerm(b);
    SumsGain(a, b, coef', d, d');
    CanonicalTermsAreSimple(d');
    SameSought(r, Given(coef', d'), ProductParts(a, b, Defect(a.terms, b.terms)));
  }

  lemma SumsValue(a: real, s: real, x: real, b: real, t: real, y: real)
    requires x == a + s && y == b + t
    ensures Times(x, y) == Times(a, b) + Times(s, y) + Times(a, t)
  {
    TimesDistributes(a, s, y);
    TimesDistributes(b, t, a);
  }

  /** A term times a sum: one row, and the term times the constant. */
  method ExpandTermSum(a: Basic, b: Basic) returns (r: Basic, ghost lost: real)
    requires !a.Add? && b.Add? && WellFormed(a) && WellFormed(b)
    ensures WellFormed(r) && IsProductUpTo(r, a, b, lost)
    ensures Canonical(a) && Canonical(b) ==> Canonical(r) && HasParts(r, ProductParts(a, b, lost))
    ensures !IsLoneProduct(FactorsOf(a)) ==> lost == RowDefect(CoefOf(a), a, b.terms)
    ensures AllPositive(a) && AllPositive(b) ==> lost == 0.0
  {
    var aCoef, aTerm := AsCoefTerm(a);
    var coef, d := ExpandRow(0.0, map[], aCoef, aTerm, b.terms);
    lost := RowDefect(aCoef, aTerm, b.terms);
    ghost var coef0, d0 := coef, d;
    if aTerm == Number(1.0) {
      coef := coef + Times(b.constant, aCoef);
    } else {
      AddTermGood(d, aTerm, Times(b.constant, aCoef));
      d := DictAddTerm(d, Times(b.constant, aCoef), aTerm);
    }
    r := SumFromDict(coef, d);
    TermSumIsProduct(r, a, b, aCoef, aTerm, coef0, d0, coef, d, lost);
    if Canonical(a) && Canonical(b) {
      TermSumForm(r, a, b, aCoef, aTerm, coef0, d0, coef, d);
    }
    TermSumLoss(a, b, aCoef, aTerm);
  }

  lemma TermSumLoss(a: Basic, b: Basic, c: real, p: Basic)
    requires !a.Add? && b.Add? && WellFormed(a) && WellFormed(b) && c == CoefOf(a) && IsTermOf(p, a)
    ensures !IsLoneProduct(FactorsOf(a)) ==> RowDefect(c, p, b.terms) == RowDefect(c, a, b.terms)
    ensures AllPositive(a) && AllPositive(b) ==> RowDefect(c, p, b.terms) == 0.0
  {
    if !IsLoneProduct(FactorsOf(a)) {
      SameRowDefect(c, p, a, b.terms);
    }
    if AllPositive(a) && AllPositive(b) {
      PositiveRow(c, p, b.terms);
    }
  }

  lemma TermSumIsProduct(r: Basic, a: Basic, b: Basic, c: real, t: Basic, coef0: real, d0: map<Basic, real>, coef: real,
      d: map<Basic, real>, lost: real)
    requires b.Add? && IsCoefTerm(c, t, a) && IsSumOf(r, coef, d)
    requires forall v | IsValuation(v) && Defined(v, t) && TermsDefined(v, b.terms) ::
      Grows(v, 0.0, map[], coef0, d0, Times(Times(c, v(t)), Total(b.terms, v)), lost)
    requires if t == Number(1.0) then coef == coef0 + Times(b.constant, c) && d == d0
      else coef == coef0 && d == AddTerm(d0, t, Times(b.constant, c))
    ensures IsProductUpTo(r, a, b, lost)
  {
    forall v | IsValuation(v) && Defined(v, a) && Defined(v, b)
      ensures Defined(v, r) && v(r) == Times(v(a), v(b)) + lost
    {
      TermSumValue(v, a, b, c, t, coef0, d0, coef, d, lost);
    }
  }

  lemma TermSumForm(r: Basic, a: Basic, b: Basic, c: real, p: Basic, coef0: real, d0: map<Basic, real>, coef: real,
      d: map<Basic, real>)
    requires !a.Add? && b.Add? && Canonical(a) && Canonical(b) && WellFormed(a) && WellFormed(b)
    requires c == CoefOf(a) && IsTermOf(p, a) && GoodTerms(d) && CanonicalTerms(d)
    requires Gains(0.0, map[], coef0, d0, RowGain(c, p, b.terms))
    requires if p == Number(1.0) then coef == coef0 + Times(b.constant, c) && d == d0
      else coef == coef0 && d == AddTerm(d0, p, Times(b.constant, c))
    requires SimpleTerms(d) ==> HasParts(r, Given(coef, d))
    ensures HasParts(r, ProductParts(a, b, RowDefect(c, p, b.terms)))
  {
    PlainParts(a, c, p);
    PartsArePairable(a);
    PartsArePairable(b);
    NoOneAmongTerms(b);
    PartIsReadable(p);
    TermSumGains(coef0, d0, coef, d, c, p, b);
    TermSumGain(a, b, c, p, coef, d);
    CanonicalTermsAreSimple(d);
    SameSought(r, Given(coef, d), ProductParts(a, b, RowDefect(c, p, b.terms)));
  }

  lemma TermSumGains(coef0: real, d0: map<Basic, real>, coef: real, d: map<Basic, real>, c: real, p: Basic, b: Basic)
    requires b.Add? && Number(1.0) !in b.terms && GoodFactors(FactorsOf(p)) && IsMonic(p)
    requires Gains(0.0, map[], coef0, d0, RowGain(c, p, b.terms))
    requires if p == Number(1.0) then coef == coef0 + Times(b.constant, c) && d == d0
      else coef == coef0 && d == AddTerm(d0, p, Times(b.constant, c))
    ensures Gains(0.0, map[], coef, d, TermGain(c, p, b))
  {
    SingleGains(coef0, d0, p, Times(b.constant, c));
    TermGains(0.0, map[], coef0, d0, coef, d, c, p, b, Times(b.constant, c));
  }

  lemma PartIsReadable(p: Basic)
    requires p == Number(1.0) || (Canonical(p) && IsTerm(p))
    ensures GoodFactors(FactorsOf(p)) && IsMonic(p)
  {
    if p != Number(1.0) {
      TermIsReadable(p);
    }
  }

  lemma TermSumValue(v: Basic -> real, a: Basic, b: Basic, c: real, t: Basic, coef0: real, d0: map<Basic, real>,
    coef: real, d: map<Basic, real>, lost: real)
    requires b.Add? && IsValuation(v) && Defined(v, t) && v(a) == Times(c, v(t))
    requires Grows(v, 0.0, map[], coef0, d0, Times(v(a), Total(b.terms, v)), lost)
    requires if t == Number(1.0) then coef == coef0 + Times(b.constant, c) && d == d0
      else coef == coef0 && d == AddTerm(d0, t, Times(b.constant, c))
    ensures TermsDefined(v, d) && coef + Total(d, v) == Times(v(a), v(b)) + lost
  {
    var x := Times(Times(b.constant, c), v(t));
    ConstantTerm(b.constant, c, v(t));
    JoinConstant(v(a), b.constant, Total(b.terms, v), v(b), x);
    if t == Number(1.0) {
      TimesUnits(Times(b.constant, c));
    } else {
      AddTermDefined(v, d0, t, Times(b.constant, c));
      AddTermValue(v, d0, t, Times(b.constant, c));
    }
  }

  lemma JoinConstant(a: real, b: real, t: real, y: real, x: real)
    requires x == Times(a, b) && y == b + t
    ensures Times(a, y) == x + Times(a, t)
  {
    TimesDistributes(b, t, a);
  }

  lemma SameRowDefect(c: real, p: Basic, q: Basic, d: map<Basic, real>)
    requires FactorsOf(p) == FactorsOf(q)
    ensures RowDefect(c, p, d) == RowDefect(c, q, d)
  {
    SumSame(d.Keys, Loss(c, p, d), Loss(c, q, d));
  }

  /** What mul_expand_two loses on canonical expressions. */
  ghost function Lost(a: Basic, b: Basic): real {
    if a.Add? && b.Add? then Defect(a.terms, b.terms)
    else if a.Add? then RowDefect(CoefOf(b), b, a.terms)
    else if b.Add? then RowDefect(CoefOf(a), a, b.terms)
    else 0.0
  }

  /** A product that is the only factor stands in no canonical expression. */
  ghost predicate HasLoneProduct(a: Basic, b: Basic) {
    a.Add? != b.Add? && IsLoneProduct(FactorsOf(if a.Add? then b else a))
  }

  /** Wherever a and b have values, r has the value of their product exactly when nothing is lost. */
  ghost predicate IsExactUnless(r: Basic, a: Basic, b: Basic, lost: real) {
    forall v | IsValuation(v) && Defined(v, a) && Defined(v, b) :: v(r) == Times(v(a), v(b)) <==> lost == 0.0
  }

  /**
   mul_expand_two: the product of a and b, up to what cancelling terms lose.  Two sums lose Defect, a term
   and a sum lose the defect of one row, and nothing is lost when all exponents are positive.  The product is
   multiplied out: the coefficient of every term is the sum over the pairs of terms that make it.
   */
  method MulExpandTwo(a: Basic, b: Basic) returns (r: Basic, ghost lost: real)
    requires WellFormed(a) && WellFormed(b)
    ensures WellFormed(r) && IsProductUpTo(r, a, b, lost) && IsExactUnless(r, a, b, lost)
    ensures Canonical(a) && Canonical(b) ==> Canonical(r) && lost == Lost(a, b)
    ensures Canonical(a) && Canonical(b) ==> HasParts(r, ProductParts(a, b, lost))
    ensures !HasLoneProduct(a, b) ==> lost == Lost(a, b)
    ensures AllPositive(a) && AllPositive(b) ==> lost == 0.0
  {
    NoLoneFactor(a, b);
    if a.Add? && b.Add? {
      r := ExpandSums(a, b);
      lost := Defect(a.terms, b.terms);
      PositiveSums(a, b);
    } else if a.Add? {
      r, lost := ExpandTermSum(b, a);
      ProductCommutes(r, b, a, lost);
      PartsCommute(r, b, a, lost);
    } else if b.Add? {
      r, lost := ExpandTermSum(a, b);
    } else {
      r := MulBasic(a, b);
      lost := 0.0;
      if Canonical(a) && Canonical(b) {
        TermsForm(r, a, b);
      }
    }
    ExactUnlessLost(r, a, b, lost);
  }

  lemma NoLoneFactor(a: Basic, b: Basic)
    ensures Canonical(a) && Canonical(b) ==> !IsLoneProduct(FactorsOf(a)) && !IsLoneProduct(FactorsOf(b))
  {
    if Canonical(a) && Canonical(b) {
      FactorsOfCanonical(a);
      FactorsOfCanonical(b);
    }
  }

  lemma PositiveSums(a: Basic, b: Basic)
    requires a.Add? && b.Add? && WellFormed(a) && WellFormed(b)
    ensures AllPositive(a) && AllPositive(b) ==> Defect(a.terms, b.terms) == 0.0
  {
    if AllPositive(a) && AllPositive(b) {
      PositiveDefect(a.terms, b.terms);
    }
  }

  lemma ExactUnlessLost(r: Basic, a: Basic, b: Basic, lost: real)
    requires IsProductUpTo(r, a, b, lost)
    ensures IsExactUnless(r, a, b, lost)
  {
  }

  lemma PartsCommute(r: Basic, a: Basic, b: Basic, lost: real)
    ensures HasParts(r, ProductParts(a, b, lost)) <==> HasParts(r, ProductParts(b, a, lost))
  {
    forall t
      ensures ProductParts(a, b, lost)(t) == ProductParts(b, a, lost)(t)
    {
      ConvolutionCommutes(t, PartsOf(a), PartsOf(b));
    }
  }

  lemma TermParts(e: Basic)
    requires Canonical(e) && !e.Add?
    ensures CoefOf(e) != 0.0 ==> PartsOf(e) == map[Monic(FactorsOf(e)) := CoefOf(e)]
    ensures CoefOf(e) == 0.0 ==> PartsOf(e) == map[]
    ensures FactorsOf(Monic(FactorsOf(e))) == FactorsOf(e)
  {
    FactorsOfCanonical(e);
    MonicOfFactors(FactorsOf(e));
  }

  /** The product of two terms has the one part they make. */
  lemma TermsForm(r: Basic, a: Basic, b: Basic)
    requires Canonical(a) && Canonical(b) && !a.Add? && !b.Add? && Canonical(r) && HasProductForm(r, a, b)
    ensures HasParts(r, ProductParts(a, b, 0.0))
  {
    TermParts(a);
    TermParts(b);
    if CoefOf(a) == 0.0 || CoefOf(b) == 0.0 {
      forall t
        ensures ProductParts(a, b, 0.0)(t) == 0.0
      {
        EmptyConvolution(t, if CoefOf(a) == 0.0 then PartsOf(b) else PartsOf(a));
      }
    } else {
      ProductFactors(r, a, b);
      TimesNonzero(CoefOf(a), CoefOf(b));
      var p, q := Monic(FactorsOf(a)), Monic(FactorsOf(b));
      forall t
        ensures ProductParts(a, b, 0.0)(t) == if t == Monic(FactorsOf(r)) then CoefOf(r) else 0.0
      {
        SingleConvolution(t, p, CoefOf(a), q, CoefOf(b));
      }
      ReadTerm(r, ProductParts(a, b, 0.0));
    }
  }

  lemma SingleConvolution(t: Basic, p: Basic, c: real, q: Basic, e: real)
    ensures Convolution(t, map[p := c], map[q := e]) == if PairTerm(p, q) == t then Times(c, e) else 0.0
  {
    ConvolutionSingle(t, p, c, map[q := e]);
    RowInsert(t, p, c, map[], q, e);
    assert map[][q := e] == map[q := e];
  }

  lemma ReadTerm(r: Basic, g: Basic -> real)
    requires Canonical(r) && CoefOf(r) != 0.0
    requires forall t :: g(t) == if t == Monic(FactorsOf(r)) then CoefOf(r) else 0.0
    ensures HasParts(r, g)
  {
    if r.Add? {
      CanonicalIsMonic(r);
      assert IsOnly(r, g);
    } else {
      TermParts(r);
    }
  }

  lemma ProductCommutes(r: Basic, a: Basic, b: Basic, lost: real)
    requires IsProductUpTo(r, a, b, lost)
    ensures IsProductUpTo(r, b, a, lost)
  {
    forall v | IsValuation(v) && Defined(v, a) && Defined(v, b)
      ensures Defined(v, r) && v(r) == Times(v(b), v(a)) + lost
    {
      TimesCommutative(v(a), v(b));
    }
  }

  /** The pair x, 2 / x contributes 1 instead of 2. */
  lemma ReciprocalPairDefect(x: Basic)
    requires x.Symbol?
    ensures Defect(map[x := 1.0], map[Pow(x, -1) := 2.0]) == -1.0
  {
    var q, b := Pow(x, -1), map[Pow(x, -1) := 2.0];
    assert Reciprocal(x, q);
    RowDefectInsert(1.0, x, map[], q, 2.0);
    assert map[][q := 2.0] == b;
    DefectInsert(map[], b, x, 1.0);
    assert map[][x := 1.0] == map[x := 1.0];
    TimesUnits(2.0);
  }

  /** mul_expand_two on the canonical sums x + 1 and 2 / x + 1 misses their product by 1 wherever x is not 0. */
  lemma CoefficientIsLost(x: Basic, a: Basic, b: Basic, r: Basic, v: Basic -> real)
    requires x.Symbol? && a == Add(1.0, map[x := 1.0]) && b == Add(1.0, map[Pow(x, -1) := 2.0])
    requires IsProductUpTo(r, a, b, Lost(a, b)) && IsValuation(v) && v(x) != 0.0
    ensures Canonical(a) && Canonical(b) && v(r) == Times(v(a), v(b)) - 1.0
  {
    ReciprocalPairDefect(x);
    assert IsBase(x);
    assert Canonical(Pow(x, -1));
    assert Defined(v, a);
    assert Defined(v, Pow(x, -1));
    assert Defined(v, b);
    assert v(r) == Times(v(a), v(b)) + Lost(a, b);
  }
}
