/** Sums of expressions (src/add.cpp): a constant and a dictionary from term to coefficient. */
module Sums {
  import opened Expressions
  import opened Parts
  import opened Powers
  import opened Products

  ghost predicate GoodTerms(d: map<Basic, real>) {
    forall t | t in d :: d[t] != 0.0 && IsTerm(t)
  }

  /** Canonical keys; with GoodTerms, the terms of a canonical sum. */
  ghost predicate CanonicalTerms(d: map<Basic, real>) {
    forall t | t in d :: Canonical(t)
  }

  /** Monic keys; a sum made of them is in simplest form. */
  ghost predicate SimpleTerms(d: map<Basic, real>) {
    MonicTerms(d) && forall t | t in d :: IsSimple(t)
  }

  lemma CanonicalTermsAreSimple(d: map<Basic, real>)
    requires GoodTerms(d) && CanonicalTerms(d)
    ensures SimpleTerms(d)
  {
    forall t | t in d
      ensures IsMonic(t) && IsSimple(t)
    {
      CanonicalIsMonic(t);
      CanonicalIsSimple(t);
    }
  }

  /** d with the coefficient of t raised by c. */
  ghost function AddTerm(d: map<Basic, real>, t: Basic, c: real): map<Basic, real> {
    if Coefficient(d, t) + c == 0.0 then d - {t} else d[t := Coefficient(d, t) + c]
  }

  lemma AddTermGood(d: map<Basic, real>, t: Basic, c: real)
    requires GoodTerms(d) && IsTerm(t)
    ensures GoodTerms(AddTerm(d, t, c))
  {
  }

  lemma AddTermCoefficient(d: map<Basic, real>, t: Basic, c: real)
    ensures forall u :: Coefficient(AddTerm(d, t, c), u) == Coefficient(d, u) + if u == t then c else 0.0
  {
  }

  lemma SingleGains(coef: real, d: map<Basic, real>, p: Basic, x: real)
    ensures p != Number(1.0) ==> Gains(coef, d, coef, AddTerm(d, p, x), Single(p, x))
    ensures p == Number(1.0) ==> Gains(coef, d, coef + x, d, Single(p, x))
  {
    AddTermCoefficient(d, p, x);
  }

  lemma AddTermValue(v: Basic -> real, d: map<Basic, real>, t: Basic, c: real)
    ensures Total(AddTerm(d, t, c), v) == Total(d, v) + Times(c, v(t))
  {
    if t !in d {
      if c == 0.0 {
        assert d - {t} == d;
        TimesUnits(v(t));
      } else {
        TotalInsert(d, v, t, c);
      }
    } else {
      RaisedTermValue(v, d, t, c);
    }
  }

  lemma RaisedTermValue(v: Basic -> real, d: map<Basic, real>, t: Basic, c: real)
    requires t in d
    ensures Total(AddTerm(d, t, c), v) == Total(d, v) + Times(c, v(t))
  {
    TotalUpdate(d, v, t, c);
    if d[t] + c == 0.0 {
      var e := d[t := d[t] + c];
      TotalTake(e, v, t);
      assert e - {t} == d - {t};
      TimesUnits(v(t));
    }
  }

  lemma AddTermDefined(v: Basic -> real, d: map<Basic, real>, t: Basic, c: real)
    requires TermsDefined(v, d) && Defined(v, t)
    ensures TermsDefined(v, AddTerm(d, t, c))
  {
  }

  /** Add::dict_add_term. */
  method DictAddTerm(d: map<Basic, real>, coef: real, t: Basic) returns (d': map<Basic, real>)
    requires forall u | u in d :: d[u] != 0.0
    ensures d' == AddTerm(d, t, coef)
  {
    if t !in d {
      d' := d;
      if coef != 0.0 {
        d' := d[t := coef];
      } else {
        assert d - {t} == d;
      }
    } else {
      var sum := d[t] + coef;
      d' := d[t := sum];
      if sum == 0.0 {
        d' := d - {t};
      }
    }
  }

  // ----- what the operations promise

  /** r has the value of the constant plus the terms. */
  ghost predicate IsSumOf(r: Basic, c: real, d: map<Basic, real>) {
    forall v | IsValuation(v) && TermsDefined(v, d) :: Defined(v, r) && v(r) == c + Total(d, v)
  }

  /** r has the value of c times t. */
  ghost predicate IsMultiple(r: Basic, c: real, t: Basic) {
    forall v | IsValuation(v) && Defined(v, t) :: Defined(v, r) && v(r) == Times(c, v(t))
  }

  ghost predicate IsAddition(r: Basic, a: Basic, b: Basic) {
    forall v | IsValuation(v) && Defined(v, a) && Defined(v, b) :: Defined(v, r) && v(r) == v(a) + v(b)
  }

  lemma OneTerm(d: map<Basic, real>, t: Basic)
    requires |d| == 1 && t in d
    ensures d.Keys == {t}
  {
    assert |d.Keys - {t}| == 0;
  }

  lemma MultipleIsSum(r: Basic, d: map<Basic, real>, t: Basic)
    requires d.Keys == {t} && IsMultiple(r, d[t], t)
    ensures IsSumOf(r, 0.0, d)
  {
    forall v | IsValuation(v) && TermsDefined(v, d)
      ensures Defined(v, r) && v(r) == 0.0 + Total(d, v)
    {
      TotalSingle(d, v, t);
    }
  }

  lemma ConstantIsSum(c: real)
    ensures IsSumOf(Number(c), c, map[])
  {
  }

  lemma AddIsSum(c: real, d: map<Basic, real>)
    ensures IsSumOf(Add(c, d), c, d)
  {
  }

  /** A term with a coefficient in front, as the product of its factors. */
  lemma FactorsAreMultiple(r: Basic, c: real, t: Basic)
    requires IsTerm(t) && StandsFor(r, c, FactorsOf(t))
    ensures IsMultiple(r, c, t)
  {
    forall v | IsValuation(v) && Defined(v, t)
      ensures Defined(v, r) && v(r) == Times(c, v(t))
    {
      FactorsOfValue(v, t);
      TimesUnits(Product(FactorsOf(t), v));
    }
  }

  lemma SameMultiple(t: Basic)
    ensures IsMultiple(t, 1.0, t)
  {
    forall v | IsValuation(v) && Defined(v, t)
      ensures v(t) == Times(1.0, v(t))
    {
      TimesUnits(v(t));
    }
  }

  // ----- from_dict, as_coef_term and add

  /** The single-term branch of Add::from_dict, for a coefficient that is neither 0 nor 1. */
  method ScaleTerm(c: real, t: Basic) returns (r: Basic)
    requires IsTerm(t) && c != 0.0 && c != 1.0
    ensures WellFormed(r) && IsMultiple(r, c, t)
    ensures Canonical(t) ==> Canonical(r)
    ensures r == Mul(c, FactorsOf(t))
  {
    FactorsOfGood(t);
    if Canonical(t) {
      FactorsOfCanonical(t);
    }
    if t.Mul? {
      r := FromDict(c, t.factors, t);
    } else {
      var m := if t.Pow? then map[t.base := t.exp] else map[t := 1];
      assert (if t.Pow? then t.base else t) in m;
      r := Mul(c, m);
      MulStandsFor(c, m);
    }
    FactorsAreMultiple(r, c, t);
  }

  /** A product of several factors of which one may not be a base. */
  ghost predicate IsCrowded(t: Basic) {
    t.Mul? && |t.factors| > 1 && !CanonicalFactors(t.factors)
  }

  /** A single term with its coefficient has these as its parts, unless it is a sum with the coefficient 1. */
  lemma SingleParts(r: Basic, d: map<Basic, real>, t: Basic, c: real)
    requires d == map[t := c] && c != 0.0 && !t.Number? && CoefOf(t) == 1.0 && IsMonic(t) && IsSimple(t)
    requires r == if c == 1.0 then t else Mul(c, FactorsOf(t))
    ensures IsSimple(r) && HasParts(r, Given(0.0, d))
  {
    if c == 1.0 && t.Add? {
      assert IsOnly(t, Given(0.0, d));
    } else {
      MonicNumber(FactorsOf(t));
      assert PartsOf(r) == d;
    }
  }

  /** The branch for a single term without a constant. */
  method SumFromSingle(d: map<Basic, real>) returns (r: Basic)
    requires GoodTerms(d) && |d| == 1
    ensures WellFormed(r) && IsSumOf(r, 0.0, d)
    ensures CanonicalTerms(d) ==> Canonical(r)
    ensures (exists t :: t in d && IsCrowded(t)) ==> !Canonical(r)
    ensures SimpleTerms(d) ==> IsSimple(r) && HasParts(r, Given(0.0, d))
  {
    var t :| t in d.Keys;
    OneTerm(d, t);
    assert d == map[t := d[t]];
    if d[t] == 1.0 {
      SameMultiple(t);
      r := t;
    } else {
      r := ScaleTerm(d[t], t);
    }
    MultipleIsSum(r, d, t);
    if SimpleTerms(d) {
      SingleParts(r, d, t, d[t]);
    }
  }

  /** Add::from_dict: the simplest expression for the constant plus the terms in d. */
  method SumFromDict(c: real, d: map<Basic, real>) returns (r: Basic)
    requires GoodTerms(d)
    ensures WellFormed(r) && IsSumOf(r, c, d)
    ensures CanonicalTerms(d) ==> Canonical(r)
    ensures (exists t :: t in d && IsCrowded(t)) ==> !Canonical(r)
    ensures SimpleTerms(d) ==> IsSimple(r) && HasParts(r, Given(c, d))
  {
    if |d| == 0 {
      ConstantIsSum(c);
      assert d == map[];
      return Number(c);
    }
    if |d| == 1 && c == 0.0 {
      r := SumFromSingle(d);
      return;
    }
    AddIsSum(c, d);
    r := Add(c, d);
  }

  /** term is e without its numerical coefficient. */
  ghost predicate IsTermOf(term: Basic, e: Basic) {
    && (if e.Number? then term == Number(1.0) else IsTerm(term))
    && (!e.Mul? && !e.Number? ==> term == e)
    && (!IsLoneProduct(FactorsOf(e)) ==> e.Number? || FactorsOf(term) == FactorsOf(e))
    && (Canonical(e) ==> Canonical(term) && term == Monic(FactorsOf(e)))
    && (AllPositive(e) ==> AllPositive(term))
    && IsCoefTerm(CoefOf(e), term, e)
  }

  ghost predicate IsCoefTerm(c: real, term: Basic, e: Basic) {
    forall v | IsValuation(v) && Defined(v, e) :: Defined(v, term) && v(e) == Times(c, v(term))
  }

  /** Add::as_coef_term. */
  method AsCoefTerm(e: Basic) returns (coef: real, term: Basic)
    requires WellFormed(e)
    ensures coef == CoefOf(e) && IsTermOf(term, e)
  {
    if e.Mul? {
      coef := e.coef;
      term := FromDict(1.0, e.factors, e);
      if Canonical(e) {
        FactorsOfCanonical(e);
        CanonicalIsMonic(term);
      }
      forall v | IsValuation(v) && Defined(v, e)
        ensures Defined(v, term) && v(e) == Times(coef, v(term))
      {
        TimesUnits(Product(e.factors, v));
      }
    } else if e.Number? {
      coef, term := e.value, Number(1.0);
      TimesUnits(e.value);
    } else {
      coef, term := 1.0, e;
      if Canonical(e) {
        CanonicalIsMonic(e);
      }
      forall v | IsValuation(v) && Defined(v, e)
        ensures v(e) == Times(1.0, v(e))
      {
        TimesUnits(v(e));
      }
    }
  }

  ghost predicate IsAdditionDict(coef: real, d: map<Basic, real>, a: Basic, b: Basic) {
    && GoodTerms(d)
    && (Canonical(a) && Canonical(b) ==> CanonicalTerms(d) && AddsParts(coef, d, a, b))
    && forall v | IsValuation(v) && Defined(v, a) && Defined(v, b) ::
      TermsDefined(v, d) && v(a) + v(b) == coef + Total(d, v)
  }

  ghost predicate AddsParts(coef: real, d: map<Basic, real>, a: Basic, b: Basic) {
    forall t :: Given(coef, d)(t) == JointParts(a, b)(t)
  }

  lemma NoOneAmongTerms(e: Basic)
    requires e.Add? && WellFormed(e)
    ensures Number(1.0) !in e.terms
  {
  }

  lemma PlainParts(e: Basic, c: real, term: Basic)
    requires !e.Add? && Canonical(e) && c == CoefOf(e) && IsTermOf(term, e)
    ensures OnlyPart(PartsOf(e), term, c)
  {
  }

  /** The only part is c times t. */
  ghost predicate OnlyPart(d: map<Basic, real>, t: Basic, c: real) {
    forall u :: Coefficient(d, u) == if u == t then c else 0.0
  }

  lemma NumberAddsParts(a: Basic, b: Basic)
    requires a.Add? && Number(1.0) !in a.terms && b.Number?
    ensures AddsParts(a.constant + b.value, a.terms, a, b)
  {
    forall u
      ensures Given(a.constant + b.value, a.terms)(u) == JointParts(a, b)(u)
    {
      SumCoefficient(a, u);
    }
  }

  lemma TermAddsParts(a: Basic, b: Basic, c: real, t: Basic)
    requires a.Add? && Number(1.0) !in a.terms && OnlyPart(PartsOf(b), t, c) && !t.Number?
    ensures AddsParts(a.constant, AddTerm(a.terms, t, c), a, b)
  {
    AddTermCoefficient(a.terms, t, c);
    forall u
      ensures Given(a.constant, AddTerm(a.terms, t, c))(u) == JointParts(a, b)(u)
    {
      SumCoefficient(a, u);
      assert Coefficient(PartsOf(b), u) == if u == t then c else 0.0;
    }
  }

  /** A sum plus something that is no sum. */
  method AddOther(a: Basic, b: Basic) returns (coef: real, d: map<Basic, real>)
    requires a.Add? && !b.Add? && WellFormed(a) && WellFormed(b)
    ensures IsAdditionDict(coef, d, a, b)
  {
    coef, d := a.constant, a.terms;
    if b.Number? {
      coef := coef + b.value;
      NumberIsAddition(a, b);
    } else {
      var coef2, t := AsCoefTerm(b);
      d := DictAddTerm(d, coef2, t);
      TermIsAddition(a, b, coef2, t);
    }
  }

  lemma NumberIsAddition(a: Basic, b: Basic)
    requires a.Add? && b.Number? && WellFormed(a)
    ensures IsAdditionDict(a.constant + b.value, a.terms, a, b)
  {
    if Canonical(a) {
      NoOneAmongTerms(a);
      NumberAddsParts(a, b);
    }
  }

  lemma TermIsAddition(a: Basic, b: Basic, c: real, t: Basic)
    requires a.Add? && !b.Add? && !b.Number? && WellFormed(a) && WellFormed(b) && c == CoefOf(b) && IsTermOf(t, b)
    ensures IsAdditionDict(a.constant, AddTerm(a.terms, t, c), a, b)
  {
    AddTermGood(a.terms, t, c);
    if Canonical(a) && Canonical(b) {
      NoOneAmongTerms(a);
      PlainParts(b, c, t);
      TermAddsParts(a, b, c, t);
    }
    forall v | IsValuation(v) && Defined(v, a) && Defined(v, b)
      ensures TermsDefined(v, AddTerm(a.terms, t, c)) && v(a) + v(b) == a.constant + Total(AddTerm(a.terms, t, c), v)
    {
      AddTermValue(v, a.terms, t, c);
      AddTermDefined(v, a.terms, t, c);
    }
  }

  lemma AdditionCommutes(coef: real, d: map<Basic, real>, a: Basic, b: Basic)
    requires IsAdditionDict(coef, d, a, b)
    ensures IsAdditionDict(coef, d, b, a)
  {
    if Canonical(a) && Canonical(b) {
      forall t
        ensures Given(coef, d)(t) == JointParts(b, a)(t)
      {
        assert Given(coef, d)(t) == JointParts(a, b)(t);
      }
    }
  }

  /** Neither is a sum: numbers are collected under the key 1, which is then taken out. */
  method AddPlain(a: Basic, b: Basic) returns (coef: real, d: map<Basic, real>)
    requires !a.Add? && !b.Add? && WellFormed(a) && WellFormed(b)
    ensures IsAdditionDict(coef, d, a, b)
  {
    var ca, ta := AsCoefTerm(a);
    var d1 := DictAddTerm(map[], ca, ta);
    var cb, tb := AsCoefTerm(b);
    var d2 := DictAddTerm(d1, cb, tb);
    coef, d := 0.0, d2;
    if Number(1.0) in d2 {
      coef, d := d2[Number(1.0)], d2 - {Number(1.0)};
    } else {
      assert d2 - {Number(1.0)} == d2;
    }
    PlainIsAddition(a, ca, ta, b, cb, tb);
  }

  lemma PlainIsAddition(a: Basic, ca: real, ta: Basic, b: Basic, cb: real, tb: Basic)
    requires !a.Add? && !b.Add? && WellFormed(a) && WellFormed(b) && ca == CoefOf(a) && cb == CoefOf(b)
    requires IsTermOf(ta, a) && IsTermOf(tb, b)
    ensures var d := AddTerm(AddTerm(map[], ta, ca), tb, cb);
      IsAdditionDict(Coefficient(d, Number(1.0)), d - {Number(1.0)}, a, b)
  {
    var d := AddTerm(AddTerm(map[], ta, ca), tb, cb);
    PlainTermsGood(a, ca, ta, b, cb, tb);
    if Canonical(a) && Canonical(b) {
      PlainParts(a, ca, ta);
      PlainParts(b, cb, tb);
      PlainAddsParts(a, ca, ta, b, cb, tb);
    }
    forall v | IsValuation(v) && Defined(v, a) && Defined(v, b)
      ensures TermsDefined(v, d - {Number(1.0)})
      ensures v(a) + v(b) == Coefficient(d, Number(1.0)) + Total(d - {Number(1.0)}, v)
    {
      TwoTermsValue(v, ca, ta, cb, tb);
      TakeConstant(v, d);
    }
  }

  lemma PlainAddsParts(a: Basic, ca: real, ta: Basic, b: Basic, cb: real, tb: Basic)
    requires OnlyPart(PartsOf(a), ta, ca) && OnlyPart(PartsOf(b), tb, cb)
    ensures var d := AddTerm(AddTerm(map[], ta, ca), tb, cb);
      AddsParts(Coefficient(d, Number(1.0)), d - {Number(1.0)}, a, b)
  {
    var d := AddTerm(AddTerm(map[], ta, ca), tb, cb);
    forall t
      ensures Given(Coefficient(d, Number(1.0)), d - {Number(1.0)})(t) == JointParts(a, b)(t)
    {
      ConstantTaken(d, t);
      TwoTermsCoefficient(ca, ta, cb, tb, t);
    }
  }

  lemma TwoTermsCoefficient(ca: real, ta: Basic, cb: real, tb: Basic, t: Basic)
    ensures Coefficient(AddTerm(AddTerm(map[], ta, ca), tb, cb), t)
         == (if t == ta then ca else 0.0) + if t == tb then cb else 0.0
  {
    AddTermCoefficient(map[], ta, ca);
    AddTermCoefficient(AddTerm(map[], ta, ca), tb, cb);
  }

  lemma PlainTermsGood(a: Basic, ca: real, ta: Basic, b: Basic, cb: real, tb: Basic)
    requires IsTermOf(ta, a) && IsTermOf(tb, b)
    ensures GoodTerms(AddTerm(AddTerm(map[], ta, ca), tb, cb) - {Number(1.0)})
    ensures Canonical(a) && Canonical(b) ==> CanonicalTerms(AddTerm(AddTerm(map[], ta, ca), tb, cb))
  {
    PlainTerm(map[], ta, ca);
    PlainTerm(AddTerm(map[], ta, ca), tb, cb);
  }

  /** Terms and the key 1, with nonzero coefficients. */
  ghost predicate PlainTerms(d: map<Basic, real>) {
    forall t | t in d :: d[t] != 0.0 && (t == Number(1.0) || IsTerm(t))
  }

  lemma PlainTerm(d: map<Basic, real>, t: Basic, c: real)
    requires PlainTerms(d) && (t == Number(1.0) || IsTerm(t))
    ensures PlainTerms(AddTerm(d, t, c))
    ensures CanonicalTerms(d) && Canonical(t) ==> CanonicalTerms(AddTerm(d, t, c))
  {
  }

  lemma TakeConstant(v: Basic -> real, d: map<Basic, real>)
    requires v(Number(1.0)) == 1.0
    ensures Total(d, v) == Coefficient(d, Number(1.0)) + Total(d - {Number(1.0)}, v)
  {
    if Number(1.0) in d {
      TotalTake(d, v, Number(1.0));
      TimesUnits(d[Number(1.0)]);
    } else {
      assert d - {Number(1.0)} == d;
    }
  }

  lemma TwoTermsValue(v: Basic -> real, ca: real, ta: Basic, cb: real, tb: Basic)
    requires Defined(v, ta) && Defined(v, tb)
    ensures var d := AddTerm(AddTerm(map[], ta, ca), tb, cb);
      TermsDefined(v, d) && Total(d, v) == Times(ca, v(ta)) + Times(cb, v(tb))
  {
    var d1 := AddTerm(map[], ta, ca);
    AddTermDefined(v, map[], ta, ca);
    AddTermDefined(v, d1, tb, cb);
    AddTermValue(v, map[], ta, ca);
    AddTermValue(v, d1, tb, cb);
  }

  /** add: the sum, with like terms collected. */
  method AddBasic(a: Basic, b: Basic) returns (r: Basic)
    requires WellFormed(a) && WellFormed(b)
    ensures WellFormed(r) && IsAddition(r, a, b)
    ensures Canonical(a) && Canonical(b) ==> Canonical(r) && HasParts(r, JointParts(a, b))
  {
    var coef, d;
    if a.Add? && b.Add? {
      coef := a.constant;
      d := AddAll(a.terms, b.terms);
      coef := coef + b.constant;
      NoOneAmongTerms(a);
      NoOneAmongTerms(b);
      SumsAddParts(a, b, d);
    } else if a.Add? {
      coef, d := AddOther(a, b);
    } else if b.Add? {
      coef, d := AddOther(b, a);
      AdditionCommutes(coef, d, b, a);
    } else {
      coef, d := AddPlain(a, b);
    }
    r := SumFromDict(coef, d);
    AdditionForm(coef, d, a, b, r);
  }

  lemma AdditionForm(coef: real, d: map<Basic, real>, a: Basic, b: Basic, r: Basic)
    requires IsAdditionDict(coef, d, a, b)
    requires SimpleTerms(d) ==> HasParts(r, Given(coef, d))
    ensures Canonical(a) && Canonical(b) ==> HasParts(r, JointParts(a, b))
  {
    if Canonical(a) && Canonical(b) {
      CanonicalTermsAreSimple(d);
      SameSought(r, Given(coef, d), JointParts(a, b));
    }
  }

  lemma SumsAddParts(a: Basic, b: Basic, d: map<Basic, real>)
    requires a.Add? && b.Add? && Number(1.0) !in a.terms && Number(1.0) !in b.terms
    requires HasCoefficients(d, a.terms, b.terms)
    ensures AddsParts(a.constant + b.constant, d, a, b)
  {
    forall t
      ensures Given(a.constant + b.constant, d)(t) == JointParts(a, b)(t)
    {
      SumCoefficient(a, t);
      SumCoefficient(b, t);
    }
  }

  /** d' has the coefficients of d and e added up. */
  ghost predicate HasCoefficients(d': map<Basic, real>, d: map<Basic, real>, e: map<Basic, real>) {
    forall t :: Coefficient(d', t) == Coefficient(d, t) + Coefficient(e, t)
  }

  ghost predicate HasTotal(d': map<Basic, real>, d: map<Basic, real>, e: map<Basic, real>) {
    forall v | TermsDefined(v, d) && TermsDefined(v, e) ::
      TermsDefined(v, d') && Total(d', v) == Total(d, v) + Total(e, v)
  }

  lemma JoinTerm(d': map<Basic, real>, d: map<Basic, real>, done: map<Basic, real>, k: Basic, c: real)
    requires HasCoefficients(d', d, done) && HasTotal(d', d, done) && k !in done
    ensures HasCoefficients(AddTerm(d', k, c), d, done[k := c]) && HasTotal(AddTerm(d', k, c), d, done[k := c])
  {
    AddTermCoefficient(d', k, c);
    forall t
      ensures Coefficient(AddTerm(d', k, c), t) == Coefficient(d, t) + Coefficient(done[k := c], t)
    {
      assert Coefficient(d', t) == Coefficient(d, t) + Coefficient(done, t);
    }
    forall v | TermsDefined(v, d) && TermsDefined(v, done[k := c])
      ensures TermsDefined(v, AddTerm(d', k, c))
      ensures Total(AddTerm(d', k, c), v) == Total(d, v) + Total(done[k := c], v)
    {
      assert k in done[k := c];
      assert TermsDefined(v, done);
      AddTermValue(v, d', k, c);
      AddTermDefined(v, d', k, c);
      TotalInsert(done, v, k, c);
    }
  }

  /** The terms of e added to d one by one, in whatever order the dictionary has. */
  method AddAll(d: map<Basic, real>, e: map<Basic, real>) returns (d': map<Basic, real>)
    requires GoodTerms(d) && GoodTerms(e)
    ensures GoodTerms(d')
    ensures CanonicalTerms(d) && CanonicalTerms(e) ==> CanonicalTerms(d')
    ensures HasCoefficients(d', d, e) && HasTotal(d', d, e)
  {
    d' := d;
    var items := e.Keys;
    ghost var done: map<Basic, real> := map[];
    while items != {}
      invariant items <= e.Keys && GoodTerms(d')
      invariant CanonicalTerms(d) && CanonicalTerms(e) ==> CanonicalTerms(d')
      invariant done == map k | k in e && k !in items :: e[k]
      invariant HasCoefficients(d', d, done) && HasTotal(d', d, done)
      decreases |items|
    {
      var k :| k in items;
      AddTermGood(d', k, e[k]);
      JoinTerm(d', d, done, k, e[k]);
      d' := DictAddTerm(d', e[k], k);
      items := items - {k};
      done := done[k := e[k]];
    }
    assert done == e;
  }
}
