/**
 An expression read as a sum: which terms it has, with which coefficients.

 Terms are monic, that is, they carry no numerical coefficient; the constant is the coefficient of the term 1.
 Two expressions in simplest form with the same parts are the same expression, so saying which parts the
 result of an operation has is saying what the operation returns.
 */
module Parts {
  import opened Expressions
  import opened Powers
  import opened Products

  ghost function Coefficient(d: map<Basic, real>, t: Basic): real {
    if t in d then d[t] else 0.0
  }

  ghost predicate IsMonic(t: Basic) {
    t == Monic(FactorsOf(t))
  }

  ghost predicate MonicTerms(d: map<Basic, real>) {
    forall t | t in d :: d[t] != 0.0 && !t.Number? && IsMonic(t)
  }

  /** The monic terms of e with their coefficients. */
  ghost function PartsOf(e: Basic): map<Basic, real> {
    match e
    case Number(x) => if x == 0.0 then map[] else map[Number(1.0) := x]
    case Add(c, d) => if c == 0.0 then d else d[Number(1.0) := c]
    case _ => map[Monic(FactorsOf(e)) := CoefOf(e)]
  }

  /** A constant and terms as parts. */
  ghost function Given(c: real, d: map<Basic, real>): Basic -> real {
    t => if t == Number(1.0) then c else Coefficient(d, t)
  }

  /** The parts of a and b, added up term by term. */
  ghost function JointParts(a: Basic, b: Basic): Basic -> real {
    t => Coefficient(PartsOf(a), t) + Coefficient(PartsOf(b), t)
  }

  /** The coefficient x of the term p alone. */
  ghost function Single(p: Basic, x: real): Basic -> real {
    t => if t == p then x else 0.0
  }

  /** From coef and d to coef' and d' the coefficient of every term t grows by g(t). */
  ghost predicate Gains(coef: real, d: map<Basic, real>, coef': real, d': map<Basic, real>, g: Basic -> real) {
    forall t :: Given(coef', d')(t) == Given(coef, d)(t) + g(t)
  }

  lemma GainsTwice(coef: real, d: map<Basic, real>, coef0: real, d0: map<Basic, real>, coef': real,
      d': map<Basic, real>, g: Basic -> real, h: Basic -> real, k: Basic -> real)
    requires Gains(coef, d, coef0, d0, g) && Gains(coef0, d0, coef', d', h) && forall t :: k(t) == g(t) + h(t)
    ensures Gains(coef, d, coef', d', k)
  {
    forall t
      ensures Given(coef', d')(t) == Given(coef, d)(t) + k(t)
    {
      assert Given(coef0, d0)(t) == Given(coef, d)(t) + g(t);
      assert Given(coef', d')(t) == Given(coef0, d0)(t) + h(t);
    }
  }

  /** An expression in simplest form, as far as its parts go. */
  ghost predicate IsSimple(e: Basic) {
    match e
    case Number(_) => true
    case Add(c, d) => d != map[] && (|d| == 1 ==> c != 0.0) && MonicTerms(d)
    case Mul(c, f) =>
      c != 0.0 && f != map[] && (c == 1.0 ==> |f| != 1) && FactorsOf(Monic(f)) == f
    case _ => IsMonic(e)
  }

  /** Only the empty product is a number. */
  lemma MonicNumber(f: map<Basic, int>)
    ensures Monic(f).Number? ==> f == map[] || exists k :: k in f && k.Number?
  {
    if f != map[] && |f| == 1 {
      assert Pick(f.Keys) in f;
    }
  }

  lemma MonicOfFactors(f: map<Basic, int>)
    requires CanonicalFactors(f)
    ensures FactorsOf(Monic(f)) == f && IsMonic(Monic(f))
    ensures f != map[] ==> !Monic(f).Number?
  {
    if f != map[] && |f| == 1 {
      var k := Pick(f.Keys);
      OneKey(f, k);
      assert IsBase(k);
      assert f == map[k := f[k]];
    }
  }

  lemma CanonicalIsMonic(t: Basic)
    requires Canonical(t) && CoefOf(t) == 1.0
    ensures IsMonic(t)
  {
    if !t.Number? && !t.Mul? {
      var k := if t.Pow? then t.base else t;
      MonicSingle(FactorsOf(t), k);
    }
  }

  lemma CanonicalIsSimple(e: Basic)
    requires Canonical(e)
    ensures IsSimple(e)
  {
    match e
    case Number(_) =>
    case Add(_, d) =>
      forall t | t in d
        ensures IsMonic(t)
      {
        CanonicalIsMonic(t);
      }
    case Mul(_, f) =>
      FactorsOfCanonical(e);
      MonicOfFactors(f);
    case _ => CanonicalIsMonic(e);
  }

  // ----- what the parts mean

  lemma PowerTermValue(v: Basic -> real, k: Basic, n: int)
    requires IsValuation(v) && IsBase(k) && Defined(v, k) && FactorOk(v, k, n)
    ensures Defined(v, PowerTerm(k, n)) && v(PowerTerm(k, n)) == Power(v(k), n)
  {
    FirstPower(v(k));
  }

  lemma MonicValue(v: Basic -> real, f: map<Basic, int>)
    requires IsValuation(v) && CanonicalFactors(f) && FactorsDefined(v, f)
    ensures Defined(v, Monic(f)) && v(Monic(f)) == Product(f, v)
  {
    TimesUnits(Product(f, v));
    if f != map[] && |f| == 1 {
      var k := Pick(f.Keys);
      OneKey(f, k);
      ProductSingle(f, v, k);
      PowerTermValue(v, k, f[k]);
    }
  }

  lemma SumValue(v: Basic -> real, c: real, d: map<Basic, real>)
    requires IsValuation(v) && TermsDefined(v, d) && Number(1.0) !in d
    ensures TermsDefined(v, PartsOf(Add(c, d))) && v(Add(c, d)) == Total(PartsOf(Add(c, d)), v)
  {
    if c != 0.0 {
      TotalInsert(d, v, Number(1.0), c);
      TimesUnits(c);
    }
  }

  lemma TermValueIs(v: Basic -> real, t: Basic, c: real, x: real)
    requires Defined(v, t) && x == Times(c, v(t))
    ensures TermsDefined(v, map[t := c]) && Total(map[t := c], v) == x
  {
    TotalSingle(map[t := c], v, t);
  }

  lemma ReadValue(v: Basic -> real, e: Basic)
    requires IsValuation(v) && Canonical(e) && Defined(v, e)
    ensures Defined(v, Monic(FactorsOf(e))) && v(e) == Times(CoefOf(e), v(Monic(FactorsOf(e))))
  {
    FactorsOfCanonical(e);
    FactorsOfValue(v, e);
    MonicValue(v, FactorsOf(e));
  }

  lemma OnePart(e: Basic)
    requires !e.Add? && e != Number(0.0)
    ensures PartsOf(e) == map[Monic(FactorsOf(e)) := CoefOf(e)]
  {
  }

  /** The value of an expression is the sum of its parts. */
  lemma PartsValue(v: Basic -> real, e: Basic)
    requires IsValuation(v) && Canonical(e) && Defined(v, e)
    ensures TermsDefined(v, PartsOf(e)) && v(e) == Total(PartsOf(e), v)
  {
    if e.Add? {
      CanonicalIsSimple(e);
      NoConstantTerm(e);
      SumValue(v, e.constant, e.terms);
    } else if e != Number(0.0) {
      ReadValue(v, e);
      OnePart(e);
      TermValueIs(v, Monic(FactorsOf(e)), CoefOf(e), v(e));
    }
  }

  // ----- parts determine an expression in simplest form

  /**
   r is what has the parts g.  If these are a single sum with the coefficient 1, that sum itself is meant, and
   it is read as the sum of its own terms.
   */
  ghost predicate HasParts(r: Basic, g: Basic -> real) {
    || (r.Add? && IsOnly(r, g))
    || forall t | IsMonic(t) :: Coefficient(PartsOf(r), t) == g(t)
  }

  /** The term r with the coefficient 1, and nothing else. */
  ghost predicate IsOnly(r: Basic, g: Basic -> real) {
    forall t | IsMonic(t) :: g(t) == if t == r then 1.0 else 0.0
  }

  lemma SameSought(r: Basic, g: Basic -> real, h: Basic -> real)
    requires HasParts(r, g) && forall t :: g(t) == h(t)
    ensures HasParts(r, h)
  {
  }

  lemma SimpleParts(e: Basic)
    requires IsSimple(e)
    ensures forall t | t in PartsOf(e) :: PartsOf(e)[t] != 0.0 && IsMonic(t)
    ensures e.Add? ==> IsMonic(e)
    ensures !e.Number? && !e.Add? ==> !Monic(FactorsOf(e)).Number? && |PartsOf(e)| == 1 && CoefOf(e) != 0.0
  {
    if e.Add? {
      MonicSingle(FactorsOf(e), e);
    } else if e.Mul? {
      MonicNumber(e.factors);
    }
  }

  lemma SameParts(r: Basic, s: Basic)
    requires IsSimple(r) && IsSimple(s) && PartsOf(r) == PartsOf(s)
    ensures r == s
  {
    SimpleParts(r);
    SimpleParts(s);
    if r.Add? && s.Add? {
      SameSums(r, s);
    } else if r.Add? {
      SumIsNoTerm(r, s);
    } else if s.Add? {
      SumIsNoTerm(s, r);
    } else if !r.Number? && !s.Number? {
      var t := Monic(FactorsOf(r));
      assert t in PartsOf(s);
      SameTerms(r, s);
    } else if r.Number? != s.Number? {
      NumberIsNoTerm(r, s);
    } else {
      NumberParts(r);
      NumberParts(s);
    }
  }

  lemma NumberParts(e: Basic)
    requires e.Number?
    ensures e.value == Coefficient(PartsOf(e), Number(1.0))
  {
  }

  lemma SameTerms(r: Basic, s: Basic)
    requires IsSimple(r) && IsSimple(s) && !r.Number? && !r.Add? && !s.Number? && !s.Add?
    requires Monic(FactorsOf(r)) == Monic(FactorsOf(s)) && CoefOf(r) == CoefOf(s)
    ensures r == s
  {
  }

  lemma SumParts(e: Basic)
    requires e.Add? && Number(1.0) !in e.terms
    ensures e.terms == PartsOf(e) - {Number(1.0)} && e.constant == Coefficient(PartsOf(e), Number(1.0))
  {
  }

  lemma NoConstantTerm(e: Basic)
    requires e.Add? && IsSimple(e)
    ensures Number(1.0) !in e.terms
  {
  }

  lemma SumCoefficient(e: Basic, t: Basic)
    requires e.Add? && Number(1.0) !in e.terms
    ensures Coefficient(PartsOf(e), t) == Given(e.constant, e.terms)(t)
  {
    SumParts(e);
  }

  /** Taking the constant out of a dictionary. */
  lemma ConstantTaken(d: map<Basic, real>, t: Basic)
    ensures Given(Coefficient(d, Number(1.0)), d - {Number(1.0)})(t) == Coefficient(d, t)
  {
  }

  lemma SameSums(r: Basic, s: Basic)
    requires IsSimple(r) && IsSimple(s) && r.Add? && s.Add? && PartsOf(r) == PartsOf(s)
    ensures r == s
  {
    NoConstantTerm(r);
    NoConstantTerm(s);
    SumParts(r);
    SumParts(s);
  }

  lemma SumIsNoTerm(r: Basic, s: Basic)
    requires IsSimple(r) && IsSimple(s) && r.Add? && !s.Add?
    ensures PartsOf(r) != PartsOf(s)
  {
    if r.constant != 0.0 {
      assert PartsOf(r).Keys == r.terms.Keys + {Number(1.0)};
      assert |PartsOf(r)| == |r.terms| + 1;
    }
  }

  lemma NumberIsNoTerm(r: Basic, s: Basic)
    requires IsSimple(r) && IsSimple(s) && r.Number? != s.Number? && !r.Add? && !s.Add?
    ensures PartsOf(r) != PartsOf(s)
  {
    SimpleParts(r);
    SimpleParts(s);
  }

  /** Two simplest expressions with the same parts are equal. */
  lemma PartsDetermine(r: Basic, s: Basic, g: Basic -> real)
    requires IsSimple(r) && IsSimple(s) && HasParts(r, g) && HasParts(s, g)
    ensures r == s
  {
    SimpleParts(r);
    SimpleParts(s);
    if r.Add? && IsOnly(r, g) {
      OnlyOne(r, s, g);
    } else if s.Add? && IsOnly(s, g) {
      OnlyOne(s, r, g);
    } else {
      forall t
        ensures Coefficient(PartsOf(r), t) == Coefficient(PartsOf(s), t)
      {
        assert IsMonic(t) ==> Coefficient(PartsOf(r), t) == g(t) == Coefficient(PartsOf(s), t);
      }
      SameCoefficients(PartsOf(r), PartsOf(s));
      SameParts(r, s);
    }
  }

  lemma SameCoefficients(d: map<Basic, real>, e: map<Basic, real>)
    requires (forall t | t in d :: d[t] != 0.0) && (forall t | t in e :: e[t] != 0.0)
    requires forall t :: Coefficient(d, t) == Coefficient(e, t)
    ensures d == e
  {
    forall t
      ensures t in d <==> t in e
      ensures t in d ==> d[t] == e[t]
    {
      assert Coefficient(d, t) == Coefficient(e, t);
    }
  }

  /** If the parts are the sum r with the coefficient 1 only, they are read from nothing else. */
  lemma OnlyOne(r: Basic, s: Basic, g: Basic -> real)
    requires IsSimple(r) && IsSimple(s) && r.Add? && IsOnly(r, g) && HasParts(s, g)
    ensures r == s
  {
    SimpleParts(r);
    SimpleParts(s);
    if s.Add? && IsOnly(s, g) {
      assert g(s) == 1.0;
    } else {
      OnlyCoefficient(PartsOf(s), r, g);
      NotOnly(s, r);
    }
  }

  lemma OnlyCoefficient(d: map<Basic, real>, r: Basic, g: Basic -> real)
    requires (forall t | t in d :: d[t] != 0.0 && IsMonic(t)) && IsMonic(r) && IsOnly(r, g)
    requires forall t | IsMonic(t) :: Coefficient(d, t) == g(t)
    ensures d == map[r := 1.0]
  {
    forall t
      ensures Coefficient(d, t) == Coefficient(map[r := 1.0], t)
    {
      assert IsMonic(t) ==> Coefficient(d, t) == g(t);
    }
    SameCoefficients(d, map[r := 1.0]);
  }

  /** No simplest expression has as its parts a single sum with the coefficient 1. */
  lemma NotOnly(s: Basic, r: Basic)
    requires IsSimple(s) && r.Add?
    ensures PartsOf(s) != map[r := 1.0]
  {
    SimpleParts(s);
    assert |map[r := 1.0]| == 1;
  }
}
