/**
 Symbolic expressions with integer exponents, and what they mean.

 A valuation gives every expression a real number and respects the way expressions are built.  Coefficients
 and numbers are exact (integers and rationals in the library), so they are reals here.
 */
module Expressions {
  import opened Powers

  datatype Basic =
    | Number(value: real)
    | Symbol(name: nat)
    | Pow(base: Basic, exp: int)
    | Mul(coef: real, factors: map<Basic, int>)
    | Add(constant: real, terms: map<Basic, real>)

  // ----- sums of terms and products of factors

  ghost function TermValue(d: map<Basic, real>, v: Basic -> real): Basic -> real {
    t => if t in d then Times(d[t], v(t)) else 0.0
  }

  /** The sum of coefficient times term. */
  ghost function Total(d: map<Basic, real>, v: Basic -> real): real {
    SumOver(d.Keys, TermValue(d, v))
  }

  lemma TotalTake(d: map<Basic, real>, v: Basic -> real, t: Basic)
    requires t in d
    ensures Total(d, v) == Times(d[t], v(t)) + Total(d - {t}, v)
  {
    SumTake(d.Keys, TermValue(d, v), t);
    assert (d - {t}).Keys == d.Keys - {t};
    SumSame(d.Keys - {t}, TermValue(d, v), TermValue(d - {t}, v));
  }

  lemma TotalInsert(d: map<Basic, real>, v: Basic -> real, t: Basic, c: real)
    requires t !in d
    ensures Total(d[t := c], v) == Total(d, v) + Times(c, v(t))
  {
    TotalTake(d[t := c], v, t);
    assert d[t := c] - {t} == d;
  }

  lemma TotalUpdate(d: map<Basic, real>, v: Basic -> real, t: Basic, c: real)
    requires t in d
    ensures Total(d[t := d[t] + c], v) == Total(d, v) + Times(c, v(t))
  {
    var e := d[t := d[t] + c];
    TotalTake(e, v, t);
    TotalTake(d, v, t);
    assert e - {t} == d - {t};
    TimesDistributes(d[t], c, v(t));
  }

  ghost function FactorValue(d: map<Basic, int>, v: Basic -> real): Basic -> real {
    k => if k in d then Power(v(k), d[k]) else 1.0
  }

  /** The product of the bases with their exponents. */
  ghost function Product(d: map<Basic, int>, v: Basic -> real): real {
    ProductOver(d.Keys, FactorValue(d, v))
  }

  lemma FactorTake(d: map<Basic, int>, v: Basic -> real, k: Basic)
    requires k in d
    ensures Product(d, v) == Times(Power(v(k), d[k]), Product(d - {k}, v))
  {
    ProductTake(d.Keys, FactorValue(d, v), k);
    assert (d - {k}).Keys == d.Keys - {k};
    ProductSame(d.Keys - {k}, FactorValue(d, v), FactorValue(d - {k}, v));
  }

  lemma ProductInsert(d: map<Basic, int>, v: Basic -> real, k: Basic, n: int)
    requires k !in d
    ensures Product(d[k := n], v) == Times(Power(v(k), n), Product(d, v))
  {
    FactorTake(d[k := n], v, k);
    assert d[k := n] - {k} == d;
  }

  lemma ProductSingle(d: map<Basic, int>, v: Basic -> real, k: Basic)
    requires d.Keys == {k}
    ensures Product(d, v) == Power(v(k), d[k])
  {
    FactorTake(d, v, k);
    assert (d - {k}).Keys == {};
    TimesUnits(Power(v(k), d[k]));
  }

  lemma TotalSingle(d: map<Basic, real>, v: Basic -> real, t: Basic)
    requires d.Keys == {t}
    ensures Total(d, v) == Times(d[t], v(t))
  {
    TotalTake(d, v, t);
    assert (d - {t}).Keys == {};
  }

  // ----- meaning

  ghost predicate IsValuation(v: Basic -> real) {
    && (forall x :: v(Number(x)) == x)
    && (forall b, n :: v(Pow(b, n)) == Power(v(b), n))
    && (forall c, d :: v(Mul(c, d)) == Times(c, Product(d, v)))
    && (forall c, d :: v(Add(c, d)) == c + Total(d, v))
  }

  /** Nothing that is zero is raised to a negative power. */
  ghost predicate FactorOk(v: Basic -> real, k: Basic, n: int) {
    n >= 0 || v(k) != 0.0
  }

  /** Where an expression has a value. */
  ghost predicate Defined(v: Basic -> real, e: Basic) {
    match e
    case Pow(b, n) => FactorOk(v, b, n) && Defined(v, b)
    case Mul(_, f) => forall k | k in f :: FactorOk(v, k, f[k]) && Defined(v, k)
    case Add(_, d) => forall t | t in d :: Defined(v, t)
    case _ => true
  }

  ghost predicate FactorsDefined(v: Basic -> real, d: map<Basic, int>) {
    forall k | k in d :: FactorOk(v, k, d[k]) && Defined(v, k)
  }

  ghost predicate TermsDefined(v: Basic -> real, d: map<Basic, real>) {
    forall t | t in d :: Defined(v, t)
  }

  // ----- every assignment of reals to the symbols extends to a valuation

  ghost function Value(e: Basic, env: nat -> real): real
    decreases e
  {
    match e
    case Number(x) => x
    case Symbol(s) => env(s)
    case Pow(b, n) => Power(Value(b, env), n)
    case Mul(c, f) => Times(c, FactorsValue(e, f.Keys, env))
    case Add(c, d) => c + TermsValue(e, d.Keys, env)
  }

  ghost function FactorsValue(e: Basic, s: set<Basic>, env: nat -> real): real
    requires e.Mul? && s <= e.factors.Keys
    decreases e, 0, |s|
  {
    if s == {} then 1.0
    else
      var k := Pick(s);
      assert k in e.factors;
      Times(Power(Value(k, env), e.factors[k]), FactorsValue(e, s - {k}, env))
  }

  ghost function TermsValue(e: Basic, s: set<Basic>, env: nat -> real): real
    requires e.Add? && s <= e.terms.Keys
    decreases e, 0, |s|
  {
    if s == {} then 0.0
    else
      var t := Pick(s);
      assert t in e.terms;
      Times(e.terms[t], Value(t, env)) + TermsValue(e, s - {t}, env)
  }

  ghost function Evaluation(env: nat -> real): Basic -> real {
    e => Value(e, env)
  }

  lemma {:induction false} FactorsAgree(e: Basic, s: set<Basic>, env: nat -> real)
    requires e.Mul? && s <= e.factors.Keys
    ensures FactorsValue(e, s, env) == ProductOver(s, FactorValue(e.factors, Evaluation(env)))
  {
    if s != {} {
      FactorsAgree(e, s - {Pick(s)}, env);
    }
  }

  lemma {:induction false} TermsAgree(e: Basic, s: set<Basic>, env: nat -> real)
    requires e.Add? && s <= e.terms.Keys
    ensures TermsValue(e, s, env) == SumOver(s, TermValue(e.terms, Evaluation(env)))
  {
    if s != {} {
      TermsAgree(e, s - {Pick(s)}, env);
    }
  }

  lemma EvaluationIsValuation(env: nat -> real)
    ensures IsValuation(Evaluation(env))
    ensures forall s: nat :: Evaluation(env)(Symbol(s)) == env(s)
  {
    var v := Evaluation(env);
    forall c, d
      ensures v(Mul(c, d)) == Times(c, Product(d, v))
    {
      FactorsAgree(Mul(c, d), d.Keys, env);
    }
    forall c, d
      ensures v(Add(c, d)) == c + Total(d, v)
    {
      TermsAgree(Add(c, d), d.Keys, env);
    }
  }
}
