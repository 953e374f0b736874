/**
 Products and integer powers of expressions (src/mul.cpp, pow in src/pow.cpp).

 mul collects a coefficient and a dictionary from base to exponent; from_dict turns the pair back into the
 simplest expression that stands for it.
 */
module Products {
  import opened Expressions
  import opened Powers

  // ----- canonical expressions

  /** No numerical coefficient of its own: what may be a key of a dictionary. */
  ghost predicate IsTerm(t: Basic)
    decreases t, 1
  {
    !t.Number? && WellFormed(t) && (t.Mul? ==> t.coef == 1.0)
  }

  /**
   What every value is proved for: no zero coefficient or exponent and no number as a base.  Canonical
   expressions are of this form, and so is everything pow_expand builds.
   */
  ghost predicate WellFormed(e: Basic)
    decreases e, 0
  {
    match e
    case Number(_) => true
    case Symbol(_) => true
    case Pow(b, n) => n != 0 && IsTerm(b)
    case Mul(c, f) => c != 0.0 && f != map[] && forall k | k in f :: f[k] != 0 && IsTerm(k)
    case Add(c, d) =>
      d != map[] && (|d| == 1 ==> c != 0.0) && forall t | t in d :: d[t] != 0.0 && IsTerm(t)
  }

  /** What may be raised to an integer power: no number, product or power. */
  ghost predicate IsBase(b: Basic)
    decreases b, 1
  {
    (b.Symbol? || b.Add?) && Canonical(b)
  }

  /** Pow::is_canonical, Mul::is_canonical and Add::is_canonical, all the way down. */
  ghost predicate Canonical(e: Basic)
    decreases e, 0
  {
    match e
    case Number(_) => true
    case Symbol(_) => true
    case Pow(b, n) => n != 0 && n != 1 && IsBase(b)
    case Mul(c, f) =>
      c != 0.0 && f != map[] && (|f| == 1 ==> c != 1.0) && forall k | k in f :: f[k] != 0 && IsBase(k)
    case Add(c, d) =>
      && d != map[] && (|d| == 1 ==> c != 0.0)
      && forall t | t in d :: d[t] != 0.0 && !t.Number? && (t.Mul? ==> t.coef == 1.0) && Canonical(t)
  }

  lemma {:induction false} CanonicalIsWellFormed(e: Basic)
    requires Canonical(e)
    ensures WellFormed(e)
  {
    match e
    case Number(_) =>
    case Symbol(_) =>
    case Pow(b, _) => CanonicalIsWellFormed(b);
    case Mul(_, f) =>
      forall k | k in f
        ensures WellFormed(k)
      {
        CanonicalIsWellFormed(k);
      }
    case Add(_, d) =>
      forall t | t in d
        ensures WellFormed(t)
      {
        CanonicalIsWellFormed(t);
      }
  }

  /** k to the power n, n != 0, for a base k. */
  function PowerOf(k: Basic, n: int): Basic {
    if n == 1 then k else Pow(k, n)
  }

  ghost predicate GoodFactors(d: map<Basic, int>) {
    forall k | k in d :: d[k] != 0 && IsTerm(k)
  }

  /** The factors of a canonical product. */
  ghost predicate CanonicalFactors(d: map<Basic, int>) {
    forall k | k in d :: d[k] != 0 && IsBase(k)
  }

  /** No exponent is negative anywhere. */
  ghost predicate AllPositive(e: Basic)
    decreases e
  {
    match e
    case Pow(b, n) => n > 0 && AllPositive(b)
    case Mul(_, f) => forall k | k in f :: f[k] > 0 && AllPositive(k)
    case Add(_, d) => forall t | t in d :: AllPositive(t)
    case _ => true
  }

  ghost predicate PositiveFactors(d: map<Basic, int>) {
    forall k | k in d :: d[k] > 0 && AllPositive(k)
  }

  // ----- dictionaries of factors

  ghost function Exponent(d: map<Basic, int>, t: Basic): int {
    if t in d then d[t] else 0
  }

  /** d with the exponent of t raised by n. */
  ghost function AddExponent(d: map<Basic, int>, t: Basic, n: int): map<Basic, int> {
    if Exponent(d, t) + n == 0 then d - {t} else d[t := Exponent(d, t) + n]
  }

  lemma AddExponentGood(d: map<Basic, int>, t: Basic, n: int)
    requires GoodFactors(d) && IsTerm(t)
    ensures GoodFactors(AddExponent(d, t, n))
  {
  }

  lemma AddExponentDefined(v: Basic -> real, d: map<Basic, int>, t: Basic, n: int)
    requires FactorsDefined(v, d) && FactorOk(v, t, n) && Defined(v, t)
    ensures FactorsDefined(v, AddExponent(d, t, n))
  {
  }

  lemma AddExponentValue(v: Basic -> real, d: map<Basic, int>, t: Basic, n: int)
    requires FactorsDefined(v, d) && FactorOk(v, t, n) && Defined(v, t)
    ensures FactorsDefined(v, AddExponent(d, t, n))
    ensures Product(AddExponent(d, t, n), v) == Times(Power(v(t), n), Product(d, v))
  {
    AddExponentDefined(v, d, t, n);
    if t !in d {
      NewValue(v, d, t, n);
    } else {
      RaisedValue(v, d, t, n);
    }
  }

  lemma NewValue(v: Basic -> real, d: map<Basic, int>, t: Basic, n: int)
    requires t !in d
    ensures Product(AddExponent(d, t, n), v) == Times(Power(v(t), n), Product(d, v))
  {
    if n == 0 {
      TimesUnits(Product(d, v));
      assert d - {t} == d;
    } else {
      ProductInsert(d, v, t, n);
    }
  }

  lemma RaisedValue(v: Basic -> real, d: map<Basic, int>, t: Basic, n: int)
    requires t in d && FactorOk(v, t, n) && FactorOk(v, t, d[t])
    ensures Product(AddExponent(d, t, n), v) == Times(Power(v(t), n), Product(d, v))
  {
    var rest, m := d - {t}, d[t];
    var q := Product(rest, v);
    FactorTake(d, v, t);
    PowerAdd(v(t), n, m);
    TimesAssociative(Power(v(t), n), Power(v(t), m), q);
    if m + n == 0 {
      TimesUnits(q);
    } else {
      ProductInsert(rest, v, t, m + n);
      assert rest[t := m + n] == d[t := m + n];
    }
  }

  /** The exponents of f and g added up; the bases whose exponents cancel are gone. */
  ghost function Merged(f: map<Basic, int>, g: map<Basic, int>): map<Basic, int> {
    map k | k in f.Keys + g.Keys && Exponent(f, k) + Exponent(g, k) != 0 :: Exponent(f, k) + Exponent(g, k)
  }

  lemma MergedNone(f: map<Basic, int>)
    requires GoodFactors(f)
    ensures Merged(f, map[]) == f && Merged(map[], f) == f
  {
  }

  lemma MergedStep(f: map<Basic, int>, g: map<Basic, int>, t: Basic)
    requires GoodFactors(f) && t in g
    ensures AddExponent(Merged(f, g - {t}), t, g[t]) == Merged(f, g)
  {
    var d, e := AddExponent(Merged(f, g - {t}), t, g[t]), Merged(f, g);
    forall k
      ensures k in d <==> k in e
      ensures k in d ==> d[k] == e[k]
    {
      if k != t {
        assert Exponent(g - {t}, k) == Exponent(g, k);
      }
    }
  }

  lemma {:induction false} MergedValue(v: Basic -> real, f: map<Basic, int>, g: map<Basic, int>)
    requires GoodFactors(f) && FactorsDefined(v, f) && FactorsDefined(v, g)
    ensures FactorsDefined(v, Merged(f, g))
    ensures Product(Merged(f, g), v) == Times(Product(f, v), Product(g, v))
    decreases |g|
  {
    if g == map[] {
      MergedNone(f);
      TimesUnits(Product(f, v));
    } else {
      var t := Pick(g.Keys);
      var rest := g - {t};
      assert g.Keys == rest.Keys + {t};
      MergedValue(v, f, rest);
      MergedStep(f, g, t);
      AddExponentValue(v, Merged(f, rest), t, g[t]);
      FactorTake(g, v, t);
      TimesExchange(Power(v(t), g[t]), Product(f, v), Product(rest, v));
    }
  }

  lemma MergedGood(f: map<Basic, int>, g: map<Basic, int>)
    requires GoodFactors(f) && GoodFactors(g)
    ensures GoodFactors(Merged(f, g))
  {
  }

  lemma MergedCanonical(f: map<Basic, int>, g: map<Basic, int>)
    requires CanonicalFactors(f) && CanonicalFactors(g)
    ensures CanonicalFactors(Merged(f, g))
  {
  }

  // ----- an expression as coefficient and factors

  ghost function CoefOf(e: Basic): real {
    match e
    case Number(x) => x
    case Mul(c, _) => c
    case _ => 1.0
  }

  /** A product, possibly raised to a power, that is the only factor. */
  ghost predicate IsLoneProduct(d: map<Basic, int>) {
    |d| == 1 && exists k :: k in d && (k.Mul? || k.Pow?)
  }

  ghost function FactorsOf(e: Basic): map<Basic, int> {
    match e
    case Number(_) => map[]
    case Mul(_, f) => f
    case Pow(b, n) => map[b := n]
    case _ => map[e := 1]
  }

  lemma FactorsOfGood(e: Basic)
    requires WellFormed(e)
    ensures GoodFactors(FactorsOf(e))
  {
  }

  lemma FactorsOfCanonical(e: Basic)
    requires Canonical(e)
    ensures CanonicalFactors(FactorsOf(e)) && !IsLoneProduct(FactorsOf(e))
  {
    var f := FactorsOf(e);
    assert forall k | k in f :: f[k] != 0 && IsBase(k);
  }

  lemma CanonicalNotLone(d: map<Basic, int>)
    requires CanonicalFactors(d)
    ensures !IsLoneProduct(d)
  {
    assert forall k | k in d :: IsBase(k);
  }

  lemma FactorsOfValue(v: Basic -> real, e: Basic)
    requires IsValuation(v) && Defined(v, e)
    ensures FactorsDefined(v, FactorsOf(e))
    ensures v(e) == Times(CoefOf(e), Product(FactorsOf(e), v))
  {
    var f := FactorsOf(e);
    if e.Number? {
      TimesUnits(e.value);
    } else if e.Pow? {
      ProductSingle(f, v, e.base);
      TimesUnits(v(e));
    } else if !e.Mul? {
      ProductSingle(f, v, e);
      FirstPower(v(e));
      TimesUnits(v(e));
    }
  }

  lemma FirstPower(x: real)
    ensures Power(x, 1) == x
  {
    TimesUnits(x);
    assert PowerNat(x, 0) == 1.0;
  }

  /** Mul::as_base_exp: a fraction below 1 is a power of its reciprocal. */
  function AsBaseExp(e: Basic): (int, Basic) {
    match e
    case Number(x) => if x != 0.0 && -1.0 < x < 1.0 then (-1, Number(Inverse(x))) else (1, e)
    case Pow(b, n) => (n, b)
    case _ => (1, e)
  }

  lemma AsBaseExpNumber(e: Basic)
    requires e.Number?
    ensures var r := AsBaseExp(e); r.0 != 0 && r.1.Number? && Power(r.1.value, r.0) == e.value
  {
    FirstPower(e.value);
    if e.value != 0.0 {
      FractionIsPower(e.value);
    }
  }

  lemma AsBaseExpFactors(e: Basic)
    requires WellFormed(e) && !e.Number? && !e.Mul?
    ensures var r := AsBaseExp(e); r.0 != 0 && IsTerm(r.1) && FactorsOf(e) == map[r.1 := r.0]
  {
  }

  lemma FractionIsPower(x: real)
    requires x != 0.0
    ensures Power(Inverse(x), -1) == x
  {
    var y := Inverse(x);
    InverseTimes(x);
    InverseTimes(y);
    TimesCommutative(y, x);
    InverseIsUnique(y, Inverse(y), x);
    FirstPower(x);
  }

  // ----- powers of a product

  /** All exponents multiplied by n. */
  ghost function ScaledExponents(f: map<Basic, int>, n: int): map<Basic, int> {
    map k | k in f :: f[k] * n
  }

  lemma ScaledGood(f: map<Basic, int>, n: int)
    requires GoodFactors(f) && n != 0
    ensures GoodFactors(ScaledExponents(f, n))
  {
    forall k | k in f
      ensures f[k] * n != 0
    {
      NonzeroProduct(f[k], n);
    }
  }

  lemma ScaledCanonical(f: map<Basic, int>, n: int)
    requires CanonicalFactors(f) && n != 0
    ensures CanonicalFactors(ScaledExponents(f, n)) && |ScaledExponents(f, n)| == |f|
  {
    ScaledSize(f, n);
    forall k | k in f
      ensures f[k] * n != 0
    {
      NonzeroProduct(f[k], n);
    }
  }

  lemma ScaledSize(f: map<Basic, int>, n: int)
    ensures |ScaledExponents(f, n)| == |f|
  {
    assert ScaledExponents(f, n).Keys == f.Keys;
  }

  lemma ScaledPositive(f: map<Basic, int>, n: int)
    requires PositiveFactors(f) && n > 0
    ensures PositiveFactors(ScaledExponents(f, n))
  {
    forall k | k in f
      ensures f[k] * n > 0
    {
      NonzeroProduct(f[k], n);
    }
  }

  lemma NonzeroProduct(a: int, b: int)
    requires a != 0 && b != 0
    ensures a * b != 0
    ensures a * b >= 0 <==> (a > 0 && b > 0) || (a < 0 && b < 0)
  {
  }

  /** k to the power n; a product without coefficient is raised factor by factor. */
  ghost function PowerTerm(k: Basic, n: int): Basic {
    if k.Mul? then Mul(1.0, ScaledExponents(k.factors, n)) else PowerOf(k, n)
  }

  /** The term with the factors f. */
  ghost function Monic(f: map<Basic, int>): Basic {
    if f == map[] then Number(1.0)
    else if |f| == 1 then PowerTerm(Pick(f.Keys), f[Pick(f.Keys)])
    else Mul(1.0, f)
  }

  lemma OneKey(d: map<Basic, int>, k: Basic)
    requires |d| == 1 && k in d
    ensures d.Keys == {k}
  {
    assert |d.Keys - {k}| == 0;
  }

  lemma MonicSingle(f: map<Basic, int>, k: Basic)
    requires |f| == 1 && k in f
    ensures Monic(f) == PowerTerm(k, f[k])
  {
    OneKey(f, k);
  }

  /** A base, or a canonical product without coefficient. */
  ghost predicate IsPlainFactor(k: Basic) {
    IsBase(k) || (k.Mul? && Canonical(k) && k.coef == 1.0)
  }

  lemma FirstPowerTerm(k: Basic)
    requires IsPlainFactor(k)
    ensures PowerTerm(k, 1) == k
  {
    if k.Mul? {
      assert ScaledExponents(k.factors, 1) == k.factors;
    }
  }

  lemma ScaledTake(v: Basic -> real, f: map<Basic, int>, n: int, k: Basic)
    requires k in f && (v(k) != 0.0 || (f[k] >= 0 && n >= 0))
    ensures Product(ScaledExponents(f, n), v)
         == Times(Power(Power(v(k), f[k]), n), Product(ScaledExponents(f - {k}, n), v))
  {
    var g := ScaledExponents(f, n);
    FactorTake(g, v, k);
    assert g - {k} == ScaledExponents(f - {k}, n);
    PowerPower(v(k), f[k], n);
  }

  lemma {:induction false} ScaledValue(v: Basic -> real, f: map<Basic, int>, n: int)
    requires forall k | k in f :: v(k) != 0.0 || (f[k] >= 0 && n >= 0)
    ensures Product(ScaledExponents(f, n), v) == Power(Product(f, v), n)
    decreases |f|
  {
    if f == map[] {
      PowerOne(n);
      assert ScaledExponents(f, n) == map[];
    } else {
      var k := Pick(f.Keys);
      var rest := f - {k};
      assert f.Keys == rest.Keys + {k};
      ScaledValue(v, rest, n);
      FactorTake(f, v, k);
      ScaledTake(v, f, n, k);
      PowerTimes(Power(v(k), f[k]), Product(rest, v), n);
    }
  }

  /** A nonzero product has no zero base. */
  lemma {:induction false} NonzeroBases(v: Basic -> real, f: map<Basic, int>, k: Basic)
    requires Product(f, v) != 0.0 && k in f && f[k] != 0
    ensures v(k) != 0.0
  {
    FactorTake(f, v, k);
    TimesNonzero(Power(v(k), f[k]), Product(f - {k}, v));
    if v(k) == 0.0 {
      ZeroPower(f[k]);
    }
  }

  lemma ZeroPower(n: int)
    requires n != 0
    ensures Power(0.0, n) == 0.0
  {
    TimesUnits(PowerNat(0.0, (if n >= 0 then n else -n) - 1));
  }

  // ----- what the operations promise

  /** r has the value of a to the power b wherever that exists. */
  ghost predicate IsPowerOf(r: Basic, a: Basic, b: int) {
    forall v | IsValuation(v) && Defined(v, a) && FactorOk(v, a, b) :: Defined(v, r) && v(r) == Power(v(a), b)
  }

  /** r has the value of the coefficient times the product of the factors. */
  ghost predicate StandsFor(r: Basic, coef: real, d: map<Basic, int>) {
    forall v | IsValuation(v) && FactorsDefined(v, d) :: Defined(v, r) && v(r) == Times(coef, Product(d, v))
  }

  ghost predicate IsProductOf(r: Basic, a: Basic, b: Basic) {
    forall v | IsValuation(v) && Defined(v, a) && Defined(v, b) :: Defined(v, r) && v(r) == Times(v(a), v(b))
  }

  /** The coefficients of a and b are multiplied and their exponents added, for every base. */
  ghost predicate HasProductForm(r: Basic, a: Basic, b: Basic) {
    if CoefOf(a) == 0.0 || CoefOf(b) == 0.0 then r == Number(0.0)
    else
      && CoefOf(r) == Times(CoefOf(a), CoefOf(b))
      && forall k :: Exponent(FactorsOf(r), k) == Exponent(FactorsOf(a), k) + Exponent(FactorsOf(b), k)
  }

  /** The coefficient of a is raised to the power n and every exponent multiplied by n. */
  ghost predicate HasPowerForm(r: Basic, a: Basic, n: int) {
    && CoefOf(r) == Power(CoefOf(a), n)
    && FactorsOf(r).Keys == FactorsOf(a).Keys
    && forall k | k in FactorsOf(a) :: FactorsOf(r)[k] == FactorsOf(a)[k] * n
  }

  /** Coefficient and exponents determine a canonical expression. */
  lemma FactorsDetermine(r: Basic, s: Basic)
    requires Canonical(r) && Canonical(s) && CoefOf(r) == CoefOf(s)
    requires forall k :: Exponent(FactorsOf(r), k) == Exponent(FactorsOf(s), k)
    ensures r == s
  {
    FactorsOfCanonical(r);
    FactorsOfCanonical(s);
    SameExponents(FactorsOf(r), FactorsOf(s));
    if !r.Number? && !r.Mul? {
      OnlyFactor(r, s);
    } else if !s.Number? && !s.Mul? {
      OnlyFactor(s, r);
    }
  }

  lemma SameExponents(f: map<Basic, int>, g: map<Basic, int>)
    requires (forall k | k in f :: f[k] != 0) && (forall k | k in g :: g[k] != 0)
    requires forall k :: Exponent(f, k) == Exponent(g, k)
    ensures f == g
  {
    forall k
      ensures k in f <==> k in g
      ensures k in f ==> f[k] == g[k]
    {
      assert Exponent(f, k) == Exponent(g, k);
    }
  }

  lemma OnlyFactor(r: Basic, s: Basic)
    requires Canonical(r) && Canonical(s) && CoefOf(r) == CoefOf(s) && FactorsOf(r) == FactorsOf(s)
    requires !r.Number? && !r.Mul?
    ensures r == s
  {
    var k := if r.Pow? then r.base else r;
    assert k in FactorsOf(s) && FactorsOf(s).Keys == {k};
    assert |FactorsOf(s)| == |FactorsOf(s).Keys| == 1;
  }

  lemma NumberStandsFor(x: real, coef: real, d: map<Basic, int>)
    requires (coef == 0.0 && x == 0.0) || (d == map[] && x == coef)
    ensures StandsFor(Number(x), coef, d)
  {
    forall v | IsValuation(v) && FactorsDefined(v, d)
      ensures v(Number(x)) == Times(coef, Product(d, v))
    {
      TimesUnits(coef);
      TimesUnits(Product(d, v));
    }
  }

  lemma PowerStandsFor(r: Basic, d: map<Basic, int>, k: Basic)
    requires d.Keys == {k} && IsPowerOf(r, k, d[k])
    ensures StandsFor(r, 1.0, d)
  {
    forall v | IsValuation(v) && FactorsDefined(v, d)
      ensures Defined(v, r) && v(r) == Times(1.0, Product(d, v))
    {
      ProductSingle(d, v, k);
      TimesUnits(Product(d, v));
    }
  }

  lemma FirstPowerOf(a: Basic)
    ensures IsPowerOf(a, a, 1)
  {
    forall v | IsValuation(v)
      ensures v(a) == Power(v(a), 1)
    {
      FirstPower(v(a));
    }
  }

  lemma MulStandsFor(coef: real, d: map<Basic, int>)
    ensures StandsFor(Mul(coef, d), coef, d)
  {
  }

  /** A product raised to n, factor by factor. */
  lemma ScaledStandsFor(r: Basic, m: Basic, n: int)
    requires m.Mul? && WellFormed(m) && n != 0
    requires StandsFor(r, Power(m.coef, n), ScaledExponents(m.factors, n))
    ensures IsPowerOf(r, m, n)
  {
    forall v | IsValuation(v) && Defined(v, m) && FactorOk(v, m, n)
      ensures Defined(v, r) && v(r) == Power(v(m), n)
    {
      ScaledDefined(v, m, n);
      ScaledValue(v, m.factors, n);
      PowerTimes(m.coef, Product(m.factors, v), n);
    }
  }

  lemma ScaledDefined(v: Basic -> real, m: Basic, n: int)
    requires IsValuation(v) && m.Mul? && WellFormed(m) && n != 0 && Defined(v, m) && FactorOk(v, m, n)
    ensures FactorsDefined(v, ScaledExponents(m.factors, n))
    ensures forall k | k in m.factors :: v(k) != 0.0 || (m.factors[k] >= 0 && n >= 0)
  {
    forall k | k in m.factors
      ensures v(k) != 0.0 || (m.factors[k] >= 0 && n >= 0)
      ensures FactorOk(v, k, m.factors[k] * n)
    {
      NonzeroProduct(m.factors[k], n);
      if n < 0 {
        TimesNonzero(m.coef, Product(m.factors, v));
        NonzeroBases(v, m.factors, k);
      }
    }
  }

  lemma NestedPower(r: Basic, b: Basic, e: int, n: int)
    requires IsPowerOf(r, b, e * n) && e != 0 && n != 0
    ensures IsPowerOf(r, Pow(b, e), n)
  {
    forall v | IsValuation(v) && Defined(v, Pow(b, e)) && FactorOk(v, Pow(b, e), n)
      ensures Defined(v, r) && v(r) == Power(v(Pow(b, e)), n)
    {
      NonzeroProduct(e, n);
      if v(b) == 0.0 && n < 0 {
        ZeroPower(e);
      }
      PowerPower(v(b), e, n);
    }
  }

  lemma NumberPower(x: real, n: int)
    ensures IsPowerOf(Number(Power(x, n)), Number(x), n)
  {
  }

  lemma PlainPower(a: Basic, n: int)
    ensures IsPowerOf(Pow(a, n), a, n)
  {
  }

  // ----- the operations

  /** Mul::dict_add_term_new: multiplies coef times d by t^exp. */
  method DictAddTermNew(coef: real, d: map<Basic, int>, exp: int, t: Basic) returns (coef': real, d': map<Basic, int>)
    requires exp != 0
    ensures !t.Number? ==> coef' == coef && d' == AddExponent(d, t, exp)
    ensures t.Number? && t !in d ==> d' == d && coef' == Times(coef, Power(t.value, exp))
    ensures t.Number? && t in d ==> d' == d - {t} && coef' == Times(coef, Power(t.value, d[t] + exp))
  {
    coef', d' := coef, d;
    if t !in d {
      if t.Number? {
        coef' := Times(coef, Power(t.value, exp));
      } else {
        d' := d[t := exp];
      }
    } else {
      var sum := d[t] + exp;
      d' := d[t := sum];
      if t.Number? {
        if sum != 0 {
          coef' := Times(coef, Power(t.value, sum));
        } else {
          TimesUnits(coef);
        }
        d' := d' - {t};
      } else if sum == 0 {
        d' := d' - {t};
      }
    }
  }

  /** Mul::from_dict: the simplest expression for coef times the factors in d. */
  method FromDict(coef: real, d: map<Basic, int>, ghost bound: Basic) returns (r: Basic)
    requires GoodFactors(d) && bound.Mul? && d.Keys <= bound.factors.Keys
    ensures WellFormed(r) && StandsFor(r, coef, d)
    ensures coef == 0.0 ==> r == Number(0.0)
    ensures d == map[] ==> r == Number(coef)
    ensures d != map[] && coef == 1.0 ==> IsTerm(r)
    ensures d != map[] && coef != 0.0 && (coef != 1.0 || |d| != 1) ==> r == Mul(coef, d)
    ensures coef == 1.0 && !IsLoneProduct(d) ==> FactorsOf(r) == d
    ensures CanonicalFactors(d) ==> Canonical(r)
    ensures coef == 1.0 && |d| == 1 && (forall k | k in d :: Canonical(k)) ==> Canonical(r)
    ensures coef == 1.0 && |d| == 1 && (forall k | k in d :: IsPlainFactor(k)) ==> r == Monic(d)
    ensures PositiveFactors(d) ==> AllPositive(r)
    decreases bound, 0
  {
    if coef == 0.0 {
      NumberStandsFor(0.0, coef, d);
      return Number(0.0);
    }
    if |d| == 0 {
      NumberStandsFor(coef, coef, d);
      return Number(coef);
    }
    if |d| == 1 && coef == 1.0 {
      var k :| k in d.Keys;
      OneKey(d, k);
      MonicSingle(d, k);
      if d[k] == 1 {
        r := k;
        FirstPowerOf(k);
        if IsPlainFactor(k) {
          FirstPowerTerm(k);
        }
      } else {
        assert k in bound.factors;
        r := PowBasic(k, d[k]);
      }
      PowerStandsFor(r, d, k);
      return;
    }
    MulStandsFor(coef, d);
    r := Mul(coef, d);
  }

  /** The loop over the factors: every exponent is multiplied by n. */
  method ScaleFactors(f: map<Basic, int>, n: int) returns (coef: real, d: map<Basic, int>)
    requires GoodFactors(f) && n != 0
    ensures coef == 1.0 && d == ScaledExponents(f, n)
  {
    coef, d := 1.0, map[];
    var items := f.Keys;
    while items != {}
      invariant items <= f.Keys && coef == 1.0
      invariant d == map k | k in f && k !in items :: f[k] * n
      decreases |items|
    {
      var k :| k in items;
      var newExp := f[k] * n;
      NonzeroProduct(f[k], n);
      coef, d := DictAddTermNew(coef, d, newExp, k);
      items := items - {k};
    }
  }

  lemma ScaledForm(m: Basic, n: int)
    requires m.Mul? && WellFormed(m) && n != 0
    ensures var d := ScaledExponents(m.factors, n);
      && GoodFactors(d) && d != map[] && |d| == |m.factors|
      && (Canonical(m) ==> CanonicalFactors(d) && !IsLoneProduct(d))
      && (AllPositive(m) && n > 0 ==> PositiveFactors(d))
  {
    var d := ScaledExponents(m.factors, n);
    ScaledGood(m.factors, n);
    ScaledSize(m.factors, n);
    if Canonical(m) {
      ScaledCanonical(m.factors, n);
      CanonicalNotLone(d);
    }
    if AllPositive(m) && n > 0 {
      ScaledPositive(m.factors, n);
    }
  }

  /** Mul::power_all_terms. */
  method PowerAllTerms(m: Basic, n: int) returns (r: Basic)
    requires m.Mul? && WellFormed(m) && n != 0
    ensures WellFormed(r) && IsPowerOf(r, m, n)
    ensures Canonical(m) ==> Canonical(r)
    ensures IsTerm(m) ==> IsTerm(r)
    ensures m.coef == 1.0 && |m.factors| != 1 ==> r == Mul(1.0, ScaledExponents(m.factors, n))
    ensures Canonical(m) ==> HasPowerForm(r, m, n)
    ensures AllPositive(m) && n > 0 ==> AllPositive(r)
    decreases m, 1
  {
    var coefNum, d := ScaleFactors(m.factors, n);
    ScaledForm(m, n);
    var newCoef := Power(m.coef, n);
    TimesUnits(newCoef);
    PowerNonzero(m.coef, n);
    coefNum := Times(coefNum, newCoef);
    r := FromDict(coefNum, d, m);
    ScaledStandsFor(r, m, n);
    if m.coef == 1.0 {
      PowerOne(n);
    }
  }

  /** pow, for integer exponents. */
  method PowBasic(a: Basic, b: int) returns (r: Basic)
    requires WellFormed(a)
    ensures WellFormed(r) && IsPowerOf(r, a, b)
    ensures Canonical(a) ==> Canonical(r)
    ensures b == 0 ==> r == Number(1.0)
    ensures b != 0 && Canonical(a) ==> HasPowerForm(r, a, b)
    ensures a.Number? ==> r == Number(Power(a.value, b))
    ensures IsTerm(a) && b != 0 ==> IsTerm(r)
    ensures AllPositive(a) && b > 0 ==> AllPositive(r)
    ensures b != 0 && (a.Symbol? || a.Add?) ==> r == PowerOf(a, b)
    ensures b != 0 && a.Pow? && (a.base.Symbol? || a.base.Add?) && a.exp != 1 ==> r == PowerOf(a.base, a.exp * b)
    ensures b != 0 && a.Mul? && a.coef == 1.0 && |a.factors| != 1 ==> r == Mul(1.0, ScaledExponents(a.factors, b))
    decreases a, 2
  {
    if b == 0 {
      return Number(1.0);
    }
    if b == 1 {
      FirstPowerOf(a);
      FirstPower(CoefOf(a));
      if a.Mul? {
        assert ScaledExponents(a.factors, 1) == a.factors;
      }
      return a;
    }
    if a.Number? {
      NumberPower(a.value, b);
      if a.value == 0.0 {
        ZeroPower(b);
        return Number(0.0);
      }
      if a.value == 1.0 {
        PowerOne(b);
        return Number(1.0);
      }
      if a.value == -1.0 {
        PowerMinusOne(b);
        return Number(if b % 2 == 0 then 1.0 else -1.0);
      }
      return Number(Power(a.value, b));
    }
    PowerOne(b);
    if a.Mul? {
      r := PowerAllTerms(a, b);
    } else if a.Pow? {
      NonzeroProduct(a.exp, b);
      r := PowBasic(a.base, a.exp * b);
      NestedPower(r, a.base, a.exp, b);
      if Canonical(a) {
        assert IsBase(a.base);
      }
    } else {
      PlainPower(a, b);
      r := Pow(a, b);
    }
  }

  /** The coefficient and dictionary that mul builds from its arguments. */
  method Collect(a: Basic, b: Basic) returns (coef: real, d: map<Basic, int>)
    requires WellFormed(a) && WellFormed(b)
    ensures coef == Times(CoefOf(a), CoefOf(b)) && d == Merged(FactorsOf(a), FactorsOf(b))
  {
    if a.Mul? && b.Mul? {
      coef := 1.0;
      TimesUnits(1.0);
      if !(a.coef == 1.0) || !(b.coef == 1.0) {
        coef := Times(a.coef, b.coef);
      }
      d := a.factors;
      var items := b.factors.Keys;
      MergedNone(a.factors);
      while items != {}
        invariant items <= b.factors.Keys && coef == Times(a.coef, b.coef)
        invariant d == Merged(a.factors, map k | k in b.factors && k !in items :: b.factors[k])
        decreases |items|
      {
        var k :| k in items;
        ghost var g := map j | j in b.factors && j !in items - {k} :: b.factors[j];
        assert g - {k} == map j | j in b.factors && j !in items :: b.factors[j];
        MergedStep(a.factors, g, k);
        coef, d := DictAddTermNew(coef, d, b.factors[k], k);
        items := items - {k};
      }
      assert b.factors == map k | k in b.factors && k !in items :: b.factors[k];
    } else if a.Mul? {
      coef, d := CollectOther(a.coef, a.factors, b);
    } else if b.Mul? {
      coef, d := CollectOther(b.coef, b.factors, a);
      TimesCommutative(CoefOf(a), CoefOf(b));
      MergedSymmetric(FactorsOf(a), FactorsOf(b));
    } else {
      coef, d := CollectFactor(1.0, map[], a);
      MergedNone(FactorsOf(a));
      FactorsOfGood(a);
      TimesUnits(CoefOf(a));
      coef, d := CollectFactor(coef, d, b);
    }
  }

  lemma MergedSymmetric(f: map<Basic, int>, g: map<Basic, int>)
    ensures Merged(f, g) == Merged(g, f)
  {
  }

  /** A product times something that is no product. */
  method CollectOther(coef0: real, d0: map<Basic, int>, b: Basic) returns (coef: real, d: map<Basic, int>)
    requires GoodFactors(d0) && WellFormed(b) && !b.Mul?
    ensures coef == Times(coef0, CoefOf(b)) && d == Merged(d0, FactorsOf(b))
  {
    coef, d := coef0, d0;
    if b.Number? {
      coef := Times(coef, b.value);
      MergedNone(d0);
    } else {
      coef, d := CollectFactor(coef0, d0, b);
    }
  }

  /** as_base_exp followed by dict_add_term_new. */
  method CollectFactor(coef0: real, d0: map<Basic, int>, b: Basic) returns (coef: real, d: map<Basic, int>)
    requires GoodFactors(d0) && WellFormed(b) && !b.Mul?
    ensures coef == Times(coef0, CoefOf(b)) && d == Merged(d0, FactorsOf(b))
  {
    var (exp, t) := AsBaseExp(b);
    if b.Number? {
      AsBaseExpNumber(b);
      MergedNone(d0);
    } else {
      AsBaseExpFactors(b);
      TimesUnits(coef0);
      MergedNone(d0);
      var g := map[t := exp];
      assert g - {t} == map[];
      MergedStep(d0, g, t);
    }
    coef, d := DictAddTermNew(coef0, d0, exp, t);
  }

  /** The factors of a and b cancel. */
  ghost predicate Reciprocal(a: Basic, b: Basic) {
    Merged(FactorsOf(a), FactorsOf(b)) == map[]
  }

  lemma ReciprocalExponents(a: Basic, b: Basic)
    requires WellFormed(a) && WellFormed(b)
    ensures Reciprocal(a, b) <==>
      FactorsOf(a).Keys == FactorsOf(b).Keys && forall k | k in FactorsOf(a) :: FactorsOf(a)[k] == -FactorsOf(b)[k]
  {
    var f, g := FactorsOf(a), FactorsOf(b);
    FactorsOfGood(a);
    FactorsOfGood(b);
    if Reciprocal(a, b) {
      forall k
        ensures k in f <==> k in g
        ensures k in f ==> f[k] == -g[k]
      {
        assert k !in Merged(f, g);
      }
    }
  }

  lemma CollectedIsProduct(r: Basic, a: Basic, b: Basic)
    requires WellFormed(a) && WellFormed(b)
    requires StandsFor(r, Times(CoefOf(a), CoefOf(b)), Merged(FactorsOf(a), FactorsOf(b)))
    ensures IsProductOf(r, a, b)
  {
    forall v | IsValuation(v) && Defined(v, a) && Defined(v, b)
      ensures Defined(v, r) && v(r) == Times(v(a), v(b))
    {
      FactorsOfValue(v, a);
      FactorsOfValue(v, b);
      FactorsOfGood(a);
      MergedValue(v, FactorsOf(a), FactorsOf(b));
      TimesInterchange(CoefOf(a), Product(FactorsOf(a), v), CoefOf(b), Product(FactorsOf(b), v));
    }
  }

  lemma CollectedForm(r: Basic, a: Basic, b: Basic)
    requires var coef, d := Times(CoefOf(a), CoefOf(b)), Merged(FactorsOf(a), FactorsOf(b));
      && (coef == 0.0 ==> r == Number(0.0))
      && (coef != 0.0 && !IsLoneProduct(d) ==> CoefOf(r) == coef && FactorsOf(r) == d)
    ensures !IsLoneProduct(Merged(FactorsOf(a), FactorsOf(b))) ==> HasProductForm(r, a, b)
  {
    TimesNonzero(CoefOf(a), CoefOf(b));
    forall k
      ensures Exponent(Merged(FactorsOf(a), FactorsOf(b)), k) == Exponent(FactorsOf(a), k) + Exponent(FactorsOf(b), k)
    {
    }
  }

  lemma MergedFactors(a: Basic, b: Basic)
    requires WellFormed(a) && WellFormed(b)
    ensures GoodFactors(Merged(FactorsOf(a), FactorsOf(b))) && GoodFactors(FactorsOf(b))
    ensures Canonical(a) && Canonical(b) ==>
      CanonicalFactors(Merged(FactorsOf(a), FactorsOf(b))) && !IsLoneProduct(Merged(FactorsOf(a), FactorsOf(b)))
  {
    FactorsOfGood(a);
    FactorsOfGood(b);
    MergedGood(FactorsOf(a), FactorsOf(b));
    if Canonical(a) && Canonical(b) {
      FactorsOfCanonical(a);
      FactorsOfCanonical(b);
      MergedCanonical(FactorsOf(a), FactorsOf(b));
      CanonicalNotLone(Merged(FactorsOf(a), FactorsOf(b)));
    }
  }

  /** mul: the product; two terms whose factors cancel give the number 1. */
  method MulBasic(a: Basic, b: Basic) returns (r: Basic)
    requires WellFormed(a) && WellFormed(b)
    ensures WellFormed(r) && IsProductOf(r, a, b)
    ensures Canonical(a) && Canonical(b) ==> Canonical(r) && HasProductForm(r, a, b)
    ensures !IsLoneProduct(Merged(FactorsOf(a), FactorsOf(b))) ==> HasProductForm(r, a, b)
    ensures IsTerm(a) && IsTerm(b) ==> if Reciprocal(a, b) then r == Number(1.0) else IsTerm(r)
    ensures a == Number(1.0) && IsTerm(b) ==> IsTerm(r)
  {
    var coef, d := Collect(a, b);
    MergedFactors(a, b);
    r := FromDict(coef, d, Mul(1.0, d));
    CollectedIsProduct(r, a, b);
    CollectedForm(r, a, b);
    TimesUnits(1.0);
    if a == Number(1.0) {
      MergedNone(FactorsOf(b));
    }
  }
}
