/**
 When pow_expand keeps the canonical form.

 Some term of the expansion has a product among several factors exactly when the base has a product among
 its terms and a second term: for each kind of such a base there is a dictionary that comes from one
 composition only, so that its coefficient cannot cancel.
 */
module CrowdedTerms {
  import opened Common
  import opened Expressions
  import opened MonomialForm
  import opened Powers
  import opened Products
  import opened Sums
  import opened WeightedSums
  import Combinatorics
  import MultinomialTable

  // ----- the factors of a monomial

  /** The exponent with which the term k contains the base b. */
  ghost function ExponentIn(k: Basic, b: Basic): int {
    if k.Number? || k.Mul? then 0
    else if k.Pow? then if k.base == b then k.exp else 0
    else if k == b then 1 else 0
  }

  ghost function ExponentsIn(keys: seq<Basic>, b: Basic): (w: seq<int>)
    ensures |w| == |keys| && forall i | 0 <= i < |keys| :: w[i] == ExponentIn(keys[i], b)
  {
    seq(|keys|, i requires 0 <= i < |keys| => ExponentIn(keys[i], b))
  }

  lemma EntryExponent(d: map<Basic, int>, k: Basic, e: nat, b: Basic)
    requires !b.Mul?
    ensures Exponent(EntryFactors(d, k, e), b) == Exponent(d, b) + Combinatorics.Prod(e, ExponentIn(k, b))
  {
  }

  /** A base has the sum of the exponents that the terms contribute. */
  lemma {:induction false} BaseExponent(keys: seq<Basic>, t: Exponents, b: Basic)
    requires |t| == |keys| && !b.Mul?
    ensures Exponent(MonomialFactors(keys, t), b) == Weighted(t, ExponentsIn(keys, b))
  {
    if keys != [] {
      var n := |keys| - 1;
      BaseExponent(keys[..n], t[..n], b);
      EntryExponent(MonomialFactors(keys[..n], t[..n]), keys[n], t[n], b);
      assert ExponentsIn(keys, b)[..n] == ExponentsIn(keys[..n], b);
    }
  }

  ghost function PowerOfProduct(k: Basic, e: nat): Basic
    requires k.Mul?
  {
    Mul(1.0, ScaledExponents(k.factors, e))
  }

  /** Entry i of the composition makes the product m. */
  ghost predicate Makes(keys: seq<Basic>, t: Exponents, i: nat, m: Basic)
    requires |t| == |keys| && i < |keys|
  {
    keys[i].Mul? && t[i] > 0 && PowerOfProduct(keys[i], t[i]) == m
  }

  ghost function Makers(keys: seq<Basic>, t: Exponents, m: Basic): set<nat>
    requires |t| == |keys|
  {
    set i: nat | i < |keys| && Makes(keys, t, i, m)
  }

  lemma MakersLast(keys: seq<Basic>, t: Exponents, m: Basic)
    requires |t| == |keys| && keys != []
    ensures var n := |keys| - 1;
      Makers(keys, t, m) == Makers(keys[..n], t[..n], m) + (if Makes(keys, t, n, m) then {n} else {})
  {
    var n := |keys| - 1;
    forall i: nat | i < n
      ensures Makes(keys, t, i, m) <==> Makes(keys[..n], t[..n], i, m)
    {
    }
  }

  lemma EntryProduct(d: map<Basic, int>, k: Basic, e: nat, m: Basic)
    requires CanonicalSummand(k) && m.Mul?
    ensures Exponent(EntryFactors(d, k, e), m)
         == Exponent(d, m) + if k.Mul? && e > 0 && PowerOfProduct(k, e) == m then 1 else 0
  {
    if k.Pow? {
      assert IsBase(k.base);
    }
  }

  /** A product has as exponent the number of entries that make it. */
  lemma {:induction false} ProductExponent(keys: seq<Basic>, t: Exponents, m: Basic)
    requires |t| == |keys| && CanonicalSummands(keys) && m.Mul?
    ensures Exponent(MonomialFactors(keys, t), m) == |Makers(keys, t, m)|
  {
    if keys != [] {
      var n := |keys| - 1;
      ProductExponent(keys[..n], t[..n], m);
      EntryProduct(MonomialFactors(keys[..n], t[..n]), keys[n], t[n], m);
      MakersLast(keys, t, m);
    }
  }

  /** If two compositions have the same factors and one makes m, so does the other. */
  lemma SomeMaker(keys: seq<Basic>, t: Exponents, u: Exponents, i: nat, m: Basic) returns (j: nat)
    requires |t| == |u| == |keys| && CanonicalSummands(keys) && m.Mul?
    requires MonomialFactors(keys, t) == MonomialFactors(keys, u) && i < |keys| && Makes(keys, t, i, m)
    ensures j < |keys| && Makes(keys, u, j, m)
  {
    ProductExponent(keys, t, m);
    ProductExponent(keys, u, m);
    assert i in Makers(keys, t, m);
    assert Makers(keys, u, m) != {};
    j :| j in Makers(keys, u, m);
  }

  lemma MadeFactor(keys: seq<Basic>, t: Exponents, i: nat, m: Basic)
    requires |t| == |keys| && CanonicalSummands(keys) && i < |keys| && Makes(keys, t, i, m)
    ensures m in MonomialFactors(keys, t)
  {
    ProductExponent(keys, t, m);
    assert i in Makers(keys, t, m);
  }

  // ----- a dictionary that comes from one composition

  /** The terms have nonzero coefficients, and the constant is not zero. */
  ghost predicate Weighty(keys: seq<Basic>, base: map<Basic, real>) {
    forall i | 0 <= i < |keys| ::
      keys[i] in base && base[keys[i]] != 0.0 && (keys[i].Number? ==> keys[i].value != 0.0)
  }

  lemma {:induction false} ScaleIsNonzero(keys: seq<Basic>, base: map<Basic, real>, t: Exponents)
    requires |t| == |keys| && Weighty(keys, base)
    ensures MonomialScale(keys, base, t) != 0.0
  {
    if keys != [] {
      var n := |keys| - 1;
      ScaleIsNonzero(keys[..n], base, t[..n]);
      var k, c, e := keys[n], base[keys[n]], t[n];
      if k.Number? {
        PowerNatNonzero(k.value, e);
      }
      PowerNatNonzero(c, e);
      TimesNonzero(NumberPart(k, e), PowerNat(c, e));
      TimesNonzero(MonomialScale(keys[..n], base, t[..n]), EntryScale(k, c, e));
    }
  }

  lemma PositiveMultinomial(t: Exponents)
    ensures Combinatorics.Multinomial(t) > 0
  {
    Combinatorics.MultinomialFact(t);
    assert Combinatorics.Prod(0, Combinatorics.FactProduct(t)) == 0;
  }

  /** t is the only composition of n with its factors. */
  ghost predicate IsAlone(keys: seq<Basic>, n: nat, t: Exponents)
    requires |t| == |keys|
  {
    forall u: Exponents ::
      |u| == |keys| && Combinatorics.Sum(u) == n && MonomialFactors(keys, u) == MonomialFactors(keys, t) ==> u == t
  }

  /** What comes from one composition does not cancel. */
  lemma AloneStays(keys: seq<Basic>, base: map<Basic, real>, n: nat, t: Exponents)
    requires |t| == |keys| && Combinatorics.Sum(t) == n && Weighty(keys, base) && IsAlone(keys, n, t)
    requires IsCrowded(Mul(1.0, MonomialFactors(keys, t)))
    ensures !NothingCrowded(keys, base, n)
  {
    var d, s := MonomialFactors(keys, t), MultinomialTable.Compositions(|keys|, n);
    var share := Share(keys, base, d);
    MultinomialTable.CompositionsMembers(|keys|, n, t);
    ScaleIsNonzero(keys, base, t);
    PositiveMultinomial(t);
    TimesNonzero(Combinatorics.Multinomial(t) as real, MonomialScale(keys, base, t));
    forall u | u in s - {t}
      ensures share(u) == 0.0
    {
      MultinomialTable.CompositionsMembers(|keys|, n, u);
    }
    SumTake(s, share, t);
    SumZero(s - {t}, share);
    assert CoefficientOf(keys, base, d, s) != 0.0;
  }

  lemma TwoFactors(d: map<Basic, int>, p: Basic, q: Basic)
    requires p in d && q in d && p != q && p.Mul?
    ensures IsCrowded(Mul(1.0, d))
  {
    assert {p, q} <= d.Keys;
    SubsetSize({p, q}, d.Keys);
    assert !IsBase(p);
  }

  lemma SubsetSize(s: set<Basic>, t: set<Basic>)
    requires s <= t
    ensures |s| <= |t|
  {
    assert t == s + (t - s);
  }

  // ----- one term only

  lemma {:induction false} NumbersOnly(keys: seq<Basic>, t: Exponents)
    requires |t| == |keys| && forall i | 0 <= i < |keys| :: keys[i].Number?
    ensures MonomialFactors(keys, t) == map[]
  {
    if keys != [] {
      NumbersOnly(keys[..|keys| - 1], t[..|keys| - 1]);
    }
  }

  /** With one term beside the constant a monomial has at most one factor. */
  lemma {:induction false} OneFactor(keys: seq<Basic>, t: Exponents)
    requires |t| == |keys| && forall i, j | 0 <= i < j < |keys| :: keys[i].Number? || keys[j].Number?
    ensures |MonomialFactors(keys, t)| <= 1
  {
    if keys != [] {
      var n := |keys| - 1;
      OneFactor(keys[..n], t[..n]);
      if !keys[n].Number? {
        NumbersOnly(keys[..n], t[..n]);
        FirstFactor(keys[n], t[n]);
      }
    }
  }

  lemma FirstFactor(k: Basic, e: nat)
    ensures |EntryFactors(map[], k, e)| <= 1
  {
  }

  lemma OneTermNothingCrowded(keys: seq<Basic>, base: map<Basic, real>, n: nat)
    requires forall i | 0 <= i < |keys| :: keys[i] in base
    requires forall i, j | 0 <= i < j < |keys| :: keys[i].Number? || keys[j].Number?
    ensures NothingCrowded(keys, base, n)
  {
    var s := MultinomialTable.Compositions(|keys|, n);
    forall d | IsCrowded(Mul(1.0, d))
      ensures CoefficientOf(keys, base, d, s) == 0.0
    {
      forall t | t in s
        ensures Share(keys, base, d)(t) == 0.0
      {
        if |t| == |keys| {
          OneFactor(keys, t);
        }
      }
      SumZero(s, Share(keys, base, d));
    }
  }

  // ----- a product beside a power of a base

  /** How far the exponent x of a term stays behind the exponent g. */
  ghost function Behind(g: int, x: int): int {
    Abs(g) - Combinatorics.Prod(if g < 0 then -1 else 1, x)
  }

  lemma BehindIs(g: int, x: int)
    requires Abs(x) <= Abs(g)
    ensures Behind(g, x) >= 0 && (Behind(g, x) == 0 <==> x == g) && Behind(g, 0) == Abs(g)
  {
  }

  ghost function BehindOf(keys: seq<Basic>, b: Basic, g: int): (v: seq<int>)
    ensures |v| == |keys| && forall i | 0 <= i < |keys| :: v[i] == Behind(g, ExponentIn(keys[i], b))
  {
    seq(|keys|, i requires 0 <= i < |keys| => Behind(g, ExponentIn(keys[i], b)))
  }

  /** The term p is a product and the term z a power of b with the exponent g, which no term with b exceeds in size. */
  ghost predicate IsBeside(keys: seq<Basic>, p: nat, z: nat, b: Basic, g: int) {
    && p < |keys| && z < |keys| && p != z && keys[p].Mul? && !b.Mul? && g != 0 && ExponentIn(keys[z], b) == g
    && forall i | 0 <= i < |keys| :: Abs(ExponentIn(keys[i], b)) <= Abs(g)
  }

  lemma SameExponentSameTerm(k: Basic, l: Basic, b: Basic)
    requires CanonicalSummand(k) && CanonicalSummand(l) && ExponentIn(k, b) == ExponentIn(l, b) != 0
    ensures k == l
  {
    CanonicalPower(k);
    CanonicalPower(l);
  }

  lemma FirstPowerOfProduct(k: Basic)
    requires k.Mul? && k.coef == 1.0
    ensures PowerOfProduct(k, 1) == k
  {
    assert ScaledExponents(k.factors, 1) == k.factors;
  }

  /** Compositions with the same factors stay behind alike. */
  lemma SameBehind(keys: seq<Basic>, b: Basic, g: int, t: Exponents, u: Exponents)
    requires |t| == |u| == |keys| && !b.Mul? && Combinatorics.Sum(t) == Combinatorics.Sum(u)
    requires MonomialFactors(keys, t) == MonomialFactors(keys, u)
    ensures Weighted(t, BehindOf(keys, b, g)) == Weighted(u, BehindOf(keys, b, g))
  {
    var s := if g < 0 then -1 else 1;
    BaseExponent(keys, t, b);
    BaseExponent(keys, u, b);
    WeightedSlack(t, ExponentsIn(keys, b), BehindOf(keys, b, g), Abs(g), s);
    WeightedSlack(u, ExponentsIn(keys, b), BehindOf(keys, b, g), Abs(g), s);
  }

  lemma ProdUnits(x: int)
    ensures Combinatorics.Prod(1, x) == x && Combinatorics.Prod(x, 0) == 0
  {
  }

  lemma BesideBehind(keys: seq<Basic>, p: nat, z: nat, b: Basic, g: int, a: nat)
    requires IsBeside(keys, p, z, b, g)
    ensures forall i | 0 <= i < |keys| :: BehindOf(keys, b, g)[i] >= 0
    ensures Weighted(TwoAt(|keys|, p, z, 1, a), BehindOf(keys, b, g)) == Abs(g)
  {
    var v := BehindOf(keys, b, g);
    forall i | 0 <= i < |keys|
      ensures v[i] >= 0
    {
      BehindIs(g, ExponentIn(keys[i], b));
    }
    BehindIs(g, g);
    TwoAtWeighted(|keys|, p, z, 1, a, v);
    ProdUnits(v[p]);
    ProdUnits(a);
  }

  /** An entry that stays behind by the whole is 1, and the others do not stay behind. */
  lemma OnlyOneBehind(u: Exponents, v: seq<int>, j: nat, i: nat, g: int)
    requires |u| == |v| && j < |u| && i < |u| && i != j && (forall k | 0 <= k < |v| :: v[k] >= 0)
    requires v[j] == g > 0 && u[j] > 0 && Weighted(u, v) == g
    ensures u[j] == 1 && (u[i] > 0 ==> v[i] == 0)
  {
    WeightedEntry(u, v, j, i);
    OnlyOneScalar(u[j], g, u[i], v[i]);
  }

  lemma OnlyOneScalar(a: nat, g: int, e: nat, x: int)
    requires g > 0 && a > 0 && x >= 0
    requires Combinatorics.Prod(e, x) >= 0 && Combinatorics.Prod(a, g) + Combinatorics.Prod(e, x) <= g
    ensures a == 1 && (e > 0 ==> x == 0)
  {
    ProdUnits(g);
    if a > 1 {
      TwiceProd(a, g);
    }
    if e > 0 && x > 0 {
      PositiveProd(e, x);
    }
  }

  lemma TwiceProd(a: nat, g: int)
    requires a >= 2 && g >= 0
    ensures Combinatorics.Prod(a, g) >= 2 * g
  {
    NonnegativeProd(a - 2, g);
    assert a * g == (a - 2) * g + 2 * g;
  }

  lemma PositiveProd(e: nat, x: int)
    requires e > 0 && x > 0
    ensures Combinatorics.Prod(e, x) > 0
  {
    NonnegativeProd(e - 1, x);
    assert e * x == (e - 1) * x + x;
  }

  /** p and the greatest power of b come from one composition only. */
  lemma BesideIsAlone(keys: seq<Basic>, p: nat, z: nat, b: Basic, g: int, a: nat)
    requires CanonicalSummands(keys) && Distinct(keys) && IsBeside(keys, p, z, b, g) && a > 0
    ensures IsAlone(keys, a + 1, TwoAt(|keys|, p, z, 1, a))
  {
    var t := TwoAt(|keys|, p, z, 1, a);
    TwoAtSum(|keys|, p, z, 1, a);
    forall u: Exponents | |u| == |keys| && Combinatorics.Sum(u) == a + 1
        && MonomialFactors(keys, u) == MonomialFactors(keys, t)
      ensures u == t
    {
      BesideUnique(keys, p, z, b, g, a, u);
    }
  }

  lemma BesideUnique(keys: seq<Basic>, p: nat, z: nat, b: Basic, g: int, a: nat, u: Exponents)
    requires CanonicalSummands(keys) && Distinct(keys) && IsBeside(keys, p, z, b, g) && a > 0
    requires |u| == |keys| && Combinatorics.Sum(u) == a + 1
    requires MonomialFactors(keys, u) == MonomialFactors(keys, TwoAt(|keys|, p, z, 1, a))
    ensures u == TwoAt(|keys|, p, z, 1, a)
  {
    var t, v := TwoAt(|keys|, p, z, 1, a), BehindOf(keys, b, g);
    TwoAtSum(|keys|, p, z, 1, a);
    FirstPowerOfProduct(keys[p]);
    var j := SomeMaker(keys, t, u, p, keys[p]);
    SameBehind(keys, b, g, t, u);
    BesideBehind(keys, p, z, b, g, a);
    forall i | 0 <= i < |keys| && i != j
      ensures u[j] == 1 && (u[i] > 0 ==> i == z)
    {
      NotBehind(keys, p, z, b, g, u, j, i);
    }
    FirstPowerOfProduct(keys[j]);
    TwoLeft(u, j, z, a);
  }

  lemma NotBehind(keys: seq<Basic>, p: nat, z: nat, b: Basic, g: int, u: Exponents, j: nat, i: nat)
    requires CanonicalSummands(keys) && Distinct(keys) && IsBeside(keys, p, z, b, g) && |u| == |keys|
    requires Weighted(u, BehindOf(keys, b, g)) == Abs(g)
    requires forall k | 0 <= k < |keys| :: BehindOf(keys, b, g)[k] >= 0
    requires j < |keys| && i < |keys| && i != j && keys[j].Mul? && u[j] > 0
    ensures u[j] == 1 && (u[i] > 0 ==> i == z)
  {
    BehindIs(g, 0);
    OnlyOneBehind(u, BehindOf(keys, b, g), j, i, Abs(g));
    BehindIs(g, ExponentIn(keys[i], b));
    if u[i] > 0 {
      SameExponentSameTerm(keys[i], keys[z], b);
    }
  }

  /** 1 at position j and nothing else except at z. */
  lemma TwoLeft(u: Exponents, j: nat, z: nat, a: nat)
    requires j < |u| && z < |u| && j != z && u[j] == 1 && Combinatorics.Sum(u) == a + 1
    requires forall i | 0 <= i < |u| && i != j && i != z :: u[i] == 0
    ensures u == TwoAt(|u|, j, z, 1, a)
  {
    assert u == TwoAt(|u|, j, z, 1, u[z]);
    TwoAtSum(|u|, j, z, 1, u[z]);
  }

  lemma BesideIsCrowded(keys: seq<Basic>, p: nat, z: nat, b: Basic, g: int, a: nat)
    requires CanonicalSummands(keys) && IsBeside(keys, p, z, b, g) && a > 0
    ensures IsCrowded(Mul(1.0, MonomialFactors(keys, TwoAt(|keys|, p, z, 1, a))))
  {
    var t := TwoAt(|keys|, p, z, 1, a);
    FirstPowerOfProduct(keys[p]);
    MadeFactor(keys, t, p, keys[p]);
    BaseExponent(keys, t, b);
    TwoAtWeighted(|keys|, p, z, 1, a, ExponentsIn(keys, b));
    ProdUnits(1);
    NonzeroProduct(a, g);
    TwoFactors(MonomialFactors(keys, t), keys[p], b);
  }

  /** A term that is no product has a base, and some term has the greatest power of that base. */
  lemma GreatestPower(keys: seq<Basic>, y: nat) returns (z: nat, b: Basic, g: int)
    requires CanonicalSummands(keys) && y < |keys| && !keys[y].Number? && !keys[y].Mul?
    ensures z < |keys| && !b.Mul? && g != 0 && ExponentIn(keys[z], b) == g
    ensures forall i | 0 <= i < |keys| :: Abs(ExponentIn(keys[i], b)) <= Abs(g)
  {
    CanonicalPower(keys[y]);
    b := if keys[y].Pow? then keys[y].base else keys[y];
    var w := ExponentsIn(keys, b);
    var f: nat -> real := (i: nat) => if i < |w| then -(Abs(w[i]) as real) else 0.0;
    var s := set i: nat | i < |keys| && IsPlace(keys, i);
    assert IsPlace(keys, y);
    assert y in s;
    z := Least(s, f);
    g := w[z];
    assert f(z) <= f(y);
    assert w[y] != 0;
    forall i | 0 <= i < |keys|
      ensures Abs(ExponentIn(keys[i], b)) <= Abs(g)
    {
      assert IsPlace(keys, i);
      assert i in s;
    }
  }

  ghost predicate IsPlace(keys: seq<Basic>, i: nat) {
    i < |keys|
  }

  lemma ProductBesideBase(keys: seq<Basic>, base: map<Basic, real>, n: nat, p: nat, y: nat)
    requires CanonicalSummands(keys) && Distinct(keys) && Weighty(keys, base) && n >= 2
    requires p < |keys| && keys[p].Mul? && y < |keys| && !keys[y].Number? && !keys[y].Mul?
    ensures !NothingCrowded(keys, base, n)
  {
    var z, b, g := GreatestPower(keys, y);
    assert IsBeside(keys, p, z, b, g);
    TwoAtSum(|keys|, p, z, 1, n - 1);
    BesideIsAlone(keys, p, z, b, g, n - 1);
    BesideIsCrowded(keys, p, z, b, g, n - 1);
    AloneStays(keys, base, n, TwoAt(|keys|, p, z, 1, n - 1));
  }

  // ----- products only

  ghost function AbsExponent(f: map<Basic, int>): Basic -> real {
    k => if k in f then Abs(f[k]) as real else 0.0
  }

  /** The sum of the sizes of the exponents. */
  ghost function Degree(f: map<Basic, int>): real {
    SumOver(f.Keys, AbsExponent(f))
  }

  lemma {:induction false} SumScaled(s: set<Basic>, f: Basic -> real, g: Basic -> real, c: real)
    requires forall k | k in s :: g(k) == Times(c, f(k))
    ensures SumOver(s, g) == Times(c, SumOver(s, f))
  {
    if s == {} {
      TimesUnits(c);
    } else {
      var k := Pick(s);
      SumScaled(s - {k}, f, g, c);
      TimesDistributes(f(k), SumOver(s - {k}, f), c);
    }
  }

  lemma {:induction false} SumPositive(s: set<Basic>, f: Basic -> real)
    requires forall k | k in s :: f(k) > 0.0
    ensures SumOver(s, f) >= 0.0 && (s != {} ==> SumOver(s, f) > 0.0)
  {
    if s != {} {
      SumPositive(s - {Pick(s)}, f);
    }
  }

  lemma DegreePositive(f: map<Basic, int>)
    requires f != map[] && forall k | k in f :: f[k] != 0
    ensures Degree(f) > 0.0
  {
    assert f.Keys != {};
    SumPositive(f.Keys, AbsExponent(f));
  }

  lemma ScaledSize(x: int, e: nat)
    ensures Abs(x * e) as real == Times(e as real, Abs(x) as real)
  {
    assert (-x) * e == -(x * e);
    Combinatorics.ProdNat(Abs(x), e);
    assert Abs(x * e) == e * Abs(x) by {
      if x < 0 {
        NonnegativeProd(-x, e);
      } else {
        NonnegativeProd(x, e);
      }
    }
    RealProduct(e, Abs(x));
  }

  lemma ScaledDegree(f: map<Basic, int>, e: nat)
    ensures Degree(ScaledExponents(f, e)) == Times(e as real, Degree(f))
  {
    var g := ScaledExponents(f, e);
    forall k | k in f.Keys
      ensures AbsExponent(g)(k) == Times(e as real, AbsExponent(f)(k))
    {
      ScaledSize(f[k], e);
    }
    assert g.Keys == f.Keys;
    SumScaled(f.Keys, AbsExponent(f), AbsExponent(g), e as real);
  }

  lemma SameScaled(f: map<Basic, int>, g: map<Basic, int>, e: nat)
    requires e > 0 && ScaledExponents(f, e) == ScaledExponents(g, e)
    ensures f == g
  {
    assert f.Keys == ScaledExponents(f, e).Keys == g.Keys;
    forall k | k in f
      ensures f[k] == g[k]
    {
      assert ScaledExponents(f, e)[k] == ScaledExponents(g, e)[k];
      CancelExponent(f[k], g[k], e);
    }
  }

  lemma CancelExponent(x: int, y: int, e: nat)
    requires e > 0 && x * e == y * e
    ensures x == y
  {
    assert (x - y) * e == 0;
    if x != y {
      NonzeroProduct(x - y, e);
    }
  }

  ghost function DegreeOf(k: Basic): real {
    if k.Mul? then Degree(k.factors) else 0.0
  }

  /** The product p is a least one among the terms, and q a greatest one among the others. */
  ghost predicate AreExtreme(keys: seq<Basic>, p: nat, q: nat) {
    && p < |keys| && q < |keys| && p != q && keys[p].Mul? && keys[q].Mul?
    && (forall i | 0 <= i < |keys| && keys[i].Mul? :: DegreeOf(keys[p]) <= DegreeOf(keys[i]))
    && (forall i | 0 <= i < |keys| && keys[i].Mul? && i != p :: DegreeOf(keys[i]) <= DegreeOf(keys[q]))
  }

  lemma ProductDegree(k: Basic, e: nat)
    requires CanonicalSummand(k) && k.Mul?
    ensures DegreeOf(k) > 0.0 && DegreeOf(PowerOfProduct(k, e)) == Times(e as real, DegreeOf(k))
  {
    DegreePositive(k.factors);
    ScaledDegree(k.factors, e);
  }

  /** a x = y with x >= y > 0. */
  lemma MultipleIsOne(a: nat, x: real, y: real)
    requires a > 0 && Times(a as real, x) == y && x >= y > 0.0
    ensures a == 1
  {
    if a >= 2 {
      TwiceAtLeast(a, x);
    }
  }

  lemma TwiceAtLeast(a: nat, x: real)
    requires a >= 2 && x >= 0.0
    ensures Times(a as real, x) >= x + x
  {
    assert (a as real - 2.0) * x >= 0.0;
    assert (a as real) * x == (x + x) + (a as real - 2.0) * x;
  }

  /** a x = c y with x <= y. */
  lemma MultipleAtLeast(a: nat, x: real, c: nat, y: real)
    requires Times(a as real, x) == Times(c as real, y) && x <= y && y > 0.0
    ensures a >= c
  {
    if a < c {
      LessMultiple(a, x, c, y);
    }
  }

  lemma LessMultiple(a: nat, x: real, c: nat, y: real)
    requires a < c && x <= y && y > 0.0
    ensures Times(a as real, x) < Times(c as real, y)
  {
    assert (a as real) * (y - x) >= 0.0;
    assert (c as real - a as real) * y > 0.0;
    assert (a as real) * x == (a as real) * y - (a as real) * (y - x);
    assert (c as real) * y == (a as real) * y + (c as real - a as real) * y;
  }

  /** A least product is made of itself only. */
  lemma LeastMaker(keys: seq<Basic>, u: Exponents, p: nat, q: nat, i: nat)
    requires CanonicalSummands(keys) && Distinct(keys) && AreExtreme(keys, p, q) && |u| == |keys| && i < |keys|
    requires Makes(keys, u, i, keys[p])
    ensures i == p && u[p] == 1
  {
    ProductDegree(keys[i], u[i]);
    ProductDegree(keys[p], 1);
    MultipleIsOne(u[i], DegreeOf(keys[i]), DegreeOf(keys[p]));
    FirstPowerOfProduct(keys[i]);
  }

  /** p and the power q^a are different, so p does not make the latter. */
  lemma ExtremesDiffer(keys: seq<Basic>, p: nat, q: nat, a: nat)
    requires CanonicalSummands(keys) && Distinct(keys) && AreExtreme(keys, p, q) && a > 0
    ensures PowerOfProduct(keys[q], a) != keys[p]
  {
    var m := PowerOfProduct(keys[q], a);
    if m == keys[p] {
      ProductDegree(keys[q], a);
      ProductDegree(keys[p], 1);
      MultipleIsOne(a, DegreeOf(keys[q]), DegreeOf(keys[p]));
      FirstPowerOfProduct(keys[q]);
    }
  }

  lemma ExtremeUnique(keys: seq<Basic>, p: nat, q: nat, a: nat, u: Exponents)
    requires CanonicalSummands(keys) && Distinct(keys) && AreExtreme(keys, p, q) && a > 0
    requires |u| == |keys| && Combinatorics.Sum(u) == a + 1
    requires MonomialFactors(keys, u) == MonomialFactors(keys, TwoAt(|keys|, p, q, 1, a))
    ensures u == TwoAt(|keys|, p, q, 1, a)
  {
    var t, m := TwoAt(|keys|, p, q, 1, a), PowerOfProduct(keys[q], a);
    FirstPowerOfProduct(keys[p]);
    var i := SomeMaker(keys, t, u, p, keys[p]);
    LeastMaker(keys, u, p, q, i);
    var j := SomeMaker(keys, t, u, q, m);
    ExtremesDiffer(keys, p, q, a);
    assert j != p;
    ProductDegree(keys[j], u[j]);
    ProductDegree(keys[q], a);
    MultipleAtLeast(u[j], DegreeOf(keys[j]), a, DegreeOf(keys[q]));
    WholeSum(u, p, j);
    SameScaled(keys[j].factors, keys[q].factors, a);
    FirstPowerOfProduct(keys[j]);
    FirstPowerOfProduct(keys[q]);
  }

  lemma ExtremeIsAlone(keys: seq<Basic>, p: nat, q: nat, a: nat)
    requires CanonicalSummands(keys) && Distinct(keys) && AreExtreme(keys, p, q) && a > 0
    ensures IsAlone(keys, a + 1, TwoAt(|keys|, p, q, 1, a))
    ensures IsCrowded(Mul(1.0, MonomialFactors(keys, TwoAt(|keys|, p, q, 1, a))))
  {
    var t, m := TwoAt(|keys|, p, q, 1, a), PowerOfProduct(keys[q], a);
    forall u: Exponents | |u| == |keys| && Combinatorics.Sum(u) == a + 1
        && MonomialFactors(keys, u) == MonomialFactors(keys, t)
      ensures u == t
    {
      ExtremeUnique(keys, p, q, a, u);
    }
    FirstPowerOfProduct(keys[p]);
    MadeFactor(keys, t, p, keys[p]);
    MadeFactor(keys, t, q, m);
    ExtremesDiffer(keys, p, q, a);
    TwoFactors(MonomialFactors(keys, t), keys[p], m);
  }

  lemma Extremes(keys: seq<Basic>, x: nat, y: nat) returns (p: nat, q: nat)
    requires x < y < |keys| && keys[x].Mul? && keys[y].Mul?
    ensures AreExtreme(keys, p, q)
  {
    var f: nat -> real := (i: nat) => if i < |keys| then DegreeOf(keys[i]) else 0.0;
    var g: nat -> real := (i: nat) => -f(i);
    var s := set i: nat | i < |keys| && keys[i].Mul?;
    assert x in s && y in s;
    p := Least(s, f);
    assert (if p == x then y else x) in s - {p};
    q := Least(s - {p}, g);
    forall i | 0 <= i < |keys| && keys[i].Mul?
      ensures DegreeOf(keys[p]) <= DegreeOf(keys[i])
      ensures i != p ==> DegreeOf(keys[i]) <= DegreeOf(keys[q])
    {
      assert i in s;
      assert f(p) <= f(i);
      if i != p {
        assert i in s - {p};
        assert g(q) <= g(i);
      }
    }
  }

  lemma TwoProducts(keys: seq<Basic>, base: map<Basic, real>, n: nat, x: nat, y: nat)
    requires CanonicalSummands(keys) && Distinct(keys) && Weighty(keys, base) && n >= 2
    requires x < y < |keys| && keys[x].Mul? && keys[y].Mul?
    ensures !NothingCrowded(keys, base, n)
  {
    var p, q := Extremes(keys, x, y);
    TwoAtSum(|keys|, p, q, 1, n - 1);
    ExtremeIsAlone(keys, p, q, n - 1);
    AloneStays(keys, base, n, TwoAt(|keys|, p, q, 1, n - 1));
  }

  // ----- the condition on the base

  /** The base has one term beside its constant, or no product among its terms. */
  ghost predicate KeepsForm(base: Basic)
    requires base.Add?
  {
    |base.terms| == 1 || forall k | k in base.terms :: !k.Mul?
  }

  lemma PlaceOf(keys: seq<Basic>, d: map<Basic, real>, k: Basic) returns (i: nat)
    requires Enumerates(keys, d) && k in d
    ensures i < |keys| && keys[i] == k
  {
    i :| 0 <= i < |keys| && keys[i] == k;
  }

  lemma SummandsAreWeighty(base: Basic, keys: seq<Basic>)
    requires base.Add? && IsBase(base) && Enumerates(keys, SummandsOf(base))
    ensures Weighty(keys, SummandsOf(base)) && Distinct(keys)
    ensures forall i | 0 <= i < |keys| :: keys[i].Number? || keys[i] in base.terms
    ensures forall k | k in base.terms :: k in SummandsOf(base) && !k.Number?
  {
  }

  lemma SingleTerm(d: map<Basic, real>, k: Basic, l: Basic)
    requires |d| == 1 && k in d && l in d
    ensures k == l
  {
    OneTerm(d, k);
  }

  lemma SingleSummand(base: Basic, keys: seq<Basic>)
    requires base.Add? && IsBase(base) && Enumerates(keys, SummandsOf(base)) && |base.terms| == 1
    ensures forall i, j | 0 <= i < j < |keys| :: keys[i].Number? || keys[j].Number?
  {
    SummandsAreWeighty(base, keys);
    forall i, j | 0 <= i < j < |keys|
      ensures keys[i].Number? || keys[j].Number?
    {
      if !keys[i].Number? && !keys[j].Number? {
        SingleTerm(base.terms, keys[i], keys[j]);
      }
    }
  }

  lemma SecondTerm(d: map<Basic, real>, k: Basic) returns (l: Basic)
    requires k in d && |d| != 1
    ensures l in d && l != k
  {
    var rest := d.Keys - {k};
    assert d.Keys == rest + {k};
    assert |rest| + 1 == |d.Keys|;
    l :| l in rest;
  }

  lemma CrowdedUnlessKept(base: Basic, keys: seq<Basic>, n: nat)
    requires base.Add? && IsBase(base) && Enumerates(keys, SummandsOf(base)) && n >= 2 && !KeepsForm(base)
    ensures !NothingCrowded(keys, SummandsOf(base), n)
  {
    var d := SummandsOf(base);
    SummandsAreWeighty(base, keys);
    SummandsAreCanonical(base, keys);
    var k :| k in base.terms && k.Mul?;
    var l := SecondTerm(base.terms, k);
    var x := PlaceOf(keys, d, k);
    var y := PlaceOf(keys, d, l);
    if l.Mul? {
      TwoProducts(keys, d, n, if x < y then x else y, if x < y then y else x);
    } else {
      ProductBesideBase(keys, d, n, x, y);
    }
  }

  /** In a power n >= 2 of a canonical sum no crowded term is left exactly when the base keeps the form. */
  lemma NothingCrowdedIff(base: Basic, keys: seq<Basic>, n: nat)
    requires base.Add? && IsBase(base) && Enumerates(keys, SummandsOf(base)) && n >= 2
    ensures NothingCrowded(keys, SummandsOf(base), n) <==> KeepsForm(base)
  {
    SummandsAreWeighty(base, keys);
    SummandsAreCanonical(base, keys);
    if !KeepsForm(base) {
      CrowdedUnlessKept(base, keys, n);
    } else if |base.terms| == 1 {
      SingleSummand(base, keys);
      OneTermNothingCrowded(keys, SummandsOf(base), n);
    } else {
      NoProductNothingCrowded(keys, SummandsOf(base), n);
    }
  }

  /** (x y + z)^2 does not keep the form, (x y + 1)^2 does. */
  lemma ProductPlusSymbol(x: Basic, y: Basic, z: Basic, p: Basic)
    requires x.Symbol? && y.Symbol? && z.Symbol? && x != y && p == Mul(1.0, map[x := 1, y := 1])
    ensures Canonical(Pow(Add(0.0, map[p := 1.0, z := 1.0]), 2)) && !KeepsForm(Add(0.0, map[p := 1.0, z := 1.0]))
    ensures Canonical(Pow(Add(1.0, map[p := 1.0]), 2)) && KeepsForm(Add(1.0, map[p := 1.0]))
  {
    assert p.factors.Keys == {x, y};
    assert IsBase(x) && IsBase(y);
    var d := map[p := 1.0, z := 1.0];
    assert d.Keys == {p, z};
    assert IsBase(Add(0.0, d)) && IsBase(Add(1.0, map[p := 1.0]));
    assert p in d;
  }
}
