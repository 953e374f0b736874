/**
 The product of two expressions, part by part: every term of one is paired with every term of the other, and
 what two pairs have in common is collected.
 */
module PartsProduct {
  import opened Expressions
  import opened Parts
  import opened Powers
  import opened Products

  /** The term that p and q make together. */
  ghost function PairTerm(p: Basic, q: Basic): Basic {
    Monic(Merged(FactorsOf(p), FactorsOf(q)))
  }

  /** What p makes with each term. */
  ghost function PairTerms(p: Basic): Basic -> Basic {
    q => PairTerm(p, q)
  }

  /** What a term of d contributes to the coefficient of t, c times its own. */
  ghost function PairShare(t: Basic, make: Basic -> Basic, c: real, d: map<Basic, real>): Basic -> real {
    q => if q in d && make(q) == t then Times(c, d[q]) else 0.0
  }

  /** What c p times the terms of d contributes to the coefficient of t. */
  ghost function RowShare(t: Basic, p: Basic, c: real, d: map<Basic, real>): real {
    SumOver(d.Keys, PairShare(t, PairTerms(p), c, d))
  }

  ghost function Rows(t: Basic, a: map<Basic, real>, b: map<Basic, real>): Basic -> real {
    p => if p in a then RowShare(t, p, a[p], b) else 0.0
  }

  /** The coefficient of t in the product: the sum of c e over all terms c p of a and e q of b that make t. */
  ghost function Convolution(t: Basic, a: map<Basic, real>, b: map<Basic, real>): real {
    SumOver(a.Keys, Rows(t, a, b))
  }

  lemma ShareInsert(t: Basic, make: Basic -> Basic, c: real, d: map<Basic, real>, q: Basic, e: real)
    requires q !in d
    ensures SumOver(d[q := e].Keys, PairShare(t, make, c, d[q := e]))
         == SumOver(d.Keys, PairShare(t, make, c, d)) + if make(q) == t then Times(c, e) else 0.0
  {
    var d' := d[q := e];
    SumTake(d'.Keys, PairShare(t, make, c, d'), q);
    assert d'.Keys - {q} == d.Keys;
    SumSame(d.Keys, PairShare(t, make, c, d'), PairShare(t, make, c, d));
  }

  lemma RowInsert(t: Basic, p: Basic, c: real, d: map<Basic, real>, q: Basic, e: real)
    requires q !in d
    ensures RowShare(t, p, c, d[q := e]) == RowShare(t, p, c, d) + if PairTerm(p, q) == t then Times(c, e) else 0.0
  {
    ShareInsert(t, PairTerms(p), c, d, q, e);
  }

  lemma ConvolutionInsert(t: Basic, a: map<Basic, real>, b: map<Basic, real>, p: Basic, c: real)
    requires p !in a
    ensures Convolution(t, a[p := c], b) == Convolution(t, a, b) + RowShare(t, p, c, b)
  {
    var a' := a[p := c];
    SumTake(a'.Keys, Rows(t, a', b), p);
    assert a'.Keys - {p} == a.Keys;
    SumSame(a.Keys, Rows(t, a', b), Rows(t, a, b));
  }

  lemma ConvolutionSingle(t: Basic, p: Basic, c: real, b: map<Basic, real>)
    ensures Convolution(t, map[p := c], b) == RowShare(t, p, c, b)
  {
    ConvolutionInsert(t, map[], b, p, c);
    assert map[][p := c] == map[p := c];
  }

  // ----- the product is commutative

  lemma PairCommutes(p: Basic, q: Basic)
    ensures PairTerm(p, q) == PairTerm(q, p)
  {
    MergedSymmetric(FactorsOf(p), FactorsOf(q));
  }

  /** Adding a term to the second factor adds its row. */
  lemma {:induction false} ColumnInsert(t: Basic, a: map<Basic, real>, b: map<Basic, real>, q: Basic, e: real)
    requires q !in b
    ensures Convolution(t, a, b[q := e]) == Convolution(t, a, b) + RowShare(t, q, e, a)
    decreases |a|
  {
    if a != map[] {
      var p := Pick(a.Keys);
      var rest, c := a - {p}, a[p];
      assert a.Keys == rest.Keys + {p} && a == rest[p := c];
      ColumnInsert(t, rest, b, q, e);
      ColumnStep(t, rest, b, p, c, q, e);
    }
  }

  lemma ColumnStep(t: Basic, a: map<Basic, real>, b: map<Basic, real>, p: Basic, c: real, q: Basic, e: real)
    requires p !in a && q !in b && Convolution(t, a, b[q := e]) == Convolution(t, a, b) + RowShare(t, q, e, a)
    ensures Convolution(t, a[p := c], b[q := e]) == Convolution(t, a[p := c], b) + RowShare(t, q, e, a[p := c])
  {
    ConvolutionInsert(t, a, b, p, c);
    ConvolutionInsert(t, a, b[q := e], p, c);
    RowInsert(t, p, c, b, q, e);
    RowInsert(t, q, e, a, p, c);
    PairCommutes(p, q);
    TimesCommutative(c, e);
  }

  lemma EmptyConvolution(t: Basic, a: map<Basic, real>)
    ensures Convolution(t, map[], a) == 0.0 == Convolution(t, a, map[])
  {
    SumZero(a.Keys, Rows(t, a, map[]));
  }

  lemma {:induction false} ConvolutionCommutes(t: Basic, a: map<Basic, real>, b: map<Basic, real>)
    ensures Convolution(t, a, b) == Convolution(t, b, a)
    decreases |a|
  {
    EmptyConvolution(t, b);
    if a != map[] {
      var p := Pick(a.Keys);
      var rest, c := a - {p}, a[p];
      assert a.Keys == rest.Keys + {p} && a == rest[p := c];
      ConvolutionCommutes(t, rest, b);
      CommuteStep(t, rest, b, p, c);
    }
  }

  lemma CommuteStep(t: Basic, a: map<Basic, real>, b: map<Basic, real>, p: Basic, c: real)
    requires p !in a && Convolution(t, a, b) == Convolution(t, b, a)
    ensures Convolution(t, a[p := c], b) == Convolution(t, b, a[p := c])
  {
    ConvolutionInsert(t, a, b, p, c);
    ColumnInsert(t, b, a, p, c);
  }

  // ----- the constant

  /** p times the term 1 is p. */
  lemma PairWithOne(p: Basic)
    requires GoodFactors(FactorsOf(p)) && IsMonic(p)
    ensures PairTerm(p, Number(1.0)) == p == PairTerm(Number(1.0), p)
  {
    MergedNone(FactorsOf(p));
  }

  /** Terms whose factors can be merged. */
  ghost predicate Pairable(d: map<Basic, real>) {
    forall t | t in d :: GoodFactors(FactorsOf(t)) && IsMonic(t)
  }

  /** A number times the terms of d multiplies their coefficients. */
  lemma RowOfOne(t: Basic, c: real, d: map<Basic, real>)
    requires Pairable(d)
    ensures RowShare(t, Number(1.0), c, d) == Times(c, Coefficient(d, t))
  {
    var f := PairShare(t, PairTerms(Number(1.0)), c, d);
    forall q | q in d
      ensures f(q) == if q == t then Times(c, d[q]) else 0.0
    {
      PairWithOne(q);
    }
    TimesUnits(c);
    if t in d {
      SumTake(d.Keys, f, t);
      SumZero(d.Keys - {t}, f);
    } else {
      SumZero(d.Keys, f);
    }
  }

  /** The row of a term with a whole sum: with the terms of the sum, and with its constant. */
  lemma RowWithConstant(t: Basic, p: Basic, c: real, b: Basic)
    requires b.Add? && Number(1.0) !in b.terms && GoodFactors(FactorsOf(p)) && IsMonic(p)
    ensures RowShare(t, p, c, PartsOf(b))
         == RowShare(t, p, c, b.terms) + if p == t then Times(c, b.constant) else 0.0
  {
    PairWithOne(p);
    RowPlusOne(t, p, c, b.terms, b.constant);
  }

  lemma RowPlusOne(t: Basic, p: Basic, c: real, d: map<Basic, real>, x: real)
    requires Number(1.0) !in d && PairTerm(p, Number(1.0)) == p
    ensures RowShare(t, p, c, if x == 0.0 then d else d[Number(1.0) := x])
         == RowShare(t, p, c, d) + if p == t then Times(c, x) else 0.0
  {
    TimesUnits(c);
    if x != 0.0 {
      RowInsert(t, p, c, d, Number(1.0), x);
    }
  }

  /** The rows of a sum: those of its terms, and the one of its constant. */
  lemma ConvolutionWithConstant(t: Basic, a: Basic, d: map<Basic, real>)
    requires a.Add? && Number(1.0) !in a.terms && Pairable(d)
    ensures Convolution(t, PartsOf(a), d) == Convolution(t, a.terms, d) + Times(a.constant, Coefficient(d, t))
  {
    RowOfOne(t, a.constant, d);
    TimesUnits(Coefficient(d, t));
    if a.constant != 0.0 {
      ConvolutionInsert(t, a.terms, d, Number(1.0), a.constant);
    }
  }
}
