/** Inner products of real vectors, partial sums of them, and products of matrices. */
module RealVectors {
  import opened Determinant
  import opened Powers

  type Vector = Row

  ghost function Dot(u: Vector, v: Vector): real
    requires |u| == |v|
  {
    if |u| == 0 then 0.0 else Times(u[0], v[0]) + Dot(u[1..], v[1..])
  }

  lemma {:induction false} DotCombination(u: Vector, g: Vector, f: real, h: Vector, v: Vector)
    requires IsCombination(u, g, f, h) && |u| == |v|
    ensures Dot(u, v) == Dot(g, v) + Times(f, Dot(h, v))
  {
    if |u| > 0 {
      DotCombination(u[1..], g[1..], f, h[1..], v[1..]);
      Distributed(u[0], g[0], f, h[0], v[0], Dot(h[1..], v[1..]));
    } else {
      TimesUnits(f);
    }
  }

  lemma Distributed(u: real, g: real, f: real, h: real, v: real, b: real)
    requires u == g + Times(f, h)
    ensures Times(u, v) + Times(f, b) == Times(g, v) + Times(f, Times(h, v) + b)
  {
    TimesDistributes(g, Times(f, h), v);
    TimesAssociative(f, h, v);
    TimesDistributes(Times(h, v), b, f);
  }

  lemma {:induction false} DotZero(u: Vector, v: Vector)
    requires |u| == |v| && forall i | 0 <= i < |u| :: u[i] == 0.0
    ensures Dot(u, v) == 0.0
  {
    if |u| > 0 {
      DotZero(u[1..], v[1..]);
      TimesUnits(v[0]);
    }
  }

  /** If u is zero except at k, the product picks one entry. */
  lemma {:induction false} DotUnit(u: Vector, v: Vector, k: nat)
    requires |u| == |v| && k < |u| && forall i | 0 <= i < |u| && i != k :: u[i] == 0.0
    ensures Dot(u, v) == Times(u[k], v[k])
  {
    if k == 0 {
      DotZero(u[1..], v[1..]);
    } else {
      DotUnit(u[1..], v[1..], k - 1);
      TimesUnits(v[0]);
    }
  }

  // ----- partial products

  /** The part of the product that falls on the indices from s to t. */
  ghost function RangeDot(u: Vector, v: Vector, s: nat, t: nat): real
    requires s <= t <= |u| && t <= |v|
    decreases t
  {
    if t == s then 0.0 else RangeDot(u, v, s, t - 1) + Times(u[t - 1], v[t - 1])
  }

  lemma RangeNext(u: Vector, v: Vector, s: nat, t: nat)
    requires s <= t < |u| && t < |v|
    ensures RangeDot(u, v, s, t + 1) == RangeDot(u, v, s, t) + Times(u[t], v[t])
  {
  }

  lemma {:induction false} RangeSplit(u: Vector, v: Vector, s: nat, m: nat, t: nat)
    requires s <= m <= t <= |u| && t <= |v|
    ensures RangeDot(u, v, s, t) == RangeDot(u, v, s, m) + RangeDot(u, v, m, t)
    decreases t
  {
    if m < t {
      RangeSplit(u, v, s, m, t - 1);
    }
  }

  lemma {:induction false} RangeSame(u: Vector, v: Vector, u': Vector, v': Vector, s: nat, t: nat)
    requires s <= t <= |u| && t <= |v| && t <= |u'| && t <= |v'|
    requires forall i | s <= i < t :: u[i] == u'[i] && v[i] == v'[i]
    ensures RangeDot(u, v, s, t) == RangeDot(u', v', s, t)
    decreases t
  {
    if s < t {
      RangeSame(u, v, u', v', s, t - 1);
    }
  }

  lemma {:induction false} RangeZero(u: Vector, v: Vector, s: nat, t: nat)
    requires s <= t <= |u| && t <= |v|
    requires forall i | s <= i < t :: u[i] == 0.0 || v[i] == 0.0
    ensures RangeDot(u, v, s, t) == 0.0
    decreases t
  {
    if s < t {
      RangeZero(u, v, s, t - 1);
      TimesUnits(u[t - 1]);
      TimesUnits(v[t - 1]);
    }
  }

  lemma {:induction false} RangeIsDot(u: Vector, v: Vector, t: nat)
    requires |u| == |v| && t <= |u|
    ensures Dot(u, v) == RangeDot(u, v, 0, t) + Dot(u[t..], v[t..])
  {
    if t == 0 {
      assert u[0..] == u && v[0..] == v;
    } else {
      RangeIsDot(u, v, t - 1);
      assert u[t - 1..][1..] == u[t..] && v[t - 1..][1..] == v[t..];
    }
  }

  lemma WholeRange(u: Vector, v: Vector)
    requires |u| == |v|
    ensures Dot(u, v) == RangeDot(u, v, 0, |u|)
  {
    RangeIsDot(u, v, |u|);
  }

  // ----- products of matrices

  ghost function Column(M: seq<Vector>, c: nat): (v: Vector)
    requires forall i | 0 <= i < |M| :: c < |M[i]|
    ensures |v| == |M| && forall i | 0 <= i < |M| :: v[i] == M[i][c]
  {
    seq(|M|, i requires 0 <= i < |M| => M[i][c])
  }

  /** a is the combination of the rows of U with the coefficients c. */
  ghost predicate IsRowProduct(a: Vector, c: Vector, U: seq<Vector>, n: nat)
    requires forall i | 0 <= i < |U| :: |U[i]| == n
  {
    |a| == n && |c| == |U| && forall k | 0 <= k < n :: a[k] == Dot(c, Column(U, k))
  }

  ghost function RowProduct(c: Vector, U: seq<Vector>, n: nat): (a: Vector)
    requires |c| == |U| && forall i | 0 <= i < |U| :: |U[i]| == n
    ensures IsRowProduct(a, c, U, n)
  {
    seq(n, k requires 0 <= k < n => Dot(c, Column(U, k)))
  }

  lemma RowProductStep(a: Vector, c: Vector, U: seq<Vector>, n: nat)
    requires |U| > 0 && forall i | 0 <= i < |U| :: |U[i]| == n
    requires IsRowProduct(a, c, U, n)
    ensures IsCombination(a, RowProduct(c[1..], U[1..], n), c[0], U[0])
  {
    forall k | 0 <= k < n
      ensures a[k] == RowProduct(c[1..], U[1..], n)[k] + Times(c[0], U[0][k])
    {
      assert Column(U, k)[1..] == Column(U[1..], k);
    }
  }

  /** (c U) x = c (U x). */
  lemma {:induction false} RowProductDot(a: Vector, c: Vector, U: seq<Vector>, n: nat, x: Vector, y: Vector)
    requires forall i | 0 <= i < |U| :: |U[i]| == n
    requires IsRowProduct(a, c, U, n) && |x| == n && |y| == |U|
    requires forall i | 0 <= i < |U| :: Dot(U[i], x) == y[i]
    ensures Dot(a, x) == Dot(c, y)
    decreases |U|
  {
    if |U| == 0 {
      DotZero(a, x);
    } else {
      var a' := RowProduct(c[1..], U[1..], n);
      RowProductStep(a, c, U, n);
      DotCombination(a, a', c[0], U[0], x);
      RowProductDot(a', c[1..], U[1..], n, x, y[1..]);
    }
  }
}
