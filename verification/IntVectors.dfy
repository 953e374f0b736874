/** Integer vectors and the inner products that the linear Diophantine solver computes with. */
module IntVectors {

  type Vec = seq<int>

  function Dot(u: Vec, v: Vec): int
    requires |u| == |v|
  {
    if |u| == 0 then 0 else u[0] * v[0] + Dot(u[1..], v[1..])
  }

  ghost predicate IsMatrix(A: seq<Vec>, q: nat) {
    forall j | 0 <= j < |A| :: |A[j]| == q
  }

  /** The product A * v. */
  function MulVec(A: seq<Vec>, v: Vec): (r: Vec)
    requires forall j | 0 <= j < |A| :: |A[j]| == |v|
    ensures |r| == |A|
    ensures forall j | 0 <= j < |A| :: r[j] == Dot(A[j], v)
  {
    if A == [] then [] else [Dot(A[0], v)] + MulVec(A[1..], v)
  }

  ghost function Col(A: seq<Vec>, i: nat): (c: Vec)
    requires forall j | 0 <= j < |A| :: i < |A[j]|
    ensures |c| == |A|
    ensures forall j | 0 <= j < |A| :: c[j] == A[j][i]
  {
    seq(|A|, j requires 0 <= j < |A| => A[j][i])
  }

  function Zero(q: nat): (z: Vec)
    ensures |z| == q && forall i | 0 <= i < q :: z[i] == 0
  {
    seq(q, _ => 0)
  }

  ghost function Minus(u: Vec, v: Vec): (w: Vec)
    requires |u| == |v|
    ensures |w| == |u| && forall i | 0 <= i < |u| :: w[i] == u[i] - v[i]
  {
    seq(|u|, i requires 0 <= i < |u| => u[i] - v[i])
  }

  lemma {:induction false} DotSnoc(u: Vec, v: Vec, a: int, b: int)
    requires |u| == |v|
    ensures Dot(u + [a], v + [b]) == Dot(u, v) + a * b
  {
    if |u| == 0 {
      assert (u + [a])[1..] == [] && (v + [b])[1..] == [];
    } else {
      assert (u + [a])[1..] == u[1..] + [a];
      assert (v + [b])[1..] == v[1..] + [b];
      DotSnoc(u[1..], v[1..], a, b);
    }
  }

  /** The inner product is linear in its first argument. */
  lemma {:induction false} DotCombine(u: Vec, g: Vec, h: Vec, c: int, w: Vec)
    requires |u| == |g| == |h| == |w|
    requires forall i | 0 <= i < |w| :: u[i] == c * g[i] + h[i]
    ensures Dot(u, w) == c * Dot(g, w) + Dot(h, w)
  {
    if |w| > 0 {
      DotCombine(u[1..], g[1..], h[1..], c, w[1..]);
      calc {
        Dot(u, w);
        u[0] * w[0] + Dot(u[1..], w[1..]);
        (c * g[0] + h[0]) * w[0] + (c * Dot(g[1..], w[1..]) + Dot(h[1..], w[1..]));
        c * (g[0] * w[0] + Dot(g[1..], w[1..])) + (h[0] * w[0] + Dot(h[1..], w[1..]));
        c * Dot(g, w) + Dot(h, w);
      }
    }
  }

  lemma {:induction false} DotMinus(u: Vec, v: Vec, w: Vec)
    requires |u| == |v| == |w|
    ensures Dot(u, Minus(v, w)) == Dot(u, v) - Dot(u, w)
  {
    if |u| > 0 {
      assert Minus(v, w)[1..] == Minus(v[1..], w[1..]);
      DotMinus(u[1..], v[1..], w[1..]);
      assert u[0] * (v[0] - w[0]) == u[0] * v[0] - u[0] * w[0];
    }
  }

  /** The vector with entries <y, A e_i>, that is, the product of the transpose of A with y. */
  ghost function Gradient(A: seq<Vec>, q: nat, y: Vec): (g: Vec)
    requires IsMatrix(A, q) && |y| == |A|
    ensures |g| == q
    ensures forall i | 0 <= i < q :: g[i] == Dot(y, Col(A, i))
  {
    seq(q, i requires 0 <= i < q => Dot(y, Col(A, i)))
  }

  /** <y, A w> = <A^T y, w>. */
  lemma {:induction false} DotAdjoint(A: seq<Vec>, q: nat, y: Vec, w: Vec)
    requires IsMatrix(A, q) && |y| == |A| && |w| == q
    ensures Dot(y, MulVec(A, w)) == Dot(Gradient(A, q, y), w)
  {
    var g := Gradient(A, q, y);
    if A == [] {
      assert forall i | 0 <= i < q :: g[i] == 0;
      ZeroLeft(g, w);
    } else {
      var h := Gradient(A[1..], q, y[1..]);
      forall i | 0 <= i < q
        ensures g[i] == y[0] * A[0][i] + h[i]
      {
        assert Col(A, i)[1..] == Col(A[1..], i);
      }
      DotAdjoint(A[1..], q, y[1..], w);
      DotCombine(g, A[0], h, y[0], w);
      assert MulVec(A, w)[1..] == MulVec(A[1..], w);
    }
  }

  lemma {:induction false} ZeroLeft(z: Vec, w: Vec)
    requires |w| == |z| && forall i | 0 <= i < |z| :: z[i] == 0
    ensures Dot(z, w) == 0
  {
    if |w| > 0 {
      ZeroLeft(z[1..], w[1..]);
    }
  }

  lemma {:induction false} DotNonNegative(g: Vec, w: Vec)
    requires |g| == |w|
    requires forall i | 0 <= i < |w| :: w[i] >= 0 && (w[i] > 0 ==> g[i] >= 0)
    ensures Dot(g, w) >= 0
  {
    if |w| > 0 {
      assert g[0] * w[0] >= 0 by {
        if w[0] == 0 {
          assert g[0] * w[0] == 0;
        }
      }
      DotNonNegative(g[1..], w[1..]);
    }
  }

  lemma {:induction false} NormPositive(y: Vec)
    ensures Dot(y, y) >= 0
    ensures (exists j | 0 <= j < |y| :: y[j] != 0) ==> Dot(y, y) > 0
  {
    if |y| > 0 {
      NormPositive(y[1..]);
      assert y[0] * y[0] >= 0 && (y[0] != 0 ==> y[0] * y[0] > 0);
      if j :| 0 <= j < |y| && y[j] != 0 {
        if j > 0 {
          assert y[1..][j - 1] != 0;
        }
      }
    }
  }

  lemma {:induction false} DotSymmetric(u: Vec, v: Vec)
    requires |u| == |v|
    ensures Dot(u, v) == Dot(v, u)
  {
    if |u| > 0 {
      DotSymmetric(u[1..], v[1..]);
    }
  }

  lemma Differ(u: Vec, v: Vec)
    requires |u| == |v| && u != v
    ensures exists i :: 0 <= i < |u| && u[i] != v[i]
  {
  }

  // ----- the componentwise order

  ghost predicate Leq(u: Vec, v: Vec) {
    |u| == |v| && forall i | 0 <= i < |u| :: u[i] <= v[i]
  }

  ghost predicate Dominates(t: Vec, b: Vec) {
    Leq(b, t) && t != b
  }

  ghost predicate IsNatural(v: Vec) {
    forall i | 0 <= i < |v| :: v[i] >= 0
  }

  function Sum(v: Vec): int {
    if v == [] then 0 else v[0] + Sum(v[1..])
  }

  lemma {:induction false} SumMonotone(u: Vec, v: Vec)
    requires Leq(u, v)
    ensures Sum(u) <= Sum(v)
    ensures u != v ==> Sum(u) < Sum(v)
  {
    if u != [] {
      assert Leq(u[1..], v[1..]);
      SumMonotone(u[1..], v[1..]);
      assert u == [u[0]] + u[1..] && v == [v[0]] + v[1..];
    }
  }

  lemma {:induction false} SumNatural(v: Vec)
    requires IsNatural(v)
    ensures Sum(v) >= 0
  {
    if v != [] {
      SumNatural(v[1..]);
    }
  }

  // ----- combinations

  /** k u + l v. */
  ghost function Combination(k: int, u: Vec, l: int, v: Vec): (w: Vec)
    requires |u| == |v|
    ensures |w| == |u| && forall i | 0 <= i < |u| :: w[i] == k * u[i] + l * v[i]
  {
    seq(|u|, i requires 0 <= i < |u| => k * u[i] + l * v[i])
  }

  lemma {:induction false} CombinationDot(k: int, u: Vec, l: int, v: Vec, w: Vec)
    requires |u| == |v| == |w|
    ensures Dot(Combination(k, u, l, v), w) == k * Dot(u, w) + l * Dot(v, w)
  {
    if |w| > 0 {
      assert Combination(k, u, l, v)[1..] == Combination(k, u[1..], l, v[1..]);
      CombinationDot(k, u[1..], l, v[1..], w[1..]);
      Distribute(k, u[0], l, v[0], w[0], Dot(u[1..], w[1..]), Dot(v[1..], w[1..]));
    }
  }

  lemma Distribute(k: int, a: int, l: int, b: int, c: int, x: int, y: int)
    ensures (k * a + l * b) * c + (k * x + l * y) == k * (a * c + x) + l * (b * c + y)
  {
  }

  lemma CombinationValue(k: int, u: Vec, l: int, v: Vec, w: Vec, x: int, y: int)
    requires |u| == |v| == |w| && x == Dot(u, w) && y == Dot(v, w)
    ensures Dot(Combination(k, u, l, v), w) == k * x + l * y
  {
    CombinationDot(k, u, l, v, w);
  }

  lemma DotCombination(w: Vec, k: int, u: Vec, l: int, v: Vec)
    requires |u| == |v| == |w|
    ensures Dot(w, Combination(k, u, l, v)) == k * Dot(w, u) + l * Dot(w, v)
  {
    DotSymmetric(w, Combination(k, u, l, v));
    CombinationDot(k, u, l, v, w);
    DotSymmetric(u, w);
    DotSymmetric(v, w);
  }
}
