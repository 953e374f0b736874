/**
 Forward and back substitution (src/dense_matrix.cpp).

 The forward routine is written for the fraction-free factor F of a matrix, whose column i is still to be
 divided by the pivots i and i - 1.  Lower(F) is the triangular matrix this stands for; when F has a unit
 diagonal Lower(F) is F itself, which is why the same routine serves both kinds of factor.
 */
module Substitution {
  import opened Bareiss
  import opened Common
  import opened Powers
  import opened RealVectors

  // ----- systems and products

  ghost predicate Solves(A: Matrix, n: nat, x: Vector, b: Vector)
    requires IsSquare(A, n)
  {
    |x| == n && |b| == n && forall i | 0 <= i < n :: Dot(A[i], x) == b[i]
  }

  /** A = L U. */
  ghost predicate IsProduct(A: Matrix, L: Matrix, U: Matrix, n: nat)
    requires IsSquare(A, n) && IsSquare(L, n) && IsSquare(U, n)
  {
    forall i | 0 <= i < n :: IsRowProduct(A[i], L[i], U, n)
  }

  lemma SolveByFactors(A: Matrix, L: Matrix, U: Matrix, n: nat, x: Vector, y: Vector, b: Vector)
    requires IsSquare(A, n) && IsSquare(L, n) && IsSquare(U, n)
    requires IsProduct(A, L, U, n) && Solves(U, n, x, y) && Solves(L, n, y, b)
    ensures Solves(A, n, x, b)
  {
    forall i | 0 <= i < n
      ensures Dot(A[i], x) == b[i]
    {
      RowProductDot(A[i], L[i], U, n, x, y);
    }
  }

  // ----- the factors a matrix stands for

  ghost predicate Pivots(F: Matrix, n: nat, k: nat)
    requires IsSquare(F, n) && k <= n
  {
    forall r | 0 <= r < k :: F[r][r] != 0.0
  }

  ghost function LowerEntry(F: Matrix, n: nat, j: nat, i: nat): real
    requires IsSquare(F, n) && n > 0 && Pivots(F, n, n - 1) && i < n && j < n
  {
    if i < j then F[j][i] / F[i][i] / Lead(F, n, i) else if i == j then 1.0 / Lead(F, n, i) else 0.0
  }

  ghost function Lower(F: Matrix, n: nat): (L: Matrix)
    requires IsSquare(F, n) && n > 0 && Pivots(F, n, n - 1)
    ensures IsSquare(L, n) && forall j, i | 0 <= j < n && 0 <= i < n :: L[j][i] == LowerEntry(F, n, j, i)
  {
    seq(n, j requires 0 <= j < n => seq(n, i requires 0 <= i < n => LowerEntry(F, n, j, i)))
  }

  ghost function Upper(F: Matrix, n: nat): (U: Matrix)
    requires IsSquare(F, n)
    ensures IsSquare(U, n) && forall i, k | 0 <= i < n && 0 <= k < n :: U[i][k] == if k < i then 0.0 else F[i][k]
  {
    seq(n, i requires 0 <= i < n => seq(n, k requires 0 <= k < n => if k < i then 0.0 else F[i][k]))
  }

  ghost predicate UnitLower(L: Matrix, n: nat)
    requires IsSquare(L, n)
  {
    forall i, j | 0 <= i < n && i <= j < n :: L[i][j] == if i == j then 1.0 else 0.0
  }

  ghost predicate UpperTriangular(U: Matrix, n: nat)
    requires IsSquare(U, n)
  {
    forall i, j | 0 <= j < i < n :: U[i][j] == 0.0
  }

  /** A lower row against an upper column: the sum ends at the diagonal. */
  lemma TriangularEntry(l: Vector, u: Vector, n: nat, r: nat, c: nat, t: nat)
    requires |l| == |u| == n && r < n && c < n && t == Min(r, c)
    requires (forall k | r < k < n :: l[k] == 0.0) && (forall k | c < k < n :: u[k] == 0.0)
    ensures Dot(l, u) == RangeDot(l, u, 0, t) + Times(l[t], u[t])
  {
    WholeRange(l, u);
    RangeSplit(l, u, 0, t + 1, n);
    RangeZero(l, u, t + 1, n);
    RangeNext(l, u, 0, t);
  }

  /** On a unit lower triangular matrix the pivots are all 1 and nothing is divided. */
  lemma UnitLowerIsLower(L: Matrix, n: nat)
    requires IsSquare(L, n) && n > 0 && UnitLower(L, n)
    ensures Pivots(L, n, n - 1) && Lower(L, n) == L
  {
    assert forall i | 0 <= i < n :: L[i][i] == 1.0;
    assert forall i | 0 <= i < n :: Lead(L, n, i) == 1.0;
    SameRows(Lower(L, n), L, n);
  }

  lemma UpperTriangularIsUpper(U: Matrix, n: nat)
    requires IsSquare(U, n) && UpperTriangular(U, n)
    ensures Upper(U, n) == U
  {
    SameRows(Upper(U, n), U, n);
  }

  // ----- forward substitution

  /** b is the sum s and what is left of it, e / d. */
  ghost predicate Splits(b: real, s: real, e: real, d: real) {
    d != 0.0 && b == s + e / d
  }

  /** g y = e / d. */
  ghost predicate IsShare(g: real, y: real, e: real, d: real) {
    d != 0.0 && Times(g, y) == e / d
  }

  lemma LastShare(b: real, s: real, e: real, d: real, g: real, y: real)
    requires Splits(b, s, e, d) && IsShare(g, y, e, d)
    ensures b == s + Times(g, y)
  {
  }

  ghost predicate Quotients(g: real, f: real, p: real, d: real) {
    p != 0.0 && d != 0.0 && g == f / p / d
  }

  ghost predicate Eliminated(e': real, p: real, e: real, f: real, y: real, d: real) {
    d != 0.0 && e' == StageEntry(p, e, f, y, d)
  }

  /** One elimination step on an entry moves the term f y / (p d) out of the entry and into the sum s. */
  lemma ForwardStep(b: real, s: real, e: real, d: real, p: real, f: real, y: real, g: real, e': real)
    requires Splits(b, s, e, d) && Quotients(g, f, p, d) && Eliminated(e', p, e, f, y, d)
    ensures Splits(b, s + Times(g, y), e', p)
  {
    var q := f / p;
    assert q * p == f;
    var r := e - q * y;
    assert Numerator(p, e, f, y) == p * r;
    assert (p * r) / d == p * (r / d);
    assert (p * (r / d)) / p == r / d;
    assert r / d == e / d - (q * y) / d;
    assert q / d * y == (q * y) / d;
  }

  ghost predicate ForwardEntry(F: Matrix, n: nat, x: Vector, b: Vector, i: nat, j: nat)
    requires IsSquare(F, n) && n > 0 && Pivots(F, n, n - 1) && i <= j < n && |x| == n && |b| == n
  {
    Splits(b[j], RangeDot(Lower(F, n)[j], x, 0, i), x[j], Lead(F, n, i))
  }

  /** The state before step i: b is split into the part already explained and what is left. */
  ghost predicate Forward(F: Matrix, n: nat, x: Vector, b: Vector, i: nat)
    requires IsSquare(F, n) && n > 0 && Pivots(F, n, n - 1)
  {
    |x| == n && |b| == n && forall j | 0 <= j < n :: ForwardEntry(F, n, x, b, Min(i, j), j)
  }

  ghost function ForwardStage(F: Matrix, n: nat, x: Vector, i: nat): (x': Vector)
    requires IsSquare(F, n) && |x| == n && i < n && Lead(F, n, i) != 0.0
    ensures |x'| == n
  {
    seq(n, j requires 0 <= j < n => if j <= i then x[j] else StageEntry(F[i][i], x[j], F[j][i], x[i], Lead(F, n, i)))
  }

  lemma ForwardEntryStep(l: Vector, x: Vector, x': Vector, i: nat, d: real, p: real, f: real, y: real, b: real,
      e: real, e': real)
    requires i < |l| && |x| == |x'| == |l| && (forall k | 0 <= k <= i :: x'[k] == x[k]) && x[i] == y
    requires Quotients(l[i], f, p, d) && Splits(b, RangeDot(l, x, 0, i), e, d) && Eliminated(e', p, e, f, y, d)
    ensures Splits(b, RangeDot(l, x', 0, i + 1), e', p)
  {
    RangeSame(l, x, l, x', 0, i);
    ForwardStep(b, RangeDot(l, x, 0, i), e, d, p, f, y, l[i], e');
    RangeNext(l, x', 0, i);
  }

  lemma ForwardStageKeeps(F: Matrix, n: nat, x: Vector, b: Vector, i: nat)
    requires IsSquare(F, n) && n > 0 && Pivots(F, n, n - 1) && i < n - 1 && Forward(F, n, x, b, i)
    ensures Forward(F, n, ForwardStage(F, n, x, i), b, i + 1)
  {
    var x' := ForwardStage(F, n, x, i);
    var i' := i + 1;
    forall j | 0 <= j < n
      ensures ForwardEntry(F, n, x', b, Min(i', j), j)
    {
      assert ForwardEntry(F, n, x, b, Min(i, j), j);
      if j > i {
        ForwardEntryKeeps(F, n, x, b, i, j);
      } else {
        RangeSame(Lower(F, n)[j], x, Lower(F, n)[j], x', 0, j);
      }
    }
  }

  lemma ForwardEntryKeeps(F: Matrix, n: nat, x: Vector, b: Vector, i: nat, j: nat)
    requires IsSquare(F, n) && n > 0 && Pivots(F, n, n - 1) && i < j < n && |x| == n && |b| == n
    requires ForwardEntry(F, n, x, b, i, j)
    ensures ForwardEntry(F, n, ForwardStage(F, n, x, i), b, i + 1, j)
  {
    var x' := ForwardStage(F, n, x, i);
    LowerQuotients(F, n, j, i);
    assert Eliminated(x'[j], F[i][i], x[j], F[j][i], x[i], Lead(F, n, i));
    ForwardEntryStep(Lower(F, n)[j], x, x', i, Lead(F, n, i), F[i][i], F[j][i], x[i], b[j], x[j], x'[j]);
  }

  lemma LowerQuotients(F: Matrix, n: nat, j: nat, i: nat)
    requires IsSquare(F, n) && n > 0 && Pivots(F, n, n - 1) && i < j < n
    ensures Quotients(Lower(F, n)[j][i], F[j][i], F[i][i], Lead(F, n, i))
  {
    assert Lower(F, n)[j][i] == LowerEntry(F, n, j, i);
  }

  lemma ForwardSolves(F: Matrix, n: nat, x: Vector, b: Vector)
    requires IsSquare(F, n) && n > 0 && Pivots(F, n, n - 1) && Forward(F, n, x, b, n - 1)
    ensures Solves(Lower(F, n), n, x, b)
  {
    forall j | 0 <= j < n
      ensures Dot(Lower(F, n)[j], x) == b[j]
    {
      assert ForwardEntry(F, n, x, b, Min(n - 1, j), j);
      LowerDiagonal(F, n, j);
      var l := Lower(F, n)[j];
      InverseShare(b[j], RangeDot(l, x, 0, j), x[j], Lead(F, n, j), l[j]);
      ForwardRow(l, x, j, b[j]);
    }
  }

  lemma ForwardRow(l: Vector, x: Vector, j: nat, b: real)
    requires j < |l| == |x| && (forall i | j < i < |l| :: l[i] == 0.0)
    requires b == RangeDot(l, x, 0, j) + Times(l[j], x[j])
    ensures Dot(l, x) == b
  {
    WholeRange(l, x);
    RangeSplit(l, x, 0, j + 1, |l|);
    RangeZero(l, x, j + 1, |l|);
    RangeNext(l, x, 0, j);
  }

  lemma InverseShare(b: real, s: real, e: real, d: real, g: real)
    requires IsInverse(g, d) && Splits(b, s, e, d)
    ensures b == s + Times(g, e)
  {
    OneOver(e, d, g);
    LastShare(b, s, e, d, g, e);
  }

  ghost predicate IsInverse(r: real, d: real) {
    d != 0.0 && r == 1.0 / d
  }

  lemma LowerDiagonal(F: Matrix, n: nat, j: nat)
    requires IsSquare(F, n) && n > 0 && Pivots(F, n, n - 1) && j < n
    ensures IsInverse(Lower(F, n)[j][j], Lead(F, n, j))
  {
    assert Lower(F, n)[j][j] == LowerEntry(F, n, j, j);
  }

  lemma OneOver(x: real, d: real, r: real)
    requires IsInverse(r, d)
    ensures IsShare(r, x, x, d)
  {
    assert ((1.0 / d) * d) * x == x;
  }

  lemma ForwardStart(F: Matrix, n: nat, b: Vector)
    requires IsSquare(F, n) && n > 0 && Pivots(F, n, n - 1) && |b| == n
    ensures Forward(F, n, b, b, 0)
  {
    forall j | 0 <= j < n
      ensures ForwardEntry(F, n, b, b, Min(0, j), j)
    {
      assert b[j] / 1.0 == b[j];
    }
  }

  /** The inner loop of the forward substitution: column i of the factor is taken out of the entries below i. */
  method ForwardColumn(F: array2<real>, x: array<real>, i: nat)
    requires F.Length0 == F.Length1 == x.Length && i < x.Length && Lead(Rows(F), x.Length, i) != 0.0
    modifies x
    ensures x[..] == ForwardStage(Rows(F), x.Length, old(x[..]), i)
  {
    ghost var x0, R := x[..], Rows(F);
    ghost var x1 := ForwardStage(R, x.Length, x0, i);
    for j := i + 1 to x.Length
      invariant forall k | 0 <= k < x.Length :: x[k] == if k < j then x1[k] else x0[k]
    {
      assert x[i] == x0[i] && x[j] == x0[j];
      assert x1[j] == StageEntry(R[i][i], x0[j], R[j][i], x0[i], Lead(R, x.Length, i));
      var d := F[i, i] * x[j] - F[j, i] * x[i];
      if i > 0 {
        d := d / F[i - 1, i - 1];
      }
      assert d == x1[j];
      x[j] := d;
    }
  }

  /** What the columns before i make of b; column i - 1 is divided by pivot i - 2. */
  ghost function ForwardResult(F: Matrix, n: nat, b: Vector, i: nat): (x: Vector)
    requires IsSquare(F, n) && |b| == n && i < n && Pivots(F, n, Before(i))
    ensures |x| == n
  {
    if i == 0 then b else ForwardStage(F, n, ForwardResult(F, n, b, i - 1), i - 1)
  }

  function Before(i: nat): nat {
    if i == 0 then 0 else i - 1
  }

  lemma {:induction false} ForwardResultIs(F: Matrix, n: nat, b: Vector, i: nat, x: Vector)
    requires IsSquare(F, n) && |b| == n && i < n && Pivots(F, n, n - 1) && x == ForwardResult(F, n, b, i)
    ensures Forward(F, n, x, b, i)
    decreases i
  {
    if i == 0 {
      ForwardStart(F, n, b);
    } else {
      var y := ForwardResult(F, n, b, i - 1);
      ForwardResultIs(F, n, b, i - 1, y);
      ForwardStageKeeps(F, n, y, b, i - 1);
    }
  }

  /** The result solves the system of the factor as soon as the last pivot that enters it is not zero. */
  lemma ForwardResultSolves(F: Matrix, n: nat, b: Vector, m: nat, x: Vector)
    requires IsSquare(F, n) && |b| == n && n == m + 1 && Pivots(F, n, m) && x == ForwardResult(F, n, b, m)
    ensures Solves(Lower(F, n), n, x, b)
  {
    ForwardResultIs(F, n, b, m, x);
    ForwardSolves(F, n, x, b);
  }

  method CopyVector(b: array<real>, x: array<real>)
    requires b.Length == x.Length
    modifies x
    ensures x[..] == old(b[..])
  {
    forall j | 0 <= j < b.Length {
      x[j] := b[j];
    }
  }

  /**
   forward_substitution: the factor F, used through the matrix Lower(F) it stands for.  The pivots divided by
   are those before the last two; the result solves the system when the last but one is not zero either.
   */
  method ForwardSubstitution(F: array2<real>, b: array<real>, x: array<real>)
    requires F.Length0 == F.Length1 == b.Length == x.Length >= 1
    requires Pivots(Rows(F), F.Length0, Before(F.Length0 - 1))
    modifies x
    ensures x[..] == ForwardResult(Rows(F), F.Length0, old(b[..]), F.Length0 - 1)
    ensures Pivots(Rows(F), F.Length0, F.Length0 - 1) ==> Solves(Lower(Rows(F), F.Length0), F.Length0, x[..],
      old(b[..]))
  {
    ghost var R, n, b0 := Rows(F), F.Length0, b[..];
    CopyVector(b, x);
    ForwardColumns(F, x);
    if Pivots(R, n, n - 1) {
      ForwardResultSolves(R, n, b0, n - 1, x[..]);
    }
  }

  /** The outer loop. */
  method ForwardColumns(F: array2<real>, x: array<real>)
    requires F.Length0 == F.Length1 == x.Length >= 1 && Pivots(Rows(F), F.Length0, Before(F.Length0 - 1))
    modifies x
    ensures x[..] == ForwardResult(Rows(F), F.Length0, old(x[..]), F.Length0 - 1)
  {
    var col := F.Length1;
    ghost var R, b := Rows(F), x[..];
    for i := 0 to col - 1
      invariant x[..] == ForwardResult(R, col, b, i)
    {
      NextForwardResult(R, col, b, i, x[..]);
      ForwardColumn(F, x, i);
    }
  }

  lemma NextForwardResult(F: Matrix, n: nat, b: Vector, i: nat, x: Vector)
    requires IsSquare(F, n) && |b| == n && i < n - 1 && Pivots(F, n, Before(n - 1)) && x == ForwardResult(F, n, b, i)
    ensures Lead(F, n, i) != 0.0 && ForwardResult(F, n, b, i + 1) == ForwardStage(F, n, x, i)
  {
  }

  // ----- back substitution

  /** What the inner loop has left of b[i] before column j. */
  ghost function Remainder(u: Vector, x: Vector, b: real, i: nat, j: nat): real
    requires i < j <= |u| == |x|
  {
    b - RangeDot(u, x, i + 1, j)
  }

  lemma BackStep(u: Vector, x: Vector, i: nat, b: real)
    requires i < |u| == |x| && u[i] != 0.0 && forall k | 0 <= k < i :: u[k] == 0.0
    requires x[i] == Remainder(u, x, b, i, |u|) / u[i]
    ensures Dot(u, x) == b
  {
    var r := Remainder(u, x, b, i, |u|);
    Quotient(r, u[i], x[i]);
    WholeRange(u, x);
    RangeSplit(u, x, 0, i + 1, |u|);
    RangeZero(u, x, 0, i);
    RangeNext(u, x, 0, i);
  }

  lemma Quotient(r: real, p: real, q: real)
    requires p != 0.0 && q == r / p
    ensures Times(p, q) == r
  {
  }

  /** Rows i and beyond are solved, and the entries before i are still those of b. */
  ghost predicate Back(U: Matrix, n: nat, x: Vector, b: Vector, i: nat)
    requires IsSquare(U, n) && i <= n
  {
    && |x| == n && |b| == n
    && (forall r | i <= r < n :: Dot(Upper(U, n)[r], x) == b[r])
    && (forall r | 0 <= r < i :: x[r] == b[r])
  }

  lemma BackKeeps(U: Matrix, n: nat, x: Vector, x': Vector, b: Vector, i: nat)
    requires IsSquare(U, n) && i < n && Back(U, n, x, b, i + 1) && U[i][i] != 0.0
    requires |x'| == n && forall r | 0 <= r < n && r != i :: x'[r] == x[r]
    requires x'[i] == Remainder(Upper(U, n)[i], x, b[i], i, n) / U[i][i]
    ensures Back(U, n, x', b, i)
  {
    forall r | i <= r < n
      ensures Dot(Upper(U, n)[r], x') == b[r]
    {
      var u := Upper(U, n)[r];
      RangeSame(u, x, u, x', i + 1, n);
      if r == i {
        BackStep(u, x', i, b[i]);
      } else {
        WholeRange(u, x);
        WholeRange(u, x');
        RangeSplit(u, x, 0, i + 1, n);
        RangeSplit(u, x', 0, i + 1, n);
        RangeZero(u, x, 0, i + 1);
        RangeZero(u, x', 0, i + 1);
      }
    }
  }

  /** The inner loop of the back substitution: row i is solved for x[i]. */
  method BackRow(U: array2<real>, x: array<real>, i: nat, ghost b: real)
    requires U.Length0 == U.Length1 == x.Length && i < x.Length && U[i, i] != 0.0 && x[i] == b
    modifies x
    ensures forall r | 0 <= r < x.Length && r != i :: x[r] == old(x[r])
    ensures x[i] == Remainder(Upper(Rows(U), x.Length)[i], old(x[..]), b, i, x.Length) / U[i, i]
  {
    ghost var x0, u := x[..], Upper(Rows(U), x.Length)[i];
    for j := i + 1 to x.Length
      invariant forall r | 0 <= r < x.Length && r != i :: x[r] == x0[r]
      invariant x[i] == Remainder(u, x0, b, i, j)
    {
      assert u[j] == U[i, j] && x[j] == x0[j];
      x[i] := x[i] - Times(U[i, j], x[j]);
    }
    x[i] := x[i] / U[i, i];
  }

  /** back_substitution: reads the upper triangle only. */
  method BackSubstitution(U: array2<real>, b: array<real>, x: array<real>)
    requires U.Length0 == U.Length1 == b.Length == x.Length
    requires Pivots(Rows(U), U.Length0, U.Length0)
    modifies x
    ensures Solves(Upper(Rows(U), U.Length0), U.Length0, x[..], old(b[..]))
  {
    var col := U.Length1;
    ghost var R, b0 := Rows(U), b[..];
    CopyVector(b, x);
    for i := col downto 0
      invariant Back(R, col, x[..], b0, i)
    {
      ghost var x0 := x[..];
      BackRow(U, x, i, b0[i]);
      BackKeeps(R, col, x0, x[..], b0, i);
    }
  }
}
