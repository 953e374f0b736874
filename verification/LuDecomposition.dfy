/**
 LU decomposition without row exchanges, and solving and inverting with it (src/dense_matrix.cpp).

 The decomposition succeeds exactly on the matrices whose leading minors are all nonzero.
 */
module LuDecomposition {
  import opened Bareiss
  import opened Common
  import opened Determinant
  import opened Powers
  import opened RealVectors
  import opened Substitution

  // ----- leading minors

  ghost function Block(A: Matrix, n: nat, m: nat): (S: Matrix)
    requires IsSquare(A, n) && m <= n
    ensures IsSquare(S, m) && forall i, j | 0 <= i < m && 0 <= j < m :: S[i][j] == A[i][j]
  {
    Sub(A, n, Iota(m), Iota(m))
  }

  ghost function LeadingMinor(A: Matrix, n: nat, m: nat): real
    requires IsSquare(A, n) && m <= n
  {
    Minor(A, n, Iota(m), Iota(m))
  }

  ghost predicate LeadingMinors(A: Matrix, n: nat)
    requires IsSquare(A, n)
  {
    forall m | 1 <= m <= n :: LeadingMinor(A, n, m) != 0.0
  }

  // ----- the determinant of a product of triangular matrices

  /** Row b of T plus the combination of its first t rows with the coefficients c. */
  ghost function Combined(T: Matrix, n: nat, b: nat, c: Vector, t: nat): (w: Row)
    requires IsSquare(T, n) && b < n && |c| == n && t <= n
    ensures |w| == n
  {
    seq(n, j requires 0 <= j < n => T[b][j] + RangeDot(c, Column(T, j), 0, t))
  }

  lemma {:induction false} AddCombination(T: Matrix, n: nat, b: nat, c: Vector, t: nat)
    requires IsSquare(T, n) && b < n && |c| == n && t <= b
    ensures Det(T[b := Combined(T, n, b, c, t)], 0) == Det(T, 0)
    decreases t
  {
    var w := Combined(T, n, b, c, t);
    if t == 0 {
      assert w == T[b];
      assert T[b := T[b]] == T;
    } else {
      var u := Combined(T, n, b, c, t - 1);
      AddCombination(T, n, b, c, t - 1);
      CombinedStep(T, n, b, c, t);
      var T' := T[b := u];
      assert T'[b] == u && T'[t - 1] == T[t - 1];
      RowAdd(T', 0, t - 1, b, c[t - 1], w);
      assert T'[b := w] == T[b := w];
    }
  }

  lemma CombinedStep(T: Matrix, n: nat, b: nat, c: Vector, t: nat)
    requires IsSquare(T, n) && b < n && |c| == n && 0 < t <= n
    ensures IsCombination(Combined(T, n, b, c, t), Combined(T, n, b, c, t - 1), c[t - 1], T[t - 1])
  {
    var w, u := Combined(T, n, b, c, t), Combined(T, n, b, c, t - 1);
    forall j | 0 <= j < n
      ensures w[j] == u[j] + Times(c[t - 1], T[t - 1][j])
    {
      assert Column(T, j)[t - 1] == T[t - 1][j];
    }
  }

  lemma ProductRow(S: Matrix, L: Matrix, U: Matrix, T: Matrix, n: nat, m: nat)
    requires IsSquare(S, n) && IsSquare(L, n) && IsSquare(U, n) && IsSquare(T, n) && m < n
    requires IsProduct(S, L, U, n) && UnitLower(L, n) && forall k | 0 <= k <= m :: T[k] == U[k]
    ensures S[m] == Combined(T, n, m, L[m], m)
  {
    forall j | 0 <= j < n
      ensures S[m][j] == Combined(T, n, m, L[m], m)[j]
    {
      var l, u, t := L[m], Column(U, j), Column(T, j);
      WholeRange(l, u);
      RangeSplit(l, u, 0, m + 1, n);
      RangeZero(l, u, m + 1, n);
      RangeSame(l, u, l, t, 0, m);
      RangeNext(l, u, 0, m);
      TimesUnits(u[m]);
    }
  }

  lemma {:induction false} ReplaceRows(S: Matrix, L: Matrix, U: Matrix, n: nat, m: nat)
    requires IsSquare(S, n) && IsSquare(L, n) && IsSquare(U, n) && m <= n
    requires IsProduct(S, L, U, n) && UnitLower(L, n)
    ensures Det(U[..m] + S[m..], 0) == Det(S, 0)
    decreases m
  {
    if m == 0 {
      assert U[..0] + S[0..] == S;
    } else {
      ReplaceRows(S, L, U, n, m - 1);
      var T, b := U[..m] + S[m..], m - 1;
      ProductRow(S, L, U, T, n, b);
      AddCombination(T, n, b, L[b], b);
      assert T[b := S[b]] == U[..b] + S[b..];
    }
  }

  lemma FactorDet(S: Matrix, L: Matrix, U: Matrix, n: nat)
    requires IsSquare(S, n) && IsSquare(L, n) && IsSquare(U, n)
    requires IsProduct(S, L, U, n) && UnitLower(L, n) && UpperTriangular(U, n)
    ensures Det(S, 0) == DiagonalProduct(U, 0)
  {
    ReplaceRows(S, L, U, n, n);
    assert U[..n] + S[n..] == U;
    TriangularDet(U, 0);
  }

  /** L and U multiply to A in the leading block of size m. */
  ghost predicate FactorsBlock(A: Matrix, L: Matrix, U: Matrix, n: nat, m: nat)
    requires IsSquare(A, n) && IsSquare(L, n) && IsSquare(U, n) && m <= n
  {
    forall r, c | 0 <= r < m && 0 <= c < m :: A[r][c] == Dot(L[r], Column(U, c))
  }

  /** The leading minors of a product of triangular factors are the products of the pivots. */
  lemma MinorIsPivotProduct(A: Matrix, L: Matrix, U: Matrix, n: nat, m: nat)
    requires IsSquare(A, n) && IsSquare(L, n) && IsSquare(U, n) && m <= n
    requires FactorsBlock(A, L, U, n, m) && UnitLower(L, n) && UpperTriangular(U, n)
    ensures LeadingMinor(A, n, m) == DiagonalProduct(Block(U, n, m), 0)
  {
    var S, L', U' := Block(A, n, m), Block(L, n, m), Block(U, n, m);
    forall r, c | 0 <= r < m && 0 <= c < m
      ensures S[r][c] == Dot(L'[r], Column(U', c))
    {
      BlockEntry(L, U, n, m, r, c);
    }
    FactorDet(S, L', U', m);
  }

  lemma BlockEntry(L: Matrix, U: Matrix, n: nat, m: nat, r: nat, c: nat)
    requires IsSquare(L, n) && IsSquare(U, n) && UnitLower(L, n) && r < m <= n && c < m
    ensures Dot(Block(L, n, m)[r], Column(Block(U, n, m), c)) == Dot(L[r], Column(U, c))
  {
    var l, u, l', u' := L[r], Column(U, c), Block(L, n, m)[r], Column(Block(U, n, m), c);
    WholeRange(l, u);
    RangeSplit(l, u, 0, m, n);
    RangeZero(l, u, m, n);
    RangeSame(l, u, l', u', 0, m);
    WholeRange(l', u');
  }

  lemma {:induction false} DiagonalZero(R: Matrix, c: nat)
    requires Wide(R, c + |R|)
    ensures DiagonalProduct(R, c) == 0.0 <==> exists i :: 0 <= i < |R| && R[i][c + i] == 0.0
  {
    if R != [] {
      DiagonalZero(R[1..], c + 1);
      TimesNonzero(R[0][c], DiagonalProduct(R[1..], c + 1));
      if i :| 0 <= i < |R| && R[i][c + i] == 0.0 && i > 0 {
        assert R[1..][i - 1][c + 1 + (i - 1)] == 0.0;
      }
      if i :| 0 <= i < |R[1..]| && R[1..][i][c + 1 + i] == 0.0 {
        var i' := i + 1;
        assert R[i'][c + i'] == 0.0;
      }
      if R[0][c] == 0.0 {
        assert R[0][c + 0] == 0.0;
      }
    }
  }

  /** A factored matrix has nonzero pivots exactly when its leading minors are nonzero. */
  lemma PivotsIffMinors(A: Matrix, L: Matrix, U: Matrix, n: nat)
    requires IsSquare(A, n) && IsSquare(L, n) && IsSquare(U, n)
    requires IsProduct(A, L, U, n) && UnitLower(L, n) && UpperTriangular(U, n)
    ensures LeadingMinors(A, n) <==> Pivots(U, n, n)
  {
    forall m | 1 <= m <= n
      ensures LeadingMinor(A, n, m) != 0.0 <==> Pivots(U, n, m)
    {
      MinorIsPivotProduct(A, L, U, n, m);
      DiagonalZero(Block(U, n, m), 0);
      assert forall i | 0 <= i < m :: Block(U, n, m)[i][0 + i] == U[i][i];
    }
    if LeadingMinors(A, n) && n > 0 {
      assert LeadingMinor(A, n, n) != 0.0;
    }
  }

  // ----- one column of the decomposition

  ghost function SetEntry(M: Matrix, n: nat, i: nat, j: nat, x: real): (M': Matrix)
    requires IsSquare(M, n) && i < n && j < n
    ensures IsSquare(M', n)
    ensures forall r, c | 0 <= r < n && 0 <= c < n :: M'[r][c] == if r == i && c == j then x else M[r][c]
  {
    M[i := M[i][j := x]]
  }

  /** The part of the product that the finished columns and rows account for. */
  ghost function Explained(M: Matrix, n: nat, r: nat, c: nat): real
    requires IsSquare(M, n) && r < n && c < n
  {
    RangeDot(M[r], Column(M, c), 0, Min(r, c))
  }

  /** Entry (r, c) after the subtractions of its column. */
  ghost predicate ReducedEntry(A: Matrix, M: Matrix, n: nat, r: nat, c: nat)
    requires IsSquare(A, n) && IsSquare(M, n) && r < n && c < n
  {
    A[r][c] == Explained(M, n, r, c) + M[r][c]
  }

  /** Entry (r, c) after its column was divided by the pivot. */
  ghost predicate FinishedEntry(A: Matrix, M: Matrix, n: nat, r: nat, c: nat)
    requires IsSquare(A, n) && IsSquare(M, n) && r < n && c < n
  {
    A[r][c] == Explained(M, n, r, c) + if r <= c then M[r][c] else Times(M[r][c], M[c][c])
  }

  lemma ExplainedSame(M: Matrix, M': Matrix, n: nat, r: nat, c: nat)
    requires IsSquare(M, n) && IsSquare(M', n) && r < n && c < n
    requires forall k | 0 <= k < Min(r, c) :: M'[r][k] == M[r][k] && M'[k][c] == M[k][c]
    ensures Explained(M', n, r, c) == Explained(M, n, r, c)
  {
    RangeSame(M[r], Column(M, c), M'[r], Column(M', c), 0, Min(r, c));
  }

  /** The state before column j. */
  ghost predicate Decomposed(A: Matrix, M: Matrix, n: nat, j: nat)
    requires IsSquare(A, n)
  {
    && IsSquare(M, n) && j <= n && Pivots(M, n, j)
    && (forall r, c | 0 <= r < n && 0 <= c < j :: FinishedEntry(A, M, n, r, c))
    && (forall r, c | 0 <= r < n && j <= c < n :: M[r][c] == A[r][c])
  }

  /** Column j of M is reduced in the rows before i; nothing else has changed. */
  ghost predicate Reducing(A: Matrix, M0: Matrix, M: Matrix, n: nat, j: nat, i: nat)
    requires IsSquare(A, n) && IsSquare(M0, n)
  {
    && IsSquare(M, n) && j < n && i <= n
    && (forall r, c | 0 <= r < n && 0 <= c < n && c != j :: M[r][c] == M0[r][c])
    && (forall r | 0 <= r < i :: ReducedEntry(A, M, n, r, j))
    && (forall r | i <= r < n :: M[r][j] == A[r][j])
  }

  lemma ReducingStep(A: Matrix, M0: Matrix, M: Matrix, M': Matrix, n: nat, j: nat, i: nat)
    requires IsSquare(A, n) && IsSquare(M0, n) && Reducing(A, M0, M, n, j, i) && i < n
    requires M' == SetEntry(M, n, i, j, M[i][j] - Explained(M, n, i, j))
    ensures Reducing(A, M0, M', n, j, i + 1)
  {
    forall r | 0 <= r < i + 1
      ensures ReducedEntry(A, M', n, r, j)
    {
      ExplainedSame(M, M', n, r, j);
      assert r < i ==> ReducedEntry(A, M, n, r, j);
    }
  }

  ghost function UnitPart(M: Matrix, n: nat): (L: Matrix)
    requires IsSquare(M, n)
    ensures IsSquare(L, n) && UnitLower(L, n)
    ensures forall i, k | 0 <= k < i < n :: L[i][k] == M[i][k]
  {
    seq(n, i requires 0 <= i < n => seq(n, k requires 0 <= k < n =>
      if k < i then M[i][k] else if k == i then 1.0 else 0.0))
  }

  /** A finished entry is the entry of the product of the two factors stored in M. */
  lemma FinishedIsProduct(A: Matrix, M: Matrix, n: nat, r: nat, c: nat)
    requires IsSquare(A, n) && IsSquare(M, n) && r < n && c < n && FinishedEntry(A, M, n, r, c)
    ensures A[r][c] == Dot(UnitPart(M, n)[r], Column(Upper(M, n), c))
  {
    var l, u := UnitPart(M, n)[r], Column(Upper(M, n), c);
    TriangularEntry(l, u, n, r, c, Min(r, c));
    RangeSame(l, u, M[r], Column(M, c), 0, Min(r, c));
    TimesUnits(u[r]);
  }

  /** The pivot of column j is nonzero because the leading minor it completes is. */
  lemma PivotIsNonzero(A: Matrix, M0: Matrix, M: Matrix, n: nat, j: nat)
    requires IsSquare(A, n) && LeadingMinors(A, n) && j < n && Decomposed(A, M0, n, j)
    requires Reducing(A, M0, M, n, j, n)
    ensures M[j][j] != 0.0
  {
    var m := j + 1;
    forall r, c | 0 <= r < m && 0 <= c < m
      ensures A[r][c] == Dot(UnitPart(M, n)[r], Column(Upper(M, n), c))
    {
      KeptEntry(A, M0, M, n, j, r, c);
      FinishedIsProduct(A, M, n, r, c);
    }
    MinorIsPivotProduct(A, UnitPart(M, n), Upper(M, n), n, m);
    assert LeadingMinor(A, n, m) != 0.0;
    DiagonalZero(Block(Upper(M, n), n, m), 0);
    assert Block(Upper(M, n), n, m)[j][0 + j] == M[j][j];
  }

  lemma KeptEntry(A: Matrix, M0: Matrix, M: Matrix, n: nat, j: nat, r: nat, c: nat)
    requires IsSquare(A, n) && j < n && Decomposed(A, M0, n, j) && Reducing(A, M0, M, n, j, n)
    requires r < n && c <= j && (c == j ==> r <= j)
    ensures FinishedEntry(A, M, n, r, c)
  {
    if c < j {
      assert FinishedEntry(A, M0, n, r, c);
      ExplainedSame(M0, M, n, r, c);
    } else {
      assert ReducedEntry(A, M, n, r, c);
    }
  }

  /** Dividing the rows below the pivot completes column j. */
  lemma ColumnDone(A: Matrix, M0: Matrix, M: Matrix, M': Matrix, n: nat, j: nat)
    requires IsSquare(A, n) && j < n && Decomposed(A, M0, n, j) && Reducing(A, M0, M, n, j, n) && M[j][j] != 0.0
    requires IsSquare(M', n)
    requires forall r, c | 0 <= r < n && 0 <= c < n ::
      M'[r][c] == if c == j && r > j then Times(M[r][c], 1.0 / M[j][j]) else M[r][c]
    ensures Decomposed(A, M', n, j + 1)
  {
    var j' := j + 1;
    forall r, c | 0 <= r < n && 0 <= c < j'
      ensures FinishedEntry(A, M', n, r, c)
    {
      ExplainedSame(M, M', n, r, c);
      if c == j && r > j {
        assert ReducedEntry(A, M, n, r, j);
        Undo(M[r][j], M[j][j]);
      } else {
        KeptEntry(A, M0, M, n, j, r, c);
      }
    }
  }

  lemma Undo(x: real, p: real)
    requires p != 0.0
    ensures Times(Times(x, 1.0 / p), p) == x
  {
    assert (1.0 / p) * p == 1.0;
    TimesCancel(x, 1.0 / p, p);
  }

  // ----- the algorithm

  /** The innermost loop: subtracts from U[i, j] what rows and columns before t account for. */
  method ReduceEntry(U: array2<real>, i: nat, j: nat)
    requires U.Length0 == U.Length1 && i < U.Length0 && j < U.Length0
    modifies U
    ensures Rows(U) == SetEntry(old(Rows(U)), U.Length0, i, j,
      old(U[i, j]) - Explained(old(Rows(U)), U.Length0, i, j))
  {
    var n := U.Length0;
    ghost var M := Rows(U);
    ghost var u, v, x := M[i], Column(M, j), M[i][j];
    var t := if i < j then i else j;
    for k := 0 to t
      invariant forall r, c | 0 <= r < n && 0 <= c < n && (r != i || c != j) :: U[r, c] == M[r][c]
      invariant U[i, j] == x - RangeDot(u, v, 0, k)
    {
      assert U[i, k] == u[k] && U[k, j] == v[k];
      RangeNext(u, v, 0, k);
      U[i, j] := U[i, j] - Times(U[i, k], U[k, j]);
    }
    assert t == Min(i, j);
    SameRows(Rows(U), SetEntry(M, n, i, j, x - Explained(M, n, i, j)), n);
  }

  method ReduceRow(U: array2<real>, i: nat, j: nat, ghost A: Matrix, ghost M0: Matrix)
    requires U.Length0 == U.Length1 && i < U.Length0 && IsSquare(A, U.Length0) && IsSquare(M0, U.Length0)
    requires Reducing(A, M0, Rows(U), U.Length0, j, i)
    modifies U
    ensures Reducing(A, M0, Rows(U), U.Length0, j, i + 1)
  {
    ghost var M := Rows(U);
    ReduceEntry(U, i, j);
    ReducingStep(A, M0, M, Rows(U), U.Length0, j, i);
  }

  method ScaleColumn(U: array2<real>, j: nat)
    requires U.Length0 == U.Length1 && j < U.Length0 && U[j, j] != 0.0
    modifies U
    ensures forall r, c | 0 <= r < U.Length0 && 0 <= c < U.Length0 ::
      U[r, c] == if c == j && r > j then Times(old(U[r, c]), 1.0 / old(U[j, j])) else old(U[r, c])
  {
    var scale := 1.0 / U[j, j];
    for i := j + 1 to U.Length0
      invariant forall r, c | 0 <= r < U.Length0 && 0 <= c < U.Length0 ::
        U[r, c] == if c == j && j < r < i then Times(old(U[r, c]), scale) else old(U[r, c])
    {
      U[i, j] := Times(U[i, j], scale);
    }
  }

  method DecomposeColumn(U: array2<real>, j: nat, ghost A: Matrix)
    requires U.Length0 == U.Length1 && j < U.Length0 && IsSquare(A, U.Length0) && LeadingMinors(A, U.Length0)
    requires Decomposed(A, Rows(U), U.Length0, j)
    modifies U
    ensures Decomposed(A, Rows(U), U.Length0, j + 1)
  {
    var n := U.Length0;
    ghost var M0 := Rows(U);
    assert Reducing(A, M0, M0, n, j, 0);
    for i := 0 to j
      invariant Reducing(A, M0, Rows(U), n, j, i)
    {
      ReduceRow(U, i, j, A, M0);
    }
    for i := j to n
      invariant Reducing(A, M0, Rows(U), n, j, i)
    {
      ReduceRow(U, i, j, A, M0);
    }
    ghost var M := Rows(U);
    PivotIsNonzero(A, M0, M, n, j);
    ScaleColumn(U, j);
    ColumnDone(A, M0, M, Rows(U), n, j);
  }

  /** The last loop of LU: moves the part below the diagonal to L. */
  method SplitFactors(L: array2<real>, U: array2<real>)
    requires L != U && U.Length0 == U.Length1 == L.Length0 == L.Length1
    modifies L, U
    ensures Rows(L) == UnitPart(old(Rows(U)), U.Length0)
    ensures Rows(U) == Upper(old(Rows(U)), U.Length0)
  {
    var n := U.Length0;
    ghost var M := Rows(U);
    for i := 0 to n
      invariant forall r, c | 0 <= r < i && 0 <= c < n :: L[r, c] == UnitPart(M, n)[r][c]
      invariant forall r, c | 0 <= r < n && 0 <= c < n :: U[r, c] == if r < i && c < r then 0.0 else M[r][c]
    {
      for j := 0 to i
        invariant forall r, c | 0 <= r < i && 0 <= c < n :: L[r, c] == UnitPart(M, n)[r][c]
        invariant forall c | 0 <= c < j :: L[i, c] == M[i][c]
        invariant forall r, c | 0 <= r < n && 0 <= c < n ::
          U[r, c] == if c < r && (r < i || (r == i && c < j)) then 0.0 else M[r][c]
      {
        L[i, j] := U[i, j];
        U[i, j] := 0.0;
      }
      L[i, i] := 1.0;
      for j := i + 1 to n
        invariant forall r, c | 0 <= r < i && 0 <= c < n :: L[r, c] == UnitPart(M, n)[r][c]
        invariant forall c | 0 <= c < j :: L[i, c] == if c < i then M[i][c] else if c == i then 1.0 else 0.0
        invariant forall r, c | 0 <= r < n && 0 <= c < n ::
          U[r, c] == if c < r && r <= i then 0.0 else M[r][c]
      {
        L[i, j] := 0.0;
      }
    }
    SameRows(Rows(L), UnitPart(M, n), n);
    SameRows(Rows(U), Upper(M, n), n);
  }

  /** LU: A = L U with a unit lower and an upper triangular factor and nonzero pivots. */
  method LU(A: array2<real>, L: array2<real>, U: array2<real>)
    requires L != U && A != L && A != U
    requires A.Length0 == A.Length1 == L.Length0 == L.Length1 == U.Length0 == U.Length1
    requires LeadingMinors(Rows(A), A.Length0)
    modifies L, U
    ensures IsProduct(Rows(A), Rows(L), Rows(U), A.Length0)
    ensures UnitLower(Rows(L), A.Length0) && UpperTriangular(Rows(U), A.Length0)
    ensures Pivots(Rows(U), A.Length0, A.Length0)
  {
    var n := A.Length0;
    ghost var R := Rows(A);
    forall r, c | 0 <= r < n && 0 <= c < n {
      U[r, c] := A[r, c];
    }
    for j := 0 to n
      invariant Rows(A) == R
      invariant Decomposed(R, Rows(U), n, j)
    {
      DecomposeColumn(U, j, R);
    }
    ghost var M := Rows(U);
    SplitFactors(L, U);
    forall r, c | 0 <= r < n && 0 <= c < n
      ensures R[r][c] == Dot(Rows(L)[r], Column(Rows(U), c))
    {
      assert FinishedEntry(R, M, n, r, c);
      FinishedIsProduct(R, M, n, r, c);
    }
  }

  // ----- solving and inverting

  /** L y = b, then U x = y. */
  method SolveFactored(L: array2<real>, U: array2<real>, b: array<real>, x_: array<real>, x: array<real>,
      ghost A: Matrix)
    requires L.Length0 == L.Length1 == U.Length0 == U.Length1 == b.Length == x_.Length == x.Length >= 1
    requires b != x && b != x_ && x != x_
    requires IsSquare(A, L.Length0) && IsProduct(A, Rows(L), Rows(U), L.Length0)
    requires UnitLower(Rows(L), L.Length0) && UpperTriangular(Rows(U), L.Length0)
    requires Pivots(Rows(U), L.Length0, L.Length0)
    modifies x_, x
    ensures Solves(A, L.Length0, x[..], b[..])
  {
    var n := L.Length0;
    ghost var M, N := Rows(L), Rows(U);
    UnitLowerIsLower(M, n);
    UpperTriangularIsUpper(N, n);
    ForwardSubstitution(L, b, x_);
    BackSubstitution(U, x_, x);
    SolveByFactors(A, M, N, n, x[..], x_[..], b[..]);
  }

  /** LU_solve: A x = b. */
  method LUSolve(A: array2<real>, b: array<real>, x: array<real>)
    requires A.Length0 == A.Length1 == b.Length == x.Length >= 1 && b != x
    requires LeadingMinors(Rows(A), A.Length0)
    modifies x
    ensures Solves(Rows(A), A.Length0, x[..], b[..])
  {
    var n := A.Length0;
    var L, U, x_ := new real[n, n], new real[n, n], new real[n];
    LU(A, L, U);
    SolveFactored(L, U, b, x_, x, Rows(A));
  }

  ghost function Unit(n: nat, j: nat): (e: Vector)
    ensures |e| == n && forall i | 0 <= i < n :: e[i] == if i == j then 1.0 else 0.0
  {
    seq(n, i => if i == j then 1.0 else 0.0)
  }

  /** Column c of B solves A x = e_c. */
  ghost predicate InverseColumn(A: Matrix, B: Matrix, n: nat, c: nat)
    requires IsSquare(A, n) && IsSquare(B, n) && c < n
  {
    Solves(A, n, Column(B, c), Unit(n, c))
  }

  ghost predicate InverseUpTo(A: Matrix, B: Matrix, n: nat, j: nat)
    requires IsSquare(A, n) && IsSquare(B, n) && j <= n
  {
    forall c | 0 <= c < j :: InverseColumn(A, B, n, c)
  }

  /** A B = I. */
  ghost predicate IsRightInverse(A: Matrix, B: Matrix, n: nat)
    requires IsSquare(A, n) && IsSquare(B, n)
  {
    forall r, c | 0 <= r < n && 0 <= c < n :: Dot(A[r], Column(B, c)) == if r == c then 1.0 else 0.0
  }

  lemma ColumnsInvert(A: Matrix, B: Matrix, n: nat)
    requires IsSquare(A, n) && IsSquare(B, n) && InverseUpTo(A, B, n, n)
    ensures IsRightInverse(A, B, n)
  {
    forall r, c | 0 <= r < n && 0 <= c < n
      ensures Dot(A[r], Column(B, c)) == if r == c then 1.0 else 0.0
    {
      assert InverseColumn(A, B, n, c);
    }
  }

  /** The columns before j of B are in place; writing column j keeps them. */
  method StoreColumn(B: array2<real>, x: array<real>, j: nat, ghost A: Matrix)
    requires B.Length0 == B.Length1 == x.Length && j < x.Length && IsSquare(A, x.Length)
    requires Solves(A, x.Length, x[..], Unit(x.Length, j))
    requires InverseUpTo(A, Rows(B), x.Length, j)
    modifies B
    ensures InverseUpTo(A, Rows(B), x.Length, j + 1)
  {
    var n := x.Length;
    ghost var M := Rows(B);
    for i := 0 to n
      invariant forall r, c | 0 <= r < n && 0 <= c < n :: B[r, c] == if c == j && r < i then x[r] else M[r][c]
    {
      B[i, j] := x[i];
    }
    forall c | 0 <= c < j + 1
      ensures InverseColumn(A, Rows(B), n, c)
    {
      if c < j {
        assert InverseColumn(A, M, n, c);
        assert Column(Rows(B), c) == Column(M, c);
      } else {
        assert Column(Rows(B), c) == x[..];
      }
    }
  }

  /** One round of the inversion: solves for column j with the basis vector in e, which is cleared again. */
  method InverseStep(L: array2<real>, U: array2<real>, e: array<real>, x_: array<real>, x: array<real>,
    B: array2<real>, j: nat, ghost A: Matrix)
    requires L.Length0 == L.Length1 == U.Length0 == U.Length1 == e.Length == x_.Length == x.Length >= 1
    requires B.Length0 == B.Length1 == L.Length0 && B != L && B != U && e != x && e != x_ && x != x_ && j < x.Length
    requires IsSquare(A, L.Length0) && IsProduct(A, Rows(L), Rows(U), L.Length0)
    requires UnitLower(Rows(L), L.Length0) && UpperTriangular(Rows(U), L.Length0)
    requires Pivots(Rows(U), L.Length0, L.Length0)
    requires (forall i | 0 <= i < e.Length :: e[i] == 0.0) && InverseUpTo(A, Rows(B), x.Length, j)
    modifies e, x_, x, B
    ensures (forall i | 0 <= i < e.Length :: e[i] == 0.0) && InverseUpTo(A, Rows(B), x.Length, j + 1)
  {
    e[j] := 1.0;
    assert e[..] == Unit(x.Length, j);
    SolveFactored(L, U, e, x_, x, A);
    StoreColumn(B, x, j, A);
    e[j] := 0.0;
  }

  /** inverse_LU: A B = I. */
  method InverseLU(A: array2<real>, B: array2<real>)
    requires A != B && A.Length0 == A.Length1 == B.Length0 == B.Length1 >= 1
    requires LeadingMinors(Rows(A), A.Length0)
    modifies B
    ensures IsRightInverse(Rows(A), Rows(B), A.Length0)
  {
    var n := A.Length0;
    var L, U := new real[n, n], new real[n, n];
    var e, x, x_ := new real[n](_ => 0.0), new real[n](_ => 0.0), new real[n](_ => 0.0);
    ghost var R := Rows(A);
    LU(A, L, U);
    ghost var M, N := Rows(L), Rows(U);
    for j := 0 to n
      invariant Rows(A) == R && Rows(L) == M && Rows(U) == N
      invariant forall i | 0 <= i < n :: e[i] == 0.0
      invariant InverseUpTo(R, Rows(B), n, j)
    {
      InverseStep(L, U, e, x_, x, B, j, R);
    }
    ColumnsInvert(R, Rows(B), n);
  }
}
