/**
 fraction_free_gauss_jordan_solve and inverse_gauss_jordan (src/dense_matrix.cpp).

 Below and right of the pivots the matrix goes through the stages of the fraction-free determinant; above
 them every pivot met so far is carried along, so that all of them are equal when a stage ends.
 */
module JordanSolve {
  import opened Bareiss
  import opened Determinant
  import opened FractionFree
  import opened LuDecomposition
  import opened Powers
  import opened RealVectors
  import opened Substitution

  // ----- one stage

  ghost predicate Reduced(r': Row, p: real, r: Row, f: real, pr: Row, d: real) {
    |r'| == |r| == |pr| && forall k | 0 <= k < |r| :: Eliminated(r'[k], p, r[k], f, pr[k], d)
  }

  ghost predicate HasWidth(N: Matrix, n: nat, w: nat) {
    |N| == n && forall r | 0 <= r < n :: |N[r]| == w
  }

  /** Stage i on the matrix and on the right-hand sides: all rows but i lose column i. */
  ghost predicate IsJordanStage(M: Matrix, M': Matrix, N: Matrix, N': Matrix, n: nat, w: nat, i: nat, d: real) {
    && i < n && IsSquare(M, n) && IsSquare(M', n) && HasWidth(N, n, w) && HasWidth(N', n, w)
    && M'[i] == M[i] && N'[i] == N[i]
    && (forall j | 0 <= j < n && j != i :: Reduced(M'[j], M[i][i], M[j], M[j][i], M[i], d))
    && (forall j | 0 <= j < n && j != i :: Reduced(N'[j], M[i][i], N[j], M[j][i], N[i], d))
  }

  // ----- solutions are kept

  lemma EliminatedSum(p: real, f: real, d: real, x: real, e': real, e: real, y: real, s': real, s: real, t: real)
    requires Eliminated(e', p, e, f, y, d) && Eliminated(s', p, s, f, t, d)
    ensures Eliminated(Times(e', x) + s', p, Times(e, x) + s, f, Times(y, x) + t, d)
  {
    var a, b := p * e - f * y, p * s - f * t;
    assert a / d * x + b / d == (a * x + b) / d;
    assert p * (e * x + s) == (p * e) * x + p * s;
    assert f * (y * x + t) == (f * y) * x + f * t;
    assert a * x == (p * e) * x - (f * y) * x;
  }

  lemma EliminatedZero(p: real, f: real, d: real)
    requires d != 0.0
    ensures Eliminated(0.0, p, 0.0, f, 0.0, d)
  {
  }

  lemma {:induction false} ReducedDot(r': Row, p: real, r: Row, f: real, pr: Row, d: real, x: Vector)
    requires Reduced(r', p, r, f, pr, d) && |x| == |r| && d != 0.0
    ensures Eliminated(Dot(r', x), p, Dot(r, x), f, Dot(pr, x), d)
  {
    if |r| == 0 {
      EliminatedZero(p, f, d);
    } else {
      ReducedTail(r', p, r, f, pr, d);
      ReducedDot(r'[1..], p, r[1..], f, pr[1..], d, x[1..]);
      EliminatedSum(p, f, d, x[0], r'[0], r[0], pr[0], Dot(r'[1..], x[1..]), Dot(r[1..], x[1..]), Dot(pr[1..], x[1..]));
      FirstProduct(r', x);
      FirstProduct(r, x);
      FirstProduct(pr, x);
    }
  }

  lemma ReducedTail(r': Row, p: real, r: Row, f: real, pr: Row, d: real)
    requires Reduced(r', p, r, f, pr, d) && |r| > 0
    ensures Eliminated(r'[0], p, r[0], f, pr[0], d) && Reduced(r'[1..], p, r[1..], f, pr[1..], d)
  {
    forall k | 0 <= k < |r[1..]|
      ensures Eliminated(r'[1..][k], p, r[1..][k], f, pr[1..][k], d)
    {
      var k' := k + 1;
      assert Eliminated(r'[k'], p, r[k'], f, pr[k'], d);
    }
  }

  lemma FirstProduct(u: Vector, v: Vector)
    requires |u| == |v| > 0
    ensures Dot(u, v) == Times(u[0], v[0]) + Dot(u[1..], v[1..])
  {
  }

  /** The value before an elimination is determined by the value after it. */
  lemma EliminatedInjective(e': real, p: real, e: real, u: real, f: real, y: real, d: real)
    requires p != 0.0 && Eliminated(e', p, e, f, y, d) && Eliminated(e', p, u, f, y, d)
    ensures e == u
  {
    var a, b := p * e - f * y, p * u - f * y;
    assert a / d * d == a && b / d * d == b;
    assert p * (e - u) == 0.0;
  }

  lemma EliminatedFunctional(e': real, u': real, p: real, e: real, f: real, y: real, d: real)
    requires Eliminated(e', p, e, f, y, d) && Eliminated(u', p, e, f, y, d)
    ensures e' == u'
  {
  }

  lemma StageKeepsRow(M: Matrix, M': Matrix, N: Matrix, N': Matrix, n: nat, w: nat, i: nat, d: real, k: nat,
      x: Vector, j: nat)
    requires IsJordanStage(M, M', N, N', n, w, i, d) && d != 0.0 && M[i][i] != 0.0 && k < w && j < n && j != i
    requires Solves(M', n, x, Column(N', k))
    ensures Dot(M[j], x) == N[j][k]
  {
    assert Reduced(M'[j], M[i][i], M[j], M[j][i], M[i], d) && Reduced(N'[j], M[i][i], N[j], M[j][i], N[i], d);
    ReducedDot(M'[j], M[i][i], M[j], M[j][i], M[i], d, x);
    assert Dot(M'[j], x) == N'[j][k] && Dot(M'[i], x) == N'[i][k];
    EliminatedInjective(N'[j][k], M[i][i], Dot(M[j], x), N[j][k], M[j][i], N[i][k], d);
  }

  lemma StageKeepsSolutions(M: Matrix, M': Matrix, N: Matrix, N': Matrix, n: nat, w: nat, i: nat, d: real, k: nat,
      x: Vector)
    requires IsJordanStage(M, M', N, N', n, w, i, d) && d != 0.0 && M[i][i] != 0.0 && k < w
    requires Solves(M', n, x, Column(N', k))
    ensures Solves(M, n, x, Column(N, k))
  {
    forall j | 0 <= j < n
      ensures Dot(M[j], x) == N[j][k]
    {
      if j == i {
        assert Dot(M'[i], x) == N'[i][k];
      } else {
        StageKeepsRow(M, M', N, N', n, w, i, d, k, x, j);
      }
    }
  }

  // ----- the shape of the matrix

  /** Before stage i: i pivot columns with equal pivots, and the fraction-free elimination B in the rest. */
  ghost predicate JordanShape(M: Matrix, B: Matrix, n: nat, i: nat) {
    && i <= n && IsSquare(M, n) && IsSquare(B, n)
    && (forall r, c | 0 <= r < n && 0 <= c < i && r != c :: M[r][c] == 0.0)
    && (forall r | 0 <= r < i :: M[r][r] == Lead(B, n, i))
    && (forall r, c | i <= r < n && i <= c < n :: M[r][c] == B[r][c])
  }

  lemma Cancelled(e': real, p: real, f: real, d: real)
    requires Eliminated(e', p, f, f, p, d)
    ensures e' == 0.0
  {
    assert p * f - f * p == 0.0;
  }

  lemma StillZero(e': real, p: real, f: real, d: real)
    requires Eliminated(e', p, 0.0, f, 0.0, d)
    ensures e' == 0.0
  {
  }

  lemma PivotReplaced(e': real, p: real, f: real, d: real)
    requires Eliminated(e', p, d, f, 0.0, d)
    ensures e' == p
  {
    assert p * d - f * 0.0 == p * d;
    assert (p * d) / d == p;
  }

  lemma ReducedShape(M: Matrix, M': Matrix, B: Matrix, B': Matrix, n: nat, i: nat, j: nat, c: nat)
    requires JordanShape(M, B, n, i) && IsStage(B, B', n, i) && IsSquare(M', n) && j < n && j != i && c < n
    requires Reduced(M'[j], M[i][i], M[j], M[j][i], M[i], Lead(B, n, i))
    ensures c <= i && c != j ==> M'[j][c] == 0.0
    ensures c == j < i ==> M'[j][c] == B[i][i]
    ensures c > i && j > i ==> M'[j][c] == B'[j][c]
  {
    var d := Lead(B, n, i);
    assert Eliminated(M'[j][c], M[i][i], M[j][c], M[j][i], M[i][c], d);
    if c == i {
      Cancelled(M'[j][c], M[i][i], M[j][i], d);
    } else if c == j && c < i {
      PivotReplaced(M'[j][c], M[i][i], M[j][i], d);
    } else if c < i {
      StillZero(M'[j][c], M[i][i], M[j][i], d);
    } else if j > i {
      assert StagedValue(B, B', n, i, j, c);
      EliminatedFunctional(M'[j][c], B'[j][c], B[i][i], B[j][c], B[j][i], B[i][c], d);
    }
  }

  lemma NextShape(M: Matrix, M': Matrix, N: Matrix, N': Matrix, B: Matrix, B': Matrix, n: nat, w: nat, i: nat)
    requires i < n && JordanShape(M, B, n, i) && IsStage(B, B', n, i)
    requires IsJordanStage(M, M', N, N', n, w, i, Lead(B, n, i))
    ensures JordanShape(M', B', n, i + 1)
  {
    assert Lead(B', n, i + 1) == B[i][i];
    forall r, c | 0 <= r < n && 0 <= c < n && r != i
      ensures c <= i && c != r ==> M'[r][c] == 0.0
      ensures c == r < i ==> M'[r][c] == B[i][i]
      ensures c > i && r > i ==> M'[r][c] == B'[r][c]
    {
      ReducedShape(M, M', B, B', n, i, r, c);
    }
  }

  lemma DiagonalSolves(M: Matrix, B: Matrix, n: nat, x: Vector, b: Vector)
    requires JordanShape(M, B, n, n) && |x| == n && |b| == n
    requires forall i | 0 <= i < n :: Quotient(x[i], b[i], M[i][i])
    ensures Solves(M, n, x, b)
  {
    forall i | 0 <= i < n
      ensures Dot(M[i], x) == b[i]
    {
      DotUnit(M[i], x, i);
      assert Quotient(x[i], b[i], M[i][i]);
    }
  }

  // ----- the algorithm

  /** A row after its elimination, except that column i is still what it was. */
  ghost predicate HalfReduced(r': Row, p: real, r: Row, f: real, pr: Row, d: real, i: nat)
    requires i < |r|
  {
    |r'| == |r| == |pr| && r'[i] == r[i] && forall k | 0 <= k < |r| && k != i :: Eliminated(r'[k], p, r[k], f, pr[k], d)
  }

  ghost predicate HalfStage(M: Matrix, M': Matrix, N: Matrix, N': Matrix, n: nat, w: nat, i: nat, d: real, j: nat) {
    && i < n && j <= n && IsSquare(M, n) && IsSquare(M', n) && HasWidth(N, n, w) && HasWidth(N', n, w)
    && M'[i] == M[i] && N'[i] == N[i]
    && (forall r | 0 <= r < j && r != i :: HalfReduced(M'[r], M[i][i], M[r], M[r][i], M[i], d, i))
    && (forall r | 0 <= r < j && r != i :: Reduced(N'[r], M[i][i], N[r], M[r][i], N[i], d))
    && (forall r | j <= r < n :: M'[r] == M[r] && N'[r] == N[r])
  }

  lemma WholeStage(M: Matrix, H: Matrix, M': Matrix, N: Matrix, N': Matrix, n: nat, w: nat, i: nat, d: real)
    requires d != 0.0 && HalfStage(M, H, N, N', n, w, i, d, n) && IsSquare(M', n) && M'[i] == H[i]
    requires forall r | 0 <= r < n && r != i :: M'[r] == H[r][i := 0.0]
    ensures IsJordanStage(M, M', N, N', n, w, i, d)
  {
    forall j | 0 <= j < n && j != i
      ensures Reduced(M'[j], M[i][i], M[j], M[j][i], M[i], d)
    {
      assert HalfReduced(H[j], M[i][i], M[j], M[j][i], M[i], d, i);
      ZeroEliminated(M[i][i], M[j][i], d);
    }
  }

  lemma ZeroEliminated(p: real, f: real, d: real)
    requires d != 0.0
    ensures Eliminated(0.0, p, f, f, p, d)
  {
    assert p * f - f * p == 0.0;
  }

  /** The elimination step as the code writes it: no division in the first stage. */
  method Combine(p: real, e: real, f: real, y: real, first: bool, d: real) returns (e': real)
    requires d != 0.0 && (first ==> d == 1.0)
    ensures Eliminated(e', p, e, f, y, d)
  {
    e' := p * e - f * y;
    if !first {
      e' := e' / d;
    }
  }

  method ReduceRhsRow(A: array2<real>, b: array2<real>, i: nat, j: nat, d: real)
    requires A != b && A.Length0 == A.Length1 == b.Length0 && i < A.Length0 && j < A.Length0 && i != j
    requires d != 0.0 && (i == 0 ==> d == 1.0)
    modifies b
    ensures Reduced(Rows(b)[j], A[i, i], old(Rows(b))[j], A[j, i], old(Rows(b))[i], d)
    ensures forall r | 0 <= r < b.Length0 && r != j :: Rows(b)[r] == old(Rows(b))[r]
  {
    ghost var N := Rows(b);
    for k := 0 to b.Length1
      invariant forall r, c | 0 <= r < b.Length0 && 0 <= c < b.Length1 && (r != j || c >= k) :: b[r, c] == N[r][c]
      invariant forall c | 0 <= c < k :: Eliminated(b[j, c], A[i, i], N[j][c], A[j, i], N[i][c], d)
    {
      b[j, k] := Combine(A[i, i], b[j, k], A[j, i], b[i, k], i == 0, d);
    }
    assert forall r | 0 <= r < b.Length0 && r != j :: Rows(b)[r] == N[r];
  }

  method ReduceRow(A: array2<real>, i: nat, j: nat, d: real)
    requires A.Length0 == A.Length1 && i < A.Length0 && j < A.Length0 && i != j
    requires d != 0.0 && (i == 0 ==> d == 1.0)
    modifies A
    ensures HalfReduced(Rows(A)[j], old(A[i, i]), old(Rows(A))[j], old(A[j, i]), old(Rows(A))[i], d, i)
    ensures forall r | 0 <= r < A.Length0 && r != j :: Rows(A)[r] == old(Rows(A))[r]
  {
    ghost var M := Rows(A);
    for k := 0 to A.Length1
      invariant forall r, c | 0 <= r < A.Length0 && 0 <= c < A.Length1 && (r != j || c >= k || c == i) ::
        A[r, c] == M[r][c]
      invariant forall c | 0 <= c < k && c != i :: Eliminated(A[j, c], M[i][i], M[j][c], M[j][i], M[i][c], d)
    {
      if k != i {
        A[j, k] := Combine(A[i, i], A[j, k], A[j, i], A[i, k], i == 0, d);
      }
    }
    assert forall r | 0 <= r < A.Length0 && r != j :: Rows(A)[r] == M[r];
  }

  method ClearColumn(A: array2<real>, i: nat)
    requires A.Length0 == A.Length1 && i < A.Length0
    modifies A
    ensures Rows(A)[i] == old(Rows(A))[i]
    ensures forall r | 0 <= r < A.Length0 && r != i :: Rows(A)[r] == old(Rows(A))[r][i := 0.0]
  {
    ghost var M := Rows(A);
    for j := 0 to A.Length0
      invariant forall r, c | 0 <= r < A.Length0 && 0 <= c < A.Length1 ::
        A[r, c] == if r < j && r != i && c == i then 0.0 else M[r][c]
    {
      if j != i {
        A[j, i] := 0.0;
      }
    }
  }

  method JordanRound(A: array2<real>, b: array2<real>, i: nat)
    requires A != b && A.Length0 == A.Length1 == b.Length0 && i < A.Length0 && Lead(Rows(A), A.Length0, i) != 0.0
    modifies A, b
    ensures IsJordanStage(old(Rows(A)), Rows(A), old(Rows(b)), Rows(b), A.Length0, b.Length1, i,
      old(Lead(Rows(A), A.Length0, i)))
  {
    var n := A.Length0;
    ghost var M, N := Rows(A), Rows(b);
    var d := 1.0;
    if i > 0 {
      d := A[i - 1, i - 1];
    }
    for j := 0 to n
      invariant HalfStage(M, Rows(A), N, Rows(b), n, b.Length1, i, d, j)
    {
      if j != i {
        ReduceRhsRow(A, b, i, j, d);
        ReduceRow(A, i, j, d);
      }
    }
    ghost var H := Rows(A);
    ClearColumn(A, i);
    WholeStage(M, H, Rows(A), N, Rows(b), n, b.Length1, i, d);
  }

  ghost predicate SolvesAll(A: Matrix, n: nat, X: Matrix, b: Matrix, w: nat)
    requires IsSquare(A, n) && HasWidth(X, n, w) && HasWidth(b, n, w)
  {
    forall k | 0 <= k < w :: Solves(A, n, Column(X, k), Column(b, k))
  }

  /** Every solution of the current system solves the original one. */
  ghost predicate Implies(M: Matrix, N: Matrix, A: Matrix, b: Matrix, n: nat, w: nat)
    requires IsSquare(A, n) && HasWidth(b, n, w) && IsSquare(M, n) && HasWidth(N, n, w)
  {
    forall x, k | 0 <= k < w && Solves(M, n, x, Column(N, k)) :: Solves(A, n, x, Column(b, k))
  }

  ghost predicate JordanState(A: Matrix, b: Matrix, M: Matrix, N: Matrix, B: Matrix, G: Matrix, n: nat, w: nat,
      i: nat) {
    && Staged(A, B, G, n, i) && JordanShape(M, B, n, i)
    && HasWidth(b, n, w) && HasWidth(N, n, w) && Implies(M, N, A, b, n, w)
    && (i > 0 ==> Lead(B, n, i) == LeadingMinor(A, n, i))
  }

  lemma NextJordanState(A: Matrix, b: Matrix, M: Matrix, N: Matrix, M': Matrix, N': Matrix, B: Matrix, G: Matrix,
      n: nat, w: nat, i: nat)
    requires i < n && JordanState(A, b, M, N, B, G, n, w, i) && LeadingMinors(A, n)
    requires IsJordanStage(M, M', N, N', n, w, i, Lead(M, n, i))
    ensures Lead(B, n, i) != 0.0 && G[i][i] != 0.0
    ensures JordanState(A, b, M', N', Stage(B, n, i), Eliminate(G, n, i), n, w, i + 1)
  {
    assert Lead(M, n, i) == Lead(B, n, i);
    StagedPivot(A, B, G, n, i);
    NonzeroMinor(A, n, i + 1);
    NextStaged(A, B, G, n, i);
    StageIsStage(B, n, i);
    NextShape(M, M', N, N', B, Stage(B, n, i), n, w, i);
    NextImplies(A, b, M, N, M', N', n, w, i, Lead(M, n, i));
    assert Stage(B, n, i)[i] == B[i];
  }

  lemma NextImplies(A: Matrix, b: Matrix, M: Matrix, N: Matrix, M': Matrix, N': Matrix, n: nat, w: nat, i: nat, d: real)
    requires IsSquare(A, n) && HasWidth(b, n, w) && IsSquare(M, n) && HasWidth(N, n, w) && Implies(M, N, A, b, n, w)
    requires IsJordanStage(M, M', N, N', n, w, i, d) && d != 0.0 && M[i][i] != 0.0
    ensures Implies(M', N', A, b, n, w)
  {
    forall x, k | 0 <= k < w && Solves(M', n, x, Column(N', k))
      ensures Solves(A, n, x, Column(b, k))
    {
      StageKeepsSolutions(M, M', N, N', n, w, i, d, k, x);
    }
  }

  /** The elimination: a diagonal system whose solutions solve the original one. */
  method JordanEliminate(A_: array2<real>, b_: array2<real>, ghost A: Matrix, ghost b: Matrix)
    returns (ghost B: Matrix)
    requires A_ != b_ && A_.Length0 == A_.Length1 == b_.Length0 >= 1 && Rows(A_) == A && Rows(b_) == b
    requires LeadingMinors(A, A_.Length0)
    modifies A_, b_
    ensures JordanShape(Rows(A_), B, A_.Length0, A_.Length0)
    ensures Implies(Rows(A_), Rows(b_), A, b, A_.Length0, b_.Length1)
    ensures forall i | 0 <= i < A_.Length0 :: A_[i, i] == Det(A, 0) != 0.0
  {
    var n := A_.Length0;
    ghost var w, G := b_.Length1, A;
    B := A;
    StartStaged(A, n);
    for i := 0 to n
      invariant JordanState(A, b, Rows(A_), Rows(b_), B, G, n, w, i)
    {
      ghost var M, N := Rows(A_), Rows(b_);
      JordanPivot(A, b, M, N, B, G, n, w, i);
      JordanRound(A_, b_, i);
      NextJordanState(A, b, M, N, Rows(A_), Rows(b_), B, G, n, w, i);
      B, G := Stage(B, n, i), Eliminate(G, n, i);
    }
    NonzeroMinor(A, n, n);
    WholeMinor(A, n, n);
  }

  /** fraction_free_gauss_jordan_solve: A X = b, for any number of right-hand sides. */
  method FractionFreeGaussJordanSolve(A: array2<real>, b: array2<real>, x: array2<real>)
    requires A.Length0 == A.Length1 == b.Length0 == x.Length0 >= 1 && x.Length1 == b.Length1 && x != A && x != b
    requires LeadingMinors(Rows(A), A.Length0)
    modifies x
    ensures SolvesAll(Rows(A), A.Length0, Rows(x), Rows(b), b.Length1)
  {
    var n, w := A.Length0, b.Length1;
    var A_ := Copy(A);
    var b_ := Copy(b);
    ghost var B := JordanEliminate(A_, b_, Rows(A), Rows(b));
    DivideDiagonal(A_, b_, x);
    ghost var X := Rows(x);
    forall k | 0 <= k < w
      ensures Solves(Rows(A), n, Column(X, k), Column(Rows(b), k))
    {
      DiagonalSolves(Rows(A_), B, n, Column(X, k), Column(Rows(b_), k));
    }
  }

  ghost predicate Quotient(q: real, x: real, p: real) {
    Times(p, q) == x
  }

  /** The last loops: every unknown has an equation of its own. */
  method DivideDiagonal(A_: array2<real>, b_: array2<real>, x: array2<real>)
    requires A_.Length0 == A_.Length1 == b_.Length0 == x.Length0 && x.Length1 == b_.Length1 && x != A_ && x != b_
    requires forall i | 0 <= i < A_.Length0 :: A_[i, i] != 0.0
    modifies x
    ensures forall r, c | 0 <= r < x.Length0 && 0 <= c < x.Length1 :: Quotient(x[r, c], b_[r, c], A_[r, r])
  {
    for k := 0 to b_.Length1
      invariant forall r, c | 0 <= r < x.Length0 && 0 <= c < k :: Quotient(x[r, c], b_[r, c], A_[r, r])
    {
      for i := 0 to x.Length0
        invariant forall r, c | 0 <= r < x.Length0 && 0 <= c < k :: Quotient(x[r, c], b_[r, c], A_[r, r])
        invariant forall r | 0 <= r < i :: Quotient(x[r, k], b_[r, k], A_[r, r])
      {
        x[i, k] := b_[i, k] / A_[i, i];
      }
    }
  }

  lemma JordanPivot(A: Matrix, b: Matrix, M: Matrix, N: Matrix, B: Matrix, G: Matrix, n: nat, w: nat, i: nat)
    requires i < n && JordanState(A, b, M, N, B, G, n, w, i) && LeadingMinors(A, n)
    ensures Lead(M, n, i) != 0.0
  {
    if i > 0 {
      NonzeroMinor(A, n, i);
    }
  }

  /** inverse_gauss_jordan: A B = I. */
  method InverseGaussJordan(A: array2<real>, B: array2<real>)
    requires A != B && A.Length0 == A.Length1 == B.Length0 == B.Length1 >= 1
    requires LeadingMinors(Rows(A), A.Length0)
    modifies B
    ensures IsRightInverse(Rows(A), Rows(B), A.Length0)
  {
    var n := A.Length0;
    var e := new real[n, n]((i, j) => if i == j then 1.0 else 0.0);
    FractionFreeGaussJordanSolve(A, e, B);
    forall c | 0 <= c < n
      ensures InverseColumn(Rows(A), Rows(B), n, c)
    {
      assert Column(Rows(e), c) == Unit(n, c);
    }
    ColumnsInvert(Rows(A), Rows(B), n);
  }
}
