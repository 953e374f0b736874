/** Gauss-Jordan elimination with pivoting (src/dense_matrix.cpp), for matrices of any shape and rank. */
module GaussJordan {
  import opened Bareiss
  import opened Common
  import opened Determinant
  import opened Powers
  import opened RealVectors

  ghost predicate IsShape(M: Matrix, row: nat, col: nat) {
    |M| == row && forall i | 0 <= i < row :: |M[i]| == col
  }

  // ----- the null space

  ghost predicate IsNull(M: Matrix, col: nat, v: Vector)
    requires forall i | 0 <= i < |M| :: |M[i]| == col
  {
    |v| == col && forall i | 0 <= i < |M| :: Dot(M[i], v) == 0.0
  }

  ghost predicate SameNullSpace(M: Matrix, N: Matrix, col: nat)
    requires forall i | 0 <= i < |M| :: |M[i]| == col
    requires forall i | 0 <= i < |N| :: |N[i]| == col
  {
    forall v :: IsNull(M, col, v) <==> IsNull(N, col, v)
  }

  lemma SwapNullSpace(M: Matrix, row: nat, col: nat, a: nat, b: nat)
    requires IsShape(M, row, col) && a < row && b < row
    ensures IsShape(Swap(M, a, b), row, col) && SameNullSpace(M, Swap(M, a, b), col)
  {
    var N := Swap(M, a, b);
    forall v
      ensures IsNull(M, col, v) <==> IsNull(N, col, v)
    {
      if IsNull(N, col, v) {
        forall i | 0 <= i < row
          ensures Dot(M[i], v) == 0.0
        {
          assert M[i] == N[if i == a then b else if i == b then a else i];
        }
      }
    }
  }

  ghost function Scaled(r: Row, c: real): (s: Row)
    ensures |s| == |r| && forall j | 0 <= j < |r| :: s[j] == Times(c, r[j])
  {
    seq(|r|, j requires 0 <= j < |r| => Times(c, r[j]))
  }

  ghost function Added(r: Row, c: real, s: Row): (t: Row)
    requires |r| == |s|
    ensures |t| == |r| && forall j | 0 <= j < |r| :: t[j] == r[j] + Times(c, s[j])
  {
    seq(|r|, j requires 0 <= j < |r| => r[j] + Times(c, s[j]))
  }

  lemma ScaleNullSpace(M: Matrix, row: nat, col: nat, a: nat, c: real)
    requires IsShape(M, row, col) && a < row && c != 0.0
    ensures SameNullSpace(M, M[a := Scaled(M[a], c)], col)
  {
    var N := M[a := Scaled(M[a], c)];
    forall v
      ensures IsNull(M, col, v) <==> IsNull(N, col, v)
    {
      if |v| == col {
        ScaledDot(M[a], c, v);
        assert forall i | 0 <= i < row && i != a :: N[i] == M[i];
        assert N[a] == Scaled(M[a], c);
      }
    }
  }

  lemma ScaledDot(r: Row, c: real, v: Vector)
    requires |r| == |v| && c != 0.0
    ensures Dot(Scaled(r, c), v) == 0.0 <==> Dot(r, v) == 0.0
  {
    var z: Vector := seq(|r|, _ => 0.0);
    assert IsCombination(Scaled(r, c), z, c, r);
    DotCombination(Scaled(r, c), z, c, r, v);
    DotZero(z, v);
    TimesNonzero(c, Dot(r, v));
  }

  lemma AddNullSpace(M: Matrix, row: nat, col: nat, a: nat, b: nat, c: real)
    requires IsShape(M, row, col) && a < row && b < row && a != b
    ensures SameNullSpace(M, M[a := Added(M[a], c, M[b])], col)
  {
    var N := M[a := Added(M[a], c, M[b])];
    forall v
      ensures IsNull(M, col, v) <==> IsNull(N, col, v)
    {
      if |v| == col {
        assert IsCombination(N[a], M[a], c, M[b]);
        DotCombination(N[a], M[a], c, M[b], v);
        TimesUnits(c);
        assert N[b] == M[b];
        assert forall i | 0 <= i < row && i != a :: N[i] == M[i];
      }
    }
  }

  lemma NullSpaceTransitive(L: Matrix, M: Matrix, N: Matrix, row: nat, col: nat)
    requires IsShape(L, row, col) && IsShape(M, row, col) && IsShape(N, row, col)
    requires SameNullSpace(L, M, col) && SameNullSpace(M, N, col)
    ensures SameNullSpace(L, N, col)
  {
  }

  // ----- reduced row-echelon form

  /** Row t has its leading 1 in column pc[t], and no other row has anything in that column. */
  ghost predicate PivotRow(M: Matrix, row: nat, col: nat, t: nat, c: nat)
    requires IsShape(M, row, col) && t < row && c < col
  {
    && M[t][c] == 1.0
    && (forall j | 0 <= j < c :: M[t][j] == 0.0)
    && (forall r | 0 <= r < row && r != t :: M[r][c] == 0.0)
  }

  /** The first i columns are reduced, with pivot columns pc; the rows after the pivots are zero there. */
  ghost predicate ReducedUpTo(M: Matrix, row: nat, col: nat, i: nat, pc: seq<nat>)
    requires IsShape(M, row, col) && i <= col
  {
    && |pc| <= row
    && (forall t | 0 <= t < |pc| :: pc[t] < i && PivotRow(M, row, col, t, pc[t]))
    && (forall s, t | 0 <= s < t < |pc| :: pc[s] < pc[t])
    && (forall r, j | |pc| <= r < row && 0 <= j < i :: M[r][j] == 0.0)
  }

  /** Reduced row-echelon form. */
  ghost predicate IsReduced(M: Matrix, row: nat, col: nat, pc: seq<nat>)
    requires IsShape(M, row, col)
  {
    ReducedUpTo(M, row, col, col, pc)
  }

  lemma AllRowsUsed(M: Matrix, row: nat, col: nat, i: nat, pc: seq<nat>)
    requires IsShape(M, row, col) && i <= col && ReducedUpTo(M, row, col, i, pc) && |pc| == row
    ensures IsReduced(M, row, col, pc)
  {
  }

  lemma NoPivotInColumn(M: Matrix, row: nat, col: nat, i: nat, pc: seq<nat>)
    requires IsShape(M, row, col) && i < col && ReducedUpTo(M, row, col, i, pc)
    requires forall r | |pc| <= r < row :: M[r][i] == 0.0
    ensures ReducedUpTo(M, row, col, i + 1, pc)
  {
  }

  lemma SwapReduced(M: Matrix, row: nat, col: nat, i: nat, pc: seq<nat>, a: nat, b: nat)
    requires IsShape(M, row, col) && i <= col && ReducedUpTo(M, row, col, i, pc)
    requires |pc| <= a < row && |pc| <= b < row
    ensures IsShape(Swap(M, a, b), row, col) && ReducedUpTo(Swap(M, a, b), row, col, i, pc)
  {
    var N := Swap(M, a, b);
    forall t | 0 <= t < |pc|
      ensures PivotRow(N, row, col, t, pc[t])
    {
      assert PivotRow(M, row, col, t, pc[t]);
    }
  }

  /** The matrix after scaling the pivot row and clearing column i in all rows before n. */
  ghost predicate Clearing(M: Matrix, N: Matrix, row: nat, col: nat, i: nat, index: nat, n: nat)
    requires IsShape(M, row, col) && IsShape(N, row, col) && i < col && index < row && n <= row && M[index][i] != 0.0
  {
    && N[index] == Scaled(M[index], 1.0 / M[index][i])
    && (forall r | 0 <= r < row && r != index ::
          N[r] == if r < n then Added(M[r], -M[r][i], N[index]) else M[r])
  }

  lemma ClearedPivot(M: Matrix, N: Matrix, row: nat, col: nat, i: nat, pc: seq<nat>)
    requires IsShape(M, row, col) && IsShape(N, row, col) && i < col && ReducedUpTo(M, row, col, i, pc)
    requires |pc| < row && M[|pc|][i] != 0.0 && Clearing(M, N, row, col, i, |pc|, row)
    ensures ReducedUpTo(N, row, col, i + 1, pc + [i])
  {
    var index, c := |pc|, 1.0 / M[|pc|][i];
    Reciprocal(M[index][i]);
    assert N[index][i] == 1.0;
    forall j | 0 <= j < i
      ensures N[index][j] == 0.0
    {
      TimesUnits(c);
      assert M[index][j] == 0.0;
    }
    forall r | 0 <= r < row && r != index
      ensures N[r][i] == 0.0
      ensures forall j | 0 <= j < i :: N[r][j] == M[r][j]
    {
      ClearedEntry(M[r], M[r][i], N[index], i);
    }
    forall t | 0 <= t < |pc|
      ensures PivotRow(N, row, col, t, pc[t])
    {
      assert PivotRow(M, row, col, t, pc[t]);
      assert N[index][pc[t]] == 0.0;
    }
    assert PivotRow(N, row, col, index, i);
    var pc' := pc + [i];
    forall t | 0 <= t < |pc'|
      ensures pc'[t] < i + 1 && PivotRow(N, row, col, t, pc'[t])
    {
      if t < |pc| {
        assert pc'[t] == pc[t];
      }
    }
    forall r, j | |pc'| <= r < row && 0 <= j < i + 1
      ensures N[r][j] == 0.0
    {
      if j < i {
        assert N[r][j] == M[r][j];
      }
    }
  }

  lemma Reciprocal(x: real)
    requires x != 0.0
    ensures Times(1.0 / x, x) == 1.0 && 1.0 / x != 0.0
  {
  }

  lemma ClearedEntry(r: Row, f: real, p: Row, i: nat)
    requires |r| == |p| && i < |r| && f == r[i] && p[i] == 1.0 && forall j | 0 <= j < i :: p[j] == 0.0
    ensures Added(r, -f, p)[i] == 0.0
    ensures forall j | 0 <= j < i :: Added(r, -f, p)[j] == r[j]
  {
    TimesUnits(-f);
  }

  // ----- the order of the rows

  /** The rows of A in the given order. */
  ghost function Ordered(A: Matrix, row: nat, col: nat, order: seq<nat>): (M: Matrix)
    requires IsShape(A, row, col) && |order| == row && Indices(order, 0, row)
    ensures IsShape(M, row, col) && forall t | 0 <= t < row :: M[t] == A[order[t]]
  {
    seq(row, t requires 0 <= t < row => A[order[t]])
  }

  /** Clearing column pc[0] with row 0, column pc[1] with row 1 and so on, without any exchange, turns P into M. */
  ghost predicate Leads(P: Matrix, M: Matrix, row: nat, col: nat, pc: seq<nat>)
    decreases |pc|
  {
    if pc == [] then M == P else exists L :: Leads(P, L, row, col, pc[..|pc| - 1]) && Clears(L, M, row, col, pc)
  }

  /** The last of these steps. */
  ghost predicate Clears(L: Matrix, M: Matrix, row: nat, col: nat, pc: seq<nat>)
    requires pc != []
  {
    var t := |pc| - 1;
    && IsShape(L, row, col) && IsShape(M, row, col) && t < row && pc[t] < col && L[t][pc[t]] != 0.0
    && Clearing(L, M, row, col, pc[t], t, row)
  }

  lemma LeadsNext(P: Matrix, L: Matrix, M: Matrix, row: nat, col: nat, pc: seq<nat>, i: nat)
    requires Leads(P, L, row, col, pc) && Clears(L, M, row, col, pc + [i])
    ensures Leads(P, M, row, col, pc + [i])
  {
    assert (pc + [i])[..|pc|] == pc;
  }

  lemma ClearsSwapped(L: Matrix, M: Matrix, row: nat, col: nat, pc: seq<nat>, a: nat, b: nat)
    requires pc != [] && Clears(L, M, row, col, pc) && |pc| <= a < row && |pc| <= b < row
    ensures Clears(Swap(L, a, b), Swap(M, a, b), row, col, pc)
  {
    var t := |pc| - 1;
    SwapArranges(L, row, a, b);
    SwapArranges(M, row, a, b);
    ClearingArranged(L, M, Swap(L, a, b), Swap(M, a, b), row, col, pc[t], t, Swap(Iota(row), a, b));
  }

  /** Row r of N is row s[r] of M. */
  ghost predicate Arranges(N: Matrix, M: Matrix, row: nat, s: seq<nat>) {
    |M| == |N| == |s| == row && forall r | 0 <= r < row :: s[r] < row && N[r] == M[s[r]]
  }

  lemma SwapArranges(M: Matrix, row: nat, a: nat, b: nat)
    requires |M| == row && a < row && b < row
    ensures Arranges(Swap(M, a, b), M, row, Swap(Iota(row), a, b))
  {
  }

  lemma ClearingArranged(L: Matrix, M: Matrix, L': Matrix, M': Matrix, row: nat, col: nat, i: nat, t: nat, s: seq<nat>)
    requires IsShape(L, row, col) && IsShape(M, row, col) && t < row && i < col && L[t][i] != 0.0
    requires Clearing(L, M, row, col, i, t, row) && Arranges(L', L, row, s) && Arranges(M', M, row, s)
    requires s[t] == t && forall r | 0 <= r < row && r != t :: s[r] != t
    ensures IsShape(L', row, col) && IsShape(M', row, col)
    ensures L'[t][i] != 0.0 && Clearing(L', M', row, col, i, t, row)
  {
    forall r | 0 <= r < row && r != t
      ensures M'[r] == Added(L'[r], -L'[r][i], M'[t])
    {
      ClearedRowIs(L, M, row, col, i, t, s[r]);
    }
  }

  lemma ClearedRowIs(L: Matrix, M: Matrix, row: nat, col: nat, i: nat, t: nat, s: nat)
    requires IsShape(L, row, col) && IsShape(M, row, col) && t < row && i < col && L[t][i] != 0.0
    requires Clearing(L, M, row, col, i, t, row) && s < row && s != t
    ensures M[s] == Added(L[s], -L[s][i], M[t])
  {
  }

  /** Rows that have not been used may be exchanged before as well as after. */
  lemma {:induction false} LeadsSwapped(P: Matrix, M: Matrix, row: nat, col: nat, pc: seq<nat>, a: nat, b: nat)
    requires IsShape(P, row, col) && IsShape(M, row, col) && Leads(P, M, row, col, pc)
    requires |pc| <= a < row && |pc| <= b < row
    ensures Leads(Swap(P, a, b), Swap(M, a, b), row, col, pc)
    decreases |pc|
  {
    if pc != [] {
      var L :| Leads(P, L, row, col, pc[..|pc| - 1]) && Clears(L, M, row, col, pc);
      LeadsSwapped(P, L, row, col, pc[..|pc| - 1], a, b);
      ClearsSwapped(L, M, row, col, pc, a, b);
    }
  }

  lemma OrderSwapped(A: Matrix, row: nat, col: nat, order: seq<nat>, a: nat, b: nat)
    requires IsShape(A, row, col) && |order| == row && Indices(order, 0, row) && a < row && b < row
    ensures Ordered(A, row, col, Swap(order, a, b)) == Swap(Ordered(A, row, col, order), a, b)
  {
  }

  // ----- which rows are chosen

  /** The first row from r on with a nonzero entry in column c, or the number of rows. */
  ghost function FirstPivot(M: Matrix, row: nat, col: nat, r: nat, c: nat): (k: nat)
    requires IsShape(M, row, col) && r <= row && c < col
    ensures r <= k <= row && (k < row ==> M[k][c] != 0.0)
    decreases row - r
  {
    if r == row || M[r][c] != 0.0 then r else FirstPivot(M, row, col, r + 1, c)
  }

  /** Column i cleared with row t. */
  ghost function Cleared(M: Matrix, row: nat, col: nat, i: nat, t: nat): (N: Matrix)
    requires IsShape(M, row, col) && i < col && t < row && M[t][i] != 0.0
    ensures IsShape(N, row, col)
  {
    var p := Scaled(M[t], 1.0 / M[t][i]);
    seq(row, r requires 0 <= r < row => if r == t then p else Added(M[r], -M[r][i], p))
  }

  lemma ClearingIsCleared(M: Matrix, N: Matrix, row: nat, col: nat, i: nat, t: nat)
    requires IsShape(M, row, col) && IsShape(N, row, col) && i < col && t < row && M[t][i] != 0.0
    requires Clearing(M, N, row, col, i, t, row)
    ensures N == Cleared(M, row, col, i, t)
  {
  }

  /**
   The order of the rows when, from column i on, every pivot is the first row not yet used with a nonzero entry
   and changes places with the first row not yet used.
   */
  ghost function FirstOrder(M: Matrix, row: nat, col: nat, i: nat, t: nat, order: seq<nat>): seq<nat>
    requires IsShape(M, row, col) && i <= col && t <= row && |order| == row
    decreases col - i
  {
    if i == col || t == row then order
    else
      var k := FirstPivot(M, row, col, t, i);
      if k == row then FirstOrder(M, row, col, i + 1, t, order)
      else FirstOrder(Cleared(Swap(M, k, t), row, col, i, t), row, col, i + 1, t + 1, Swap(order, k, t))
  }

  /**
   M at column i, with t rows used and in the given order, leads to the order goal.  (Quantified, so that the run
   is not followed where this is only passed on.)
   */
  ghost predicate LeadsToOrder(M: Matrix, row: nat, col: nat, i: nat, t: nat, order: seq<nat>, goal: seq<nat>) {
    && IsShape(M, row, col) && i <= col && t <= row && |order| == row
    && forall N | N == M :: FirstOrder(N, row, col, i, t, order) == goal
  }

  lemma OrderSkips(M: Matrix, row: nat, col: nat, i: nat, t: nat, order: seq<nat>, goal: seq<nat>)
    requires LeadsToOrder(M, row, col, i, t, order, goal) && i < col && t < row
    requires forall s | t <= s < row :: M[s][i] == 0.0
    ensures LeadsToOrder(M, row, col, i + 1, t, order, goal)
  {
    assert FirstOrder(M, row, col, i, t, order) == goal;
    FirstPivotIs(M, row, col, t, i, row);
  }

  lemma OrderTakes(M: Matrix, row: nat, col: nat, i: nat, t: nat, order: seq<nat>, k: nat, goal: seq<nat>)
    requires LeadsToOrder(M, row, col, i, t, order, goal) && i < col && t <= k < row
    requires M[k][i] != 0.0 && forall s | t <= s < k :: M[s][i] == 0.0
    ensures LeadsToOrder(Cleared(Swap(M, k, t), row, col, i, t), row, col, i + 1, t + 1, Swap(order, k, t), goal)
  {
    assert FirstOrder(M, row, col, i, t, order) == goal;
    FirstPivotIs(M, row, col, t, i, k);
  }

  lemma {:induction false} FirstPivotIs(M: Matrix, row: nat, col: nat, r: nat, c: nat, k: nat)
    requires IsShape(M, row, col) && r <= k <= row && c < col
    requires (k < row ==> M[k][c] != 0.0) && forall s | r <= s < k :: M[s][c] == 0.0
    ensures FirstPivot(M, row, col, r, c) == k
    decreases row - r
  {
    if r < k {
      FirstPivotIs(M, row, col, r + 1, c, k);
    }
  }

  // ----- the algorithm

  /** pivot: the first row from r on with a nonzero entry in column c, or the number of rows. */
  method Pivot(B: array2<real>, r: nat, c: nat) returns (k: nat)
    requires r < B.Length0 && c < B.Length1
    ensures r <= k <= B.Length0 && (k < B.Length0 ==> B[k, c] != 0.0)
    ensures forall s | r <= s < k :: B[s, c] == 0.0
  {
    k := r;
    if B[r, c] == 0.0 {
      while k < B.Length0 && B[k, c] == 0.0
        invariant r <= k <= B.Length0 && forall s | r <= s < k :: B[s, c] == 0.0
      {
        k := k + 1;
      }
    }
  }

  method RowMulScalar(B: array2<real>, i: nat, c: real)
    requires i < B.Length0
    modifies B
    ensures Rows(B) == old(Rows(B))[i := Scaled(old(Rows(B))[i], c)]
  {
    ghost var M := Rows(B);
    for j := 0 to B.Length1
      invariant forall r, s | 0 <= r < B.Length0 && 0 <= s < B.Length1 ::
        B[r, s] == if r == i && s < j then Times(c, M[r][s]) else M[r][s]
    {
      B[i, j] := Times(c, B[i, j]);
    }
    SameRows(Rows(B), M[i := Scaled(M[i], c)], B.Length1);
  }

  method RowAddRow(B: array2<real>, i: nat, j: nat, c: real)
    requires i != j && i < B.Length0 && j < B.Length0
    modifies B
    ensures Rows(B) == old(Rows(B))[i := Added(old(Rows(B))[i], c, old(Rows(B))[j])]
  {
    ghost var M := Rows(B);
    for k := 0 to B.Length1
      invariant forall r, s | 0 <= r < B.Length0 && 0 <= s < B.Length1 ::
        B[r, s] == if r == i && s < k then M[r][s] + Times(c, M[j][s]) else M[r][s]
    {
      B[i, k] := B[i, k] + Times(c, B[j, k]);
    }
    SameRows(Rows(B), M[i := Added(M[i], c, M[j])], B.Length1);
  }

  lemma ClearNext(M: Matrix, N: Matrix, row: nat, col: nat, i: nat, index: nat, j: nat, f: real)
    requires IsShape(M, row, col) && IsShape(N, row, col) && i < col && index < row && j < row && j != index
      && M[index][i] != 0.0
    requires Clearing(M, N, row, col, i, index, j) && SameNullSpace(M, N, col) && f == Times(-1.0, N[j][i])
    ensures var N' := N[j := Added(N[j], f, N[index])];
      IsShape(N', row, col) && Clearing(M, N', row, col, i, index, j + 1) && SameNullSpace(M, N', col)
  {
    var N' := N[j := Added(N[j], f, N[index])];
    AddNullSpace(N, row, col, j, index, f);
    NullSpaceTransitive(M, N, N', row, col);
  }

  /** Scales the pivot row and clears column i in all other rows. */
  method ClearColumn(B: array2<real>, i: nat, index: nat)
    requires i < B.Length1 && index < B.Length0 && B[index, i] != 0.0
    modifies B
    ensures Clearing(old(Rows(B)), Rows(B), B.Length0, B.Length1, i, index, B.Length0)
    ensures SameNullSpace(old(Rows(B)), Rows(B), B.Length1)
  {
    ghost var M := Rows(B);
    ghost var row, col := B.Length0, B.Length1;
    var scale := 1.0 / B[index, i];
    Reciprocal(B[index, i]);
    ScaleNullSpace(M, row, col, index, scale);
    RowMulScalar(B, index, scale);
    for j := 0 to B.Length0
      invariant Clearing(M, Rows(B), row, col, i, index, j)
      invariant SameNullSpace(M, Rows(B), col)
    {
      if j != index {
        scale := Times(-1.0, B[j, i]);
        ClearNext(M, Rows(B), row, col, i, index, j, scale);
        RowAddRow(B, j, index, scale);
      }
    }
  }

  ghost predicate Progress(A: Matrix, M: Matrix, row: nat, col: nat, i: nat, pc: seq<nat>, pivotlist: seq<nat>) {
    && IsShape(A, row, col) && IsShape(M, row, col) && i <= col
    && ReducedUpTo(M, row, col, i, pc)
    && SameNullSpace(A, M, col)
    && |pivotlist| == row && IsPermutation(pivotlist)
    && LeadsFrom(A, M, row, col, pc, pivotlist)
  }

  /** The rows of A in the given order lead to M.  (Quantified for the same reason as LeadsToOrder.) */
  ghost predicate LeadsFrom(A: Matrix, M: Matrix, row: nat, col: nat, pc: seq<nat>, order: seq<nat>)
    requires IsShape(A, row, col) && |order| == row && Indices(order, 0, row)
  {
    forall P | P == Ordered(A, row, col, order) :: Leads(P, M, row, col, pc)
  }

  lemma SwapProgress(A: Matrix, M: Matrix, row: nat, col: nat, i: nat, pc: seq<nat>, order: seq<nat>, a: nat, b: nat)
    requires Progress(A, M, row, col, i, pc, order) && |pc| <= a < row && |pc| <= b < row
    ensures Progress(A, Swap(M, a, b), row, col, i, pc, Swap(order, a, b))
  {
    SwapReduced(M, row, col, i, pc, a, b);
    SwapNullSpace(M, row, col, a, b);
    NullSpaceTransitive(A, M, Swap(M, a, b), row, col);
    SwapPermutation(order, a, b);
    assert Leads(Ordered(A, row, col, order), M, row, col, pc);
    LeadsSwapped(Ordered(A, row, col, order), M, row, col, pc, a, b);
    OrderSwapped(A, row, col, order, a, b);
  }

  lemma ClearProgress(A: Matrix, M: Matrix, N: Matrix, row: nat, col: nat, i: nat, pc: seq<nat>, order: seq<nat>)
    requires Progress(A, M, row, col, i, pc, order) && i < col && |pc| < row && M[|pc|][i] != 0.0
    requires IsShape(N, row, col) && Clearing(M, N, row, col, i, |pc|, row) && SameNullSpace(M, N, col)
    ensures Progress(A, N, row, col, i + 1, pc + [i], order)
  {
    NullSpaceTransitive(A, M, N, row, col);
    ClearedPivot(M, N, row, col, i, pc);
    assert Leads(Ordered(A, row, col, order), M, row, col, pc);
    LeadsNext(Ordered(A, row, col, order), M, N, row, col, pc, i);
  }

  lemma StartProgress(A: Matrix, row: nat, col: nat, order: seq<nat>)
    requires IsShape(A, row, col) && |order| == row && forall t | 0 <= t < row :: order[t] == t
    ensures Progress(A, A, row, col, 0, [], order)
  {
    assert Ordered(A, row, col, order) == A;
  }

  lemma SkipProgress(A: Matrix, M: Matrix, row: nat, col: nat, i: nat, pc: seq<nat>, order: seq<nat>)
    requires Progress(A, M, row, col, i, pc, order) && i < col && forall r | |pc| <= r < row :: M[r][i] == 0.0
    ensures Progress(A, M, row, col, i + 1, pc, order)
  {
    NoPivotInColumn(M, row, col, i, pc);
  }

  lemma EndProgress(A: Matrix, M: Matrix, row: nat, col: nat, i: nat, pc: seq<nat>, order: seq<nat>)
    requires Progress(A, M, row, col, i, pc, order) && (i == col || |pc| == row)
    ensures Progress(A, M, row, col, col, pc, order)
  {
    if |pc| == row {
      AllRowsUsed(M, row, col, i, pc);
    }
  }

  /** The pivot row k and its entry in the list change places with those at index. */
  method ExchangePivot(B: array2<real>, k: nat, index: nat, pivotlist: seq<nat>) returns (pivotlist': seq<nat>)
    requires k < B.Length0 && index < B.Length0 && |pivotlist| == B.Length0
    modifies B
    ensures Rows(B) == Swap(old(Rows(B)), k, index) && pivotlist' == Swap(pivotlist, k, index)
  {
    pivotlist' := pivotlist;
    if k != index {
      RowExchange(B, k, index);
      pivotlist' := pivotlist[k := pivotlist[index]][index := pivotlist[k]];
    }
  }

  /** One column with a pivot in row k. */
  method UsePivot(B: array2<real>, i: nat, k: nat, index: nat, pivotlist: seq<nat>, ghost A: Matrix, ghost pc: seq<nat>)
    returns (pivotlist': seq<nat>)
    requires i < B.Length1 && |pc| == index <= k < B.Length0 && B[k, i] != 0.0
    requires Progress(A, Rows(B), B.Length0, B.Length1, i, pc, pivotlist)
    modifies B
    ensures Progress(A, Rows(B), B.Length0, B.Length1, i + 1, pc + [i], pivotlist')
    ensures Rows(B) == Cleared(Swap(old(Rows(B)), k, index), B.Length0, B.Length1, i, index)
    ensures pivotlist' == Swap(pivotlist, k, index)
  {
    ghost var row, col := B.Length0, B.Length1;
    SwapProgress(A, Rows(B), row, col, i, pc, pivotlist, k, index);
    pivotlist' := ExchangePivot(B, k, index, pivotlist);
    ghost var N := Rows(B);
    ClearColumn(B, i, index);
    ClearProgress(A, N, Rows(B), row, col, i, pc, pivotlist');
    ClearingIsCleared(N, Rows(B), row, col, i, index);
  }

  /** The state of the elimination before column i. */
  ghost predicate Eliminating(A: Matrix, M: Matrix, row: nat, col: nat, i: nat, index: nat, pc: seq<nat>,
      pivotlist: seq<nat>, goal: seq<nat>) {
    && index == |pc| <= row && Progress(A, M, row, col, i, pc, pivotlist)
    && LeadsToOrder(M, row, col, i, index, pivotlist, goal)
  }

  lemma StartElimination(A: Matrix, row: nat, col: nat) returns (goal: seq<nat>)
    requires IsShape(A, row, col)
    ensures goal == FirstOrder(A, row, col, 0, 0, Iota(row))
    ensures Eliminating(A, A, row, col, 0, 0, [], Iota(row), goal)
  {
    StartProgress(A, row, col, Iota(row));
    goal := FirstOrder(A, row, col, 0, 0, Iota(row));
  }

  /** M is the reduced row-echelon form of A, reached with the rows in the given order. */
  ghost predicate IsEliminated(A: Matrix, M: Matrix, row: nat, col: nat, pc: seq<nat>, pivotlist: seq<nat>) {
    && IsShape(A, row, col) && IsShape(M, row, col) && IsReduced(M, row, col, pc) && SameNullSpace(A, M, col)
    && |pivotlist| == row && IsPermutation(pivotlist)
    && LeadsFrom(A, M, row, col, pc, pivotlist)
  }

  lemma EndElimination(A: Matrix, M: Matrix, row: nat, col: nat, i: nat, index: nat, pc: seq<nat>, pivotlist: seq<nat>,
      goal: seq<nat>)
    requires Eliminating(A, M, row, col, i, index, pc, pivotlist, goal) && (i == col || index == row)
    ensures IsEliminated(A, M, row, col, pc, pivotlist) && pivotlist == goal
  {
    EndProgress(A, M, row, col, i, pc, pivotlist);
    assert FirstOrder(M, row, col, i, index, pivotlist) == goal;
  }

  /** One column: skipped if it has no pivot left, cleared with the first possible one otherwise. */
  method GaussJordanRound(B: array2<real>, i: nat, index: nat, pivotlist: seq<nat>, ghost A: Matrix, ghost pc: seq<nat>,
      ghost goal: seq<nat>)
    returns (index': nat, pivotlist': seq<nat>, ghost pc': seq<nat>)
    requires i < B.Length1 && index < B.Length0
    requires Eliminating(A, Rows(B), B.Length0, B.Length1, i, index, pc, pivotlist, goal)
    modifies B
    ensures Eliminating(A, Rows(B), B.Length0, B.Length1, i + 1, index', pc', pivotlist', goal)
  {
    ghost var row, col := B.Length0, B.Length1;
    index', pivotlist', pc' := index, pivotlist, pc;
    var k := Pivot(B, index, i);
    if k == B.Length0 {
      OrderSkips(Rows(B), row, col, i, index, pivotlist, goal);
      SkipProgress(A, Rows(B), row, col, i, pc, pivotlist);
    } else {
      OrderTakes(Rows(B), row, col, i, index, pivotlist, k, goal);
      pivotlist' := UsePivot(B, i, k, index, pivotlist, A, pc);
      pc' := pc + [i];
      index' := index + 1;
    }
  }

  /** The loop over the columns. */
  method EliminateColumns(B: array2<real>, pivotlist0: seq<nat>, ghost A: Matrix, ghost goal: seq<nat>)
    returns (pivotlist: seq<nat>, ghost pc: seq<nat>)
    requires Eliminating(A, Rows(B), B.Length0, B.Length1, 0, 0, [], pivotlist0, goal)
    modifies B
    ensures IsEliminated(A, Rows(B), B.Length0, B.Length1, pc, pivotlist) && pivotlist == goal
  {
    pivotlist, pc := pivotlist0, [];
    var index: nat := 0;
    var i: nat := 0;
    while i < B.Length1 && index < B.Length0
      invariant i <= B.Length1 && index <= B.Length0
      invariant Eliminating(A, Rows(B), B.Length0, B.Length1, i, index, pc, pivotlist, goal)
    {
      index, pivotlist, pc := GaussJordanRound(B, i, index, pivotlist, A, pc, goal);
      i := i + 1;
    }
    EndElimination(A, Rows(B), B.Length0, B.Length1, i, index, pc, pivotlist, goal);
  }

  /**
   pivoted_gauss_jordan_elimination: the reduced row-echelon form of A, with the same null space.  The list
   is the order of the rows: taken in that order, they reduce to B without any exchange.  It is the order that
   results from taking the first possible pivot in every column.
   */
  method PivotedGaussJordan(A: array2<real>, B: array2<real>) returns (pivotlist: seq<nat>, ghost pc: seq<nat>)
    requires A != B && A.Length0 == B.Length0 && A.Length1 == B.Length1
    modifies B
    ensures IsReduced(Rows(B), A.Length0, A.Length1, pc)
    ensures SameNullSpace(Rows(A), Rows(B), A.Length1)
    ensures |pivotlist| == A.Length0 && IsPermutation(pivotlist)
    ensures Leads(Ordered(Rows(A), A.Length0, A.Length1, pivotlist), Rows(B), A.Length0, A.Length1, pc)
    ensures pivotlist == FirstOrder(Rows(A), A.Length0, A.Length1, 0, 0, Iota(A.Length0))
  {
    CopyInto(A, B);
    pivotlist := seq(A.Length0, i => i);
    assert pivotlist == Iota(A.Length0);
    ghost var goal := StartElimination(Rows(A), A.Length0, A.Length1);
    pivotlist, pc := EliminateColumns(B, pivotlist, Rows(A), goal);
    assert Leads(Ordered(Rows(A), A.Length0, A.Length1, pivotlist), Rows(B), A.Length0, A.Length1, pc);
  }
}
