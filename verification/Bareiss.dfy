/**
 The fraction-free determinant of src/dense_matrix.cpp.

 Beside the matrix B that the algorithm overwrites, the proof carries a matrix G obtained from the
 row-permuted input by plain row additions.  B is G with row i scaled by the last pivot, and minors of
 the input that contain the pivot rows are minors of G, so every entry of B is a minor of the input.
 */
module Bareiss {
  import opened Common
  import opened Determinant
  import opened Powers

  type Matrix = seq<Row>

  ghost predicate IsSquare(M: Matrix, n: nat) {
    |M| == n && forall i | 0 <= i < n :: |M[i]| == n
  }

  ghost function Rows(a: array2<real>): (M: Matrix)
    reads a
    ensures |M| == a.Length0
    ensures forall i | 0 <= i < |M| :: |M[i]| == a.Length1
    ensures forall i, j | 0 <= i < a.Length0 && 0 <= j < a.Length1 :: M[i][j] == a[i, j]
  {
    seq(a.Length0, i requires 0 <= i < a.Length0 reads a =>
      seq(a.Length1, j requires 0 <= j < a.Length1 reads a => a[i, j]))
  }

  // ----- submatrices and minors

  ghost function Iota(k: nat): (s: seq<nat>)
    ensures |s| == k && forall a | 0 <= a < k :: s[a] == a
  {
    seq(k, a => a)
  }

  ghost predicate Indices(s: seq<nat>, lo: nat, hi: nat) {
    forall a | 0 <= a < |s| :: lo <= s[a] < hi
  }

  ghost predicate IsPermutation(perm: seq<nat>) {
    && Indices(perm, 0, |perm|)
    && forall a, b | 0 <= a < b < |perm| :: perm[a] != perm[b]
  }

  ghost function Sub(M: Matrix, n: nat, rows: seq<nat>, cols: seq<nat>): (S: Matrix)
    requires IsSquare(M, n) && Indices(rows, 0, n) && Indices(cols, 0, n)
    ensures |S| == |rows| && forall a | 0 <= a < |rows| :: |S[a]| == |cols|
    ensures forall a, b | 0 <= a < |rows| && 0 <= b < |cols| :: S[a][b] == M[rows[a]][cols[b]]
  {
    seq(|rows|, a requires 0 <= a < |rows| =>
      seq(|cols|, b requires 0 <= b < |cols| => M[rows[a]][cols[b]]))
  }

  /** The determinant of the submatrix with the given rows and columns. */
  ghost function Minor(M: Matrix, n: nat, rows: seq<nat>, cols: seq<nat>): real
    requires IsSquare(M, n) && Indices(rows, 0, n) && Indices(cols, 0, n) && |rows| == |cols|
  {
    Det(Sub(M, n, rows, cols), 0)
  }

  /** Rows from k on and as many columns as rows, counting the first k rows in. */
  ghost predicate Selects(n: nat, k: nat, rest: seq<nat>, cols: seq<nat>) {
    Indices(rest, k, n) && Indices(cols, 0, n) && |cols| == k + |rest|
  }

  ghost predicate SameMinor(M: Matrix, G: Matrix, n: nat, k: nat, rest: seq<nat>, cols: seq<nat>)
    requires IsSquare(M, n) && IsSquare(G, n) && k <= n && Selects(n, k, rest, cols)
  {
    Minor(M, n, Iota(k) + rest, cols) == Minor(G, n, Iota(k) + rest, cols)
  }

  /** M and G agree on all minors that contain the first k rows. */
  ghost predicate SameMinors(M: Matrix, G: Matrix, n: nat, k: nat)
    requires IsSquare(M, n) && IsSquare(G, n) && k <= n
  {
    forall rest, cols | Selects(n, k, rest, cols) :: SameMinor(M, G, n, k, rest, cols)
  }

  lemma MinorsApply(M: Matrix, G: Matrix, n: nat, k: nat, rest: seq<nat>, cols: seq<nat>)
    requires IsSquare(M, n) && IsSquare(G, n) && k <= n && SameMinors(M, G, n, k) && Selects(n, k, rest, cols)
    ensures Minor(M, n, Iota(k) + rest, cols) == Minor(G, n, Iota(k) + rest, cols)
  {
    assert SameMinor(M, G, n, k, rest, cols);
  }

  // ----- row additions

  lemma {:induction false} AddMultiples(S: Matrix, S': Matrix, a: nat, f: seq<real>, m: nat)
    requires |S| == |S'| == |f| && a < m <= |S| && Wide(S, |S|)
    requires forall p | 0 <= p <= a :: S'[p] == S[p]
    requires forall p | a < p < |S| :: IsCombination(S'[p], S[p], f[p], S[a])
    ensures Wide(S'[..m] + S[m..], |S|) && Det(S'[..m] + S[m..], 0) == Det(S, 0)
    decreases m
  {
    if m == a + 1 {
      assert S'[..m] + S[m..] == S;
    } else {
      AddMultiples(S, S', a, f, m - 1);
      var T := S'[..m - 1] + S[m - 1..];
      RowAdd(T, 0, a, m - 1, f[m - 1], S'[m - 1]);
      assert T[m - 1 := S'[m - 1]] == S'[..m] + S[m..];
    }
  }

  /** Clears column k below row k, leaving fractions. */
  ghost function Eliminate(G: Matrix, n: nat, k: nat): (G': Matrix)
    requires IsSquare(G, n) && k < n && G[k][k] != 0.0
    ensures IsSquare(G', n)
  {
    seq(n, i requires 0 <= i < n =>
      if i <= k then G[i]
      else seq(n, j requires 0 <= j < n => G[i][j] + Times(Factor(G[i][k], G[k][k]), G[k][j])))
  }

  /** The multiple of the pivot row that clears x above the pivot p. */
  ghost function Factor(x: real, p: real): real
    requires p != 0.0
  {
    -(x / p)
  }

  lemma EliminateMinor(G: Matrix, n: nat, k: nat, rest: seq<nat>, cols: seq<nat>)
    requires IsSquare(G, n) && k < n && G[k][k] != 0.0
    requires Indices(rest, k + 1, n) && Indices(cols, 0, n) && |cols| == k + 1 + |rest|
    ensures Minor(G, n, Iota(k + 1) + rest, cols) == Minor(Eliminate(G, n, k), n, Iota(k + 1) + rest, cols)
  {
    var rows := Iota(k + 1) + rest;
    var S, S' := Sub(G, n, rows, cols), Sub(Eliminate(G, n, k), n, rows, cols);
    var f := seq(|rows|, p requires 0 <= p < |rows| => Factor(G[rows[p]][k], G[k][k]));
    assert rows[k] == k;
    forall p | 0 <= p < |S|
      ensures if p <= k then S'[p] == S[p] else IsCombination(S'[p], S[p], f[p], S[k])
    {
      EliminatedRow(G, n, k, rows[p], cols);
      assert S[p] == Pick(G[rows[p]], cols) && S[k] == Pick(G[k], cols);
      assert S'[p] == Pick(Eliminate(G, n, k)[rows[p]], cols);
    }
    AddMultiples(S, S', k, f, |S|);
    assert S'[..|S|] + S[|S|..] == S';
  }

  ghost function Pick(r: Row, cols: seq<nat>): (s: Row)
    requires Indices(cols, 0, |r|)
    ensures |s| == |cols| && forall b | 0 <= b < |cols| :: s[b] == r[cols[b]]
  {
    seq(|cols|, b requires 0 <= b < |cols| => r[cols[b]])
  }

  lemma EliminatedRow(G: Matrix, n: nat, k: nat, i: nat, cols: seq<nat>)
    requires IsSquare(G, n) && k < n && G[k][k] != 0.0 && i < n && Indices(cols, 0, n)
    ensures i <= k ==> Eliminate(G, n, k)[i] == G[i]
    ensures i > k ==> IsCombination(Pick(Eliminate(G, n, k)[i], cols), Pick(G[i], cols), Factor(G[i][k], G[k][k]),
      Pick(G[k], cols))
  {
  }

  lemma EliminateSelected(M: Matrix, G: Matrix, n: nat, k: nat, rest: seq<nat>, cols: seq<nat>)
    requires IsSquare(M, n) && IsSquare(G, n) && k < n && G[k][k] != 0.0 && SameMinors(M, G, n, k)
    requires Selects(n, k + 1, rest, cols)
    ensures SameMinor(M, Eliminate(G, n, k), n, k + 1, rest, cols)
  {
    var rows := Iota(k + 1) + rest;
    assert rows == Iota(k) + ([k] + rest);
    MinorsApply(M, G, n, k, [k] + rest, cols);
    EliminateMinor(G, n, k, rest, cols);
  }

  lemma EliminateMinors(M: Matrix, G: Matrix, n: nat, k: nat)
    requires IsSquare(M, n) && IsSquare(G, n) && k < n && G[k][k] != 0.0 && SameMinors(M, G, n, k)
    ensures SameMinors(M, Eliminate(G, n, k), n, k + 1)
  {
    var G', k' := Eliminate(G, n, k), k + 1;
    forall rest, cols | Selects(n, k', rest, cols)
      ensures SameMinor(M, G', n, k', rest, cols)
    {
      EliminateSelected(M, G, n, k, rest, cols);
    }
  }

  lemma SwapSelected(M: Matrix, G: Matrix, n: nat, k: nat, a: nat, b: nat, rest: seq<nat>, cols: seq<nat>)
    requires IsSquare(M, n) && IsSquare(G, n) && k <= a < n && k <= b < n && SameMinors(M, G, n, k)
    requires Selects(n, k, rest, cols)
    ensures IsSquare(Swap(M, a, b), n) && IsSquare(Swap(G, a, b), n)
    ensures SameMinor(Swap(M, a, b), Swap(G, a, b), n, k, rest, cols)
  {
    SwapSub(M, n, k, a, b, rest, cols);
    SwapSub(G, n, k, a, b, rest, cols);
    MinorsApply(M, G, n, k, Relabel(rest, a, b), cols);
  }

  lemma SwapMinors(M: Matrix, G: Matrix, n: nat, k: nat, a: nat, b: nat)
    requires IsSquare(M, n) && IsSquare(G, n) && k <= a < n && k <= b < n && SameMinors(M, G, n, k)
    ensures IsSquare(Swap(M, a, b), n) && IsSquare(Swap(G, a, b), n)
    ensures SameMinors(Swap(M, a, b), Swap(G, a, b), n, k)
  {
    var M', G' := Swap(M, a, b), Swap(G, a, b);
    assert IsSquare(M', n) && IsSquare(G', n);
    forall rest, cols | Selects(n, k, rest, cols)
      ensures SameMinor(M', G', n, k, rest, cols)
    {
      SwapSelected(M, G, n, k, a, b, rest, cols);
    }
  }

  ghost function Relabel(rest: seq<nat>, a: nat, b: nat): (s: seq<nat>)
    ensures |s| == |rest|
    ensures forall p | 0 <= p < |rest| :: s[p] == if rest[p] == a then b else if rest[p] == b then a else rest[p]
  {
    seq(|rest|, p requires 0 <= p < |rest| => if rest[p] == a then b else if rest[p] == b then a else rest[p])
  }

  lemma SwapSub(M: Matrix, n: nat, k: nat, a: nat, b: nat, rest: seq<nat>, cols: seq<nat>)
    requires IsSquare(M, n) && k <= a < n && k <= b < n
    requires Indices(rest, k, n) && Indices(cols, 0, n)
    ensures IsSquare(Swap(M, a, b), n)
    ensures Sub(Swap(M, a, b), n, Iota(k) + rest, cols) == Sub(M, n, Iota(k) + Relabel(rest, a, b), cols)
  {
    var S, T := Sub(Swap(M, a, b), n, Iota(k) + rest, cols), Sub(M, n, Iota(k) + Relabel(rest, a, b), cols);
    forall p | 0 <= p < |S|
      ensures S[p] == T[p]
    {
    }
  }

  // ----- one stage of the algorithm

  /** The pivot of the previous stage, 1 before the first. */
  ghost function Lead(B: Matrix, n: nat, k: nat): real
    requires IsSquare(B, n) && k <= n
  {
    if k == 0 then 1.0 else B[k - 1][k - 1]
  }

  ghost predicate ScaledEntry(B: Matrix, G: Matrix, n: nat, k: nat, i: nat, j: nat)
    requires IsSquare(B, n) && IsSquare(G, n) && k <= n && i < n && j < n
  {
    if j < Min(i, k) then G[i][j] == 0.0 else B[i][j] == Times(Lead(B, n, Min(i, k)), G[i][j])
  }

  /** After k stages B is G, which is triangular in its first k columns, scaled row by row. */
  ghost predicate Scaled(B: Matrix, G: Matrix, n: nat, k: nat)
    requires IsSquare(B, n) && IsSquare(G, n) && k <= n
  {
    && (forall r | 0 <= r < k :: B[r][r] != 0.0)
    && (forall i, j | 0 <= i < n && 0 <= j < n :: ScaledEntry(B, G, n, k, i, j))
  }

  ghost function Numerator(p: real, e: real, f: real, y: real): real {
    p * e - f * y
  }

  /** The entry e after a stage: (p e - f y) / d. */
  ghost function StageEntry(p: real, e: real, f: real, y: real, d: real): real
    requires d != 0.0
  {
    Numerator(p, e, f, y) / d
  }

  /** Row i after stage k. */
  ghost function StageRow(B: Matrix, n: nat, k: nat, i: nat): (r: Row)
    requires IsSquare(B, n) && k < n && i < n && Lead(B, n, k) != 0.0
    ensures |r| == n
  {
    seq(n, j requires 0 <= j < n =>
      if j <= k then B[i][j] else StageEntry(B[k][k], B[i][j], B[i][k], B[k][j], Lead(B, n, k)))
  }

  ghost function Stage(B: Matrix, n: nat, k: nat): (B': Matrix)
    requires IsSquare(B, n) && k < n && Lead(B, n, k) != 0.0
    ensures IsSquare(B', n)
  {
    seq(n, i requires 0 <= i < n => if i <= k then B[i] else StageRow(B, n, k, i))
  }

  /** A stage on scaled entries, in terms of the entries themselves. */
  lemma ScaledStep(l: real, kk: real, ij: real, ik: real, kj: real)
    requires l != 0.0 && kk != 0.0
    ensures StageEntry(Times(l, kk), Times(l, ij), Times(l, ik), Times(l, kj), l)
         == Times(Times(l, kk), ij + Times(Factor(ik, kk), kj))
  {
    var e := kk * ij - ik * kj;
    CommonFactor(l, kk, ij, ik, kj);
    ProductQuotient(l, e);
    ClearedValue(kk, ij, ik, kj);
    TimesAssociative(l, kk, ij + Times(Factor(ik, kk), kj));
  }

  lemma CommonFactor(l: real, kk: real, ij: real, ik: real, kj: real)
    ensures Numerator(Times(l, kk), Times(l, ij), Times(l, ik), Times(l, kj)) == Times(l, kk * ij - ik * kj) * l
  {
    assert (l * kk) * (l * ij) == (l * (kk * ij)) * l;
    assert (l * ik) * (l * kj) == (l * (ik * kj)) * l;
    assert l * (kk * ij - ik * kj) == l * (kk * ij) - l * (ik * kj);
  }

  lemma ProductQuotient(l: real, e: real)
    requires l != 0.0
    ensures (Times(l, e) * l) / l == Times(l, e)
  {
  }

  lemma ClearedValue(kk: real, ij: real, ik: real, kj: real)
    requires kk != 0.0
    ensures Times(kk, ij + Times(Factor(ik, kk), kj)) == kk * ij - ik * kj
  {
    var q := ik / kk;
    assert q * kk == ik;
    assert kk * (ij + (-q) * kj) == kk * ij - (q * kk) * kj;
  }

  /** A row below the pivot after a stage: zero up to column k, scaled by the pivot beyond it. */
  lemma StageBelow(B: Matrix, G: Matrix, n: nat, k: nat, i: nat, j: nat)
    requires IsSquare(B, n) && IsSquare(G, n) && k < i < n && j < n && Scaled(B, G, n, k)
    requires Lead(B, n, k) != 0.0 && G[k][k] != 0.0
    ensures j <= k ==> Eliminate(G, n, k)[i][j] == 0.0
    ensures j > k ==> Stage(B, n, k)[i][j] == Times(B[k][k], Eliminate(G, n, k)[i][j])
  {
    assert ScaledEntry(B, G, n, k, k, k) && ScaledEntry(B, G, n, k, i, j);
    assert ScaledEntry(B, G, n, k, i, k) && ScaledEntry(B, G, n, k, k, j);
    if j <= k {
      PivotCancels(G[i][k], G[k][k]);
    } else {
      ScaledStep(Lead(B, n, k), G[k][k], G[i][j], G[i][k], G[k][j]);
    }
  }

  lemma PivotCancels(x: real, p: real)
    requires p != 0.0
    ensures x + Times(Factor(x, p), p) == 0.0
    ensures 0.0 + Times(Factor(x, p), 0.0) == 0.0
  {
    var q := x / p;
    assert q * p == x;
    assert (-q) * p == -x;
  }

  lemma StageScaled(B: Matrix, G: Matrix, n: nat, k: nat)
    requires IsSquare(B, n) && IsSquare(G, n) && k < n && Scaled(B, G, n, k) && B[k][k] != 0.0
    ensures Lead(B, n, k) != 0.0 && G[k][k] != 0.0
    ensures Scaled(Stage(B, n, k), Eliminate(G, n, k), n, k + 1)
  {
    assert ScaledEntry(B, G, n, k, k, k);
    TimesNonzero(Lead(B, n, k), G[k][k]);
    var B', G' := Stage(B, n, k), Eliminate(G, n, k);
    assert forall m | 0 <= m <= k :: Lead(B', n, m) == Lead(B, n, m);
    var k' := k + 1;
    forall i, j | 0 <= i < n && 0 <= j < n
      ensures ScaledEntry(B', G', n, k', i, j)
    {
      if i > k {
        StageBelow(B, G, n, k, i, j);
      } else {
        assert ScaledEntry(B, G, n, k, i, j);
      }
    }
  }

  lemma BorderedTriangular(B: Matrix, G: Matrix, n: nat, k: nat, i: nat, j: nat)
    requires IsSquare(B, n) && IsSquare(G, n) && k <= i < n && k <= j < n && Scaled(B, G, n, k)
    ensures Triangular(Sub(G, n, Iota(k) + [i], Iota(k) + [j]), 0, k + 1)
  {
    var rows, cols := Iota(k) + [i], Iota(k) + [j];
    forall p, q | 0 <= q < p <= k
      ensures Sub(G, n, rows, cols)[p][q] == 0.0
    {
      assert ScaledEntry(B, G, n, k, rows[p], q);
    }
  }

  lemma WholeTriangular(B: Matrix, G: Matrix, n: nat, k: nat)
    requires IsSquare(B, n) && IsSquare(G, n) && k <= n && Scaled(B, G, n, k)
    ensures Triangular(G, 0, k)
  {
    forall p, q | 0 <= p < n && 0 <= q < k && q < p
      ensures G[p][q] == 0.0
    {
      assert ScaledEntry(B, G, n, k, p, q);
    }
  }

  /** Entries not yet eliminated are minors of the permuted input: the pivot rows bordered by one row and column. */
  lemma EntryIsMinor(M: Matrix, B: Matrix, G: Matrix, n: nat, k: nat, i: nat, j: nat)
    requires IsSquare(M, n) && IsSquare(B, n) && IsSquare(G, n) && k <= i < n && k <= j < n
    requires Scaled(B, G, n, k) && SameMinors(M, G, n, k)
    ensures B[i][j] == Minor(M, n, Iota(k) + [i], Iota(k) + [j])
  {
    MinorsApply(M, G, n, k, [i], Iota(k) + [j]);
    var S := Sub(G, n, Iota(k) + [i], Iota(k) + [j]);
    BorderedTriangular(B, G, n, k, i, j);
    TriangularDet(S, 0);
    BorderedProduct(B, G, n, k, i, j, 0);
    assert S[0..] == S;
    TimesUnits(DiagonalProduct(S, 0));
  }

  lemma {:induction false} BorderedProduct(B: Matrix, G: Matrix, n: nat, k: nat, i: nat, j: nat, p: nat)
    requires IsSquare(B, n) && IsSquare(G, n) && k <= i < n && k <= j < n && p <= k && Scaled(B, G, n, k)
    ensures Times(Lead(B, n, p), DiagonalProduct(Sub(G, n, Iota(k) + [i], Iota(k) + [j])[p..], p)) == B[i][j]
    decreases k - p
  {
    var S := Sub(G, n, Iota(k) + [i], Iota(k) + [j]);
    assert S[p..][0] == S[p] && S[p..][1..] == S[p + 1..];
    assert Min(p, k) == p && Min(i, k) == k;
    if p == k {
      assert S[k + 1..] == [];
      assert S[p][p] == G[i][j] && ScaledEntry(B, G, n, k, i, j);
      TimesUnits(G[i][j]);
    } else {
      BorderedProduct(B, G, n, k, i, j, p + 1);
      assert S[p][p] == G[p][p] && ScaledEntry(B, G, n, k, p, p);
      TimesAssociative(Lead(B, n, p), G[p][p], DiagonalProduct(S[p + 1..], p + 1));
    }
  }

  lemma WholeMinor(M: Matrix, n: nat, k: nat)
    requires IsSquare(M, n) && k <= n
    ensures exists rest :: Indices(rest, k, n) && |rest| == n - k && Iota(k) + rest == Iota(n)
    ensures Minor(M, n, Iota(n), Iota(n)) == Det(M, 0)
  {
    var rest := Iota(n)[k..];
    assert Iota(k) + rest == Iota(n);
    var S := Sub(M, n, Iota(n), Iota(n));
    assert forall i | 0 <= i < n :: S[i] == M[i];
    assert S == M;
  }

  lemma SameDeterminant(M: Matrix, G: Matrix, n: nat, k: nat)
    requires IsSquare(M, n) && IsSquare(G, n) && k <= n && SameMinors(M, G, n, k)
    ensures Det(M, 0) == Det(G, 0)
  {
    WholeMinor(M, n, k);
    WholeMinor(G, n, k);
    var rest :| Indices(rest, k, n) && |rest| == n - k && Iota(k) + rest == Iota(n);
    MinorsApply(M, G, n, k, rest, Iota(n));
  }

  /** No pivot left in column k: the determinant is zero. */
  lemma NoPivot(M: Matrix, B: Matrix, G: Matrix, n: nat, k: nat)
    requires IsSquare(M, n) && IsSquare(B, n) && IsSquare(G, n) && k < n
    requires Scaled(B, G, n, k) && SameMinors(M, G, n, k)
    requires forall i | k <= i < n :: B[i][k] == 0.0
    ensures Det(M, 0) == 0.0
  {
    SameDeterminant(M, G, n, k);
    NoPivotBelow(B, G, n, k);
    WholeTriangular(B, G, n, k);
    SingularDet(G, 0, k);
  }

  lemma NoPivotBelow(B: Matrix, G: Matrix, n: nat, k: nat)
    requires IsSquare(B, n) && IsSquare(G, n) && k < n && Scaled(B, G, n, k)
    requires forall i | k <= i < n :: B[i][k] == 0.0
    ensures forall i | k <= i < n :: G[i][k] == 0.0
  {
    forall i | k <= i < n
      ensures G[i][k] == 0.0
    {
      assert ScaledEntry(B, G, n, k, i, k);
      TimesNonzero(Lead(B, n, k), G[i][k]);
    }
  }

  // ----- the row order and the sign

  ghost function Permute(A: Matrix, n: nat, perm: seq<nat>): (M: Matrix)
    requires IsSquare(A, n) && |perm| == n && Indices(perm, 0, n)
    ensures IsSquare(M, n)
  {
    seq(n, i requires 0 <= i < n => A[perm[i]])
  }

  lemma PermutedMinor(A: Matrix, n: nat, perm: seq<nat>, k: nat, i: nat, cols: seq<nat>)
    requires IsSquare(A, n) && |perm| == n && Indices(perm, 0, n) && k <= i < n
    requires Indices(cols, 0, n) && |cols| == k + 1
    ensures Minor(Permute(A, n, perm), n, Iota(k) + [i], cols) == Minor(A, n, perm[..k] + [perm[i]], cols)
  {
    assert Sub(Permute(A, n, perm), n, Iota(k) + [i], cols) == Sub(A, n, perm[..k] + [perm[i]], cols);
  }

  /** The state before stage k: the rows stand in the order perm, and sign is the sign of that order. */
  ghost predicate Progress(A: Matrix, B: Matrix, G: Matrix, perm: seq<nat>, n: nat, k: nat, sign: int)
    requires IsSquare(A, n)
  {
    && k <= n && IsSquare(B, n) && IsSquare(G, n)
    && |perm| == n && IsPermutation(perm)
    && Scaled(B, G, n, k)
    && SameMinors(Permute(A, n, perm), G, n, k)
    && (sign == 1 || sign == -1)
    && Det(Permute(A, n, perm), 0) == if sign == 1 then Det(A, 0) else -Det(A, 0)
  }

  lemma StartProgress(A: Matrix, n: nat)
    requires IsSquare(A, n)
    ensures Progress(A, A, A, Iota(n), n, 0, 1)
  {
    assert Permute(A, n, Iota(n)) == A;
    var k := 0;
    forall i, j | 0 <= i < n && 0 <= j < n
      ensures ScaledEntry(A, A, n, k, i, j)
    {
    }
  }

  lemma SwapScaled(B: Matrix, G: Matrix, n: nat, k: nat, a: nat, b: nat)
    requires IsSquare(B, n) && IsSquare(G, n) && k <= a < n && k <= b < n && Scaled(B, G, n, k)
    ensures IsSquare(Swap(B, a, b), n) && IsSquare(Swap(G, a, b), n)
    ensures Scaled(Swap(B, a, b), Swap(G, a, b), n, k)
  {
    forall i, j | 0 <= i < n && 0 <= j < n
      ensures ScaledEntry(Swap(B, a, b), Swap(G, a, b), n, k, i, j)
    {
      assert ScaledEntry(B, G, n, k, if i == a then b else if i == b then a else i, j);
    }
  }

  lemma SwapPermutation(perm: seq<nat>, a: nat, b: nat)
    requires IsPermutation(perm) && a < |perm| && b < |perm|
    ensures IsPermutation(Swap(perm, a, b))
  {
  }

  lemma SwapProgress(A: Matrix, B: Matrix, G: Matrix, perm: seq<nat>, n: nat, k: nat, sign: int, a: nat, b: nat)
    requires IsSquare(A, n) && Progress(A, B, G, perm, n, k, sign) && k <= a < n && k <= b < n && a != b
    ensures Progress(A, Swap(B, a, b), Swap(G, a, b), Swap(perm, a, b), n, k, -sign)
  {
    var M := Permute(A, n, perm);
    SwapPermutation(perm, a, b);
    assert Permute(A, n, Swap(perm, a, b)) == Swap(M, a, b);
    SwapMinors(M, G, n, k, a, b);
    SwapRows(M, 0, a, b);
    SwapScaled(B, G, n, k, a, b);
  }

  lemma StageProgress(A: Matrix, B: Matrix, G: Matrix, perm: seq<nat>, n: nat, k: nat, sign: int)
    requires IsSquare(A, n) && Progress(A, B, G, perm, n, k, sign) && k < n && B[k][k] != 0.0
    ensures Lead(B, n, k) != 0.0 && G[k][k] != 0.0
    ensures Progress(A, Stage(B, n, k), Eliminate(G, n, k), perm, n, k + 1, sign)
  {
    StageScaled(B, G, n, k);
    EliminateMinors(Permute(A, n, perm), G, n, k);
  }

  lemma ProgressMinor(A: Matrix, B: Matrix, G: Matrix, perm: seq<nat>, n: nat, k: nat, sign: int, i: nat, j: nat)
    requires IsSquare(A, n) && Progress(A, B, G, perm, n, k, sign) && k <= i < n && k <= j < n
    ensures B[i][j] == Minor(A, n, perm[..k] + [perm[i]], Iota(k) + [j])
  {
    EntryIsMinor(Permute(A, n, perm), B, G, n, k, i, j);
    PermutedMinor(A, n, perm, k, i, Iota(k) + [j]);
  }

  lemma FinalProgress(A: Matrix, B: Matrix, G: Matrix, perm: seq<nat>, n: nat, sign: int)
    requires IsSquare(A, n) && n > 0 && Progress(A, B, G, perm, n, n - 1, sign)
    ensures (if sign == 1 then B[n - 1][n - 1] else -1.0 * B[n - 1][n - 1]) == Det(A, 0)
  {
    LastEntry(Permute(A, n, perm), B, G, n);
  }

  lemma LastEntry(M: Matrix, B: Matrix, G: Matrix, n: nat)
    requires n > 0 && IsSquare(M, n) && IsSquare(B, n) && IsSquare(G, n)
    requires Scaled(B, G, n, n - 1) && SameMinors(M, G, n, n - 1)
    ensures B[n - 1][n - 1] == Det(M, 0)
  {
    LastDiagonal(M, B, G, n, n - 1);
  }

  lemma LastDiagonal(M: Matrix, B: Matrix, G: Matrix, n: nat, k: nat)
    requires n == k + 1 && IsSquare(M, n) && IsSquare(B, n) && IsSquare(G, n)
    requires Scaled(B, G, n, k) && SameMinors(M, G, n, k)
    ensures B[k][k] == Det(M, 0)
  {
    EntryIsMinor(M, B, G, n, k, k, k);
    assert Iota(k) + [k] == Iota(n);
    WholeMinor(M, n, n);
  }

  // ----- the run of the algorithm

  /** The first row from i on with a nonzero entry in column k, n if there is none. */
  ghost function PivotRow(B: Matrix, n: nat, k: nat, i: nat): (p: nat)
    requires IsSquare(B, n) && k < n && i <= n
    ensures i <= p <= n && (p < n ==> B[p][k] != 0.0)
    ensures forall r | i <= r < p :: B[r][k] == 0.0
    decreases n - i
  {
    if i == n || B[i][k] != 0.0 then i else PivotRow(B, n, k, i + 1)
  }

  lemma PivotRowIs(B: Matrix, n: nat, k: nat, i: nat, p: nat)
    requires IsSquare(B, n) && k < n && i <= p <= n && (p < n ==> B[p][k] != 0.0)
    requires forall r | i <= r < p :: B[r][k] == 0.0
    ensures PivotRow(B, n, k, i) == p
    decreases n - i
  {
    if i < p {
      PivotRowIs(B, n, k, i + 1, p);
    }
  }

  /** The order of the rows and the matrix before a stage. */
  datatype Snapshot = Snapshot(perm: seq<nat>, B: Matrix)

  /** The matrix with its pivot row in place. */
  ghost function Pivoted(B: Matrix, n: nat, k: nat): (S: Matrix)
    requires IsSquare(B, n) && k < n && PivotRow(B, n, k, k) < n
    ensures IsSquare(S, n) && S[k][k] != 0.0 && Lead(S, n, k) == Lead(B, n, k)
  {
    Swap(B, PivotRow(B, n, k, k), k)
  }

  /** Stage k leads from s to t: the pivot row is exchanged with row k and the rows below are rewritten. */
  ghost predicate Follows(n: nat, k: nat, s: Snapshot, t: Snapshot) {
    && IsSquare(s.B, n) && |s.perm| == n && k < n && Lead(s.B, n, k) != 0.0
    && PivotRow(s.B, n, k, k) < n
    && t == Snapshot(Swap(s.perm, PivotRow(s.B, n, k, k), k), Stage(Pivoted(s.B, n, k), n, k))
  }

  /** The matrices that the stages produce one from the other, starting with A. */
  ghost predicate IsRun(A: Matrix, n: nat, trace: seq<Snapshot>) {
    && IsSquare(A, n)
    && 0 < |trace| <= n && trace[0] == Snapshot(Iota(n), A)
    && forall k | 0 < k < |trace| :: Follows(n, k - 1, trace[k - 1], trace[k])
  }

  /** The run has reached the last column, or a column without pivot. */
  ghost predicate IsFinished(n: nat, trace: seq<Snapshot>) {
    var k := |trace| - 1;
    0 < |trace| <= n && (k == n - 1 || (IsSquare(trace[k].B, n) && PivotRow(trace[k].B, n, k, k) == n))
  }

  lemma NextProgress(A: Matrix, B: Matrix, G: Matrix, perm: seq<nat>, n: nat, k: nat, sign: int, p: nat)
    requires IsSquare(A, n) && Progress(A, B, G, perm, n, k, sign) && k < n && p == PivotRow(B, n, k, k) < n
    ensures Swap(G, p, k)[k][k] != 0.0 && Follows(n, k, Snapshot(perm, B),
      Snapshot(Swap(perm, p, k), Stage(Pivoted(B, n, k), n, k)))
    ensures Progress(A, Stage(Pivoted(B, n, k), n, k), Eliminate(Swap(G, p, k), n, k), Swap(perm, p, k), n, k + 1,
      if p == k then sign else -sign)
  {
    if p == k {
      assert Swap(B, p, k) == B && Swap(G, p, k) == G && Swap(perm, p, k) == perm;
      StageProgress(A, B, G, perm, n, k, sign);
    } else {
      SwapProgress(A, B, G, perm, n, k, sign, p, k);
      StageProgress(A, Swap(B, p, k), Swap(G, p, k), Swap(perm, p, k), n, k, -sign);
    }
  }

  lemma {:induction false} RunProgress(A: Matrix, n: nat, trace: seq<Snapshot>, k: nat) returns (G: Matrix, sign: int)
    requires IsRun(A, n, trace) && k < |trace|
    ensures Progress(A, trace[k].B, G, trace[k].perm, n, k, sign)
  {
    if k == 0 {
      StartProgress(A, n);
      G, sign := A, 1;
    } else {
      G, sign := RunProgress(A, n, trace, k - 1);
      var s := trace[k - 1];
      var p := PivotRow(s.B, n, k - 1, k - 1);
      assert Follows(n, k - 1, s, trace[k]);
      NextProgress(A, s.B, G, s.perm, n, k - 1, sign, p);
      G, sign := Eliminate(Swap(G, p, k - 1), n, k - 1), if p == k - 1 then sign else -sign;
    }
  }

  /** In every matrix of the run, each entry not yet eliminated is a minor of A with k + 1 distinct rows and columns. */
  lemma RunMinors(A: Matrix, n: nat, trace: seq<Snapshot>, k: nat, i: nat, j: nat)
    requires IsRun(A, n, trace) && k < |trace| && k <= i < n && k <= j < n
    ensures IsSquare(trace[k].B, n) && |trace[k].perm| == n && IsPermutation(trace[k].perm)
    ensures trace[k].B[i][j] == Minor(A, n, trace[k].perm[..k] + [trace[k].perm[i]], Iota(k) + [j])
  {
    var G, sign := RunProgress(A, n, trace, k);
    ProgressMinor(A, trace[k].B, G, trace[k].perm, n, k, sign, i, j);
  }

  /** The division of a stage for the entry (i, j): a quotient of integers that is an integer. */
  ghost predicate ExactDivision(S: Matrix, n: nat, k: nat, i: nat, j: nat)
    requires IsSquare(S, n) && k < n && i < n && j < n && Lead(S, n, k) != 0.0
  {
    && IsInteger(Numerator(S[k][k], S[i][j], S[i][k], S[k][j])) && IsInteger(Lead(S, n, k))
    && IsInteger(StageEntry(S[k][k], S[i][j], S[i][k], S[k][j], Lead(S, n, k)))
  }

  /** Every division of a stage is exact and leaves integers. */
  ghost predicate ExactStage(n: nat, k: nat, s: Snapshot, t: Snapshot) {
    && Follows(n, k, s, t) && IntegerEntries(t.B)
    && forall i, j | k < i < n && k < j < n :: ExactDivision(Pivoted(s.B, n, k), n, k, i, j)
  }

  lemma IntegerNumerator(p: real, e: real, f: real, y: real)
    requires IsInteger(p) && IsInteger(e) && IsInteger(f) && IsInteger(y)
    ensures IsInteger(Numerator(p, e, f, y))
  {
    IntegerProduct(p, e);
    IntegerProduct(f, y);
    IntegerNegation(Times(f, y));
    IntegerSum(Times(p, e), -Times(f, y));
    assert Numerator(p, e, f, y) == Times(p, e) + -Times(f, y);
  }

  lemma LeadIsInteger(B: Matrix, n: nat, k: nat)
    requires IsSquare(B, n) && k <= n && IntegerEntries(B)
    ensures IsInteger(Lead(B, n, k))
  {
    IntegerIs(1, 1.0);
  }

  lemma PivotedIsIntegral(B: Matrix, n: nat, k: nat)
    requires IsSquare(B, n) && k < n && PivotRow(B, n, k, k) < n && IntegerEntries(B)
    ensures IntegerEntries(Pivoted(B, n, k))
  {
  }

  /** The new entry is a minor of A, so the quotient that made it is an integer. */
  lemma DivisionIsExact(A: Matrix, n: nat, trace: seq<Snapshot>, k: nat, i: nat, j: nat)
    requires IsRun(A, n, trace) && IntegerEntries(A) && k + 1 < |trace| && k < i < n && k < j < n
    requires IsSquare(trace[k].B, n) && IntegerEntries(trace[k].B) && Follows(n, k, trace[k], trace[k + 1])
    ensures ExactDivision(Pivoted(trace[k].B, n, k), n, k, i, j)
  {
    var S, t := Pivoted(trace[k].B, n, k), trace[k + 1];
    PivotedIsIntegral(trace[k].B, n, k);
    LeadIsInteger(S, n, k);
    IntegerNumerator(S[k][k], S[i][j], S[i][k], S[k][j]);
    RunMinors(A, n, trace, k + 1, i, j);
    IntegerDet(Sub(A, n, t.perm[..k + 1] + [t.perm[i]], Iota(k + 1) + [j]), 0);
    assert t.B[i][j] == StageEntry(S[k][k], S[i][j], S[i][k], S[k][j], Lead(S, n, k));
  }

  lemma ExactStageIsIntegral(n: nat, k: nat, s: Snapshot, t: Snapshot)
    requires Follows(n, k, s, t) && IntegerEntries(s.B)
    requires forall i, j | k < i < n && k < j < n :: ExactDivision(Pivoted(s.B, n, k), n, k, i, j)
    ensures IntegerEntries(t.B)
  {
    PivotedIsIntegral(s.B, n, k);
    var S := Pivoted(s.B, n, k);
    forall i, j | 0 <= i < n && 0 <= j < n
      ensures IsInteger(t.B[i][j])
    {
      if k < i && k < j {
        assert ExactDivision(S, n, k, i, j);
        assert t.B[i][j] == StageEntry(S[k][k], S[i][j], S[i][k], S[k][j], Lead(S, n, k));
      } else {
        assert t.B[i][j] == S[i][j];
      }
    }
  }

  /** On an integer matrix every division of the run is exact, and all its matrices have integer entries. */
  lemma {:induction false} RunIsExact(A: Matrix, n: nat, trace: seq<Snapshot>, k: nat)
    requires IsRun(A, n, trace) && IntegerEntries(A) && k < |trace|
    ensures IsSquare(trace[k].B, n) && IntegerEntries(trace[k].B)
    ensures k > 0 ==> ExactStage(n, k - 1, trace[k - 1], trace[k])
  {
    if k > 0 {
      RunIsExact(A, n, trace, k - 1);
      assert Follows(n, k - 1, trace[k - 1], trace[k]);
      var S, m := Pivoted(trace[k - 1].B, n, k - 1), k - 1;
      forall i, j | m < i < n && m < j < n
        ensures ExactDivision(S, n, m, i, j)
      {
        DivisionIsExact(A, n, trace, m, i, j);
      }
      ExactStageIsIntegral(n, k - 1, trace[k - 1], trace[k]);
    }
  }

  // ----- the algorithm

  method RowExchange(B: array2<real>, i: nat, j: nat)
    requires i != j && i < B.Length0 && j < B.Length0
    modifies B
    ensures Rows(B) == Swap(old(Rows(B)), i, j)
  {
    for k := 0 to B.Length1
      invariant forall r, c | 0 <= r < B.Length0 && 0 <= c < B.Length1 ::
        B[r, c] == if c < k && r == i then old(B[j, c]) else if c < k && r == j then old(B[i, c]) else old(B[r, c])
    {
      B[i, k], B[j, k] := B[j, k], B[i, k];
    }
    SameRows(Rows(B), Swap(old(Rows(B)), i, j), B.Length1);
  }

  lemma SameRows(M: Matrix, N: Matrix, m: nat)
    requires |M| == |N| && forall i | 0 <= i < |M| :: |M[i]| == |N[i]| == m
    requires forall i, j | 0 <= i < |M| && 0 <= j < m :: M[i][j] == N[i][j]
    ensures M == N
  {
    assert forall i | 0 <= i < |M| :: M[i] == N[i];
  }

  /** The inner loop of a stage: rewrites row i beyond column k. */
  method EliminateRow(B: array2<real>, k: nat, i: nat)
    requires B.Length0 == B.Length1 && k < i < B.Length0
    requires Lead(Rows(B), B.Length0, k) != 0.0
    modifies B
    ensures Rows(B) == old(Rows(B))[i := StageRow(old(Rows(B)), B.Length0, k, i)]
  {
    var n := B.Length0;
    ghost var R := Rows(B);
    ghost var r' := StageRow(R, n, k, i);
    for j := k + 1 to n
      invariant forall r, c | 0 <= r < n && 0 <= c < n :: B[r, c] == if r == i && c < j then r'[c] else R[r][c]
    {
      var d := B[k, k] * B[i, j] - B[i, k] * B[k, j];
      assert d == Numerator(R[k][k], R[i][j], R[i][k], R[k][j]);
      if k > 0 {
        d := d / B[k - 1, k - 1];
      }
      assert d == r'[j];
      B[i, j] := d;
    }
    SameRows(Rows(B), R[i := r'], n);
  }

  method EliminateBelow(B: array2<real>, k: nat)
    requires B.Length0 == B.Length1 && k < B.Length0
    requires Lead(Rows(B), B.Length0, k) != 0.0
    modifies B
    ensures Rows(B) == Stage(old(Rows(B)), B.Length0, k)
  {
    var n := B.Length0;
    ghost var R := Rows(B);
    for i := k + 1 to n
      invariant Rows(B) == Stage(R, n, k)[..i] + R[i..]
    {
      assert StageRow(Rows(B), n, k, i) == StageRow(R, n, k, i);
      EliminateRow(B, k, i);
    }
  }

  /** The first row from k on with a nonzero entry in column k, n if there is none. */
  method FindPivot(B: array2<real>, k: nat) returns (i: nat)
    requires B.Length0 == B.Length1 && k < B.Length0
    ensures k <= i <= B.Length0 && i == PivotRow(Rows(B), B.Length0, k, k)
  {
    i := k;
    while i < B.Length0 && B[i, k] == 0.0
      invariant k <= i <= B.Length0 && forall r | k <= r < i :: B[r, k] == 0.0
    {
      i := i + 1;
    }
    PivotRowIs(Rows(B), B.Length0, k, k, i);
  }

  /** The closed formulas for n = 1, 2, 3. */
  method SmallDet(A: array2<real>) returns (det: real)
    requires A.Length0 == A.Length1 && 1 <= A.Length0 <= 3
    ensures det == Det(Rows(A), 0)
  {
    ghost var R := Rows(A);
    if A.Length0 == 1 {
      Det1(R[0], 0);
      assert R == [R[0]];
      det := A[0, 0];
    } else if A.Length0 == 2 {
      Det2(R[0], R[1], 0);
      assert R == [R[0], R[1]];
      det := A[0, 0] * A[1, 1] - A[0, 1] * A[1, 0];
    } else {
      Det3(R[0], R[1], R[2], 0);
      assert R == [R[0], R[1], R[2]];
      det := (A[0, 0] * A[1, 1] * A[2, 2] + A[0, 1] * A[1, 2] * A[2, 0] + A[0, 2] * A[1, 0] * A[2, 1])
           - (A[0, 2] * A[1, 1] * A[2, 0] + A[0, 1] * A[1, 0] * A[2, 2] + A[0, 0] * A[1, 2] * A[2, 1]);
    }
  }

  method CopyInto(A: array2<real>, B: array2<real>)
    requires A != B && A.Length0 == B.Length0 && A.Length1 == B.Length1
    modifies B
    ensures Rows(B) == Rows(A)
  {
    forall r, c | 0 <= r < A.Length0 && 0 <= c < A.Length1 {
      B[r, c] := A[r, c];
    }
    SameRows(Rows(B), Rows(A), A.Length1);
  }

  method Copy(A: array2<real>) returns (B: array2<real>)
    ensures fresh(B) && B.Length0 == A.Length0 && B.Length1 == A.Length1
    ensures Rows(B) == Rows(A)
  {
    B := new real[A.Length0, A.Length1]((i, j) requires 0 <= i < A.Length0 && 0 <= j < A.Length1 reads A => A[i, j]);
    SameRows(Rows(B), Rows(A), A.Length1);
  }

  /** One round of the outer loop, which is a stage of the run; it fails when column k has no pivot left. */
  method BareissRound(B: array2<real>, k: nat, sign: int, ghost A: Matrix, ghost G: Matrix, ghost perm: seq<nat>)
    returns (found: bool, sign': int, ghost G': Matrix, ghost perm': seq<nat>)
    requires B.Length0 == B.Length1 && k < B.Length0 && IsSquare(A, B.Length0)
    requires Progress(A, Rows(B), G, perm, B.Length0, k, sign)
    modifies B
    ensures found <==> PivotRow(old(Rows(B)), B.Length0, k, k) < B.Length0
    ensures found ==> Progress(A, Rows(B), G', perm', B.Length0, k + 1, sign')
    ensures found ==> Follows(B.Length0, k, Snapshot(perm, old(Rows(B))), Snapshot(perm', Rows(B)))
    ensures !found ==> Rows(B) == old(Rows(B)) && Det(A, 0) == 0.0
  {
    var n := B.Length0;
    ghost var R := Rows(B);
    sign', G', perm' := sign, G, perm;
    var i := FindPivot(B, k);
    if i == n {
      NoPivotProgress(A, R, G, perm, n, k, sign);
      return false, sign, G, perm;
    }
    NextProgress(A, R, G, perm, n, k, sign, i);
    if i != k {
      RowExchange(B, i, k);
      sign' := sign * -1;
    }
    assert Rows(B) == Pivoted(R, n, k);
    EliminateBelow(B, k);
    perm', G' := Swap(perm, i, k), Eliminate(Swap(G, i, k), n, k);
    found := true;
  }

  /**
   det_bareis: the determinant, for every n >= 1.  In the general case the trace is the sequence of matrices
   the stages go through, up to the last column or to the first one without pivot; on an integer matrix all
   of them are integral and every division is exact.
   */
  method DetBareis(A: array2<real>) returns (det: real, ghost trace: seq<Snapshot>)
    requires A.Length0 == A.Length1 >= 1
    ensures det == Det(Rows(A), 0)
    ensures A.Length0 > 3 ==> IsRun(Rows(A), A.Length0, trace) && IsFinished(A.Length0, trace)
    ensures A.Length0 > 3 && |trace| < A.Length0 ==> det == 0.0
    ensures A.Length0 > 3 && IntegerEntries(Rows(A)) ==>
      forall k | 0 < k < |trace| :: ExactStage(A.Length0, k - 1, trace[k - 1], trace[k])
  {
    if A.Length0 <= 3 {
      det := SmallDet(A);
      trace := [];
    } else {
      det, trace := EliminatedDet(A);
    }
  }

  /** The general case. */
  method EliminatedDet(A: array2<real>) returns (det: real, ghost trace: seq<Snapshot>)
    requires A.Length0 == A.Length1 >= 1
    ensures det == Det(Rows(A), 0)
    ensures IsRun(Rows(A), A.Length0, trace) && IsFinished(A.Length0, trace)
    ensures |trace| < A.Length0 ==> det == 0.0
    ensures IntegerEntries(Rows(A)) ==>
      forall k | 0 < k < |trace| :: ExactStage(A.Length0, k - 1, trace[k - 1], trace[k])
  {
    var n := A.Length0;
    ghost var R := Rows(A);
    var B := Copy(A);
    var sign := 1;
    ghost var perm, G := Iota(n), R;
    StartProgress(R, n);
    trace := [Snapshot(perm, R)];
    for k := 0 to n - 1
      invariant Rows(A) == R
      invariant Progress(R, Rows(B), G, perm, n, k, sign)
      invariant IsRun(R, n, trace) && |trace| == k + 1 && trace[k] == Snapshot(perm, Rows(B))
    {
      var found;
      found, sign, G, perm := BareissRound(B, k, sign, R, G, perm);
      if !found {
        RunExactness(R, n, trace);
        return 0.0, trace;
      }
      RunNext(R, n, trace, Snapshot(perm, Rows(B)));
      trace := trace + [Snapshot(perm, Rows(B))];
    }
    RunExactness(R, n, trace);
    FinalProgress(R, Rows(B), G, perm, n, sign);
    det := if sign == 1 then B[n - 1, n - 1] else -1.0 * B[n - 1, n - 1];
  }

  lemma RunNext(A: Matrix, n: nat, trace: seq<Snapshot>, s: Snapshot)
    requires IsRun(A, n, trace) && |trace| < n && Follows(n, |trace| - 1, trace[|trace| - 1], s)
    ensures IsRun(A, n, trace + [s])
  {
    var trace' := trace + [s];
    forall k | 0 < k < |trace'|
      ensures Follows(n, k - 1, trace'[k - 1], trace'[k])
    {
      assert trace'[k - 1] == trace[k - 1];
    }
  }

  lemma RunExactness(A: Matrix, n: nat, trace: seq<Snapshot>)
    requires IsRun(A, n, trace)
    ensures IntegerEntries(A) ==> forall k | 0 < k < |trace| :: ExactStage(n, k - 1, trace[k - 1], trace[k])
  {
    if IntegerEntries(A) {
      forall k | 0 < k < |trace|
        ensures ExactStage(n, k - 1, trace[k - 1], trace[k])
      {
        RunIsExact(A, n, trace, k);
      }
    }
  }

  lemma NoPivotProgress(A: Matrix, B: Matrix, G: Matrix, perm: seq<nat>, n: nat, k: nat, sign: int)
    requires IsSquare(A, n) && Progress(A, B, G, perm, n, k, sign) && k < n
    requires PivotRow(B, n, k, k) == n
    ensures Det(A, 0) == 0.0
  {
    NoPivot(Permute(A, n, perm), B, G, n, k);
  }
}
