/**
 Fraction-free decomposition and solving (src/dense_matrix.cpp).

 fraction_free_LU runs the stages of the fraction-free determinant without row exchanges and keeps what it
 eliminates; the result stands for a factorization once column i is divided by the pivots i and i - 1.
 */
module FractionFree {
  import opened Bareiss
  import opened Common
  import opened LuDecomposition
  import opened RealVectors
  import opened Substitution

  /** The state of the elimination before stage k. */
  ghost predicate Staged(A: Matrix, B: Matrix, G: Matrix, n: nat, k: nat) {
    && k <= n && IsSquare(A, n) && IsSquare(B, n) && IsSquare(G, n)
    && Scaled(B, G, n, k) && SameMinors(A, G, n, k)
  }

  lemma StartStaged(A: Matrix, n: nat)
    requires IsSquare(A, n)
    ensures Staged(A, A, A, n, 0)
  {
    StartProgress(A, n);
    assert Permute(A, n, Iota(n)) == A;
  }

  /** Without row exchanges the pivots are the leading minors. */
  lemma StagedPivot(A: Matrix, B: Matrix, G: Matrix, n: nat, k: nat)
    requires Staged(A, B, G, n, k) && k < n
    ensures B[k][k] == LeadingMinor(A, n, k + 1)
  {
    EntryIsMinor(A, B, G, n, k, k, k);
    assert Iota(k) + [k] == Iota(k + 1);
  }

  lemma NextStaged(A: Matrix, B: Matrix, G: Matrix, n: nat, k: nat)
    requires Staged(A, B, G, n, k) && k < n && B[k][k] != 0.0
    ensures Lead(B, n, k) != 0.0 && G[k][k] != 0.0
    ensures Staged(A, Stage(B, n, k), Eliminate(G, n, k), n, k + 1)
  {
    StageScaled(B, G, n, k);
    EliminateMinors(A, G, n, k);
  }

  // ----- the factorization

  /** The first t entries of row j of the lower factor. */
  ghost function Divided(F: Matrix, n: nat, j: nat, t: nat): (l: Vector)
    requires IsSquare(F, n) && j < n && t <= n && Pivots(F, n, t)
    ensures |l| == n && forall i | 0 <= i < t :: Quotients(l[i], F[j][i], F[i][i], Lead(F, n, i))
  {
    seq(n, i requires 0 <= i < n => if i < t then F[j][i] / F[i][i] / Lead(F, n, i) else 0.0)
  }

  ghost predicate FactorEntry(A: Matrix, F: Matrix, n: nat, j: nat, c: nat, t: nat)
    requires IsSquare(A, n) && IsSquare(F, n) && j < n && c < n && t <= n && Pivots(F, n, t)
  {
    Splits(A[j][c], RangeDot(Divided(F, n, j, t), Column(F, c), 0, t), F[j][c], Lead(F, n, t))
  }

  /** After m stages entry (j, c) has gone through min(j, c, m) of them. */
  ghost predicate FactorAt(A: Matrix, F: Matrix, n: nat, m: nat, j: nat, c: nat)
    requires IsSquare(A, n) && IsSquare(F, n) && m <= n && Pivots(F, n, m) && j < n && c < n
  {
    FactorEntry(A, F, n, j, c, Min(Min(j, c), m))
  }

  ghost predicate Factoring(A: Matrix, F: Matrix, n: nat, m: nat)
    requires IsSquare(A, n)
  {
    && IsSquare(F, n) && m <= n && Pivots(F, n, m)
    && forall j, c | 0 <= j < n && 0 <= c < n :: FactorAt(A, F, n, m, j, c)
  }

  lemma StartFactoring(A: Matrix, n: nat)
    requires IsSquare(A, n)
    ensures Factoring(A, A, n, 0)
  {
    forall j, c | 0 <= j < n && 0 <= c < n
      ensures FactorAt(A, A, n, 0, j, c)
    {
    }
  }

  lemma SameFactorEntry(A: Matrix, F: Matrix, F': Matrix, n: nat, j: nat, c: nat, t: nat)
    requires IsSquare(A, n) && IsSquare(F, n) && IsSquare(F', n) && j < n && c < n && t <= n && Pivots(F, n, t)
    requires FactorEntry(A, F, n, j, c, t) && F'[j][c] == F[j][c]
    requires forall i | 0 <= i < t :: F'[j][i] == F[j][i] && F'[i][c] == F[i][c] && F'[i][i] == F[i][i]
    ensures Pivots(F', n, t) && FactorEntry(A, F', n, j, c, t)
  {
    assert forall i | 0 <= i <= t :: Lead(F', n, i) == Lead(F, n, i);
    RangeSame(Divided(F, n, j, t), Column(F, c), Divided(F', n, j, t), Column(F', c), 0, t);
  }

  ghost predicate StagedValue(F: Matrix, F': Matrix, n: nat, m: nat, j: nat, c: nat)
    requires IsSquare(F, n) && IsSquare(F', n) && m < n && j < n && c < n
  {
    Eliminated(F'[j][c], F[m][m], F[j][c], F[j][m], F[m][c], Lead(F, n, m))
  }

  /** What stage m does to the matrix. */
  ghost predicate IsStage(F: Matrix, F': Matrix, n: nat, m: nat)
    requires IsSquare(F, n)
  {
    && IsSquare(F', n) && m < n
    && (forall r | 0 <= r <= m :: F'[r] == F[r])
    && (forall r, c | m < r < n && 0 <= c <= m :: F'[r][c] == F[r][c])
    && (forall r, c | m < r < n && m < c < n :: StagedValue(F, F', n, m, r, c))
  }

  lemma StageIsStage(F: Matrix, n: nat, m: nat)
    requires IsSquare(F, n) && m < n && Lead(F, n, m) != 0.0
    ensures IsStage(F, Stage(F, n, m), n, m)
  {
    var F' := Stage(F, n, m);
    forall r, c | m < r < n && m < c < n
      ensures StagedValue(F, F', n, m, r, c)
    {
      assert F'[r][c] == StageEntry(F[m][m], F[r][c], F[r][m], F[m][c], Lead(F, n, m));
    }
  }

  /** The stage leaves the part of the factorization that is already in place. */
  lemma StageKeepsFactor(F: Matrix, F': Matrix, n: nat, j: nat, c: nat, m: nat)
    requires IsSquare(F, n) && IsStage(F, F', n, m) && m < j < n && m < c < n && Pivots(F, n, m + 1)
    ensures Pivots(F', n, m + 1) && Lead(F', n, m + 1) == F[m][m]
    ensures Divided(F', n, j, m + 1) == Divided(F, n, j, m + 1)
    ensures forall i | 0 <= i <= m :: Column(F', c)[i] == F[i][c]
  {
    assert forall i | 0 <= i <= m :: Lead(F', n, i) == Lead(F, n, i) && F'[i] == F[i] && F'[j][i] == F[j][i];
    var l, l' := Divided(F, n, j, m + 1), Divided(F', n, j, m + 1);
    forall i | 0 <= i < n
      ensures l'[i] == l[i]
    {
    }
  }

  lemma StagedFactorEntry(A: Matrix, F: Matrix, F': Matrix, n: nat, j: nat, c: nat, m: nat)
    requires IsSquare(A, n) && IsSquare(F, n) && IsStage(F, F', n, m) && m < j < n && m < c < n && Pivots(F, n, m + 1)
    requires FactorEntry(A, F, n, j, c, m)
    ensures Pivots(F', n, m + 1) && FactorEntry(A, F', n, j, c, m + 1)
  {
    var l := Divided(F, n, j, m + 1);
    var x, x', d, e' := Column(F, c), Column(F', c), Lead(F, n, m), F'[j][c];
    StageKeepsFactor(F, F', n, j, c, m);
    assert StagedValue(F, F', n, m, j, c);
    RangeSame(Divided(F, n, j, m), x, l, x, 0, m);
    assert Quotients(l[m], F[j][m], F[m][m], d);
    ForwardEntryStep(l, x, x', m, d, F[m][m], F[j][m], F[m][c], A[j][c], F[j][c], e');
  }

  lemma KeptFactorEntry(A: Matrix, F: Matrix, F': Matrix, n: nat, j: nat, c: nat, m: nat, t: nat)
    requires IsSquare(A, n) && IsSquare(F, n) && IsStage(F, F', n, m) && j < n && c < n
    requires (j <= m || c <= m) && t <= m && Pivots(F, n, m + 1)
    requires FactorEntry(A, F, n, j, c, t)
    ensures Pivots(F', n, m + 1) && FactorEntry(A, F', n, j, c, t)
  {
    assert forall i | 0 <= i <= m :: F'[i] == F[i] && F'[j][i] == F[j][i];
    SameFactorEntry(A, F, F', n, j, c, t);
  }

  lemma NextFactorAt(A: Matrix, F: Matrix, F': Matrix, n: nat, m: nat, j: nat, c: nat)
    requires IsSquare(A, n) && IsSquare(F, n) && IsStage(F, F', n, m) && Pivots(F, n, m + 1)
    requires j < n && c < n && FactorAt(A, F, n, m, j, c)
    ensures Pivots(F', n, m + 1) && FactorAt(A, F', n, m + 1, j, c)
  {
    var t := Min(Min(j, c), m);
    if j > m && c > m {
      assert t == m && Min(Min(j, c), m + 1) == m + 1;
      StagedFactorEntry(A, F, F', n, j, c, m);
    } else {
      assert Min(Min(j, c), m + 1) == t;
      KeptFactorEntry(A, F, F', n, j, c, m, t);
    }
  }

  lemma NextFactoring(A: Matrix, F: Matrix, F': Matrix, n: nat, m: nat)
    requires IsSquare(A, n) && m < n && Factoring(A, F, n, m) && F[m][m] != 0.0 && IsStage(F, F', n, m)
    ensures Factoring(A, F', n, m + 1)
  {
    var m' := m + 1;
    assert Pivots(F', n, m');
    forall j, c | 0 <= j < n && 0 <= c < n
      ensures FactorAt(A, F', n, m', j, c)
    {
      assert FactorAt(A, F, n, m, j, c);
      NextFactorAt(A, F, F', n, m, j, c);
    }
  }

  lemma DividePivot(g: real, x: real, p: real, d: real)
    requires Quotients(g, x, p, d)
    ensures IsShare(g, p, x, d)
  {
    var q := x / p;
    assert q * p == x;
    assert q / d * p == (q * p) / d;
  }

  /** The finished elimination is a factorization of the input. */
  lemma FactoringIsProduct(A: Matrix, F: Matrix, n: nat)
    requires n > 0 && IsSquare(A, n) && Factoring(A, F, n, n - 1)
    ensures IsProduct(A, Lower(F, n), Upper(F, n), n)
  {
    forall j, c | 0 <= j < n && 0 <= c < n
      ensures A[j][c] == Dot(Lower(F, n)[j], Column(Upper(F, n), c))
    {
      FactorEntryIsProduct(A, F, n, j, c);
    }
  }

  lemma FactorEntryIsProduct(A: Matrix, F: Matrix, n: nat, j: nat, c: nat)
    requires n > 0 && IsSquare(A, n) && Factoring(A, F, n, n - 1) && j < n && c < n
    ensures A[j][c] == Dot(Lower(F, n)[j], Column(Upper(F, n), c))
  {
    var t := Min(j, c);
    assert Min(t, n - 1) == t;
    assert FactorAt(A, F, n, n - 1, j, c);
    LowerPrefix(F, n, j, t);
    LastTerm(F, n, j, c);
    FactorRow(Lower(F, n)[j], Column(Upper(F, n), c), Divided(F, n, j, t), Column(F, c), n, j, c, t, A[j][c], F[j][c],
      Lead(F, n, t));
  }

  lemma FactorRow(l: Vector, u: Vector, v: Vector, w: Vector, n: nat, j: nat, c: nat, t: nat, a: real, x: real, d: real)
    requires |l| == |u| == |v| == |w| == n && j < n && c < n && t == Min(j, c)
    requires (forall k | j < k < n :: l[k] == 0.0) && (forall k | c < k < n :: u[k] == 0.0)
    requires forall k | 0 <= k < t :: v[k] == l[k] && w[k] == u[k]
    requires Splits(a, RangeDot(v, w, 0, t), x, d) && IsShare(l[t], u[t], x, d)
    ensures a == Dot(l, u)
  {
    TriangularEntry(l, u, n, j, c, t);
    RangeSame(v, w, l, u, 0, t);
    LastShare(a, RangeDot(v, w, 0, t), x, d, l[t], u[t]);
  }

  lemma LowerPrefix(F: Matrix, n: nat, j: nat, t: nat)
    requires n > 0 && IsSquare(F, n) && Pivots(F, n, n - 1) && t <= j < n
    ensures forall i | 0 <= i < t :: Lower(F, n)[j][i] == Divided(F, n, j, t)[i]
  {
    forall i | 0 <= i < t
      ensures Lower(F, n)[j][i] == Divided(F, n, j, t)[i]
    {
      LowerQuotients(F, n, j, i);
    }
  }

  lemma LastTerm(F: Matrix, n: nat, j: nat, c: nat)
    requires n > 0 && IsSquare(F, n) && Pivots(F, n, n - 1) && j < n && c < n
    ensures IsShare(Lower(F, n)[j][Min(j, c)], Column(Upper(F, n), c)[Min(j, c)], F[j][c], Lead(F, n, Min(j, c)))
  {
    var g, p := Lower(F, n)[j][Min(j, c)], Column(Upper(F, n), c)[Min(j, c)];
    if j <= c {
      assert p == F[j][c] && Min(j, c) == j;
      LowerDiagonal(F, n, j);
      OneOver(p, Lead(F, n, j), g);
    } else {
      assert p == F[c][c] && Min(j, c) == c;
      LowerQuotients(F, n, j, c);
      DividePivot(g, F[j][c], p, Lead(F, n, c));
    }
  }

  // ----- the algorithm

  /** The leading minors up to order m are not zero. */
  ghost predicate MinorsUpTo(A: Matrix, n: nat, m: nat)
    requires IsSquare(A, n) && m <= n
  {
    forall k | 1 <= k <= m :: LeadingMinor(A, n, k) != 0.0
  }

  /**
   fraction_free_LU.  Its pivots are the leading minors of A, and it divides by those before the last two.
   When the last but one is not zero either the result stands for a factorization of A.
   */
  method FractionFreeLU(A: array2<real>, F: array2<real>)
    requires A != F && A.Length0 == A.Length1 == F.Length0 == F.Length1 >= 1
    requires MinorsUpTo(Rows(A), A.Length0, Before(A.Length0 - 1))
    modifies F
    ensures PivotsAreMinors(Rows(A), Rows(F), A.Length0, A.Length0 - 1)
    ensures MinorsUpTo(Rows(A), A.Length0, A.Length0 - 1) ==>
      && PivotsAreMinors(Rows(A), Rows(F), A.Length0, A.Length0) && Pivots(Rows(F), A.Length0, A.Length0 - 1)
      && IsProduct(Rows(A), Lower(Rows(F), A.Length0), Upper(Rows(F), A.Length0), A.Length0)
  {
    var n := A.Length0;
    ghost var R := Rows(A);
    CopyInto(A, F);
    ghost var G := R;
    StartStaged(R, n);
    StartFactoring(R, n);
    for i := 0 to n - 1
      invariant Rows(A) == R
      invariant FactorsSoFar(R, Rows(F), G, n, i)
    {
      ghost var M := Rows(F);
      StageDivides(R, M, G, n, i);
      EliminateBelow(F, i);
      G := NextFactors(R, M, Rows(F), G, n, i);
    }
    LastFactorState(R, Rows(F), G, n);
  }

  ghost predicate FactorState(A: Matrix, F: Matrix, G: Matrix, n: nat, i: nat)
    requires IsSquare(A, n)
  {
    Staged(A, F, G, n, i) && Factoring(A, F, n, i) && PivotsAreMinors(A, F, n, i)
  }

  /** The state before stage i, as long as no pivot was zero; the pivot of the last stage may be. */
  ghost predicate FactorsSoFar(A: Matrix, F: Matrix, G: Matrix, n: nat, i: nat)
    requires IsSquare(A, n)
  {
    && i < n && IsSquare(F, n) && PivotsAreMinors(A, F, n, i) && MinorsUpTo(A, n, Before(i))
    && (MinorsUpTo(A, n, i) ==> FactorState(A, F, G, n, i))
  }

  lemma StageDivides(A: Matrix, F: Matrix, G: Matrix, n: nat, i: nat)
    requires IsSquare(A, n) && i < n - 1 && MinorsUpTo(A, n, Before(n - 1)) && FactorsSoFar(A, F, G, n, i)
    ensures FactorState(A, F, G, n, i) && Lead(F, n, i) != 0.0
    ensures F[i][i] == LeadingMinor(A, n, i + 1)
  {
    assert MinorsUpTo(A, n, i);
    StagedPivot(A, F, G, n, i);
    if i > 0 {
      NonzeroMinor(A, n, i);
    }
  }

  lemma NextFactors(A: Matrix, F: Matrix, F': Matrix, G: Matrix, n: nat, i: nat) returns (G': Matrix)
    requires IsSquare(A, n) && i < n - 1 && FactorState(A, F, G, n, i) && MinorsUpTo(A, n, i) && Lead(F, n, i) != 0.0
    requires F[i][i] == LeadingMinor(A, n, i + 1) && F' == Stage(F, n, i)
    ensures FactorsSoFar(A, F', G', n, i + 1)
  {
    G' := G;
    KeptPivots(A, F, F', n, i);
    if MinorsUpTo(A, n, i + 1) {
      NextStaged(A, F, G, n, i);
      StageIsStage(F, n, i);
      NextFactoring(A, F, F', n, i);
      G' := Eliminate(G, n, i);
    }
  }

  lemma KeptPivots(A: Matrix, F: Matrix, F': Matrix, n: nat, i: nat)
    requires IsSquare(A, n) && IsSquare(F, n) && IsSquare(F', n) && i < n && PivotsAreMinors(A, F, n, i)
    requires F[i][i] == LeadingMinor(A, n, i + 1) && forall k | 0 <= k <= i :: F'[k] == F[k]
    ensures PivotsAreMinors(A, F', n, i + 1)
  {
  }

  lemma LastFactorState(A: Matrix, F: Matrix, G: Matrix, n: nat)
    requires IsSquare(A, n) && n > 0 && FactorsSoFar(A, F, G, n, n - 1)
    ensures MinorsUpTo(A, n, n - 1) ==>
      && PivotsAreMinors(A, F, n, n) && Pivots(F, n, n - 1) && IsProduct(A, Lower(F, n), Upper(F, n), n)
  {
    if MinorsUpTo(A, n, n - 1) {
      StagedPivot(A, F, G, n, n - 1);
      FactoringIsProduct(A, F, n);
    }
  }

  ghost predicate PivotsAreMinors(A: Matrix, F: Matrix, n: nat, i: nat)
    requires IsSquare(A, n) && IsSquare(F, n) && i <= n
  {
    forall k | 0 <= k < i :: F[k][k] == LeadingMinor(A, n, k + 1)
  }

  lemma NonzeroMinor(A: Matrix, n: nat, m: nat)
    requires IsSquare(A, n) && m <= n && MinorsUpTo(A, n, m) && 1 <= m
    ensures LeadingMinor(A, n, m) != 0.0
  {
  }

  lemma AllPivots(A: Matrix, F: Matrix, n: nat)
    requires IsSquare(A, n) && IsSquare(F, n) && LeadingMinors(A, n) && n > 0
    ensures MinorsUpTo(A, n, n - 1) && MinorsUpTo(A, n, Before(n - 1))
    ensures PivotsAreMinors(A, F, n, n) ==> Pivots(F, n, n) && Pivots(F, n, n - 1) && Pivots(F, n, Before(n - 1))
  {
    forall k | 0 <= k < n && PivotsAreMinors(A, F, n, n)
      ensures F[k][k] != 0.0
    {
      assert LeadingMinor(A, n, k + 1) != 0.0;
    }
  }

  /** fraction_free_LU_solve: A x = b. */
  method FractionFreeLUSolve(A: array2<real>, b: array<real>, x: array<real>)
    requires A.Length0 == A.Length1 == b.Length == x.Length >= 1 && b != x
    requires LeadingMinors(Rows(A), A.Length0)
    modifies x
    ensures Solves(Rows(A), A.Length0, x[..], b[..])
  {
    var n := A.Length0;
    var F, x_ := new real[n, n], new real[n];
    AllPivots(Rows(A), Rows(F), n);
    FractionFreeLU(A, F);
    ghost var R := Rows(F);
    AllPivots(Rows(A), R, n);
    ForwardSubstitution(F, b, x_);
    BackSubstitution(F, x_, x);
    SolveByFactors(Rows(A), Lower(R, n), Upper(R, n), n, x[..], x_[..], b[..]);
  }
}
