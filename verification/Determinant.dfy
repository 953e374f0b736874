/**
 Determinants over an exact field, by expansion along the first column, and the theory that
 elimination algorithms rest on: linearity in a row, sign change under row exchange, invariance under
 row addition, and the values on triangular and singular shapes.
 */
module Determinant {
  import opened Common
  import opened Powers

  type Row = seq<real>

  ghost predicate Wide(R: seq<Row>, w: nat) {
    forall i | 0 <= i < |R| :: |R[i]| >= w
  }

  ghost function Without(R: seq<Row>, i: nat): (S: seq<Row>)
    requires i < |R|
    ensures |S| == |R| - 1
    ensures forall k | 0 <= k < |S| :: S[k] == if k < i then R[k] else R[k + 1]
  {
    R[..i] + R[i + 1..]
  }

  function Signed(i: nat, x: real): real {
    if i % 2 == 0 then x else -x
  }

  /** The determinant of the square block that the rows R have in columns c, ..., c + |R| - 1. */
  ghost function Det(R: seq<Row>, c: nat): real
    requires Wide(R, c + |R|)
    decreases |R|, |R| + 1
  {
    if R == [] then 1.0 else Expand(R, c, 0)
  }

  /** The terms of the expansion along column c that belong to rows i, i + 1, ... */
  ghost function Expand(R: seq<Row>, c: nat, i: nat): real
    requires Wide(R, c + |R|) && i <= |R|
    decreases |R|, |R| - i
  {
    if i == |R| then 0.0 else Term(R, c, i) + Expand(R, c, i + 1)
  }

  ghost function Term(R: seq<Row>, c: nat, i: nat): real
    requires Wide(R, c + |R|) && i < |R|
    decreases |R|, 0
  {
    Times(Signed(i, R[i][c]), Det(Without(R, i), c + 1))
  }

  lemma ExpandStep(R: seq<Row>, c: nat, i: nat)
    requires Wide(R, c + |R|) && i < |R|
    ensures Expand(R, c, i) == Term(R, c, i) + Expand(R, c, i + 1)
  {
  }

  // ----- linearity

  ghost predicate IsCombination(w: Row, u: Row, f: real, v: Row) {
    |w| == |u| == |v| && forall j | 0 <= j < |w| :: w[j] == u[j] + Times(f, v[j])
  }

  lemma {:induction false} Linear(R: seq<Row>, c: nat, k: nat, w: Row, u: Row, f: real, v: Row)
    requires Wide(R, c + |R|) && k < |R| && IsCombination(w, u, f, v) && |w| >= c + |R|
    ensures Det(R[k := w], c) == Det(R[k := u], c) + Times(f, Det(R[k := v], c))
    decreases |R|, |R| + 1
  {
    LinearExpand(R, c, k, w, u, f, v, 0);
  }

  lemma {:induction false} LinearExpand(R: seq<Row>, c: nat, k: nat, w: Row, u: Row, f: real, v: Row, i: nat)
    requires Wide(R, c + |R|) && k < |R| && IsCombination(w, u, f, v) && |w| >= c + |R| && i <= |R|
    ensures Expand(R[k := w], c, i) == Expand(R[k := u], c, i) + Times(f, Expand(R[k := v], c, i))
    decreases |R|, |R| - i
  {
    if i < |R| {
      LinearTerm(R, c, k, w, u, f, v, i);
      LinearExpand(R, c, k, w, u, f, v, i + 1);
      LinearSum(R[k := w], R[k := u], f, R[k := v], c, i);
    } else {
      TimesUnits(f);
    }
  }

  lemma LinearSum(W: seq<Row>, U: seq<Row>, f: real, V: seq<Row>, c: nat, i: nat)
    requires |W| == |U| == |V| && Wide(W, c + |W|) && Wide(U, c + |U|) && Wide(V, c + |V|) && i < |W|
    requires Term(W, c, i) == Term(U, c, i) + Times(f, Term(V, c, i))
    requires Expand(W, c, i + 1) == Expand(U, c, i + 1) + Times(f, Expand(V, c, i + 1))
    ensures Expand(W, c, i) == Expand(U, c, i) + Times(f, Expand(V, c, i))
  {
    ExpandStep(W, c, i);
    ExpandStep(U, c, i);
    ExpandStep(V, c, i);
    TimesDistributes(Term(V, c, i), Expand(V, c, i + 1), f);
  }

  lemma {:induction false} LinearTerm(R: seq<Row>, c: nat, k: nat, w: Row, u: Row, f: real, v: Row, i: nat)
    requires Wide(R, c + |R|) && k < |R| && IsCombination(w, u, f, v) && |w| >= c + |R| && i < |R|
    ensures Term(R[k := w], c, i) == Term(R[k := u], c, i) + Times(f, Term(R[k := v], c, i))
    decreases |R|, 0
  {
    if i == k {
      WithoutSame(R, k, w);
      WithoutSame(R, k, u);
      WithoutSame(R, k, v);
      Distribute(i, w[c], u[c], f, v[c], Det(Without(R, i), c + 1));
    } else {
      var S, m := Without(R, i), if i < k then k - 1 else k;
      WithoutOther(R, i, k, w);
      WithoutOther(R, i, k, u);
      WithoutOther(R, i, k, v);
      Linear(S, c + 1, m, w, u, f, v);
      DistributeRight(Signed(i, R[i][c]), Det(S[m := w], c + 1), Det(S[m := u], c + 1), f, Det(S[m := v], c + 1));
    }
  }

  lemma WithoutSame(R: seq<Row>, k: nat, w: Row)
    requires k < |R|
    ensures Without(R[k := w], k) == Without(R, k)
  {
  }

  lemma WithoutOther(R: seq<Row>, i: nat, k: nat, w: Row)
    requires i < |R| && k < |R| && i != k
    ensures Without(R[k := w], i) == Without(R, i)[(if i < k then k - 1 else k) := w]
  {
  }

  lemma Distribute(i: nat, w: real, u: real, f: real, v: real, d: real)
    requires w == u + Times(f, v)
    ensures Times(Signed(i, w), d) == Times(Signed(i, u), d) + Times(f, Times(Signed(i, v), d))
  {
    TimesNegates(f, v);
    TimesDistributes(Signed(i, u), Times(f, Signed(i, v)), d);
    TimesAssociative(f, Signed(i, v), d);
  }

  lemma DistributeRight(s: real, w: real, u: real, f: real, v: real)
    requires w == u + Times(f, v)
    ensures Times(s, w) == Times(s, u) + Times(f, Times(s, v))
  {
    TimesDistributes(u, Times(f, v), s);
    TimesExchange(s, f, v);
  }

  // ----- exchanging rows

  lemma {:induction false} AdjacentSwap(R: seq<Row>, c: nat, k: nat)
    requires Wide(R, c + |R|) && k + 1 < |R|
    ensures Det(Swap(R, k, k + 1), c) == -Det(R, c)
    decreases |R|, |R| + 1
  {
    AdjacentExpand(R, Swap(R, k, k + 1), c, k, 0);
  }

  lemma {:induction false} AdjacentExpand(R: seq<Row>, S: seq<Row>, c: nat, k: nat, i: nat)
    requires Wide(R, c + |R|) && k + 1 < |R| && i <= |R| && i != k + 1
    requires S == Swap(R, k, k + 1) && Wide(S, c + |S|)
    ensures Expand(S, c, i) == -Expand(R, c, i)
    decreases |R|, |R| - i
  {
    if i == k {
      AdjacentExpand(R, S, c, k, k + 2);
      ExchangedTerms(R, S, c, k);
      NegatedTwice(S, R, c, k);
    } else if i < |R| {
      AdjacentTerm(R, S, c, k, i);
      AdjacentExpand(R, S, c, k, i + 1);
      NegatedOnce(S, R, c, i);
    }
  }

  lemma NegatedOnce(S: seq<Row>, R: seq<Row>, c: nat, i: nat)
    requires |S| == |R| && Wide(R, c + |R|) && Wide(S, c + |S|) && i < |R|
    requires Term(S, c, i) == -Term(R, c, i) && Expand(S, c, i + 1) == -Expand(R, c, i + 1)
    ensures Expand(S, c, i) == -Expand(R, c, i)
  {
    ExpandStep(S, c, i);
    ExpandStep(R, c, i);
  }

  lemma NegatedTwice(S: seq<Row>, R: seq<Row>, c: nat, i: nat)
    requires |S| == |R| && Wide(R, c + |R|) && Wide(S, c + |S|) && i + 1 < |R|
    requires Term(S, c, i) == -Term(R, c, i + 1) && Term(S, c, i + 1) == -Term(R, c, i)
    requires Expand(S, c, i + 2) == -Expand(R, c, i + 2)
    ensures Expand(S, c, i) == -Expand(R, c, i)
  {
    ExpandTwice(S, c, i);
    ExpandTwice(R, c, i);
  }

  lemma ExpandTwice(R: seq<Row>, c: nat, i: nat)
    requires Wide(R, c + |R|) && i + 1 < |R|
    ensures Expand(R, c, i) == Term(R, c, i) + Term(R, c, i + 1) + Expand(R, c, i + 2)
  {
    ExpandStep(R, c, i);
    ExpandStep(R, c, i + 1);
  }

  lemma {:induction false} AdjacentTerm(R: seq<Row>, S: seq<Row>, c: nat, k: nat, i: nat)
    requires Wide(R, c + |R|) && k + 1 < |R| && i < |R| && i != k && i != k + 1
    requires S == Swap(R, k, k + 1) && Wide(S, c + |S|)
    ensures Term(S, c, i) == -Term(R, c, i)
    decreases |R|, 0
  {
    var m := if i < k then k - 1 else k;
    WithoutSwap(R, k, i);
    AdjacentSwap(Without(R, i), c + 1, m);
    TimesNegates(Signed(i, R[i][c]), Det(Without(R, i), c + 1));
  }

  lemma WithoutSwap(R: seq<Row>, k: nat, i: nat)
    requires k + 1 < |R| && i < |R| && i != k && i != k + 1
    ensures Without(Swap(R, k, k + 1), i) == Swap(Without(R, i), if i < k then k - 1 else k, if i < k then k else k + 1)
  {
  }

  lemma ExchangedTerms(R: seq<Row>, S: seq<Row>, c: nat, k: nat)
    requires Wide(R, c + |R|) && k + 1 < |R| && S == Swap(R, k, k + 1) && Wide(S, c + |S|)
    ensures Term(S, c, k) == -Term(R, c, k + 1)
    ensures Term(S, c, k + 1) == -Term(R, c, k)
  {
    assert Without(S, k) == Without(R, k + 1);
    assert Without(S, k + 1) == Without(R, k);
    SignStep(k, R[k][c]);
    SignStep(k, R[k + 1][c]);
    TimesNegates(Signed(k, R[k + 1][c]), Det(Without(R, k + 1), c + 1));
    TimesNegates(Signed(k, R[k][c]), Det(Without(R, k), c + 1));
  }

  lemma SignStep(k: nat, x: real)
    ensures Signed(k + 1, x) == -Signed(k, x)
  {
  }

  lemma {:induction false} EqualRows(R: seq<Row>, c: nat, a: nat, b: nat)
    requires Wide(R, c + |R|) && a < b < |R| && R[a] == R[b]
    ensures Det(R, c) == 0.0
    decreases b
  {
    AdjacentSwap(R, c, b - 1);
    if a == b - 1 {
      assert Swap(R, b - 1, b) == R;
    } else {
      EqualRows(Swap(R, b - 1, b), c, a, b - 1);
    }
  }

  /** Adding a multiple of one row to another leaves the determinant unchanged. */
  lemma RowAdd(R: seq<Row>, c: nat, a: nat, b: nat, f: real, w: Row)
    requires Wide(R, c + |R|) && a < |R| && b < |R| && a != b
    requires IsCombination(w, R[b], f, R[a])
    ensures Det(R[b := w], c) == Det(R, c)
  {
    Linear(R, c, b, w, R[b], f, R[a]);
    assert R[b := R[b]] == R;
    EqualRows(R[b := R[a]], c, if a < b then a else b, if a < b then b else a);
    TimesUnits(f);
  }

  /** Exchanging two rows changes the sign. */
  lemma SwapRows(R: seq<Row>, c: nat, a: nat, b: nat)
    requires Wide(R, c + |R|) && a < |R| && b < |R| && a != b && |R[a]| == |R[b]|
    ensures Det(Swap(R, a, b), c) == -Det(R, c)
  {
    var x, y := R[a], R[b];
    var z: Row := seq(|x|, j requires 0 <= j < |x| => x[j] + Times(1.0, y[j]));
    assert IsCombination(z, x, 1.0, y);
    var lo, hi := if a < b then a else b, if a < b then b else a;
    var Rz := R[a := z][b := z];
    EqualRows(Rz, c, lo, hi);
    Linear(R[a := z], c, b, z, x, 1.0, y);
    assert R[b := x][a := z] == R[a := z][b := x] && R[b := y][a := z] == R[a := z][b := y];
    Linear(R[b := x], c, a, z, x, 1.0, y);
    Linear(R[b := y], c, a, z, x, 1.0, y);
    EqualRows(R[b := x][a := x], c, lo, hi);
    EqualRows(R[b := y][a := y], c, lo, hi);
    assert R[b := y][a := x] == R;
    assert R[b := x][a := y] == Swap(R, a, b);
    TimesUnits(Det(R[b := y][a := y], c));
    TimesUnits(Det(R[b := y][a := x], c));
    TimesUnits(Det(R[b := y][a := z], c));
    TimesUnits(Det(R[b := x][a := y], c));
  }

  // ----- triangular and singular shapes

  lemma {:induction false} ExpandZero(R: seq<Row>, c: nat, i: nat)
    requires Wide(R, c + |R|) && i <= |R|
    requires forall k | i <= k < |R| :: R[k][c] == 0.0
    ensures Expand(R, c, i) == 0.0
    decreases |R| - i
  {
    if i < |R| {
      ExpandZero(R, c, i + 1);
      TimesUnits(Det(Without(R, i), c + 1));
    }
  }

  /** When column c is zero below the first row, only the first term is left. */
  lemma FirstPivot(R: seq<Row>, c: nat)
    requires R != [] && Wide(R, c + |R|)
    requires forall k | 1 <= k < |R| :: R[k][c] == 0.0
    ensures Det(R, c) == Times(R[0][c], Det(R[1..], c + 1))
  {
    ExpandZero(R, c, 1);
    assert Without(R, 0) == R[1..];
    assert Expand(R, c, 0) == Term(R, c, 0) + Expand(R, c, 1);
  }

  /** Zero below the diagonal in the first k columns of the block starting at column c. */
  ghost predicate Triangular(R: seq<Row>, c: nat, k: nat)
    requires Wide(R, c + |R|) && k <= |R|
  {
    forall i, j | 0 <= i < |R| && c <= j < c + k && j - c < i :: R[i][j] == 0.0
  }

  ghost function DiagonalProduct(R: seq<Row>, c: nat): real
    requires Wide(R, c + |R|)
  {
    if R == [] then 1.0 else Times(R[0][c], DiagonalProduct(R[1..], c + 1))
  }

  lemma TriangularTail(R: seq<Row>, c: nat, k: nat)
    requires R != [] && Wide(R, c + |R|) && 0 < k <= |R| && Triangular(R, c, k)
    ensures Triangular(R[1..], c + 1, k - 1)
    ensures forall i | 1 <= i < |R| :: R[i][c] == 0.0
  {
  }

  lemma {:induction false} TriangularDet(R: seq<Row>, c: nat)
    requires Wide(R, c + |R|) && Triangular(R, c, |R|)
    ensures Det(R, c) == DiagonalProduct(R, c)
    decreases |R|
  {
    if R != [] {
      TriangularTail(R, c, |R|);
      FirstPivot(R, c);
      TriangularDet(R[1..], c + 1);
    }
  }

  /** A triangular shape that runs into a column with no pivot left. */
  lemma {:induction false} SingularDet(R: seq<Row>, c: nat, k: nat)
    requires Wide(R, c + |R|) && k < |R| && Triangular(R, c, k)
    requires forall i | k <= i < |R| :: R[i][c + k] == 0.0
    ensures Det(R, c) == 0.0
    decreases k
  {
    if k == 0 {
      assert forall i | 0 <= i < |R| :: R[i][c + k] == 0.0;
      ExpandZero(R, c, 0);
    } else {
      TriangularTail(R, c, k);
      FirstPivot(R, c);
      assert forall i | k - 1 <= i < |R[1..]| :: R[1..][i][c + 1 + (k - 1)] == R[i + 1][c + k];
      SingularDet(R[1..], c + 1, k - 1);
      TimesUnits(R[0][c]);
    }
  }

  // ----- small determinants

  lemma Det1(a: Row, c: nat)
    requires |a| > c
    ensures Det([a], c) == a[c]
  {
    var R := [a];
    assert Without(R, 0) == [];
    assert Expand(R, c, 1) == 0.0;
    assert Term(R, c, 0) == Times(a[c], Det([], c + 1));
    TimesUnits(a[c]);
  }

  lemma Det2(a: Row, b: Row, c: nat)
    requires |a| > c + 1 && |b| > c + 1
    ensures Det([a, b], c) == a[c] * b[c + 1] - b[c] * a[c + 1]
  {
    var R := [a, b];
    assert Without(R, 0) == [b] && Without(R, 1) == [a];
    Det1(a, c + 1);
    Det1(b, c + 1);
    assert Expand(R, c, 2) == 0.0;
    assert Term(R, c, 0) == Times(a[c], b[c + 1]) && Term(R, c, 1) == Times(-b[c], a[c + 1]);
    assert Expand(R, c, 1) == Term(R, c, 1);
  }

  lemma Det3(a: Row, b: Row, d: Row, c: nat)
    requires |a| > c + 2 && |b| > c + 2 && |d| > c + 2
    ensures Det([a, b, d], c) == a[c] * (b[c + 1] * d[c + 2] - d[c + 1] * b[c + 2])
                               - b[c] * (a[c + 1] * d[c + 2] - d[c + 1] * a[c + 2])
                               + d[c] * (a[c + 1] * b[c + 2] - b[c + 1] * a[c + 2])
  {
    var R := [a, b, d];
    assert Without(R, 0) == [b, d] && Without(R, 1) == [a, d] && Without(R, 2) == [a, b];
    Det2(b, d, c + 1);
    Det2(a, d, c + 1);
    Det2(a, b, c + 1);
    assert Expand(R, c, 3) == 0.0;
    assert Expand(R, c, 2) == Term(R, c, 2);
    assert Expand(R, c, 1) == Term(R, c, 1) + Expand(R, c, 2);
    assert Term(R, c, 0) == Times(a[c], Det([b, d], c + 1));
    assert Term(R, c, 1) == Times(-b[c], Det([a, d], c + 1));
    assert Term(R, c, 2) == Times(d[c], Det([a, b], c + 1));
  }

  // ----- integer matrices

  ghost predicate IsInteger(x: real) {
    x == x.Floor as real
  }

  lemma IntegerIs(k: int, x: real)
    requires x == k as real
    ensures IsInteger(x)
  {
  }

  lemma IntegerSum(x: real, y: real)
    requires IsInteger(x) && IsInteger(y)
    ensures IsInteger(x + y)
  {
    IntegerIs(x.Floor + y.Floor, x + y);
  }

  lemma IntegerNegation(x: real)
    requires IsInteger(x)
    ensures IsInteger(-x)
  {
    IntegerIs(-x.Floor, -x);
  }

  lemma IntegerProduct(x: real, y: real)
    requires IsInteger(x) && IsInteger(y)
    ensures IsInteger(Times(x, y))
  {
    RealProduct(x.Floor, y.Floor);
    IntegerIs(x.Floor * y.Floor, Times(x, y));
  }

  ghost predicate IntegerEntries(R: seq<Row>) {
    forall i, j | 0 <= i < |R| && 0 <= j < |R[i]| :: IsInteger(R[i][j])
  }

  lemma {:induction false} IntegerDet(R: seq<Row>, c: nat)
    requires Wide(R, c + |R|) && IntegerEntries(R)
    ensures IsInteger(Det(R, c))
    decreases |R|, |R| + 1
  {
    if R == [] {
      assert 1.0 == 1 as real;
    } else {
      IntegerExpand(R, c, 0);
    }
  }

  lemma {:induction false} IntegerExpand(R: seq<Row>, c: nat, i: nat)
    requires Wide(R, c + |R|) && IntegerEntries(R) && i <= |R|
    ensures IsInteger(Expand(R, c, i))
    decreases |R|, |R| - i
  {
    if i == |R| {
      assert 0.0 == 0 as real;
    } else {
      IntegerDet(Without(R, i), c + 1);
      IntegerNegation(R[i][c]);
      IntegerProduct(Signed(i, R[i][c]), Det(Without(R, i), c + 1));
      IntegerExpand(R, c, i + 1);
      IntegerSum(Term(R, c, i), Expand(R, c, i + 1));
    }
  }
}
