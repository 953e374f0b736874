/**
 How deep the search for minimal solutions can go.

 Every vector v on the stack has no solution strictly below it, and the norm of A v grows slowly along the way
 to it: |A v|^2 <= C (v_0 + ... + v_(q-1)).  By Gordan's alternative there are only finitely many such vectors.
 */
module SearchDepth {
  import opened Common
  import opened Gordan
  import opened IntVectors
  import opened Solutions

  // ----- frozen components

  ghost function FrozenCount(F: seq<bool>): nat {
    if F == [] then 0 else (if F[0] then 1 else 0) + FrozenCount(F[1..])
  }

  lemma {:induction false} FreezeCount(F: seq<bool>, i: nat)
    requires i < |F| && !F[i]
    ensures FrozenCount(F[i := true]) == FrozenCount(F) + 1
    ensures FrozenCount(F) < |F|
  {
    if i > 0 {
      assert F[i := true][1..] == F[1..][i - 1 := true];
      FreezeCount(F[1..], i - 1);
    } else {
      assert F[i := true][1..] == F[1..];
      CountBound(F[1..]);
    }
  }

  lemma {:induction false} CountBound(F: seq<bool>)
    ensures FrozenCount(F) <= |F|
  {
    if F != [] {
      CountBound(F[1..]);
    }
  }

  /** t + e_i, the i-th child of t. */
  ghost function Step(t: Vec, i: nat): Vec
    requires i < |t|
  {
    t[i := t[i] + 1]
  }

  // ----- vectors the search can meet

  ghost function Norm(y: Vec): (n: int)
    ensures n >= 0
  {
    NormPositive(y);
    Dot(y, y)
  }

  /** No solution lies strictly below v. */
  ghost predicate IsLow(A: seq<Vec>, q: nat, v: Vec)
    requires IsMatrix(A, q)
  {
    forall w :: Solution(A, q, w) ==> !Dominates(v, w)
  }

  ghost predicate IsSlow(A: seq<Vec>, q: nat, c: nat, v: Vec)
    requires IsMatrix(A, q)
  {
    |v| == q && IsNatural(v) && Norm(MulVec(A, v)) <= c * Sum(v)
  }

  ghost predicate CanOccur(A: seq<Vec>, q: nat, c: nat, v: Vec)
    requires IsMatrix(A, q)
  {
    IsSlow(A, q, c, v) && IsLow(A, q, v)
  }

  ghost predicate Agrees(v: Vec, a: Vec, F: seq<bool>)
    requires |F| == |a|
  {
    |v| == |a| && forall i | 0 <= i < |a| && F[i] :: v[i] == a[i]
  }

  /** What can occur with the given frozen components has a sum of at most k. */
  ghost predicate Bounded(A: seq<Vec>, q: nat, c: nat, F: seq<bool>, a: Vec, k: nat)
    requires IsMatrix(A, q) && |F| == |a| == q
  {
    forall v | CanOccur(A, q, c, v) && Agrees(v, a, F) :: Sum(v) <= k
  }

  // ----- the alternative for the components that are not frozen

  /** Column j of A, or for a frozen component a vector that makes it useless in a relation. */
  ghost function Marked(A: seq<Vec>, q: nat, F: seq<bool>, j: nat): (c: Vec)
    requires IsMatrix(A, q) && |F| == q && j < q
    ensures |c| == |A| + 1
  {
    if F[j] then [1] + Zero(|A|) else [0] + Col(A, j)
  }

  ghost function MarkedColumns(A: seq<Vec>, q: nat, F: seq<bool>): (cols: seq<Vec>)
    requires IsMatrix(A, q) && |F| == q
    ensures |cols| == q && IsMatrix(cols, |A| + 1)
    ensures forall j | 0 <= j < q :: cols[j] == Marked(A, q, F, j)
  {
    seq(q, j requires 0 <= j < q => Marked(A, q, F, j))
  }

  lemma DotHead(x: int, u: Vec, y: int, v: Vec)
    requires |u| == |v|
    ensures Dot([x] + u, [y] + v) == x * y + Dot(u, v)
  {
    assert ([x] + u)[1..] == u && ([y] + v)[1..] == v;
  }

  lemma MarkedDot(A: seq<Vec>, q: nat, F: seq<bool>, j: nat, x: int, y: Vec)
    requires IsMatrix(A, q) && |F| == q && j < q && |y| == |A|
    ensures Dot([x] + y, Marked(A, q, F, j)) == if F[j] then x else Dot(y, Col(A, j))
  {
    DotHead(x, y, if F[j] then 1 else 0, if F[j] then Zero(|A|) else Col(A, j));
    if F[j] {
      DotSymmetric(y, Zero(|A|));
      ZeroLeft(Zero(|A|), y);
    }
  }

  /** A relation among the marked columns uses no frozen component. */
  lemma FrozenUnused(A: seq<Vec>, q: nat, F: seq<bool>, s: Vec)
    requires IsMatrix(A, q) && |F| == q && Relation(MarkedColumns(A, q, F), |A| + 1, s)
    ensures forall j | 0 <= j < q && F[j] :: s[j] == 0
  {
    var cols := MarkedColumns(A, q, F);
    var e := [1] + Zero(|A|);
    var g := Inner(e, cols);
    forall j | 0 <= j < q
      ensures g[j] == if F[j] then 1 else 0
    {
      MarkedDot(A, q, F, j, 1, Zero(|A|));
      ZeroLeft(Zero(|A|), Marked(A, q, F, j)[1..]);
      if !F[j] {
        ZeroLeft(Zero(|A|), Col(A, j));
      }
    }
    assert Dot(s, g) == 0;
    ZeroWhere(s, g);
  }

  lemma {:induction false} ZeroWhere(s: Vec, g: Vec)
    requires |s| == |g| && IsNatural(s) && (forall j | 0 <= j < |g| :: 0 <= g[j] <= 1) && Dot(s, g) <= 0
    ensures forall j | 0 <= j < |s| && g[j] == 1 :: s[j] == 0
  {
    if s != [] {
      DotSymmetric(s[1..], g[1..]);
      DotNonNegative(g[1..], s[1..]);
      ZeroWhere(s[1..], g[1..]);
      assert forall j | 1 <= j < |s| :: s[j] == s[1..][j - 1] && g[j] == g[1..][j - 1];
    }
  }

  ghost function Unit(p: nat, r: nat): (e: Vec)
    requires r < p
    ensures |e| == p && forall i | 0 <= i < p :: e[i] == if i == r then 1 else 0
  {
    Zero(p)[r := 1]
  }

  lemma {:induction false} UnitDot(p: nat, r: nat, v: Vec)
    requires r < p == |v|
    ensures Dot(Unit(p, r), v) == v[r]
  {
    var e := Unit(p, r);
    if r == 0 {
      ZeroLeft(e[1..], v[1..]);
    } else {
      assert e[1..] == Unit(p - 1, r - 1);
      UnitDot(p - 1, r - 1, v[1..]);
    }
  }

  lemma {:induction false} SameWhere(s: Vec, g: Vec, h: Vec)
    requires |s| == |g| == |h| && forall j | 0 <= j < |s| :: s[j] == 0 || g[j] == h[j]
    ensures Dot(s, g) == Dot(s, h)
  {
    if s != [] {
      SameWhere(s[1..], g[1..], h[1..]);
    }
  }

  /** A relation among the marked columns is a solution of A x = 0. */
  lemma RelationIsSolution(A: seq<Vec>, q: nat, F: seq<bool>, s: Vec)
    requires IsMatrix(A, q) && |F| == q && Relation(MarkedColumns(A, q, F), |A| + 1, s)
    ensures Solution(A, q, s) && forall j | 0 <= j < q && F[j] :: s[j] == 0
  {
    FrozenUnused(A, q, F, s);
    forall r | 0 <= r < |A|
      ensures Dot(A[r], s) == 0
    {
      RelationRow(A, q, F, s, r);
    }
    assert MulVec(A, s) == Zero(|A|);
    if s == Zero(q) {
      SumZero(s);
    }
  }

  lemma {:induction false} SumZero(s: Vec)
    requires forall i | 0 <= i < |s| :: s[i] == 0
    ensures Sum(s) == 0
  {
    if s != [] {
      SumZero(s[1..]);
    }
  }

  lemma RelationRow(A: seq<Vec>, q: nat, F: seq<bool>, s: Vec, r: nat)
    requires IsMatrix(A, q) && |F| == q && Relation(MarkedColumns(A, q, F), |A| + 1, s) && r < |A|
    requires forall j | 0 <= j < q && F[j] :: s[j] == 0
    ensures Dot(A[r], s) == 0
  {
    var cols := MarkedColumns(A, q, F);
    var g := Inner([0] + Unit(|A|, r), cols);
    forall j | 0 <= j < q && !F[j]
      ensures g[j] == A[r][j]
    {
      MarkedDot(A, q, F, j, 0, Unit(|A|, r));
      UnitDot(|A|, r, Col(A, j));
    }
    assert Dot(s, g) == 0;
    SameWhere(s, g, A[r]);
    DotSymmetric(s, A[r]);
  }

  // ----- no relation: a linear form bounds the sum

  /** How much the frozen components can take away from the linear form. */
  ghost function Gap(g: Vec, a: Vec, F: seq<bool>): (b: nat)
    requires |g| == |a| == |F|
  {
    if g == [] then 0
    else (if F[0] && (g[0] - 1) * a[0] < 0 then -((g[0] - 1) * a[0]) else 0) + Gap(g[1..], a[1..], F[1..])
  }

  lemma {:induction false} FormAboveSum(g: Vec, a: Vec, F: seq<bool>, v: Vec)
    requires |g| == |a| == |F| && Agrees(v, a, F) && IsNatural(v) && forall j | 0 <= j < |g| && !F[j] :: g[j] >= 1
    ensures Dot(g, v) >= Sum(v) - Gap(g, a, F)
  {
    if g != [] {
      FormAboveSum(g[1..], a[1..], F[1..], v[1..]);
      assert g[0] * v[0] == (g[0] - 1) * v[0] + v[0];
      if !F[0] {
        AtLeast(v[0], g[0]);
      }
    }
  }

  lemma CauchySchwarz(y: Vec, w: Vec)
    requires |y| == |w|
    ensures Dot(y, w) * Dot(y, w) <= Norm(y) * Norm(w)
  {
    var d, x, n := Norm(y), Dot(y, w), Norm(w);
    var u := Combination(d, w, -x, y);
    CombinationDot(d, w, -x, y, u);
    DotCombination(w, d, w, -x, y);
    DotCombination(y, d, w, -x, y);
    DotSymmetric(w, y);
    SquareOut(d, x, n, Norm(u));
    if d == 0 {
      NormZero(y);
      ZeroLeft(y, w);
    } else {
      CancelFactor(d, d * n - x * x);
    }
  }

  lemma SquareOut(d: int, x: int, n: int, u: int)
    requires u == d * (d * n + -x * x) + -x * (d * x + -x * d)
    ensures u == d * (d * n - x * x)
  {
  }

  lemma CancelFactor(d: int, z: int)
    requires d > 0 && d * z >= 0
    ensures z >= 0
  {
  }

  lemma NormZero(y: Vec)
    requires Norm(y) == 0
    ensures forall i | 0 <= i < |y| :: y[i] == 0
  {
    NormPositive(y);
  }

  /** If (s - b)^2 <= e s, then s is at most b + e + e b. */
  lemma SquareBound(s: int, b: nat, e: nat)
    requires s > b ==> (s - b) * (s - b) <= e * s
    ensures s <= b + e + e * b
  {
    var m := s - b;
    if m > e + e * b {
      SquareGrows(m, b, e);
    }
  }

  lemma SquareGrows(m: int, b: nat, e: nat)
    requires m > e + e * b
    ensures m * m > e * (m + b)
  {
    var f := m - e;
    assert m * m == m * e + m * f;
    AtLeast(f, m);
  }

  /** A positive form on the free columns bounds everything that can occur. */
  lemma FormBounds(A: seq<Vec>, q: nat, c: nat, F: seq<bool>, a: Vec, y: Vec) returns (k: nat)
    requires IsMatrix(A, q) && |F| == |a| == q && |y| == |A|
    requires forall j | 0 <= j < q && !F[j] :: Dot(y, Col(A, j)) >= 1
    ensures Bounded(A, q, c, F, a, k)
  {
    var g := Gradient(A, q, y);
    var b := Gap(g, a, F);
    var e := Norm(y) * c;
    k := b + e + e * b;
    forall v | CanOccur(A, q, c, v) && Agrees(v, a, F)
      ensures Sum(v) <= k
    {
      FormAboveSum(g, a, F, v);
      DotAdjoint(A, q, y, v);
      CauchySchwarz(y, MulVec(A, v));
      Squares(Dot(g, v), Sum(v), b, Norm(y), Norm(MulVec(A, v)), c);
      SquareBound(Sum(v), b, e);
    }
  }

  lemma Squares(x: int, s: int, b: nat, d: nat, n: nat, c: nat)
    requires x >= s - b && x * x <= d * n && n <= c * s
    ensures s > b ==> (s - b) * (s - b) <= (d * c) * s
  {
    if s > b {
      var m := s - b;
      assert m * m <= x * m <= x * x;
      assert d * n <= d * (c * s) == (d * c) * s;
    }
  }

  // ----- the bound

  lemma {:induction false} Depth(A: seq<Vec>, q: nat, c: nat, F: seq<bool>, a: Vec) returns (k: nat)
    requires IsMatrix(A, q) && |F| == |a| == q
    ensures Bounded(A, q, c, F, a, k)
    decreases q - FrozenCount(F), 3
  {
    var cols := MarkedColumns(A, q, F);
    Alternative(cols, |A| + 1);
    if HasRelation(cols, |A| + 1) {
      var s :| Relation(cols, |A| + 1, s);
      RelationIsSolution(A, q, F, s);
      k := BelowSolution(A, q, c, F, a, s);
    } else {
      var y: Vec :| |y| == |A| + 1 && Positive(y, cols);
      PositiveOnFree(A, q, F, y);
      k := FormBounds(A, q, c, F, a, y[1..]);
    }
  }

  lemma PositiveOnFree(A: seq<Vec>, q: nat, F: seq<bool>, y: Vec)
    requires IsMatrix(A, q) && |F| == q && |y| == |A| + 1 && Positive(y, MarkedColumns(A, q, F))
    ensures forall j | 0 <= j < q && !F[j] :: Dot(y[1..], Col(A, j)) >= 1
  {
    assert y == [y[0]] + y[1..];
    forall j | 0 <= j < q && !F[j]
      ensures Dot(y[1..], Col(A, j)) >= 1
    {
      assert Dot(y, MarkedColumns(A, q, F)[j]) > 0;
      MarkedDot(A, q, F, j, y[0], y[1..]);
    }
  }

  ghost predicate BoundedBelow(A: seq<Vec>, q: nat, c: nat, F: seq<bool>, a: Vec, i: nat, x: int, k: nat)
    requires IsMatrix(A, q) && |F| == |a| == q && i < q
  {
    forall v | CanOccur(A, q, c, v) && Agrees(v, a, F) && v[i] < x :: Sum(v) <= k
  }

  /** What can occur with a component less than x in a component that is not frozen. */
  lemma {:induction false} BelowValue(A: seq<Vec>, q: nat, c: nat, F: seq<bool>, a: Vec, i: nat, x: nat)
    returns (k: nat)
    requires IsMatrix(A, q) && |F| == |a| == q && i < q && !F[i]
    ensures BoundedBelow(A, q, c, F, a, i, x, k)
    decreases q - FrozenCount(F), 0, x
  {
    if x == 0 {
      k := 0;
    } else {
      var y := x - 1;
      var k0 := BelowValue(A, q, c, F, a, i, y);
      FreezeCount(F, i);
      var k1 := Depth(A, q, c, F[i := true], a[i := y]);
      k := k0 + k1;
      forall v | CanOccur(A, q, c, v) && Agrees(v, a, F) && v[i] < x
        ensures Sum(v) <= k
      {
        assert v[i] == y ==> Agrees(v, a[i := y], F[i := true]);
      }
    }
  }

  /** What can occur with a component less than that of s among the first i. */
  lemma {:induction false} BelowFirst(A: seq<Vec>, q: nat, c: nat, F: seq<bool>, a: Vec, s: Vec, i: nat)
    returns (k: nat)
    requires IsMatrix(A, q) && |F| == |a| == |s| == q && IsNatural(s) && i <= q
    requires forall j | 0 <= j < q && F[j] :: s[j] == 0
    ensures forall l | 0 <= l < i :: BoundedBelow(A, q, c, F, a, l, s[l], k)
    decreases q - FrozenCount(F), 1, i
  {
    if i == 0 {
      k := 0;
    } else {
      var j := i - 1;
      var k0 := BelowFirst(A, q, c, F, a, s, j);
      var k1: nat := 0;
      if !F[j] {
        k1 := BelowValue(A, q, c, F, a, j, s[j]);
      }
      k := k0 + k1;
      forall l | 0 <= l < i
        ensures BoundedBelow(A, q, c, F, a, l, s[l], k)
      {
        StaysBounded(A, q, c, F, a, l, s[l], if l < j then k0 else k1, k);
      }
    }
  }

  lemma StaysBounded(A: seq<Vec>, q: nat, c: nat, F: seq<bool>, a: Vec, i: nat, x: int, k: nat, k': nat)
    requires IsMatrix(A, q) && |F| == |a| == q && i < q && k <= k'
    requires x == 0 || BoundedBelow(A, q, c, F, a, i, x, k)
    ensures BoundedBelow(A, q, c, F, a, i, x, k')
  {
  }

  /** What can occur is s itself or smaller than s in a component that is not frozen. */
  lemma {:induction false} BelowSolution(A: seq<Vec>, q: nat, c: nat, F: seq<bool>, a: Vec, s: Vec) returns (k: nat)
    requires IsMatrix(A, q) && |F| == |a| == q && Solution(A, q, s)
    requires forall j | 0 <= j < q && F[j] :: s[j] == 0
    ensures Bounded(A, q, c, F, a, k)
    decreases q - FrozenCount(F), 2
  {
    SumNatural(s);
    var k0 := BelowFirst(A, q, c, F, a, s, q);
    k := k0 + Sum(s);
    forall v | CanOccur(A, q, c, v) && Agrees(v, a, F)
      ensures Sum(v) <= k
    {
      if v != s {
        var l := SmallerSomewhere(A, q, c, s, v);
        assert BoundedBelow(A, q, c, F, a, l, s[l], k0);
      }
    }
  }

  lemma SmallerSomewhere(A: seq<Vec>, q: nat, c: nat, s: Vec, v: Vec) returns (l: nat)
    requires IsMatrix(A, q) && Solution(A, q, s) && CanOccur(A, q, c, v) && v != s
    ensures l < q && v[l] < s[l]
  {
    assert !Dominates(v, s);
    l :| l < q && v[l] < s[l];
  }

  /** For every matrix there is a bound on the sums of all vectors the search can meet. */
  lemma DepthBound(A: seq<Vec>, q: nat, c: nat) returns (k: nat)
    requires IsMatrix(A, q)
    ensures forall v | CanOccur(A, q, c, v) :: Sum(v) <= k
  {
    var F := seq(q, _ => false);
    k := Depth(A, q, c, F, Zero(q));
    assert forall v | CanOccur(A, q, c, v) :: Agrees(v, Zero(q), F);
  }

  // ----- the pace of the search

  ghost function ColumnNorms(A: seq<Vec>, q: nat, n: nat): (c: nat)
    requires IsMatrix(A, q) && n <= q
  {
    if n == 0 then 0 else ColumnNorms(A, q, n - 1) + Norm(Col(A, n - 1))
  }

  /** By how much |A t|^2 can grow from a vector of the search to its child. */
  ghost function Pace(A: seq<Vec>, q: nat): nat
    requires IsMatrix(A, q)
  {
    ColumnNorms(A, q, q)
  }

  lemma {:induction false} ColumnNormBound(A: seq<Vec>, q: nat, i: nat, n: nat)
    requires IsMatrix(A, q) && i < n <= q
    ensures Norm(Col(A, i)) <= ColumnNorms(A, q, n)
    decreases n
  {
    if i < n - 1 {
      ColumnNormBound(A, q, i, n - 1);
    }
  }

  lemma {:induction false} StepDot(u: Vec, t: Vec, i: nat)
    requires |u| == |t| && i < |t|
    ensures Dot(u, Step(t, i)) == Dot(u, t) + u[i]
  {
    if i == 0 {
      assert Step(t, 0)[1..] == t[1..];
    } else {
      assert Step(t, i)[1..] == Step(t[1..], i - 1);
      StepDot(u[1..], t[1..], i - 1);
    }
  }

  lemma {:induction false} StepSum(t: Vec, i: nat)
    requires i < |t|
    ensures Sum(Step(t, i)) == Sum(t) + 1
  {
    if i == 0 {
      assert Step(t, 0)[1..] == t[1..];
    } else {
      assert Step(t, i)[1..] == Step(t[1..], i - 1);
      StepSum(t[1..], i - 1);
    }
  }

  lemma NormOfSum(y: Vec, c: Vec)
    requires |y| == |c|
    ensures Norm(Combination(1, y, 1, c)) == Norm(y) + 2 * Dot(y, c) + Norm(c)
  {
    var u := Combination(1, y, 1, c);
    CombinationDot(1, y, 1, c, u);
    DotCombination(y, 1, y, 1, c);
    DotCombination(c, 1, y, 1, c);
    DotSymmetric(c, y);
  }

  lemma StepProduct(A: seq<Vec>, q: nat, t: Vec, i: nat)
    requires IsMatrix(A, q) && |t| == q && i < q
    ensures MulVec(A, Step(t, i)) == Combination(1, MulVec(A, t), 1, Col(A, i))
  {
    forall r | 0 <= r < |A|
      ensures MulVec(A, Step(t, i))[r] == Combination(1, MulVec(A, t), 1, Col(A, i))[r]
    {
      StepDot(A[r], t, i);
    }
  }

  lemma KeepsPace(n: int, d: int, m: int, c: nat, s: int)
    requires n <= c * s && d <= 0 && m <= c
    ensures n + 2 * d + m <= c * (s + 1)
  {
  }

  /** A child towards which the inner product is negative, or any child of the zero vector, keeps the pace. */
  lemma StepIsSlow(A: seq<Vec>, q: nat, t: Vec, i: nat)
    requires IsMatrix(A, q) && i < q && IsSlow(A, q, Pace(A, q), t)
    requires t == Zero(q) || Dot(MulVec(A, t), Col(A, i)) < 0
    ensures IsSlow(A, q, Pace(A, q), Step(t, i))
  {
    var y, c := MulVec(A, t), Col(A, i);
    if t == Zero(q) {
      ZeroProduct(A, q);
      ZeroLeft(y, c);
    }
    StepProduct(A, q, t, i);
    NormOfSum(y, c);
    ColumnNormBound(A, q, i, q);
    StepSum(t, i);
    KeepsPace(Norm(y), Dot(y, c), Norm(c), Pace(A, q), Sum(t));
  }

  lemma ZeroProduct(A: seq<Vec>, q: nat)
    requires IsMatrix(A, q)
    ensures MulVec(A, Zero(q)) == Zero(|A|)
  {
    forall r | 0 <= r < |A|
      ensures Dot(A[r], Zero(q)) == 0
    {
      DotSymmetric(A[r], Zero(q));
      ZeroLeft(Zero(q), A[r]);
    }
  }

  lemma ZeroIsSlow(A: seq<Vec>, q: nat)
    requires IsMatrix(A, q)
    ensures IsSlow(A, q, Pace(A, q), Zero(q))
  {
    ZeroProduct(A, q);
    ZeroLeft(Zero(|A|), Zero(|A|));
    SumZero(Zero(q));
  }

  // ----- finitely many vectors

  /** The vectors with components from 0 to k. */
  ghost function Box(q: nat, k: nat): set<Vec> {
    if q == 0 then {[]} else set x, w | 0 <= x <= k && w in Box(q - 1, k) :: [x] + w
  }

  lemma {:induction false} InBox(v: Vec, k: nat)
    requires IsNatural(v) && Sum(v) <= k
    ensures v in Box(|v|, k)
  {
    if v != [] {
      SumNatural(v[1..]);
      InBox(v[1..], k);
      assert v == [v[0]] + v[1..];
    }
  }

  /** A list without repetitions has no more members than the set it is taken from. */
  lemma {:induction false} FewerThanAll(s: seq<Vec>, all: set<Vec>)
    requires Distinct(s) && forall v | v in s :: v in all
    ensures |s| <= |all|
  {
    if s != [] {
      var n := |s| - 1;
      forall v | v in s[..n]
        ensures v in all - {s[n]}
      {
        var a :| 0 <= a < n && s[a] == v;
      }
      FewerThanAll(s[..n], all - {s[n]});
    }
  }
}
