/**
 The Contejean-Devie solver for homogeneous linear Diophantine systems (src/diophantine.cpp).

 The solver walks a tree of natural vectors depth first.  Every stack entry is a vector t together
 with a set F of frozen components; it stands for all vectors v >= t that agree with t on F.
 SearchDepth bounds the depth of the tree, and with it the number of rounds.
 */
module Diophantine {
  import opened Common
  import opened IntVectors
  import opened SearchDepth
  import opened Solutions

  // ----- order and is_minimum

  method Order(t: Vec, basis: seq<Vec>, k: nat) returns (above: bool)
    requires k < |basis| && |basis[k]| == |t|
    ensures above <==> Dominates(t, basis[k])
  {
    var eq := true;
    var j := 0;
    while j < |t|
      invariant 0 <= j <= |t|
      invariant forall i | 0 <= i < j :: basis[k][i] <= t[i]
      invariant eq <==> forall i | 0 <= i < j :: basis[k][i] == t[i]
    {
      if t[j] < basis[k][j] {
        return false;
      }
      if t[j] > basis[k][j] {
        eq := false;
      }
      j := j + 1;
    }
    return !eq;
  }

  method IsMinimum(t: Vec, basis: seq<Vec>, n: nat) returns (r: bool)
    requires n <= |basis| && forall k | 0 <= k < n :: |basis[k]| == |t|
    ensures r <==> forall k | 0 <= k < n :: !Dominates(t, basis[k])
    decreases n
  {
    if n == 0 {
      return true;
    }
    var above := Order(t, basis, n - 1);
    if above {
      return false;
    }
    r := IsMinimum(t, basis, n - 1);
  }

  // ----- the search space

  /** The vectors a stack entry (t, F) stands for. */
  ghost predicate InReach(v: Vec, t: Vec, F: seq<bool>)
    requires |t| == |F|
  {
    Leq(t, v) && forall i | 0 <= i < |F| :: F[i] ==> v[i] == t[i]
  }

  lemma {:induction false} CountNone(F: seq<bool>)
    requires forall i | 0 <= i < |F| :: !F[i]
    ensures FrozenCount(F) == 0
  {
    if F != [] {
      CountNone(F[1..]);
    }
  }

  /**
   The entry (t, F) lies apart from the vector below it in the stack: some frozen component of t is
   smaller, and some component is larger.
   */
  ghost predicate Apart(below: Vec, t: Vec, F: seq<bool>)
    requires |below| == |t| == |F|
  {
    && (exists i :: 0 <= i < |F| && F[i] && t[i] < below[i])
    && (exists l :: 0 <= l < |F| && below[l] < t[l])
  }

  /** What being apart means for the search: an entry never reaches under, nor over, an older one. */
  lemma ApartSeparates(below: Vec, B: seq<bool>, t: Vec, F: seq<bool>, v: Vec, w: Vec)
    requires |below| == |t| == |F| == |B|
    requires Apart(below, t, F) && InReach(v, below, B) && InReach(w, t, F)
    ensures !Leq(v, w) && !Leq(w, below)
  {
    var i :| 0 <= i < |F| && F[i] && t[i] < below[i];
    assert w[i] < v[i];
    var l :| 0 <= l < |F| && below[l] < t[l];
    assert below[l] < w[l];
  }

  /** The stack: natural vectors of length q, pairwise apart, the p-th with p or more frozen components. */
  ghost predicate StackOk(P: seq<Vec>, Frozen: seq<seq<bool>>, q: nat) {
    && |P| <= q && |Frozen| == q
    && (forall a | 0 <= a < q :: |Frozen[a]| == q)
    && (forall a | 0 <= a < |P| :: |P[a]| == q && IsNatural(P[a]) && FrozenCount(Frozen[a]) >= a)
    && (forall a, b | 0 <= a < b < |P| :: Apart(P[a], P[b], Frozen[b]))
  }

  ghost predicate Covered(v: Vec, P: seq<Vec>, Frozen: seq<seq<bool>>, lo: nat, q: nat)
    requires lo <= |P| && StackOk(P, Frozen, q)
  {
    exists a :: lo <= a < |P| && InReach(v, P[a], Frozen[a])
  }

  ghost predicate BasisOk(A: seq<Vec>, q: nat, basis: seq<Vec>, popped: seq<Vec>)
    requires IsMatrix(A, q)
  {
    forall b | b in basis :: Minimal(A, q, b) && b in popped
  }

  ghost predicate NoneMissing(A: seq<Vec>, q: nat, basis: seq<Vec>, P: seq<Vec>, Frozen: seq<seq<bool>>)
    requires IsMatrix(A, q) && StackOk(P, Frozen, q)
  {
    forall v | Minimal(A, q, v) :: v in basis || Covered(v, P, Frozen, 0, q)
  }

  ghost predicate NotAbove(basis: seq<Vec>, P: seq<Vec>) {
    forall b, a | b in basis && 0 <= a < |P| :: !Dominates(P[a], b)
  }

  ghost predicate OutOfReach(popped: seq<Vec>, P: seq<Vec>, Frozen: seq<seq<bool>>, q: nat)
    requires StackOk(P, Frozen, q)
  {
    forall u, a | u in popped && 0 <= a < |P| :: !InReach(u, P[a], Frozen[a])
  }

  /** Every vector on the stack was reached at the pace that bounds the depth of the search. */
  ghost predicate AllSlow(A: seq<Vec>, q: nat, P: seq<Vec>)
    requires IsMatrix(A, q)
  {
    forall a | 0 <= a < |P| :: IsSlow(A, q, Pace(A, q), P[a])
  }

  /**
   The invariant of every run: the basis holds minimal solutions, every minimal solution is in the
   basis or still to be reached, and nothing popped so far can be reached again.
   */
  ghost predicate SearchOk(A: seq<Vec>, q: nat, basis: seq<Vec>, P: seq<Vec>, Frozen: seq<seq<bool>>, popped: seq<Vec>)
    requires IsMatrix(A, q)
  {
    && StackOk(P, Frozen, q)
    && BasisOk(A, q, basis, popped)
    && NoneMissing(A, q, basis, P, Frozen)
    && NotAbove(basis, P)
    && OutOfReach(popped, P, Frozen, q)
    && AllSlow(A, q, P)
  }

  // ----- the geometric criterion

  /**
   If t is not a solution and v > t is one, then some component where v exceeds t has a negative
   inner product <A t, A e_i>: moving towards v decreases the norm of A t.
   */
  lemma GeometricCriterion(A: seq<Vec>, q: nat, t: Vec, v: Vec)
    requires IsMatrix(A, q) && |t| == |v| == q && Leq(t, v)
    requires MulVec(A, v) == Zero(|A|) && MulVec(A, t) != Zero(|A|)
    ensures exists i :: 0 <= i < q && v[i] > t[i] && Dot(MulVec(A, t), Col(A, i)) < 0
  {
    var y := MulVec(A, t);
    var g := Gradient(A, q, y);
    var w := Minus(v, t);
    DotAdjoint(A, q, y, w);
    var z := MulVec(A, w);
    forall j | 0 <= j < |A|
      ensures z[j] == -1 * y[j]
    {
      DotMinus(A[j], v, t);
      assert MulVec(A, v)[j] == 0;
    }
    DotSymmetric(y, z);
    DotCombine(z, y, Zero(|A|), -1, y);
    ZeroLeft(Zero(|A|), y);
    NormPositive(y);
    Differ(y, Zero(|A|));
    assert Dot(g, w) < 0;
    if forall i | 0 <= i < q :: w[i] > 0 ==> g[i] >= 0 {
      DotNonNegative(g, w);
    }
  }

  /** The inner product of A t with the i-th column, as the inner loop accumulates it. */
  method ColumnDot(A: seq<Vec>, q: nat, product: Vec, i: nat) returns (dot: int)
    requires IsMatrix(A, q) && |product| == |A| && i < q
    ensures dot == Dot(product, Col(A, i))
  {
    dot := 0;
    var j := 0;
    ghost var c := Col(A, i);
    while j < |A|
      invariant 0 <= j <= |A|
      invariant dot == Dot(product[..j], c[..j])
    {
      DotSnoc(product[..j], c[..j], product[j], c[j]);
      assert product[..j + 1] == product[..j] + [product[j]] && c[..j + 1] == c[..j] + [c[j]];
      dot := dot + product[j] * A[j][i];
      j := j + 1;
    }
    assert product[..j] == product && c[..j] == c;
  }

  // ----- one expansion of a stack entry

  /** No solution lies strictly below the top of the stack: a minimal one would have been found before. */
  lemma TopIsLow(A: seq<Vec>, q: nat, basis: seq<Vec>, P: seq<Vec>, Frozen: seq<seq<bool>>, popped: seq<Vec>)
    requires IsMatrix(A, q) && SearchOk(A, q, basis, P, Frozen, popped) && |P| > 0
    ensures IsLow(A, q, P[|P| - 1])
  {
    var t := P[|P| - 1];
    forall u | Solution(A, q, u)
      ensures !Dominates(t, u)
    {
      if Dominates(t, u) {
        var w := MinimalBelow(A, q, u);
        BelowDominated(t, u, w);
        NothingCoveredBelowTop(P, Frozen, q, w);
      }
    }
  }

  lemma BelowDominated(t: Vec, u: Vec, w: Vec)
    requires Dominates(t, u) && Leq(w, u)
    ensures Dominates(t, w)
  {
    Differ(t, u);
  }

  /** A popped solution is minimal, because everything that could lie below it was found before. */
  lemma PoppedSolutionIsMinimal(A: seq<Vec>, q: nat, basis: seq<Vec>, P: seq<Vec>, Frozen: seq<seq<bool>>,
      popped: seq<Vec>)
    requires IsMatrix(A, q) && SearchOk(A, q, basis, P, Frozen, popped) && |P| > 0
    requires Solution(A, q, P[|P| - 1])
    ensures Minimal(A, q, P[|P| - 1])
  {
    TopIsLow(A, q, basis, P, Frozen, popped);
  }

  /** The entry on top of the stack lies over everything below it in the stack, so nothing under it is covered. */
  lemma NothingCoveredBelowTop(P: seq<Vec>, Frozen: seq<seq<bool>>, q: nat, w: Vec)
    requires StackOk(P, Frozen, q) && |P| > 0
    requires Dominates(P[|P| - 1], w)
    ensures !Covered(w, P, Frozen, 0, q)
  {
    var n := |P| - 1;
    forall a | 0 <= a < |P|
      ensures !InReach(w, P[a], Frozen[a])
    {
      if a == n {
        Differ(w, P[n]);
      } else {
        var i :| 0 <= i < q && Frozen[n][i] && P[n][i] < P[a][i];
        assert w[i] < P[a][i];
      }
    }
  }

  lemma TopIsApart(P: seq<Vec>, Frozen: seq<seq<bool>>, q: nat, a: nat)
    requires StackOk(P, Frozen, q) && a < |P| - 1
    ensures !Leq(P[|P| - 1], P[a]) && !Leq(P[a], P[|P| - 1])
  {
    assert Apart(P[a], P[|P| - 1], Frozen[|P| - 1]);
  }

  lemma CoveredByRest(v: Vec, P: seq<Vec>, Frozen: seq<seq<bool>>, q: nat)
    requires StackOk(P, Frozen, q) && |P| > 0 && Covered(v, P, Frozen, 0, q)
    requires !InReach(v, P[|P| - 1], Frozen[|P| - 1])
    ensures StackOk(P[..|P| - 1], Frozen, q) && Covered(v, P[..|P| - 1], Frozen, 0, q)
  {
    RestIsOk(P, Frozen, q);
    var a :| 0 <= a < |P| && InReach(v, P[a], Frozen[a]);
    assert P[..|P| - 1][a] == P[a];
  }

  lemma RestIsOk(P: seq<Vec>, Frozen: seq<seq<bool>>, q: nat)
    requires StackOk(P, Frozen, q) && |P| > 0
    ensures StackOk(P[..|P| - 1], Frozen, q)
  {
  }

  /** Popping a solution and adding it to the basis keeps the invariant. */
  lemma SolutionNotMissing(A: seq<Vec>, q: nat, basis: seq<Vec>, P: seq<Vec>, Frozen: seq<seq<bool>>)
    requires IsMatrix(A, q) && StackOk(P, Frozen, q) && NoneMissing(A, q, basis, P, Frozen) && |P| > 0
    requires Minimal(A, q, P[|P| - 1]) && StackOk(P[..|P| - 1], Frozen, q)
    ensures NoneMissing(A, q, basis + [P[|P| - 1]], P[..|P| - 1], Frozen)
  {
    var t := P[|P| - 1];
    forall v | Minimal(A, q, v) && v !in basis + [t]
      ensures Covered(v, P[..|P| - 1], Frozen, 0, q)
    {
      assert !Leq(t, v);
      CoveredByRest(v, P, Frozen, q);
    }
  }

  lemma PopSolutionKeeps(A: seq<Vec>, q: nat, basis: seq<Vec>, P: seq<Vec>, Frozen: seq<seq<bool>>, popped: seq<Vec>)
    requires IsMatrix(A, q) && SearchOk(A, q, basis, P, Frozen, popped) && |P| > 0
    requires Minimal(A, q, P[|P| - 1])
    ensures SearchOk(A, q, basis + [P[|P| - 1]], P[..|P| - 1], Frozen, popped + [P[|P| - 1]])
  {
    var n := |P| - 1;
    var t := P[n];
    var P' := P[..n];
    assert StackOk(P', Frozen, q);
    SolutionNotMissing(A, q, basis, P, Frozen);
    forall a | 0 <= a < n
      ensures !Dominates(P'[a], t) && !InReach(t, P'[a], Frozen[a])
    {
      TopIsApart(P, Frozen, q, a);
    }
  }

  /** An entry pushed while expanding (t, F0): a child t + e_c whose component c is frozen from then on. */
  ghost predicate IsChild(t: Vec, F0: seq<bool>, F: seq<bool>, child: Vec, G: seq<bool>)
    requires |t| == |F0| == |F| == |G|
  {
    && (exists c :: 0 <= c < |t| && child == Step(t, c) && F[c] && !F0[c])
    && (forall l | 0 <= l < |t| :: F0[l] ==> G[l])
  }

  /** v needs no child of (t, F0) below index i: none that qualifies leads towards v. */
  ghost predicate NotTowards(A: seq<Vec>, q: nat, t: Vec, F: seq<bool>, v: Vec, i: nat)
    requires IsMatrix(A, q) && |t| == |F| == q && i <= q
  {
    && InReach(v, t, F)
    && (forall l | 0 <= l < i && v[l] > t[l] :: t != Zero(q) && Dot(MulVec(A, t), Col(A, l)) >= 0)
  }

  /** The stack P0 with the entry (t, F0) on top is being replaced by P0 with the children of t below index i. */
  ghost predicate ExpandShape(q: nat, P0: seq<Vec>, t: Vec, F0: seq<bool>, P: seq<Vec>, Frozen: seq<seq<bool>>,
      F: seq<bool>)
  {
    && |F0| == |F| == |t| == q && IsNatural(t)
    && StackOk(P, Frozen, q)
    && P0 <= P && |P| <= FrozenCount(F)
    && (forall l | 0 <= l < q :: F0[l] ==> F[l])
    && (forall a | 0 <= a < |P0| :: Apart(P0[a], t, F0))
    && (forall a | |P0| <= a < |P| :: IsChild(t, F0, F, P[a], Frozen[a]))
  }

  ghost predicate ExpandComplete(A: seq<Vec>, q: nat, P0: seq<Vec>, t: Vec, F0: seq<bool>, P: seq<Vec>,
      Frozen: seq<seq<bool>>, F: seq<bool>, i: nat)
    requires IsMatrix(A, q) && ExpandShape(q, P0, t, F0, P, Frozen, F) && i <= q
  {
    forall v | Minimal(A, q, v) && InReach(v, t, F0) :: Covered(v, P, Frozen, |P0|, q) || NotTowards(A, q, t, F, v, i)
  }

  lemma PushShape(q: nat, P0: seq<Vec>, t: Vec, F0: seq<bool>, P: seq<Vec>, Frozen: seq<seq<bool>>, F: seq<bool>,
      i: nat)
    requires ExpandShape(q, P0, t, F0, P, Frozen, F) && i < q && !F[i]
    ensures |P| < q
    ensures ExpandShape(q, P0, t, F0, P + [Step(t, i)], Frozen[|P| := F], F[i := true])
  {
    FreezeCount(F, i);
    var T, P', Frozen', F' := Step(t, i), P + [Step(t, i)], Frozen[|P| := F], F[i := true];
    forall a | 0 <= a < |P|
      ensures Apart(P[a], T, F)
    {
      if a < |P0| {
        assert Apart(P0[a], t, F0);
        var i0 :| 0 <= i0 < q && F0[i0] && t[i0] < P0[a][i0];
        assert F[i0] && T[i0] < P[a][i0];
        var l :| 0 <= l < q && P0[a][l] < t[l];
        assert P[a][l] < T[l];
      } else {
        assert IsChild(t, F0, F, P[a], Frozen[a]);
        var c :| 0 <= c < q && P[a] == Step(t, c) && F[c] && !F0[c];
        assert T[c] < P[a][c] && P[a][i] < T[i];
      }
    }
    forall a, b | 0 <= a < b < |P'|
      ensures Apart(P'[a], P'[b], Frozen'[b])
    {
      if b < |P| {
        assert Apart(P[a], P[b], Frozen[b]);
      }
    }
    forall a | |P0| <= a < |P'|
      ensures IsChild(t, F0, F', P'[a], Frozen'[a])
    {
      if a == |P| {
        assert P'[a] == Step(t, i) && F'[i] && !F0[i];
      } else {
        assert IsChild(t, F0, F, P[a], Frozen[a]);
        var c :| 0 <= c < |t| && P[a] == Step(t, c) && F[c] && !F0[c];
        assert P'[a] == Step(t, c) && F'[c];
      }
    }
  }

  /** Pushing child i: whatever v it leads towards is covered by it, the rest keeps component i. */
  lemma PushComplete(A: seq<Vec>, q: nat, P0: seq<Vec>, t: Vec, F0: seq<bool>, P: seq<Vec>, Frozen: seq<seq<bool>>,
      F: seq<bool>, i: nat)
    requires IsMatrix(A, q) && ExpandShape(q, P0, t, F0, P, Frozen, F) && i < q && !F[i] && |P| < q
    requires ExpandComplete(A, q, P0, t, F0, P, Frozen, F, i)
    requires ExpandShape(q, P0, t, F0, P + [Step(t, i)], Frozen[|P| := F], F[i := true])
    ensures ExpandComplete(A, q, P0, t, F0, P + [Step(t, i)], Frozen[|P| := F], F[i := true], i + 1)
  {
    var P', Frozen', F' := P + [Step(t, i)], Frozen[|P| := F], F[i := true];
    forall v | Minimal(A, q, v) && InReach(v, t, F0)
      ensures Covered(v, P', Frozen', |P0|, q) || NotTowards(A, q, t, F', v, i + 1)
    {
      if Covered(v, P, Frozen, |P0|, q) {
        StaysCovered(v, P, Frozen, |P0|, q, P', Frozen');
      } else if v[i] > t[i] {
        assert InReach(v, P'[|P|], Frozen'[|P|]);
      } else {
        StillNotTowards(A, q, t, F, v, i);
      }
    }
  }

  lemma StillNotTowards(A: seq<Vec>, q: nat, t: Vec, F: seq<bool>, v: Vec, i: nat)
    requires IsMatrix(A, q) && |t| == |F| == q && i < q && NotTowards(A, q, t, F, v, i) && v[i] <= t[i]
    ensures NotTowards(A, q, t, F[i := true], v, i + 1)
  {
    assert v[i] == t[i];
  }

  lemma StaysCovered(v: Vec, P: seq<Vec>, Frozen: seq<seq<bool>>, lo: nat, q: nat, P': seq<Vec>,
      Frozen': seq<seq<bool>>)
    requires StackOk(P, Frozen, q) && StackOk(P', Frozen', q) && lo <= |P| && P <= P'
    requires forall a | 0 <= a < |P| :: Frozen'[a] == Frozen[a]
    requires Covered(v, P, Frozen, lo, q)
    ensures Covered(v, P', Frozen', lo, q)
  {
    var a :| lo <= a < |P| && InReach(v, P[a], Frozen[a]);
    assert InReach(v, P'[a], Frozen'[a]);
  }

  /** Not pushing child i loses nothing: its inner product is not negative, or a basis vector lies under it. */
  lemma SkipComplete(A: seq<Vec>, q: nat, basis: seq<Vec>, P0: seq<Vec>, t: Vec, F0: seq<bool>, P: seq<Vec>,
      Frozen: seq<seq<bool>>, F: seq<bool>, i: nat)
    requires IsMatrix(A, q) && ExpandShape(q, P0, t, F0, P, Frozen, F) && i < q
    requires ExpandComplete(A, q, P0, t, F0, P, Frozen, F, i)
    requires forall b | b in basis :: Solution(A, q, b)
    requires !F[i] ==> t != Zero(q)
    requires !F[i] && Dot(MulVec(A, t), Col(A, i)) < 0 ==> exists b :: b in basis && Dominates(Step(t, i), b)
    ensures ExpandComplete(A, q, P0, t, F0, P, Frozen, F, i + 1)
  {
    forall v | Minimal(A, q, v) && InReach(v, t, F0) && !Covered(v, P, Frozen, |P0|, q)
      ensures NotTowards(A, q, t, F, v, i + 1)
    {
      SkipTowards(A, q, basis, t, F, v, i);
    }
  }

  lemma SkipTowards(A: seq<Vec>, q: nat, basis: seq<Vec>, t: Vec, F: seq<bool>, v: Vec, i: nat)
    requires IsMatrix(A, q) && |t| == |F| == q && i < q && Minimal(A, q, v) && NotTowards(A, q, t, F, v, i)
    requires forall b | b in basis :: Solution(A, q, b)
    requires !F[i] ==> t != Zero(q)
    requires !F[i] && Dot(MulVec(A, t), Col(A, i)) < 0 ==> exists b :: b in basis && Dominates(Step(t, i), b)
    ensures NotTowards(A, q, t, F, v, i + 1)
  {
    if v[i] > t[i] {
      NothingUnder(A, q, basis, v, Step(t, i));
    }
  }

  lemma NothingUnder(A: seq<Vec>, q: nat, basis: seq<Vec>, v: Vec, T: Vec)
    requires IsMatrix(A, q) && Minimal(A, q, v) && Leq(T, v) && forall b | b in basis :: Solution(A, q, b)
    ensures forall b | b in basis :: !Dominates(T, b)
  {
    forall b | b in basis
      ensures !Dominates(T, b)
    {
      UnderMinimal(A, q, v, T, b);
    }
  }

  lemma UnderMinimal(A: seq<Vec>, q: nat, v: Vec, T: Vec, b: Vec)
    requires IsMatrix(A, q) && Minimal(A, q, v) && Leq(T, v) && Solution(A, q, b)
    ensures !Dominates(T, b)
  {
    if Leq(b, T) {
      assert Leq(b, v);
      assert b == v;
      assert Leq(T, b);
      assert forall l | 0 <= l < q :: T[l] == b[l];
    }
  }

  /** The unit vectors, which are pushed from the zero vector without a check, lie over no other solution. */
  lemma UnitNotAbove(A: seq<Vec>, q: nat, i: nat, b: Vec)
    requires IsMatrix(A, q) && i < q && Solution(A, q, b)
    ensures !Dominates(Step(Zero(q), i), b)
  {
    if Leq(b, Step(Zero(q), i)) {
      Differ(b, Zero(q));
      var l :| 0 <= l < q && b[l] != 0;
      assert l == i && b[i] == 1;
      assert b == Step(Zero(q), i);
    }
  }

  /** After all q children have been considered, every minimal vector in reach of t is covered. */
  lemma ExpansionCovers(A: seq<Vec>, q: nat, P0: seq<Vec>, t: Vec, F0: seq<bool>, P: seq<Vec>, Frozen: seq<seq<bool>>,
      F: seq<bool>, v: Vec)
    requires IsMatrix(A, q) && ExpandShape(q, P0, t, F0, P, Frozen, F)
    requires ExpandComplete(A, q, P0, t, F0, P, Frozen, F, q)
    requires !Solution(A, q, t) && Minimal(A, q, v) && InReach(v, t, F0)
    ensures Covered(v, P, Frozen, |P0|, q)
  {
    if NotTowards(A, q, t, F, v, q) {
      Differ(v, t);
      var l :| 0 <= l < q && v[l] != t[l];
      assert v[l] > t[l];
      assert t != Zero(q);
      GeometricCriterion(A, q, t, v);
    }
  }

  /** Replacing a popped vector by its children keeps the invariant. */
  lemma PopExpandKeeps(A: seq<Vec>, q: nat, basis: seq<Vec>, P1: seq<Vec>, Frozen1: seq<seq<bool>>, popped: seq<Vec>,
                       P: seq<Vec>, Frozen: seq<seq<bool>>, F: seq<bool>)
    requires IsMatrix(A, q) && |P1| > 0 && SearchOk(A, q, basis, P1, Frozen1, popped)
    requires !Solution(A, q, P1[|P1| - 1])
    requires ExpandShape(q, P1[..|P1| - 1], P1[|P1| - 1], Frozen1[|P1| - 1], P, Frozen, F)
    requires ExpandComplete(A, q, P1[..|P1| - 1], P1[|P1| - 1], Frozen1[|P1| - 1], P, Frozen, F, q)
    requires forall a | 0 <= a < |P1| - 1 :: Frozen[a] == Frozen1[a]
    requires NotAbove(basis, P) && AllSlow(A, q, P)
    ensures SearchOk(A, q, basis, P, Frozen, popped + [P1[|P1| - 1]])
  {
    var n := |P1| - 1;
    var P0, t, F0 := P1[..n], P1[n], Frozen1[n];
    forall v | Minimal(A, q, v) && v !in basis
      ensures Covered(v, P, Frozen, 0, q)
    {
      var a :| 0 <= a < |P1| && InReach(v, P1[a], Frozen1[a]);
      if a == n {
        ExpansionCovers(A, q, P0, t, F0, P, Frozen, F, v);
      } else {
        assert InReach(v, P[a], Frozen[a]);
      }
    }
    forall u, a | u in popped + [t] && 0 <= a < |P|
      ensures !InReach(u, P[a], Frozen[a])
    {
      if a < n {
        assert P[a] == P1[a];
        TopIsApart(P1, Frozen1, q, a);
      } else {
        ChildReachesLess(t, F0, F, P[a], Frozen[a], u);
        assert u in popped ==> !InReach(u, t, F0);
      }
    }
  }

  lemma ChildReachesLess(t: Vec, F0: seq<bool>, F: seq<bool>, child: Vec, G: seq<bool>, u: Vec)
    requires |t| == |F0| == |F| == |G| == |child| && IsChild(t, F0, F, child, G)
    ensures InReach(u, child, G) ==> InReach(u, t, F0) && u != t
  {
  }

  // ----- the solver

  ghost predicate AllSolutions(A: seq<Vec>, q: nat, basis: seq<Vec>)
    requires IsMatrix(A, q)
  {
    forall b | b in basis :: Solution(A, q, b)
  }

  lemma BasisLengths(A: seq<Vec>, q: nat, basis: seq<Vec>)
    requires IsMatrix(A, q) && AllSolutions(A, q, basis)
    ensures forall k | 0 <= k < |basis| :: |basis[k]| == q
  {
    assert forall k | 0 <= k < |basis| :: basis[k] in basis;
  }

  /** The state of an expansion before its i-th child is considered. */
  ghost predicate Expanding(A: seq<Vec>, q: nat, basis: seq<Vec>, P0: seq<Vec>, Frozen0: seq<seq<bool>>, t: Vec,
                            P: seq<Vec>, Frozen: seq<seq<bool>>, F: seq<bool>, i: nat)
    requires IsMatrix(A, q)
  {
    && i <= q && |P0| < q == |Frozen0| == |Frozen|
    && ExpandShape(q, P0, t, Frozen0[|P0|], P, Frozen, F)
    && ExpandComplete(A, q, P0, t, Frozen0[|P0|], P, Frozen, F, i)
    && (forall a | 0 <= a < |P0| :: Frozen[a] == Frozen0[a])
    && NotAbove(basis, P)
    && AllSlow(A, q, P) && IsSlow(A, q, Pace(A, q), t)
  }

  lemma PushKeeps(A: seq<Vec>, q: nat, basis: seq<Vec>, P0: seq<Vec>, Frozen0: seq<seq<bool>>, t: Vec,
                  P: seq<Vec>, Frozen: seq<seq<bool>>, F: seq<bool>, i: nat, dot: int, minimum: bool)
    requires IsMatrix(A, q) && AllSolutions(A, q, basis)
    requires Expanding(A, q, basis, P0, Frozen0, t, P, Frozen, F, i) && i < q
    requires dot == Dot(MulVec(A, t), Col(A, i))
    requires minimum <==> forall k | 0 <= k < |basis| :: !Dominates(Step(t, i), basis[k])
    requires F[i] == false && ((dot < 0 && minimum) || t == Zero(q))
    ensures |P| < q
    ensures Expanding(A, q, basis, P0, Frozen0, t, P + [Step(t, i)], Frozen[|P| := F], F[i := true], i + 1)
  {
    PushShape(q, P0, t, Frozen0[|P0|], P, Frozen, F, i);
    PushComplete(A, q, P0, t, Frozen0[|P0|], P, Frozen, F, i);
    PushNotAbove(A, q, basis, P, t, i);
    StepIsSlow(A, q, t, i);
  }

  lemma SkipKeeps(A: seq<Vec>, q: nat, basis: seq<Vec>, P0: seq<Vec>, Frozen0: seq<seq<bool>>, t: Vec,
                  P: seq<Vec>, Frozen: seq<seq<bool>>, F: seq<bool>, i: nat, dot: int, minimum: bool)
    requires IsMatrix(A, q) && AllSolutions(A, q, basis)
    requires Expanding(A, q, basis, P0, Frozen0, t, P, Frozen, F, i) && i < q
    requires dot == Dot(MulVec(A, t), Col(A, i))
    requires minimum <==> forall k | 0 <= k < |basis| :: !Dominates(Step(t, i), basis[k])
    requires !(F[i] == false && ((dot < 0 && minimum) || t == Zero(q)))
    ensures Expanding(A, q, basis, P0, Frozen0, t, P, Frozen, F, i + 1)
  {
    SkipComplete(A, q, basis, P0, t, Frozen0[|P0|], P, Frozen, F, i);
  }

  /** Pushes the i-th child T = t + e_i with the components frozen so far, if it qualifies. */
  method ConsiderChild(A: seq<Vec>, q: nat, basis: seq<Vec>, ghost P0: seq<Vec>, ghost Frozen0: seq<seq<bool>>, t: Vec,
                       product: Vec, T: Vec, P: seq<Vec>, Frozen: seq<seq<bool>>, F: seq<bool>, i: nat)
    returns (P': seq<Vec>, Frozen': seq<seq<bool>>, F': seq<bool>)
    requires IsMatrix(A, q) && |t| == q && i < q && AllSolutions(A, q, basis)
    requires product == MulVec(A, t) && T == Step(t, i)
    requires Expanding(A, q, basis, P0, Frozen0, t, P, Frozen, F, i)
    ensures Expanding(A, q, basis, P0, Frozen0, t, P', Frozen', F', i + 1)
  {
    BasisLengths(A, q, basis);
    var dot := ColumnDot(A, q, product, i);
    var minimum := IsMinimum(T, basis, |basis|);
    if F[i] == false && ((dot < 0 && minimum) || t == Zero(q)) {
      PushKeeps(A, q, basis, P0, Frozen0, t, P, Frozen, F, i, dot, minimum);
      return P + [T], Frozen[|P| := F], F[i := true];
    }
    SkipKeeps(A, q, basis, P0, Frozen0, t, P, Frozen, F, i, dot, minimum);
    return P, Frozen, F;
  }

  lemma StartExpansion(A: seq<Vec>, q: nat, basis: seq<Vec>, P0: seq<Vec>, Frozen0: seq<seq<bool>>, t: Vec)
    requires IsMatrix(A, q) && StackOk(P0 + [t], Frozen0, q) && NotAbove(basis, P0) && AllSlow(A, q, P0 + [t])
    ensures |P0| < |Frozen0| && Expanding(A, q, basis, P0, Frozen0, t, P0, Frozen0, Frozen0[|P0|], 0)
  {
    StackPrefix(P0, t, Frozen0, q);
    SlowPrefix(A, q, P0, t);
  }

  /** The inner loop of the solver: replaces the popped vector t, which stood at position |P0|, by its children. */
  method ExpandEntry(A: seq<Vec>, q: nat, basis: seq<Vec>, P0: seq<Vec>, Frozen0: seq<seq<bool>>, t: Vec, product: Vec)
    returns (P: seq<Vec>, Frozen: seq<seq<bool>>, ghost F1: seq<bool>)
    requires IsMatrix(A, q) && |t| == q && StackOk(P0 + [t], Frozen0, q)
    requires product == MulVec(A, t) && !Solution(A, q, t)
    requires AllSolutions(A, q, basis) && NotAbove(basis, P0) && AllSlow(A, q, P0 + [t])
    ensures ExpandShape(q, P0, t, Frozen0[|P0|], P, Frozen, F1)
    ensures ExpandComplete(A, q, P0, t, Frozen0[|P0|], P, Frozen, F1, q)
    ensures forall a | 0 <= a < |P0| :: Frozen[a] == Frozen0[a]
    ensures NotAbove(basis, P) && AllSlow(A, q, P)
  {
    P, Frozen := P0, Frozen0;
    var F := Frozen0[|P0|];
    var T := t;
    var i := 0;
    StartExpansion(A, q, basis, P0, Frozen0, t);
    while i < q
      invariant 0 <= i <= q
      invariant T == if i == 0 then t else Step(t, i - 1)
      invariant Expanding(A, q, basis, P0, Frozen0, t, P, Frozen, F, i)
    {
      T := T[i := T[i] + 1];
      if i > 0 {
        T := T[i - 1 := T[i - 1] - 1];
      }
      assert T == Step(t, i);
      P, Frozen, F := ConsiderChild(A, q, basis, P0, Frozen0, t, product, T, P, Frozen, F, i);
      i := i + 1;
    }
    F1 := F;
  }

  lemma StackPrefix(P0: seq<Vec>, t: Vec, Frozen: seq<seq<bool>>, q: nat)
    requires StackOk(P0 + [t], Frozen, q)
    ensures StackOk(P0, Frozen, q)
    ensures |t| == q && IsNatural(t) && FrozenCount(Frozen[|P0|]) >= |P0|
    ensures forall a | 0 <= a < |P0| :: Apart(P0[a], t, Frozen[|P0|])
  {
    var P := P0 + [t];
    assert P[|P0|] == t;
    assert forall a | 0 <= a < |P0| :: P[a] == P0[a];
    forall a | 0 <= a < |P0|
      ensures Apart(P0[a], t, Frozen[|P0|])
    {
      assert Apart(P[a], P[|P0|], Frozen[|P0|]);
    }
    forall a, b | 0 <= a < b < |P0|
      ensures Apart(P0[a], P0[b], Frozen[b])
    {
      assert Apart(P[a], P[b], Frozen[b]);
    }
  }

  lemma SlowPrefix(A: seq<Vec>, q: nat, P0: seq<Vec>, t: Vec)
    requires IsMatrix(A, q) && AllSlow(A, q, P0 + [t])
    ensures AllSlow(A, q, P0) && IsSlow(A, q, Pace(A, q), t)
  {
    assert (P0 + [t])[|P0|] == t;
    assert forall a | 0 <= a < |P0| :: (P0 + [t])[a] == P0[a];
  }

  lemma PushNotAbove(A: seq<Vec>, q: nat, basis: seq<Vec>, P: seq<Vec>, t: Vec, i: nat)
    requires IsMatrix(A, q) && |t| == q && i < q && NotAbove(basis, P)
    requires forall b | b in basis :: Solution(A, q, b)
    requires t == Zero(q) || forall k | 0 <= k < |basis| :: !Dominates(Step(t, i), basis[k])
    ensures NotAbove(basis, P + [Step(t, i)])
  {
    forall b | b in basis
      ensures !Dominates(Step(t, i), b)
    {
      if t == Zero(q) {
        UnitNotAbove(A, q, i, b);
      }
    }
  }

  lemma TopIsFresh(A: seq<Vec>, q: nat, basis: seq<Vec>, P: seq<Vec>, Frozen: seq<seq<bool>>, popped: seq<Vec>)
    requires IsMatrix(A, q) && |P| > 0 && SearchOk(A, q, basis, P, Frozen, popped)
    ensures P[|P| - 1] !in popped && P[|P| - 1] !in basis
  {
    var n := |P| - 1;
    assert InReach(P[n], P[n], Frozen[n]);
  }

  /** One round of the outer loop: the top of the stack is a new minimal solution, or it is expanded. */
  method SearchRound(A: seq<Vec>, q: nat, basis0: seq<Vec>, P0: seq<Vec>, Frozen0: seq<seq<bool>>, rowZero: Vec,
      colZero: Vec, ghost popped: seq<Vec>)
    returns (basis: seq<Vec>, P: seq<Vec>, Frozen: seq<seq<bool>>)
    requires IsMatrix(A, q) && |A| > 0 && rowZero == Zero(q) && colZero == Zero(|A|)
    requires |P0| > 0 && SearchOk(A, q, basis0, P0, Frozen0, popped) && Distinct(basis0)
    ensures SearchOk(A, q, basis, P, Frozen, popped + [P0[|P0| - 1]]) && Distinct(basis)
    ensures P0[|P0| - 1] !in popped && CanOccur(A, q, Pace(A, q), P0[|P0| - 1])
  {
    basis, Frozen := basis0, Frozen0;
    var n := |P0| - 1;
    var t := P0[n];
    P := P0[..n];
    TopIsFresh(A, q, basis0, P0, Frozen0, popped);
    TopIsLow(A, q, basis0, P0, Frozen0, popped);
    var product := MulVec(A, t);
    if product == colZero && t != rowZero {
      PoppedSolutionIsMinimal(A, q, basis0, P0, Frozen0, popped);
      PopSolutionKeeps(A, q, basis0, P0, Frozen0, popped);
      basis := basis + [t];
    } else {
      assert P0 == P + [t];
      ghost var F1;
      P, Frozen, F1 := ExpandEntry(A, q, basis0, P, Frozen0, t, product);
      PopExpandKeeps(A, q, basis0, P0, Frozen0, popped, P, Frozen, F1);
    }
  }

  /** Every vector popped so far is one the search can meet. */
  ghost predicate AllOccur(A: seq<Vec>, q: nat, popped: seq<Vec>)
    requires IsMatrix(A, q)
  {
    forall t | t in popped :: CanOccur(A, q, Pace(A, q), t)
  }

  /** As no vector is popped twice, and all sums are at most k, the number of rounds is bounded. */
  lemma RoundsBounded(A: seq<Vec>, q: nat, k: nat, popped: seq<Vec>)
    requires IsMatrix(A, q) && AllOccur(A, q, popped) && Distinct(popped)
    requires forall v | CanOccur(A, q, Pace(A, q), v) :: Sum(v) <= k
    ensures |popped| <= |Box(q, k)|
  {
    forall t | t in popped
      ensures t in Box(q, k)
    {
      InBox(t, k);
    }
    FewerThanAll(popped, Box(q, k));
  }

  /**
   homogeneous_lde terminates for every matrix.  The basis then holds exactly the minimal solutions, without
   repetition, and every natural vector v with A v = 0 is a sum of them.  No vector is popped twice, and the
   stack stays within q entries.
   */
  method HomogeneousLde(A: seq<Vec>, q: nat) returns (basis: seq<Vec>, ghost popped: seq<Vec>)
    requires |A| > 0 && q > 1 && IsMatrix(A, q)
    ensures forall v :: v in basis <==> Minimal(A, q, v)
    ensures Distinct(basis)
    ensures forall v: Vec | |v| == q && IsNatural(v) && MulVec(A, v) == Zero(|A|) :: IsGenerated(basis, q, v)
    ensures Distinct(popped) && AllOccur(A, q, popped) && forall b | b in basis :: b in popped
  {
    var rowZero := Zero(q);
    var colZero := Zero(|A|);
    var P := [rowZero];
    var Frozen := seq(q, i => seq(q, j => i != 0));
    basis, popped := [], [];
    CountNone(Frozen[0]);
    InitialSearch(A, q, Frozen);
    ghost var k := DepthBound(A, q, Pace(A, q));
    ghost var most := |Box(q, k)|;
    while |P| > 0
      invariant SearchOk(A, q, basis, P, Frozen, popped)
      invariant Distinct(basis) && Distinct(popped) && AllOccur(A, q, popped) && |popped| <= most
      decreases most - |popped|
    {
      ghost var t := P[|P| - 1];
      basis, P, Frozen := SearchRound(A, q, basis, P, Frozen, rowZero, colZero, popped);
      popped := popped + [t];
      RoundsBounded(A, q, k, popped);
    }
    forall v: Vec | |v| == q && IsNatural(v) && MulVec(A, v) == Zero(|A|)
      ensures IsGenerated(basis, q, v)
    {
      MinimalGenerate(A, q, basis, v);
    }
  }

  lemma InitialSearch(A: seq<Vec>, q: nat, Frozen: seq<seq<bool>>)
    requires IsMatrix(A, q) && q > 0
    requires |Frozen| == q && forall a | 0 <= a < q :: |Frozen[a]| == q
    requires forall i | 0 <= i < q :: !Frozen[0][i]
    ensures SearchOk(A, q, [], [Zero(q)], Frozen, [])
  {
    var P := [Zero(q)];
    assert StackOk(P, Frozen, q);
    ZeroIsSlow(A, q);
    forall v | Minimal(A, q, v)
      ensures Covered(v, P, Frozen, 0, q)
    {
      assert InReach(v, P[0], Frozen[0]);
    }
  }
}
