/**
 Gordan's alternative for integer vectors: either some natural combination of them, not all zero, vanishes, or
 one vector has a positive inner product with each of them.
 */
module Gordan {
  import opened IntVectors

  /** The inner products of y with the given vectors. */
  ghost function Inner(y: Vec, cols: seq<Vec>): (g: Vec)
    requires IsMatrix(cols, |y|)
    ensures |g| == |cols| && forall j | 0 <= j < |cols| :: g[j] == Dot(y, cols[j])
  {
    seq(|cols|, j requires 0 <= j < |cols| => Dot(y, cols[j]))
  }

  /** The combination of the vectors with the coefficients s vanishes: it is orthogonal to everything. */
  ghost predicate Vanishes(cols: seq<Vec>, p: nat, s: Vec)
    requires IsMatrix(cols, p) && |s| == |cols|
  {
    forall y: Vec | |y| == p :: Dot(s, Inner(y, cols)) == 0
  }

  ghost predicate Relation(cols: seq<Vec>, p: nat, s: Vec)
    requires IsMatrix(cols, p)
  {
    |s| == |cols| && IsNatural(s) && Sum(s) > 0 && Vanishes(cols, p, s)
  }

  ghost predicate Positive(y: Vec, cols: seq<Vec>)
    requires IsMatrix(cols, |y|)
  {
    forall j | 0 <= j < |cols| :: Dot(y, cols[j]) > 0
  }

  ghost predicate HasRelation(cols: seq<Vec>, p: nat)
    requires IsMatrix(cols, p)
  {
    exists s :: Relation(cols, p, s)
  }

  ghost predicate HasPositive(cols: seq<Vec>, p: nat)
    requires IsMatrix(cols, p)
  {
    exists y: Vec :: |y| == p && Positive(y, cols)
  }

  /** A relation among all but the first vector is one among all. */
  lemma RelationExtends(cols: seq<Vec>, p: nat)
    requires IsMatrix(cols, p) && |cols| > 0 && HasRelation(cols[1..], p)
    ensures HasRelation(cols, p)
  {
    var s :| Relation(cols[1..], p, s);
    var s' := [0] + s;
    assert s'[1..] == s;
    forall y: Vec | |y| == p
      ensures Dot(s', Inner(y, cols)) == 0
    {
      assert Inner(y, cols)[1..] == Inner(y, cols[1..]);
    }
    assert Relation(cols, p, s');
  }

  /**
   The combinations g_j a + l c_j of the first vector a with the others.  For g_j = <y, c_j> and l = -<y, a> they
   are orthogonal to y.
   */
  ghost function Projected(p: nat, cols: seq<Vec>, g: Vec, l: int): (b: seq<Vec>)
    requires IsMatrix(cols, p) && |cols| == |g| + 1
    ensures |b| == |g| && IsMatrix(b, p)
    ensures forall j | 0 <= j < |b| :: b[j] == Combination(g[j], cols[0], l, cols[j + 1])
  {
    seq(|g|, j requires 0 <= j < |g| => Combination(g[j], cols[0], l, cols[j + 1]))
  }

  lemma CombinationInner(w: Vec, k: int, a: Vec, l: int, c: Vec)
    requires |w| == |a| == |c|
    ensures Dot(w, Combination(k, a, l, c)) == Dot(w, a) * k + l * Dot(w, c)
  {
    DotCombination(w, k, a, l, c);
  }

  /** Inner products with the projected vectors. */
  lemma InnerProjected(cols: seq<Vec>, g: Vec, l: int, w: Vec, h: Vec, k: int)
    requires IsMatrix(cols, |w|) && |cols| == |g| + 1 && h == Inner(w, cols[1..]) && k == Dot(w, cols[0])
    ensures Inner(w, Projected(|w|, cols, g, l)) == Combination(k, g, l, h)
  {
    forall j | 0 <= j < |g|
      ensures Inner(w, Projected(|w|, cols, g, l))[j] == Combination(k, g, l, h)[j]
    {
      CombinationInner(w, g[j], cols[0], l, cols[j + 1]);
    }
  }

  /** The coefficients with which a relation among the projected vectors becomes one among all. */
  ghost function Lifted(s: Vec, first: int, l: int): (r: Vec)
    ensures |r| == |s| + 1
  {
    [first] + Combination(l, s, 0, s)
  }

  lemma LiftedDot(s: Vec, first: int, l: int, v: Vec, k: int, x: int)
    requires |v| == |s| + 1 && k == v[0] && x == Dot(s, v[1..])
    ensures Dot(Lifted(s, first, l), v) == first * k + l * x
  {
    assert Lifted(s, first, l)[1..] == Combination(l, s, 0, s);
    CombinationValue(l, s, 0, s, v[1..], x, x);
  }

  /** A relation among the projected vectors is orthogonal to w; lifted, it still is. */
  lemma LiftedVanishes(cols: seq<Vec>, g: Vec, l: int, s: Vec, w: Vec)
    requires IsMatrix(cols, |w|) && |cols| == |g| + 1 == |s| + 1
    requires Dot(s, Inner(w, Projected(|w|, cols, g, l))) == 0
    ensures Dot(Lifted(s, Dot(s, g), l), Inner(w, cols)) == 0
  {
    var h, k := Inner(w, cols[1..]), Dot(w, cols[0]);
    assert Inner(w, cols)[1..] == h;
    InnerProjected(cols, g, l, w, h, k);
    LiftedSame(s, k, g, l, h, Dot(s, g), Dot(s, h), Inner(w, cols));
  }

  lemma LiftedSame(s: Vec, k: int, g: Vec, l: int, h: Vec, first: int, x: int, v: Vec)
    requires |s| == |g| == |h| == |v| - 1 && first == Dot(s, g) && x == Dot(s, h) && k == v[0] && h == v[1..]
    ensures Dot(Lifted(s, first, l), v) == Dot(s, Combination(k, g, l, h))
  {
    DotSymmetric(s, Combination(k, g, l, h));
    DotSymmetric(s, g);
    DotSymmetric(s, h);
    CombinationValue(k, g, l, h, s, first, x);
    LiftedDot(s, first, l, v, k, x);
  }

  /** A relation among the projected vectors gives one among all. */
  lemma RelationLifts(p: nat, cols: seq<Vec>, g: Vec, l: int)
    requires IsMatrix(cols, p) && |cols| == |g| + 1 && l >= 0 && forall j | 0 <= j < |g| :: g[j] >= 1
    requires HasRelation(Projected(p, cols, g, l), p)
    ensures HasRelation(cols, p)
  {
    var s :| Relation(Projected(p, cols, g, l), p, s);
    LargeDot(s, g);
    LiftedNatural(s, Dot(s, g), l);
    forall w: Vec | |w| == p
      ensures Dot(Lifted(s, Dot(s, g), l), Inner(w, cols)) == 0
    {
      LiftedVanishes(cols, g, l, s, w);
    }
    assert Relation(cols, p, Lifted(s, Dot(s, g), l));
  }

  lemma LiftedNatural(s: Vec, first: int, l: int)
    requires IsNatural(s) && first > 0 && l >= 0
    ensures IsNatural(Lifted(s, first, l)) && Sum(Lifted(s, first, l)) > 0
  {
    NaturalScaled(s, l);
    SumNatural(Combination(l, s, 0, s));
    assert Lifted(s, first, l)[1..] == Combination(l, s, 0, s);
  }

  lemma NaturalScaled(s: Vec, k: int)
    requires IsNatural(s) && k >= 0
    ensures IsNatural(Combination(k, s, 0, s))
  {
  }

  lemma {:induction false} LargeDot(s: Vec, g: Vec)
    requires |s| == |g| && IsNatural(s) && forall j | 0 <= j < |g| :: g[j] >= 1
    ensures Dot(s, g) >= Sum(s)
  {
    if |s| > 0 {
      LargeDot(s[1..], g[1..]);
      AtLeast(s[0], g[0]);
    }
  }

  lemma AtLeast(x: int, k: int)
    requires x >= 0 && k >= 1
    ensures x * k >= x
  {
    assert x * k == x * (k - 1) + x;
  }

  /** A zero vector is a relation by itself. */
  lemma ZeroRelation(cols: seq<Vec>, p: nat)
    requires IsMatrix(cols, p) && |cols| > 0 && cols[0] == Zero(p)
    ensures HasRelation(cols, p)
  {
    var s := [1] + Zero(|cols| - 1);
    assert s[1..] == Zero(|cols| - 1);
    SumNatural(s[1..]);
    forall y: Vec | |y| == p
      ensures Dot(s, Inner(y, cols)) == 0
    {
      DotSymmetric(y, cols[0]);
      ZeroLeft(cols[0], y);
      ZeroLeft(s[1..], Inner(y, cols)[1..]);
    }
    assert Relation(cols, p, s);
  }

  /** More than the absolute value of every inner product of a with the vectors. */
  ghost function Spread(a: Vec, cols: seq<Vec>): (n: nat)
    requires IsMatrix(cols, |a|)
  {
    if cols == [] then 1 else (if Dot(a, cols[0]) < 0 then -Dot(a, cols[0]) else 0) + Spread(a, cols[1..])
  }

  lemma {:induction false} SpreadExceeds(a: Vec, cols: seq<Vec>, j: nat)
    requires IsMatrix(cols, |a|) && j < |cols|
    ensures Spread(a, cols) + Dot(a, cols[j]) >= 1
  {
    if j > 0 {
      SpreadExceeds(a, cols[1..], j - 1);
    } else {
      SpreadPositive(a, cols[1..]);
    }
  }

  lemma {:induction false} SpreadPositive(a: Vec, cols: seq<Vec>)
    requires IsMatrix(cols, |a|)
    ensures Spread(a, cols) >= 1
  {
    if cols != [] {
      SpreadPositive(a, cols[1..]);
    }
  }

  /** From z, positive on the projected vectors, a vector positive on all but the first and orthogonal to it. */
  lemma Tilted(y: Vec, cols: seq<Vec>, g: Vec, l: int, z: Vec) returns (w: Vec)
    requires IsMatrix(cols, |y|) && |cols| == |g| + 1 && g == Inner(y, cols[1..]) && l == -Dot(y, cols[0])
    requires |z| == |y| && Positive(z, Projected(|y|, cols, g, l))
    ensures |w| == |y| && Positive(w, cols[1..]) && Dot(w, cols[0]) == 0
  {
    var k := Dot(z, cols[0]);
    w := Combination(k, y, l, z);
    forall j | 0 <= j < |g|
      ensures Dot(w, cols[1..][j]) > 0
    {
      CombinationDot(k, y, l, z, cols[j + 1]);
      CombinationInner(z, g[j], cols[0], l, cols[j + 1]);
      assert Dot(z, Projected(|y|, cols, g, l)[j]) > 0;
    }
    CombinationDot(k, y, l, z, cols[0]);
    Opposite(k, l, Dot(y, cols[0]));
  }

  lemma Opposite(k: int, l: int, x: int)
    requires l == -x
    ensures k * x + l * k == 0
  {
  }

  /** A vector positive on all but the first, which is not zero and orthogonal to it, is corrected. */
  lemma Corrected(w: Vec, cols: seq<Vec>)
    requires IsMatrix(cols, |w|) && |cols| > 0 && Positive(w, cols[1..]) && Dot(w, cols[0]) == 0
    requires cols[0] != Zero(|w|)
    ensures HasPositive(cols, |w|)
  {
    var a := cols[0];
    var n := Spread(a, cols[1..]);
    Differ(a, Zero(|w|));
    NormPositive(a);
    forall j | 0 <= j < |cols|
      ensures Dot(Combination(n, w, 1, a), cols[j]) > 0
    {
      if j > 0 {
        assert Dot(w, cols[1..][j - 1]) > 0;
        SpreadExceeds(a, cols[1..], j - 1);
      }
      CorrectedDot(n, w, a, cols[j]);
    }
    assert Positive(Combination(n, w, 1, a), cols);
  }

  lemma CorrectedDot(n: nat, w: Vec, a: Vec, c: Vec)
    requires |w| == |a| == |c|
    requires if Dot(w, c) > 0 then n + Dot(a, c) > 0 else Dot(w, c) == 0 < Dot(a, c)
    ensures Dot(Combination(n, w, 1, a), c) > 0
  {
    var x, y := Dot(w, c), Dot(a, c);
    CombinationValue(n, w, 1, a, c, x, y);
    CorrectedValue(n, x, y);
  }

  lemma CorrectedValue(n: nat, x: int, y: int)
    requires if x > 0 then n + y > 0 else x == 0 < y
    ensures n * x + 1 * y > 0
  {
    if x > 0 {
      AtLeast(n, x);
    }
  }

  lemma {:induction false} Alternative(cols: seq<Vec>, p: nat)
    requires IsMatrix(cols, p)
    ensures HasRelation(cols, p) || HasPositive(cols, p)
    decreases |cols|
  {
    if cols == [] {
      assert Positive(Zero(p), cols);
    } else {
      Alternative(cols[1..], p);
      if HasRelation(cols[1..], p) {
        RelationExtends(cols, p);
      } else {
        var y: Vec :| |y| == p && Positive(y, cols[1..]);
        if Dot(y, cols[0]) > 0 {
          AllPositive(y, cols);
        } else {
          var g, l := Inner(y, cols[1..]), -Dot(y, cols[0]);
          Alternative(Projected(p, cols, g, l), p);
          Project(y, cols, g, l);
        }
      }
    }
  }

  lemma AllPositive(y: Vec, cols: seq<Vec>)
    requires IsMatrix(cols, |y|) && |cols| > 0 && Positive(y, cols[1..]) && Dot(y, cols[0]) > 0
    ensures HasPositive(cols, |y|)
  {
    forall j | 0 <= j < |cols|
      ensures Dot(y, cols[j]) > 0
    {
      if j > 0 {
        assert Dot(y, cols[1..][j - 1]) > 0;
      }
    }
    assert Positive(y, cols);
  }

  lemma Project(y: Vec, cols: seq<Vec>, g: Vec, l: int)
    requires IsMatrix(cols, |y|) && |cols| == |g| + 1 && g == Inner(y, cols[1..]) && l == -Dot(y, cols[0]) >= 0
    requires Positive(y, cols[1..])
    requires HasRelation(Projected(|y|, cols, g, l), |y|) || HasPositive(Projected(|y|, cols, g, l), |y|)
    ensures HasRelation(cols, |y|) || HasPositive(cols, |y|)
  {
    if HasRelation(Projected(|y|, cols, g, l), |y|) {
      RelationLifts(|y|, cols, g, l);
    } else if cols[0] == Zero(|y|) {
      ZeroRelation(cols, |y|);
    } else {
      var z: Vec :| |z| == |y| && Positive(z, Projected(|y|, cols, g, l));
      var w := Tilted(y, cols, g, l, z);
      Corrected(w, cols);
    }
  }

  /** The two alternatives exclude each other. */
  lemma Exclusive(cols: seq<Vec>, p: nat)
    requires IsMatrix(cols, p)
    ensures !(HasRelation(cols, p) && HasPositive(cols, p))
  {
    if HasRelation(cols, p) && HasPositive(cols, p) {
      var s :| Relation(cols, p, s);
      var y: Vec :| |y| == p && Positive(y, cols);
      LargeDot(s, Inner(y, cols));
    }
  }
}
