/** Weighted sums over the entries of a composition, and the least element of a set. */
module WeightedSums {
  import opened Combinatorics

  ghost function Weighted(t: seq<nat>, w: seq<int>): int
    requires |t| == |w|
  {
    var n := |t| - 1;
    if t == [] then 0 else Weighted(t[..n], w[..n]) + Prod(t[n], w[n])
  }

  lemma {:induction false} WeightedClear(t: seq<nat>, w: seq<int>, i: nat)
    requires |t| == |w| && i < |t|
    ensures Weighted(t, w) == Prod(t[i], w[i]) + Weighted(t[i := 0], w)
    decreases |t|
  {
    var n := |t| - 1;
    if i < n {
      WeightedClear(t[..n], w[..n], i);
      assert t[i := 0][..n] == t[..n][i := 0];
    } else {
      assert t[i := 0][..n] == t[..n];
    }
  }

  lemma {:induction false} WeightedNonnegative(t: seq<nat>, w: seq<int>)
    requires |t| == |w| && forall i | 0 <= i < |w| :: w[i] >= 0
    ensures Weighted(t, w) >= 0
  {
    if t != [] {
      var n := |t| - 1;
      WeightedNonnegative(t[..n], w[..n]);
      NonnegativeProd(t[n], w[n]);
    }
  }

  lemma NonnegativeProd(a: int, b: int)
    requires a >= 0 && b >= 0
    ensures Prod(a, b) >= 0
  {
    ProdNat(a, b);
  }

  lemma {:induction false} WeightedZero(t: seq<nat>, w: seq<int>)
    requires |t| == |w| && forall i | 0 <= i < |t| :: t[i] == 0
    ensures Weighted(t, w) == 0
  {
    if t != [] {
      WeightedZero(t[..|t| - 1], w[..|t| - 1]);
    }
  }

  lemma SumLast(t: seq<nat>)
    requires t != []
    ensures Sum(t) == Sum(t[..|t| - 1]) + t[|t| - 1]
  {
    var n := |t| - 1;
    SumSplit(t, n);
    assert t[n..] == [t[n]];
    assert t[n..][1..] == [];
  }

  /** With the weights a - s w the sum is a times the sum of t less s times the sum with the weights w. */
  lemma {:induction false} WeightedSlack(t: seq<nat>, w: seq<int>, v: seq<int>, a: int, s: int)
    requires |t| == |w| == |v| && forall i | 0 <= i < |t| :: v[i] == a - Prod(s, w[i])
    ensures Weighted(t, v) == Prod(a, Sum(t)) - Prod(s, Weighted(t, w))
  {
    if t == [] {
      assert Prod(a, 0) == 0 && Prod(s, 0) == 0;
    } else {
      var n := |t| - 1;
      WeightedSlack(t[..n], w[..n], v[..n], a, s);
      SumLast(t);
      SlackStep(a, s, Sum(t[..n]), t[n], Weighted(t[..n], w[..n]), w[n], v[n]);
    }
  }

  lemma SlackStep(a: int, s: int, x: int, e: int, y: int, w: int, v: int)
    requires v == a - Prod(s, w)
    ensures Prod(a, x) - Prod(s, y) + Prod(e, v) == Prod(a, x + e) - Prod(s, y + Prod(e, w))
  {
    assert e * (a - s * w) == a * e - s * (e * w);
    assert a * (x + e) == a * x + a * e && s * (y + e * w) == s * y + s * (e * w);
  }

  // ----- compositions with two entries

  /** a at position i, b at position j, 0 elsewhere. */
  ghost function TwoAt(m: nat, i: nat, j: nat, a: nat, b: nat): (t: seq<nat>)
    requires i < m && j < m && i != j
    ensures |t| == m && t[i] == a && t[j] == b && forall k | 0 <= k < m && k != i && k != j :: t[k] == 0
  {
    seq(m, k => if k == i then a else if k == j then b else 0)
  }

  lemma TwoAtSum(m: nat, i: nat, j: nat, a: nat, b: nat)
    requires i < m && j < m && i != j
    ensures Sum(TwoAt(m, i, j, a, b)) == a + b
  {
    var t := TwoAt(m, i, j, a, b);
    SumUpdate(t, i, 0);
    SumUpdate(t[i := 0], j, 0);
    SumZero(t[i := 0][j := 0]);
  }

  lemma TwoAtWeighted(m: nat, i: nat, j: nat, a: nat, b: nat, w: seq<int>)
    requires i < m && j < m && i != j && |w| == m
    ensures Weighted(TwoAt(m, i, j, a, b), w) == Prod(a, w[i]) + Prod(b, w[j])
  {
    var t := TwoAt(m, i, j, a, b);
    WeightedClear(t, w, i);
    WeightedClear(t[i := 0], w, j);
    WeightedZero(t[i := 0][j := 0], w);
  }

  /** Two entries that make up the whole sum leave nothing for the others. */
  lemma WholeSum(t: seq<nat>, i: nat, j: nat)
    requires i < |t| && j < |t| && i != j
    ensures t[i] + t[j] <= Sum(t)
    ensures t[i] + t[j] == Sum(t) ==> t == TwoAt(|t|, i, j, t[i], t[j])
  {
    var u := t[i := 0][j := 0];
    SumUpdate(t, i, 0);
    SumUpdate(t[i := 0], j, 0);
    forall k | 0 <= k < |t| && k != i && k != j && t[i] + t[j] == Sum(t)
      ensures t[k] == 0
    {
      assert u[k] == t[k];
      SumAtLeast(u, k);
    }
  }

  /** A weighted sum of weights that are not negative bounds each of its entries. */
  lemma WeightedEntry(t: seq<nat>, w: seq<int>, i: nat, j: nat)
    requires |t| == |w| && i < |t| && j < |t| && i != j && forall k | 0 <= k < |w| :: w[k] >= 0
    ensures Prod(t[i], w[i]) >= 0 && Prod(t[j], w[j]) >= 0
    ensures Prod(t[i], w[i]) + Prod(t[j], w[j]) <= Weighted(t, w)
  {
    NonnegativeProd(t[i], w[i]);
    NonnegativeProd(t[j], w[j]);
    WeightedClear(t, w, i);
    WeightedClear(t[i := 0], w, j);
    WeightedNonnegative(t[i := 0][j := 0], w);
  }

  // ----- the least element

  lemma {:induction false} Least(s: set<nat>, f: nat -> real) returns (i: nat)
    requires s != {}
    ensures i in s && forall j | j in s :: f(i) <= f(j)
    decreases s
  {
    var k :| k in s;
    i := k;
    if s != {k} {
      var l := Least(s - {k}, f);
      i := if f(k) <= f(l) then k else l;
    }
  }
}
