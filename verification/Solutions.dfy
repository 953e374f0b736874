/** Solutions of homogeneous linear Diophantine systems, and the minimal ones among them. */
module Solutions {
  import opened IntVectors

  /** A nonzero vector of naturals v with A v = 0. */
  ghost predicate Solution(A: seq<Vec>, q: nat, v: Vec)
    requires IsMatrix(A, q)
  {
    |v| == q && IsNatural(v) && v != Zero(q) && MulVec(A, v) == Zero(|A|)
  }

  /** A solution that has no other solution componentwise below it. */
  ghost predicate Minimal(A: seq<Vec>, q: nat, v: Vec)
    requires IsMatrix(A, q)
  {
    Solution(A, q, v) && forall w :: Solution(A, q, w) && Leq(w, v) ==> w == v
  }

  /** Below every solution there is a minimal one. */
  lemma {:induction false} MinimalBelow(A: seq<Vec>, q: nat, v: Vec) returns (w: Vec)
    requires IsMatrix(A, q) && Solution(A, q, v)
    ensures Minimal(A, q, w) && Leq(w, v)
    decreases Sum(v)
  {
    SumNatural(v);
    if Minimal(A, q, v) {
      w := v;
    } else {
      var u :| Solution(A, q, u) && Leq(u, v) && u != v;
      SumMonotone(u, v);
      SumNatural(u);
      w := MinimalBelow(A, q, u);
    }
  }

  // ----- what the minimal solutions generate

  ghost function Plus(u: Vec, v: Vec): (w: Vec)
    requires |u| == |v|
    ensures |w| == |u| && forall i | 0 <= i < |u| :: w[i] == u[i] + v[i]
  {
    seq(|u|, i requires 0 <= i < |u| => u[i] + v[i])
  }

  ghost function SumOf(parts: seq<Vec>, q: nat): (v: Vec)
    requires IsMatrix(parts, q)
    ensures |v| == q
  {
    if parts == [] then Zero(q) else Plus(parts[0], SumOf(parts[1..], q))
  }

  /** v is a sum of basis vectors, each taken any number of times. */
  ghost predicate IsGenerated(basis: seq<Vec>, q: nat, v: Vec) {
    exists parts :: IsMatrix(parts, q) && (forall b | b in parts :: b in basis) && SumOf(parts, q) == v
  }

  /** All vectors of naturals v with A v = 0 are sums of minimal solutions. */
  lemma {:induction false} MinimalGenerate(A: seq<Vec>, q: nat, basis: seq<Vec>, v: Vec)
    requires IsMatrix(A, q) && forall w | Minimal(A, q, w) :: w in basis
    requires |v| == q && IsNatural(v) && MulVec(A, v) == Zero(|A|)
    ensures IsGenerated(basis, q, v)
    decreases if IsNatural(v) then Sum(v) else 0
  {
    SumNatural(v);
    if v == Zero(q) {
      assert SumOf([], q) == v;
    } else {
      var w := MinimalBelow(A, q, v);
      var u := Minus(v, w);
      RestIsSolution(A, q, v, w);
      MinimalGenerate(A, q, basis, u);
      AddPart(basis, q, w, u);
      assert Plus(w, u) == v;
    }
  }

  lemma RestIsSolution(A: seq<Vec>, q: nat, v: Vec, w: Vec)
    requires IsMatrix(A, q) && Solution(A, q, v) && Solution(A, q, w) && Leq(w, v)
    ensures var u := Minus(v, w); IsNatural(u) && MulVec(A, u) == Zero(|A|) && 0 <= Sum(u) < Sum(v)
  {
    var u := Minus(v, w);
    forall r | 0 <= r < |A|
      ensures Dot(A[r], u) == 0
    {
      DotMinus(A[r], v, w);
      assert MulVec(A, v)[r] == 0 && MulVec(A, w)[r] == 0;
    }
    assert MulVec(A, u) == Zero(|A|);
    Differ(w, Zero(q));
    SumNatural(u);
    SumMonotone(u, v);
  }

  lemma AddPart(basis: seq<Vec>, q: nat, w: Vec, u: Vec)
    requires |w| == |u| == q && w in basis && IsGenerated(basis, q, u)
    ensures IsGenerated(basis, q, Plus(w, u))
  {
    var parts :| IsMatrix(parts, q) && (forall b | b in parts :: b in basis) && SumOf(parts, q) == u;
    var parts' := [w] + parts;
    assert parts'[1..] == parts;
    assert SumOf(parts', q) == Plus(w, u);
  }
}
