/**
 The table of multinomial coefficients of src/pow.cpp: all vectors of m naturals with sum n are
 enumerated in co-lexicographic order, and each coefficient is derived from ones already stored.
 */
module MultinomialTable {
  import opened Combinatorics
  import opened ModArith

  type Exponents = seq<nat>

  // ----- the vectors to be enumerated and their order

  ghost function Compositions(m: nat, n: nat): set<Exponents> {
    if m == 0 then if n == 0 then {[]} else {}
    else set h: nat, s | 0 <= h <= n && s in Compositions(m - 1, n - h) :: [h] + s
  }

  ghost predicate IsComposition(s: Exponents, m: nat, n: nat) {
    |s| == m && Sum(s) == n
  }

  lemma {:induction false} CompositionsMembers(m: nat, n: nat, s: Exponents)
    ensures s in Compositions(m, n) <==> IsComposition(s, m, n)
  {
    if m > 0 && s != [] {
      assert s == [s[0]] + s[1..];
      if s in Compositions(m, n) {
        var h: nat, u :| 0 <= h <= n && u in Compositions(m - 1, n - h) && s == [h] + u;
        assert u == s[1..];
        CompositionsMembers(m - 1, n - h, u);
      } else if s[0] <= n {
        CompositionsMembers(m - 1, n - s[0], s[1..]);
      }
    }
  }

  /** Co-lexicographic order: the last differing entry decides. */
  ghost predicate BeforeAt(s: Exponents, t: Exponents, k: nat)
    requires |s| == |t|
  {
    k < |t| && s[k] < t[k] && forall l | k < l < |t| :: s[l] == t[l]
  }

  ghost predicate Before(s: Exponents, t: Exponents)
    requires |s| == |t|
  {
    exists k :: BeforeAt(s, t, k)
  }

  lemma {:induction false} BeforeTotal(s: Exponents, t: Exponents, m: nat)
    requires |s| == |t| && m <= |t| && forall l | m <= l < |t| :: s[l] == t[l]
    ensures s == t || Before(s, t) || Before(t, s)
    decreases m
  {
    if m > 0 {
      if s[m - 1] == t[m - 1] {
        BeforeTotal(s, t, m - 1);
      } else {
        assert BeforeAt(s, t, m - 1) || BeforeAt(t, s, m - 1);
      }
    }
  }

  lemma BeforeTransitive(s: Exponents, t: Exponents, u: Exponents)
    requires |s| == |t| == |u| && Before(s, t) && Before(t, u)
    ensures Before(s, u)
  {
    var a: nat :| BeforeAt(s, t, a);
    var b: nat :| BeforeAt(t, u, b);
    assert BeforeAt(s, u, if a < b then b else a);
  }

  lemma BeforeAsymmetric(s: Exponents, t: Exponents)
    requires |s| == |t| && Before(s, t)
    ensures s != t && !Before(t, s)
  {
    var a :| BeforeAt(s, t, a);
    forall b
      ensures !BeforeAt(t, s, b)
    {
    }
  }

  // ----- the successor

  /** j is the first nonzero entry of t, and there is an entry after it. */
  ghost predicate Leads(t: Exponents, j: nat) {
    j < |t| && t[j] > 0 && forall l | 0 <= l < j :: t[l] == 0
  }

  ghost function Next(t: Exponents, j: nat): (t': Exponents)
    requires Leads(t, j) && j + 1 < |t|
    ensures |t'| == |t|
  {
    t[j := 0][0 := t[j] - 1][j + 1 := t[j + 1] + 1]
  }

  lemma NextSum(t: Exponents, j: nat)
    requires Leads(t, j) && j + 1 < |t|
    ensures Sum(Next(t, j)) == Sum(t) && Before(t, Next(t, j))
    ensures Leads(Next(t, j), if t[j] > 1 then 0 else j + 1)
  {
    var u := t[j := 0];
    SumUpdate(t, j, 0);
    SumUpdate(u, 0, t[j] - 1);
    SumUpdate(u[0 := t[j] - 1], j + 1, t[j + 1] + 1);
    assert BeforeAt(t, Next(t, j), j + 1);
  }

  /** No vector with the same sum lies strictly between t and Next(t). */
  lemma NextIsNext(t: Exponents, j: nat, s: Exponents)
    requires Leads(t, j) && j + 1 < |t| && |s| == |t| && Sum(s) == Sum(t) && Before(t, s)
    ensures s == Next(t, j) || Before(Next(t, j), s)
  {
    var t' := Next(t, j);
    var k: nat :| BeforeAt(t, s, k);
    if k <= j {
      TailDecidesHead(t, s, j);
      assert false;
    } else if k > j + 1 || s[k] > t'[k] {
      assert BeforeAt(t', s, k);
    } else {
      NextSum(t, j);
      assert forall l | j + 1 <= l < |t| :: s[l] == t'[l];
      HeadAtLeastLowest(t', s, j + 1);
    }
  }

  lemma SumAround(s: Exponents, j: nat)
    requires j < |s|
    ensures Sum(s) == Sum(s[..j]) + s[j] + Sum(s[j + 1..])
  {
    SumSplit(s, j);
    assert s[j..][1..] == s[j + 1..];
  }

  /**
   If s and t agree after j and t has nothing before j, then s has at most t[j] at j, or exactly and nothing
   before.
   */
  lemma TailDecidesHead(t: Exponents, s: Exponents, j: nat)
    requires Leads(t, j) && |s| == |t| && Sum(s) == Sum(t)
    requires forall l | j < l < |t| :: s[l] == t[l]
    ensures s[j] <= t[j]
    ensures s[j] == t[j] ==> forall l | 0 <= l < j :: s[l] == 0
  {
    SumAround(t, j);
    SumAround(s, j);
    assert t[j + 1..] == s[j + 1..];
    SumZero(t[..j]);
    var head := s[..j];
    forall l | 0 <= l < j
      ensures s[l] <= Sum(head)
    {
      SumAtLeast(head, l);
    }
  }

  /** Among vectors that agree from c on, the one with everything else in entry 0 comes first. */
  lemma HeadAtLeastLowest(t: Exponents, s: Exponents, c: nat)
    requires |s| == |t| && 0 < c <= |t| && Sum(s) == Sum(t)
    requires forall l | c <= l < |t| :: s[l] == t[l]
    requires forall l | 0 < l < c :: t[l] == 0
    ensures s == t || Before(t, s)
  {
    BeforeTotal(s, t, c);
    if Before(s, t) {
      var k :| BeforeAt(s, t, k);
      assert k == 0;
      assert s == t[0 := s[0]];
      SumUpdate(t, 0, s[0]);
    }
  }

  // ----- the recurrence

  /** t + e_0 - e_k, which comes before t. */
  ghost function Neighbour(t: Exponents, k: nat): (u: Exponents)
    requires 1 <= k < |t| && t[k] > 0
    ensures |u| == |t|
  {
    t[0 := t[0] + 1][k := t[k] - 1]
  }

  lemma NeighbourBefore(t: Exponents, k: nat)
    requires 1 <= k < |t| && t[k] > 0
    ensures Sum(Neighbour(t, k)) == Sum(t) && Before(Neighbour(t, k), t)
  {
    SumUpdate(t, 0, t[0] + 1);
    SumUpdate(t[0 := t[0] + 1], k, t[k] - 1);
    assert BeforeAt(Neighbour(t, k), t, k);
  }

  /** The coefficients m of the neighbour u and m' of t. */
  lemma NeighbourCoefficient(t: Exponents, k: nat, u: Exponents, m: nat, m': nat, a: nat)
    requires 1 <= k < |t| && t[k] > 0 && u == Neighbour(t, k)
    requires m == Multinomial(u) && m' == Multinomial(t) && a == t[0] + 1
    ensures Prod(m, a) == Prod(m', t[k])
  {
    NeighbourBefore(t, k);
    var f, g := SameFactorial(t, u);
    var p := NeighbourFactors(t, k, u, f, g);
    CancelCommon(m, m', p, a, t[k], f, g);
  }

  lemma SameFactorial(t: Exponents, u: Exponents) returns (f: nat, g: nat)
    requires Sum(t) == Sum(u)
    ensures f == FactProduct(u) && g == FactProduct(t) && Prod(Multinomial(u), f) == Prod(Multinomial(t), g)
  {
    MultinomialFact(t);
    MultinomialFact(u);
    f, g := FactProduct(u), FactProduct(t);
  }

  lemma NeighbourFactors(t: Exponents, k: nat, u: Exponents, f: nat, g: nat) returns (p: nat)
    requires 1 <= k < |t| && t[k] > 0 && u == Neighbour(t, k) && f == FactProduct(u) && g == FactProduct(t)
    ensures p > 0 && g == Prod(p, t[k]) && f == Prod(p, t[0] + 1)
  {
    var x := t[k := t[k] - 1];
    assert x[k := x[k] + 1] == t;
    assert x[0 := x[0] + 1] == u;
    FactProductUp(x, k);
    FactProductUp(x, 0);
    p := FactProduct(x);
  }

  lemma CancelCommon(m: int, m': int, p: int, a: int, b: int, f: int, g: int)
    requires p > 0 && f == Prod(p, a) && g == Prod(p, b) && Prod(m, f) == Prod(m', g)
    ensures Prod(m, a) == Prod(m', b)
  {
    ProdCommutative(p, a);
    ProdCommutative(p, b);
    ProdAssociative(m, a, p);
    ProdAssociative(m', b, p);
    ProdCancel(Prod(m, a), Prod(m', b), p);
  }

  /** The coefficients of the neighbours t + e_0 - e_l with 1 <= l < k. */
  ghost function NeighbourSum(t: Exponents, k: nat): int
    requires 1 <= k <= |t|
  {
    if k == 1 then 0
    else NeighbourSum(t, k - 1) + if t[k - 1] > 0 then Multinomial(Neighbour(t, k - 1)) else 0
  }

  lemma {:induction false} NeighbourSumValue(t: Exponents, k: nat, v: int, m: nat, c: nat)
    requires 1 <= k <= |t| && v == NeighbourSum(t, k) && m == Multinomial(t) && c == t[0] + 1
    ensures Prod(v, c) == Prod(m, Sum(t[1..k]))
    decreases k
  {
    if k == 1 {
      assert t[1..1] == [];
    } else {
      var l, s := k - 1, NeighbourSum(t, k - 1);
      NeighbourSumValue(t, l, s, m, c);
      SliceSum(t, l);
      ProdDistributes(Sum(t[1..l]), t[l], m);
      if t[l] > 0 {
        var u := Neighbour(t, l);
        NeighbourCoefficient(t, l, u, Multinomial(u), m, c);
        ProdDistributes(s, Multinomial(u), c);
      }
    }
  }

  lemma SliceSum(t: Exponents, l: nat)
    requires 1 <= l < |t|
    ensures Sum(t[1..l + 1]) == Sum(t[1..l]) + t[l]
  {
    var u := t[1..l + 1];
    SumAround(u, l - 1);
    assert u[..l - 1] == t[1..l] && u[l..] == [];
  }

  lemma RecurrenceEquation(t: Exponents, v: int, m: nat, c: nat, d: int)
    requires |t| >= 2 && v == NeighbourSum(t, |t|) && m == Multinomial(t) && c == t[0] + 1 && d == Sum(t) - t[0]
    ensures Prod(v, c) == Prod(m, d)
  {
    NeighbourSumValue(t, |t|, v, m, c);
    assert d == Sum(t[1..|t|]) by {
      assert t[1..|t|] == t[1..];
    }
  }

  /** The recurrence of the algorithm: its division is exact and yields the coefficient of t. */
  lemma RecurrenceIsExact(t: Exponents, v: int, c: nat)
    requires |t| >= 2 && t[0] < Sum(t) && v == NeighbourSum(t, |t|) && c == t[0] + 1
    ensures (v * c) % (Sum(t) - t[0]) == 0
    ensures (v * c) / (Sum(t) - t[0]) == Multinomial(t)
  {
    RecurrenceEquation(t, v, Multinomial(t), c, Sum(t) - t[0]);
    ExactProduct(v, c, Multinomial(t), Sum(t) - t[0]);
  }

  lemma ExactProduct(v: int, c: int, m: int, d: int)
    requires d > 0 && Prod(v, c) == Prod(m, d)
    ensures (v * c) % d == 0 && (v * c) / d == m
  {
    ExactQuotient(v * c, m, d);
  }

  // ----- the algorithm

  datatype Outcome = Completed | RuntimeError(message: string)

  /** The vectors that come after t. */
  ghost function Later(t: Exponents, n: nat): set<Exponents> {
    set s | s in Compositions(|t|, n) && |s| == |t| && Before(t, s)
  }

  ghost predicate UpTo(s: Exponents, t: Exponents) {
    |s| == |t| && (s == t || Before(s, t))
  }

  ghost predicate Stored(r: map<Exponents, int>, s: Exponents) {
    s in r && r[s] == Multinomial(s)
  }

  /** r holds the coefficient of every vector up to t; under all other keys it is still r0. */
  ghost predicate FilledUpTo(r: map<Exponents, int>, r0: map<Exponents, int>, t: Exponents, n: nat) {
    && (forall s | UpTo(s, t) && IsComposition(s, |t|, n) :: Stored(r, s))
    && (forall s | s in r :: s in r0 || IsComposition(s, |t|, n))
    && (forall s | s in r0 && !IsComposition(s, |t|, n) :: s in r && r[s] == r0[s])
  }

  /** The complete table for m and n on top of r0. */
  ghost predicate IsTable(r: map<Exponents, int>, r0: map<Exponents, int>, m: nat, n: nat) {
    && r.Keys == r0.Keys + Compositions(m, n)
    && forall s | s in r :: r[s] == if s in Compositions(m, n) then Multinomial(s) else r0[s]
  }

  /** When all compositions come up to t the table is complete. */
  lemma FilledIsTable(r: map<Exponents, int>, r0: map<Exponents, int>, t: Exponents, n: nat)
    requires FilledUpTo(r, r0, t, n) && forall s | IsComposition(s, |t|, n) :: UpTo(s, t)
    ensures IsTable(r, r0, |t|, n)
  {
    var C := Compositions(|t|, n);
    forall s
      ensures s in C <==> IsComposition(s, |t|, n)
      ensures s in C ==> Stored(r, s)
    {
      CompositionsMembers(|t|, n, s);
      if s in C {
        assert UpTo(s, t);
      }
    }
    assert r.Keys == r0.Keys + C;
  }

  lemma FilledToTheEnd(r: map<Exponents, int>, r0: map<Exponents, int>, t: Exponents, n: nat)
    requires t != [] && Leads(t, |t| - 1) && Sum(t) == n && FilledUpTo(r, r0, t, n)
    ensures IsTable(r, r0, |t|, n)
  {
    forall s | IsComposition(s, |t|, n)
      ensures UpTo(s, t)
    {
      LastIsLatest(t, s);
    }
    FilledIsTable(r, r0, t, n);
  }

  lemma LastIsLatest(t: Exponents, s: Exponents)
    requires t != [] && Leads(t, |t| - 1) && |s| == |t| && Sum(s) == Sum(t)
    ensures UpTo(s, t)
  {
    TailDecidesHead(t, s, |t| - 1);
    if s[|t| - 1] == t[|t| - 1] {
      assert s == t;
    } else {
      assert BeforeAt(s, t, |t| - 1);
    }
  }

  lemma FirstCoefficient(t: Exponents, n: nat)
    requires |t| >= 1 && t[0] == n && forall l | 1 <= l < |t| :: t[l] == 0
    ensures Sum(t) == n && Multinomial(t) == 1
  {
    SumZero(t[1..]);
    UnitFactors(t[1..]);
    assert FactProduct(t) == Prod(Fact(n), 1);
    MultinomialIsQuotient(t, 1);
  }

  lemma StartFilled(r0: map<Exponents, int>, t: Exponents, n: nat)
    requires |t| >= 1 && t[0] == n && forall l | 1 <= l < |t| :: t[l] == 0
    ensures Sum(t) == n && Multinomial(t) == 1
    ensures FilledUpTo(r0[t := 1], r0, t, n)
  {
    FirstCoefficient(t, n);
    forall s | UpTo(s, t) && IsComposition(s, |t|, n)
      ensures s == t
    {
      FirstIsEarliest(t, s);
    }
  }

  lemma FirstIsEarliest(t: Exponents, s: Exponents)
    requires |t| >= 1 && (forall l | 1 <= l < |t| :: t[l] == 0) && UpTo(s, t) && Sum(s) == Sum(t)
    ensures s == t
  {
    forall k
      ensures !BeforeAt(s, t, k)
    {
      if forall l | 0 < l < |t| :: s[l] == t[l] {
        assert s[1..] == t[1..];
      }
    }
  }

  lemma {:induction false} UnitFactors(t: seq<nat>)
    requires forall l | 0 <= l < |t| :: t[l] == 0
    ensures FactProduct(t) == 1
  {
    if t != [] {
      UnitFactors(t[1..]);
    }
  }

  lemma UpToNext(t: Exponents, j: nat, s: Exponents)
    requires Leads(t, j) && j + 1 < |t| && UpTo(s, Next(t, j)) && Sum(s) == Sum(t)
    ensures s == Next(t, j) || UpTo(s, t)
  {
    var t' := Next(t, j);
    BeforeTotal(s, t, |t|);
    if s != t' && Before(t, s) {
      NextIsNext(t, j, s);
      BeforeAsymmetric(s, t');
    }
  }

  lemma LaterShrinks(t: Exponents, j: nat, n: nat)
    requires Leads(t, j) && j + 1 < |t| && Sum(t) == n
    ensures Later(Next(t, j), n) < Later(t, n)
  {
    var t' := Next(t, j);
    NextSum(t, j);
    forall s | s in Later(t', n)
      ensures s in Later(t, n)
    {
      BeforeTransitive(t, t', s);
    }
    CompositionsMembers(|t|, n, t');
    if Before(t', t') {
      BeforeAsymmetric(t', t');
    }
    assert t' in Later(t, n) && t' !in Later(t', n);
  }

  /** Storing the coefficient of the successor extends the table by one vector. */
  lemma FilledNext(r: map<Exponents, int>, r0: map<Exponents, int>, t: Exponents, j: nat, n: nat)
    requires Leads(t, j) && j + 1 < |t| && Sum(t) == n && FilledUpTo(r, r0, t, n)
    ensures FilledUpTo(r[Next(t, j) := Multinomial(Next(t, j))], r0, Next(t, j), n)
  {
    var t' := Next(t, j);
    var r' := r[t' := Multinomial(t')];
    NextSum(t, j);
    forall s | UpTo(s, t') && IsComposition(s, |t|, n)
      ensures Stored(r', s)
    {
      UpToNext(t, j, s);
      if s != t' {
        assert Stored(r, s);
      }
    }
  }

  /** The coefficients of the neighbours of the successor are in the table already. */
  lemma NeighbourStored(r: map<Exponents, int>, r0: map<Exponents, int>, t: Exponents, j: nat, n: nat, k: nat)
    requires Leads(t, j) && j + 1 < |t| && Sum(t) == n && FilledUpTo(r, r0, t, n)
    requires 1 <= k < |t| && Next(t, j)[k] > 0
    ensures Stored(r, Neighbour(Next(t, j), k))
  {
    var u := Neighbour(Next(t, j), k);
    NextSum(t, j);
    NeighbourBefore(Next(t, j), k);
    BeforeAsymmetric(u, Next(t, j));
    UpToNext(t, j, u);
  }

  /** Every coefficient the recurrence for t asks for is in the table. */
  ghost predicate NeighboursIn(r: map<Exponents, int>, t: Exponents) {
    forall k | 1 <= k < |t| && t[k] > 0 :: Stored(r, Neighbour(t, k))
  }

  lemma NeighboursStored(r: map<Exponents, int>, r0: map<Exponents, int>, t: Exponents, j: nat, n: nat)
    requires Leads(t, j) && j + 1 < |t| && Sum(t) == n && FilledUpTo(r, r0, t, n)
    ensures NeighboursIn(r, Next(t, j))
  {
    forall k | 1 <= k < |t| && Next(t, j)[k] > 0
      ensures Stored(r, Neighbour(Next(t, j), k))
    {
      NeighbourStored(r, r0, t, j, n, k);
    }
  }

  /** The inner loop: adds up the stored coefficients of the neighbours from index start on. */
  method AddNeighbours(t: Exponents, start: nat, v0: int, r: map<Exponents, int>, ghost t': Exponents) returns (v: int)
    requires 1 <= start <= |t| == |t'| && t == t'[0 := t'[0] + 1]
    requires v0 == NeighbourSum(t', start) && NeighboursIn(r, t')
    ensures v == NeighbourSum(t', |t|)
  {
    v := v0;
    for k := start to |t|
      invariant v == NeighbourSum(t', k)
    {
      if t[k] > 0 {
        assert t[k := t[k] - 1] == Neighbour(t', k);
        assert Stored(r, Neighbour(t', k));
        v := v + r[t[k := t[k] - 1]];
      }
    }
  }

  /** The two cases of a round: t becomes the successor with entry 0 still one too large. */
  method Advance(t0: Exponents, j0: nat, r: map<Exponents, int>)
    returns (t: Exponents, j: nat, start: nat, v: int)
    requires Leads(t0, j0) && j0 + 1 < |t0| && NeighboursIn(r, Next(t0, j0))
    ensures t == Next(t0, j0)[0 := t0[j0]] && Next(t0, j0)[0] == t0[j0] - 1
    ensures j == if t0[j0] > 1 then 0 else j0 + 1
    ensures 1 <= start <= |t0| && v == NeighbourSum(Next(t0, j0), start)
  {
    ghost var t' := Next(t0, j0);
    t, j := t0, j0;
    var tj := t[j];
    if j != 0 {
      t := t[j := 0];
      t := t[0 := tj];
    }
    if tj > 1 {
      t := t[j + 1 := t[j + 1] + 1];
      j := 0;
      start := 1;
      v := 0;
    } else {
      j := j + 1;
      start := j + 1;
      assert t == Neighbour(t', j);
      NoEarlierNeighbours(t', j);
      assert Stored(r, Neighbour(t', j));
      v := r[t];
      t := t[j := t[j] + 1];
    }
  }

  /** One round of the outer loop: steps t to its successor and computes the coefficient to be stored there. */
  method NextEntry(t0: Exponents, j0: nat, n: nat, r: map<Exponents, int>, ghost r0: map<Exponents, int>)
    returns (t: Exponents, j: nat, value: int)
    requires Leads(t0, j0) && j0 + 1 < |t0| && Sum(t0) == n && FilledUpTo(r, r0, t0, n)
    ensures t == Next(t0, j0) && j == (if t0[j0] > 1 then 0 else j0 + 1)
    ensures value == Multinomial(t)
  {
    ghost var t' := Next(t0, j0);
    NeighboursStored(r, r0, t0, j0, n);
    NextSum(t0, j0);
    SumAtLeast(t0, j0);
    var tj := t0[j0];
    var start, v;
    t, j, start, v := Advance(t0, j0, r);
    v := AddNeighbours(t, start, v, r, t');
    t := t[0 := t[0] - 1];
    assert t == t';
    RecurrenceIsExact(t, v, tj);
    value := (v * tj) / (n - t[0]);
  }

  lemma {:induction false} NoEarlierNeighbours(t: Exponents, k: nat)
    requires 1 <= k <= |t| && forall l | 1 <= l < k :: t[l] == 0
    ensures NeighbourSum(t, k) == 0
  {
    if k > 1 {
      NoEarlierNeighbours(t, k - 1);
    }
  }

  /** multinomial_coefficients_mpz: fills in the table of all coefficients for m and n. */
  method MultinomialCoefficients(m: int, n: int, r0: map<Exponents, int>)
      returns (outcome: Outcome, r: map<Exponents, int>)
    ensures m >= 2 && n >= 0 ==> outcome == Completed && IsTable(r, r0, m, n)
    ensures m < 2 || n < 0 ==> outcome.RuntimeError? && r == r0
  {
    if m < 2 {
      return RuntimeError("multinomial_coefficients: m >= 2 must hold."), r0;
    }
    if n < 0 {
      return RuntimeError("multinomial_coefficients: n >= 0 must hold."), r0;
    }
    var t: Exponents := seq(m, _ => 0);
    t := t[0 := n];
    StartFilled(r0, t, n);
    r := r0[t := 1];
    if n == 0 {
      OnlyZero(r, r0, t);
      return Completed, r;
    }
    var j := 0;
    while j < m - 1
      invariant |t| == m && 0 <= j < m && Leads(t, j) && Sum(t) == n
      invariant FilledUpTo(r, r0, t, n)
      decreases Later(t, n)
    {
      ghost var u, i := t, j;
      var value;
      t, j, value := NextEntry(t, j, n, r, r0);
      FilledNext(r, r0, u, i, n);
      LaterShrinks(u, i, n);
      NextSum(u, i);
      r := r[t := value];
    }
    FilledToTheEnd(r, r0, t, n);
    outcome := Completed;
  }

  lemma OnlyZero(r: map<Exponents, int>, r0: map<Exponents, int>, t: Exponents)
    requires Sum(t) == 0 && FilledUpTo(r, r0, t, 0)
    ensures IsTable(r, r0, |t|, 0)
  {
    forall s | IsComposition(s, |t|, 0)
      ensures UpTo(s, t)
    {
      ZeroSum(s);
      ZeroSum(t);
      assert s == t;
    }
    FilledIsTable(r, r0, t, 0);
  }

  lemma ZeroSum(s: Exponents)
    requires Sum(s) == 0
    ensures forall k | 0 <= k < |s| :: s[k] == 0
  {
    forall k | 0 <= k < |s|
      ensures s[k] == 0
    {
      SumAtLeast(s, k);
    }
  }
}
