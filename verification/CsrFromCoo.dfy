/** Building a sparse matrix from coordinate triplets: from_coo, csr_sort_indices and csr_sum_duplicates. */
module CsrFromCoo {
  import opened Csr

  // ----- the triplets

  /** The sum of the first n triplets at (r, c). */
  ghost function CooSum(i: seq<nat>, j: seq<nat>, x: seq<int>, n: nat, r: nat, c: nat): int
    requires n <= |i| && n <= |j| && n <= |x|
  {
    if n == 0 then 0 else CooSum(i, j, x, n - 1, r, c) + if i[n - 1] == r && j[n - 1] == c then x[n - 1] else 0
  }

  /** One of the first n triplets is at (r, c), whatever its value. */
  ghost predicate HasTriplet(i: seq<nat>, j: seq<nat>, n: nat, r: nat, c: nat)
    requires n <= |i| && n <= |j|
  {
    exists m :: 0 <= m < n && i[m] == r && j[m] == c
  }

  ghost function CountIn(i: seq<nat>, n: nat, r: nat): nat
    requires n <= |i|
  {
    if n == 0 then 0 else CountIn(i, n - 1, r) + if i[n - 1] == r then 1 else 0
  }

  /** How many of the first n triplets lie in rows before r. */
  ghost function Start(i: seq<nat>, n: nat, r: nat): nat
    requires n <= |i|
  {
    if r == 0 then 0 else Start(i, n, r - 1) + CountIn(i, n, r - 1)
  }

  lemma {:induction false} StartAll(i: seq<nat>, n: nat, row: nat)
    requires n <= |i| && forall m | 0 <= m < n :: i[m] < row
    ensures Start(i, n, row) == n
  {
    if n == 0 {
      StartNone(i, row);
    } else {
      StartAll(i, n - 1, row);
      StartStep(i, n, row);
    }
  }

  lemma {:induction false} StartNone(i: seq<nat>, r: nat)
    ensures Start(i, 0, r) == 0
  {
    if r > 0 {
      StartNone(i, r - 1);
    }
  }

  lemma {:induction false} StartStep(i: seq<nat>, n: nat, r: nat)
    requires 0 < n <= |i|
    ensures Start(i, n, r) == Start(i, n - 1, r) + if i[n - 1] < r then 1 else 0
  {
    if r > 0 {
      StartStep(i, n, r - 1);
    }
  }

  lemma {:induction false} StartMonotone(i: seq<nat>, n: nat, r: nat, s: nat)
    requires n <= |i| && r <= s
    ensures Start(i, n, r) <= Start(i, n, s)
    decreases s
  {
    if r < s {
      StartMonotone(i, n, r, s - 1);
    }
  }

  lemma {:induction false} CountMonotone(i: seq<nat>, m: nat, n: nat, r: nat)
    requires m <= n <= |i|
    ensures CountIn(i, m, r) <= CountIn(i, n, r)
    decreases n
  {
    if m < n {
      CountMonotone(i, m, n - 1, r);
    }
  }

  // ----- counting sort by rows

  method CountRows(row: nat, i: seq<nat>, nnz: nat) returns (p: seq<nat>)
    requires nnz <= |i| && forall m | 0 <= m < nnz :: i[m] < row
    ensures |p| == row + 1 && forall r | 0 <= r < row :: p[r] == CountIn(i, nnz, r)
  {
    p := seq(row + 1, _ => 0);
    for n := 0 to nnz
      invariant |p| == row + 1 && forall r | 0 <= r < row :: p[r] == CountIn(i, n, r)
    {
      p := p[i[n] := p[i[n]] + 1];
    }
  }

  /** Turns the counts per row into the start of each row. */
  method CumulativeSum(row: nat, p0: seq<nat>, nnz: nat, ghost i: seq<nat>) returns (p: seq<nat>)
    requires nnz <= |i| && |p0| == row + 1 && forall r | 0 <= r < row :: p0[r] == CountIn(i, nnz, r)
    requires forall m | 0 <= m < nnz :: i[m] < row
    ensures |p| == row + 1 && forall r | 0 <= r <= row :: p[r] == Start(i, nnz, r)
  {
    p := p0;
    var cumsum := 0;
    for r := 0 to row
      invariant |p| == row + 1 && cumsum == Start(i, nnz, r)
      invariant forall s | 0 <= s < r :: p[s] == Start(i, nnz, s)
      invariant forall s | r <= s < row :: p[s] == CountIn(i, nnz, s)
    {
      var temp := p[r];
      p := p[r := cumsum];
      cumsum := cumsum + temp;
    }
    p := p[row := nnz];
    StartAll(i, nnz, row);
  }

  /** After n triplets row r holds them from its start on. */
  ghost predicate Scattered(row: nat, col: nat, i: seq<nat>, j: seq<nat>, x: seq<int>, n: nat, nnz: nat,
                            p: seq<nat>, J: seq<nat>, X: seq<int>)
    requires n <= nnz <= |i| && nnz <= |j| && nnz <= |x|
  {
    && |p| == row + 1 && |J| == |X| == nnz
    && (forall r | 0 <= r < row :: p[r] == Start(i, nnz, r) + CountIn(i, n, r) <= nnz)
    && (forall k | 0 <= k < nnz :: J[k] < col)
    && (forall r, c: nat | 0 <= r < row :: RowHolds(i, j, x, n, nnz, J, X, r, c, p[r]))
  }

  ghost predicate RowHolds(i: seq<nat>, j: seq<nat>, x: seq<int>, n: nat, nnz: nat, J: seq<nat>, X: seq<int>, r: nat,
      c: nat, end: nat)
    requires n <= nnz <= |i| && nnz <= |j| && nnz <= |x| && end <= nnz == |J| == |X|
  {
    && SumAt(J, X, Start(i, nnz, r), end, c) == CooSum(i, j, x, n, r, c)
    && (Stores(J, Start(i, nnz, r), end, c) <==> HasTriplet(i, j, n, r, c))
  }

  lemma EndOfRow(row: nat, i: seq<nat>, n: nat, nnz: nat, r: nat)
    requires n <= nnz <= |i| && r < row && forall m | 0 <= m < nnz :: i[m] < row
    ensures Start(i, nnz, r) + CountIn(i, n, r) <= Start(i, nnz, r + 1) <= nnz
    ensures n < nnz && i[n] == r ==> Start(i, nnz, r) + CountIn(i, n, r) < Start(i, nnz, r + 1)
  {
    CountMonotone(i, n, nnz, r);
    StartMonotone(i, nnz, r + 1, row);
    StartAll(i, nnz, row);
    if n < nnz && i[n] == r {
      CountMonotone(i, n + 1, nnz, r);
    }
  }

  lemma OtherRow(i: seq<nat>, nnz: nat, r: nat, s: nat)
    requires nnz <= |i|
    ensures r < s ==> Start(i, nnz, r + 1) <= Start(i, nnz, s)
    ensures s < r ==> Start(i, nnz, s + 1) <= Start(i, nnz, r)
  {
    if r < s {
      StartMonotone(i, nnz, r + 1, s);
    } else if s < r {
      StartMonotone(i, nnz, s + 1, r);
    }
  }

  lemma ScatterStep(row: nat, col: nat, i: seq<nat>, j: seq<nat>, x: seq<int>, n: nat, nnz: nat,
                    p: seq<nat>, J: seq<nat>, X: seq<int>)
    requires n < nnz <= |i| && nnz <= |j| && nnz <= |x|
    requires forall m | 0 <= m < nnz :: i[m] < row && j[m] < col
    requires Scattered(row, col, i, j, x, n, nnz, p, J, X)
    ensures p[i[n]] < nnz
    ensures Scattered(row, col, i, j, x, n + 1, nnz, p[i[n] := p[i[n]] + 1], J[p[i[n]] := j[n]], X[p[i[n]] := x[n]])
  {
    var s := i[n];
    var dest := p[s];
    EndOfRow(row, i, n, nnz, s);
    var p', J', X' := p[s := dest + 1], J[dest := j[n]], X[dest := x[n]];
    forall r | 0 <= r < row
      ensures p'[r] == Start(i, nnz, r) + CountIn(i, n + 1, r) <= nnz
    {
      EndOfRow(row, i, n + 1, nnz, r);
    }
    var n' := n + 1;
    forall r, c: nat | 0 <= r < row
      ensures RowHolds(i, j, x, n', nnz, J', X', r, c, p'[r])
    {
      assert RowHolds(i, j, x, n, nnz, J, X, r, c, p[r]);
      EndOfRow(row, i, n, nnz, r);
      OtherRow(i, nnz, r, s);
      SumAtSame(J, X, J', X', Start(i, nnz, r), p[r], c);
      StoredSame(J, J', Start(i, nnz, r), p[r], c);
      NextTriplet(i, j, n, r, c);
      if r == s {
        StoredNext(J', Start(i, nnz, r), p[r], c);
      }
    }
  }

  lemma NextTriplet(i: seq<nat>, j: seq<nat>, n: nat, r: nat, c: nat)
    requires n < |i| && n < |j|
    ensures HasTriplet(i, j, n + 1, r, c) <==> HasTriplet(i, j, n, r, c) || (i[n] == r && j[n] == c)
  {
    if HasTriplet(i, j, n + 1, r, c) && !(i[n] == r && j[n] == c) {
      var m :| 0 <= m < n + 1 && i[m] == r && j[m] == c;
      assert m < n;
    }
  }

  lemma StoredSame(j: seq<nat>, j': seq<nat>, lo: nat, hi: nat, c: nat)
    requires hi <= |j| && hi <= |j'| && forall k | lo <= k < hi :: j'[k] == j[k]
    ensures Stores(j, lo, hi, c) <==> Stores(j', lo, hi, c)
  {
    if Stores(j, lo, hi, c) {
      var k :| lo <= k < hi && j[k] == c;
      assert j'[k] == c;
    }
  }

  lemma StoredNext(j: seq<nat>, lo: nat, hi: nat, c: nat)
    requires lo <= hi < |j|
    ensures Stores(j, lo, hi + 1, c) <==> Stores(j, lo, hi, c) || j[hi] == c
  {
    if Stores(j, lo, hi + 1, c) && j[hi] != c {
      var k :| lo <= k < hi + 1 && j[k] == c;
      assert k < hi;
    }
    if j[hi] == c {
      assert lo <= hi < hi + 1 && j[hi] == c;
    }
  }

  method Scatter(row: nat, col: nat, i: seq<nat>, j: seq<nat>, x: seq<int>, p0: seq<nat>)
      returns (p: seq<nat>, J: seq<nat>, X: seq<int>)
    requires |x| <= |i| && |x| <= |j| && forall m | 0 <= m < |x| :: i[m] < row && j[m] < col
    requires |p0| == row + 1 && forall r | 0 <= r <= row :: p0[r] == Start(i, |x|, r)
    ensures Scattered(row, col, i, j, x, |x|, |x|, p, J, X) && p[row] == |x|
  {
    var nnz := |x|;
    p, J, X := p0, seq(nnz, _ => 0), seq(nnz, _ => 0);
    StartAll(i, nnz, row);
    forall r | 0 <= r < row
      ensures p[r] == Start(i, nnz, r) + CountIn(i, 0, r) <= nnz
    {
      StartMonotone(i, nnz, r, row);
    }
    for n := 0 to nnz
      invariant Scattered(row, col, i, j, x, n, nnz, p, J, X) && p[row] == nnz
    {
      ScatterStep(row, col, i, j, x, n, nnz, p, J, X);
      var r := i[n];
      var dest := p[r];
      J := J[dest := j[n]];
      X := X[dest := x[n]];
      p := p[r := p[r] + 1];
    }
  }

  /** Shifts the row ends, which scattering has left in p, back to row starts. */
  method ShiftPointers(p0: seq<nat>) returns (p: seq<nat>)
    requires |p0| >= 1
    ensures |p| == |p0| && p[0] == 0 && forall r | 1 <= r < |p| :: p[r] == p0[r - 1]
  {
    p := p0;
    var last := 0;
    for i := 0 to |p0|
      invariant |p| == |p0| && last == if i == 0 then 0 else p0[i - 1]
      invariant forall r | 0 <= r < i :: p[r] == if r == 0 then 0 else p0[r - 1]
      invariant forall r | i <= r < |p0| :: p[r] == p0[r]
    {
      var t := p[i];
      p := p[i := last];
      last := t;
    }
  }

  // ----- sorting a row

  type Pair = (nat, int)

  ghost function PairSum(t: seq<Pair>, c: nat): int {
    if t == [] then 0 else PairSum(t[..|t| - 1], c) + if t[|t| - 1].0 == c then t[|t| - 1].1 else 0
  }

  ghost predicate SortedPairs(t: seq<Pair>) {
    forall a, b | 0 <= a < b < |t| :: t[a].0 <= t[b].0
  }

  function Insert(t: seq<Pair>, e: Pair): (r: seq<Pair>)
    ensures multiset(r) == multiset(t) + multiset{e}
    ensures |r| == |t| + 1
  {
    if t == [] || t[|t| - 1].0 <= e.0 then t + [e]
    else
      assert t == t[..|t| - 1] + [t[|t| - 1]];
      Insert(t[..|t| - 1], e) + [t[|t| - 1]]
  }

  lemma {:induction false} InsertSorted(t: seq<Pair>, e: Pair)
    requires SortedPairs(t)
    ensures SortedPairs(Insert(t, e))
    ensures forall a | 0 <= a < |t| + 1 :: Insert(t, e)[a] == e || Insert(t, e)[a] in t
    decreases |t|
  {
    if t != [] && t[|t| - 1].0 > e.0 {
      InsertSorted(t[..|t| - 1], e);
    }
  }

  lemma {:induction false} InsertSum(t: seq<Pair>, e: Pair, c: nat)
    ensures PairSum(Insert(t, e), c) == PairSum(t, c) + if e.0 == c then e.1 else 0
    decreases |t|
  {
    var r := Insert(t, e);
    if t == [] || t[|t| - 1].0 <= e.0 {
      assert r[..|r| - 1] == t;
    } else {
      InsertSum(t[..|t| - 1], e, c);
      assert r[..|r| - 1] == Insert(t[..|t| - 1], e);
    }
  }

  /** std::sort by the column. */
  method SortPairs(t: seq<Pair>) returns (r: seq<Pair>)
    ensures SortedPairs(r) && multiset(r) == multiset(t) && |r| == |t|
    ensures forall c: nat :: PairSum(r, c) == PairSum(t, c)
  {
    r := [];
    for k := 0 to |t|
      invariant SortedPairs(r) && multiset(r) == multiset(t[..k]) && |r| == k
      invariant forall c: nat :: PairSum(r, c) == PairSum(t[..k], c)
    {
      assert t[..k + 1] == t[..k] + [t[k]];
      InsertSorted(r, t[k]);
      forall c: nat
        ensures PairSum(Insert(r, t[k]), c) == PairSum(t[..k + 1], c)
      {
        InsertSum(r, t[k], c);
        assert t[..k + 1][..k] == t[..k];
      }
      r := Insert(r, t[k]);
    }
    assert t[..|t|] == t;
  }

  /** temp holds the row from lo on. */
  ghost predicate HoldsRow(temp: seq<Pair>, j: seq<nat>, x: seq<int>, lo: nat)
    requires lo + |temp| <= |j| == |x|
  {
    forall k | 0 <= k < |temp| :: j[lo + k] == temp[k].0 && x[lo + k] == temp[k].1
  }

  lemma {:induction false} HoldsSum(temp: seq<Pair>, j: seq<nat>, x: seq<int>, lo: nat, n: nat, c: nat)
    requires n <= |temp| && lo + |temp| <= |j| == |x| && HoldsRow(temp, j, x, lo)
    ensures SumAt(j, x, lo, lo + n, c) == PairSum(temp[..n], c)
  {
    if n > 0 {
      HoldsSum(temp, j, x, lo, n - 1, c);
      assert temp[..n][..n - 1] == temp[..n - 1];
      assert j[lo + (n - 1)] == temp[n - 1].0;
    }
  }

  ghost predicate AscendingWeakly(j: seq<nat>, lo: nat, hi: nat)
    requires hi <= |j|
  {
    forall k, l | lo <= k < l < hi :: j[k] <= j[l]
  }

  /** Two row segments that store the same columns, with the same sums. */
  ghost predicate SameRow(j: seq<nat>, x: seq<int>, lo: nat, hi: nat, j0: seq<nat>, x0: seq<int>, lo0: nat, hi0: nat)
    requires hi <= |j| == |x| && hi0 <= |j0| == |x0|
  {
    && SameSums(j, x, lo, hi, j0, x0, lo0, hi0)
    && (forall c: nat :: Stores(j, lo, hi, c) <==> Stores(j0, lo0, hi0, c))
  }

  lemma SameRowSame(j: seq<nat>, x: seq<int>, j': seq<nat>, x': seq<int>, lo: nat, hi: nat)
    requires hi <= |j| == |x| && hi <= |j'| == |x'| && forall k | lo <= k < hi :: j'[k] == j[k] && x'[k] == x[k]
    ensures SameRow(j, x, lo, hi, j', x', lo, hi) && SameRow(j', x', lo, hi, j, x, lo, hi)
  {
    forall c: nat
      ensures SumAt(j, x, lo, hi, c) == SumAt(j', x', lo, hi, c)
    {
      SumAtSame(j, x, j', x', lo, hi, c);
    }
    forall c: nat
      ensures Stores(j, lo, hi, c) <==> Stores(j', lo, hi, c)
    {
      StoredSame(j, j', lo, hi, c);
    }
  }

  /** Sorts positions lo, ..., hi - 1 by column; the sums per column stay. */
  method SortRow(j0: seq<nat>, x0: seq<int>, lo: nat, hi: nat, ghost col: nat) returns (j: seq<nat>, x: seq<int>)
    requires lo <= hi <= |j0| == |x0| && forall k | 0 <= k < |j0| :: j0[k] < col
    ensures |j| == |x| == |j0| && AscendingWeakly(j, lo, hi)
    ensures forall k | 0 <= k < |j| && (k < lo || hi <= k) :: j[k] == j0[k] && x[k] == x0[k]
    ensures forall k | 0 <= k < |j| :: j[k] < col
    ensures SameRow(j, x, lo, hi, j0, x0, lo, hi)
  {
    var temp: seq<Pair> := [];
    for jj := lo to hi
      invariant |temp| == jj - lo && HoldsRow(temp, j0, x0, lo)
      invariant forall t | t in temp :: t.0 < col
    {
      temp := temp + [(j0[jj], x0[jj])];
    }
    var sorted := SortPairs(temp);
    forall t | t in sorted
      ensures t.0 < col
    {
      assert t in multiset(sorted);
    }
    j, x := j0, x0;
    for jj := lo to hi
      invariant |j| == |x| == |j0|
      invariant forall k | 0 <= k < jj - lo :: j[lo + k] == sorted[k].0 && x[lo + k] == sorted[k].1
      invariant forall k | 0 <= k < |j| && (k < lo || jj <= k) :: j[k] == j0[k] && x[k] == x0[k]
    {
      j := j[jj := sorted[jj - lo].0];
      x := x[jj := sorted[jj - lo].1];
    }
    WrittenRow(sorted, temp, j, x, j0, x0, lo, hi, col);
  }

  lemma WrittenRow(sorted: seq<Pair>, temp: seq<Pair>, j: seq<nat>, x: seq<int>, j0: seq<nat>, x0: seq<int>, lo: nat,
      hi: nat, col: nat)
    requires lo <= hi <= |j| == |x| == |j0| == |x0| && |sorted| == |temp| == hi - lo
    requires HoldsRow(sorted, j, x, lo) && HoldsRow(temp, j0, x0, lo) && SortedPairs(sorted)
    requires multiset(sorted) == multiset(temp) && forall c: nat :: PairSum(sorted, c) == PairSum(temp, c)
    requires forall t | t in sorted :: t.0 < col
    requires forall k | 0 <= k < |j| && (k < lo || hi <= k) :: j[k] == j0[k]
    requires forall k | 0 <= k < |j0| :: j0[k] < col
    ensures AscendingWeakly(j, lo, hi) && forall k | 0 <= k < |j| :: j[k] < col
    ensures SameRow(j, x, lo, hi, j0, x0, lo, hi)
  {
    forall k | lo <= k < hi
      ensures j[k] == sorted[k - lo].0 && j[k] < col
    {
      assert j[lo + (k - lo)] == sorted[k - lo].0;
      assert sorted[k - lo] in sorted;
    }
    WrittenSums(sorted, temp, j, x, j0, x0, lo, hi);
  }

  lemma WrittenSums(sorted: seq<Pair>, temp: seq<Pair>, j: seq<nat>, x: seq<int>, j0: seq<nat>, x0: seq<int>, lo: nat,
      hi: nat)
    requires lo <= hi <= |j| == |x| == |j0| == |x0| && |sorted| == |temp| == hi - lo
    requires HoldsRow(sorted, j, x, lo) && HoldsRow(temp, j0, x0, lo)
    requires multiset(sorted) == multiset(temp) && forall c: nat :: PairSum(sorted, c) == PairSum(temp, c)
    ensures SameRow(j, x, lo, hi, j0, x0, lo, hi)
  {
    forall c: nat
      ensures SumAt(j, x, lo, hi, c) == SumAt(j0, x0, lo, hi, c)
    {
      HoldsSum(sorted, j, x, lo, hi - lo, c);
      HoldsSum(temp, j0, x0, lo, hi - lo, c);
      assert sorted[..hi - lo] == sorted && temp[..hi - lo] == temp;
    }
    forall c: nat
      ensures Stores(j, lo, hi, c) <==> Stores(j0, lo, hi, c)
    {
      if Stores(j0, lo, hi, c) {
        MovedColumn(temp, sorted, j0, x0, j, x, lo, hi, c);
      }
      if Stores(j, lo, hi, c) {
        MovedColumn(sorted, temp, j, x, j0, x0, lo, hi, c);
      }
    }
  }

  lemma MovedColumn(temp: seq<Pair>, sorted: seq<Pair>, j0: seq<nat>, x0: seq<int>, j: seq<nat>, x: seq<int>, lo: nat,
      hi: nat, c: nat)
    requires lo <= hi <= |j| == |x| == |j0| == |x0| && |sorted| == |temp| == hi - lo
    requires HoldsRow(sorted, j, x, lo) && HoldsRow(temp, j0, x0, lo) && multiset(sorted) == multiset(temp)
    requires Stores(j0, lo, hi, c)
    ensures Stores(j, lo, hi, c)
  {
    var k :| lo <= k < hi && j0[k] == c;
    var t := temp[k - lo];
    assert j0[lo + (k - lo)] == t.0;
    assert t in multiset(temp);
    assert t in sorted;
    var l :| 0 <= l < |sorted| && sorted[l] == t;
    assert j[lo + l] == c;
  }

  /** Row r of (j, x) is sorted and has the sums of row r of (j0, x0). */
  ghost predicate RowSorted(p: seq<nat>, j0: seq<nat>, x0: seq<int>, j: seq<nat>, x: seq<int>, r: nat)
    requires r + 1 < |p| && p[r + 1] <= |j0| == |x0| == |j| == |x|
  {
    AscendingWeakly(j, p[r], p[r + 1]) && SameRow(j, x, p[r], p[r + 1], j0, x0, p[r], p[r + 1])
  }

  lemma RowSortedStays(p: seq<nat>, j0: seq<nat>, x0: seq<int>, j: seq<nat>, x: seq<int>, j': seq<nat>, x': seq<int>,
      r: nat)
    requires r + 1 < |p| && p[r + 1] <= |j0| == |x0| == |j| == |x| == |j'| == |x'|
    requires RowSorted(p, j0, x0, j, x, r) && forall k | p[r] <= k < p[r + 1] :: j'[k] == j[k] && x'[k] == x[k]
    ensures RowSorted(p, j0, x0, j', x', r)
  {
    SameRowSame(j, x, j', x', p[r], p[r + 1]);
  }

  /** csr_sort_indices. */
  method SortIndices(p: seq<nat>, j0: seq<nat>, x0: seq<int>, row: nat, ghost col: nat)
      returns (j: seq<nat>, x: seq<int>)
    requires |j0| == |x0| && Pointers(p, row, |j0|) && forall k | 0 <= k < |j0| :: j0[k] < col
    ensures |j| == |x| == |j0| && forall k | 0 <= k < |j| :: j[k] < col
    ensures forall r | 0 <= r < row :: p[r + 1] <= |j| && RowSorted(p, j0, x0, j, x, r)
  {
    j, x := j0, x0;
    for i := 0 to row
      invariant |j| == |x| == |j0| && forall k | 0 <= k < |j| :: j[k] < col
      invariant forall r | 0 <= r < i :: p[r + 1] <= |j| && RowSorted(p, j0, x0, j, x, r)
      invariant forall k | p[i] <= k < |j| :: j[k] == j0[k] && x[k] == x0[k]
    {
      ghost var j1, x1 := j, x;
      j, x := SortRow(j, x, p[i], p[i + 1], col);
      forall r | 0 <= r < i + 1
        ensures RowSorted(p, j0, x0, j, x, r)
      {
        if r < i {
          RowSortedStays(p, j0, x0, j1, x1, j, x, r);
        } else {
          SameRowSame(j1, x1, j0, x0, p[i], p[i + 1]);
        }
      }
    }
  }

  // ----- adding up duplicates in place

  /**
   Positions start, ..., nnz - 1 hold, one per column, the sums of the sorted positions lo, ..., jj - 1 of
   the original.
   */
  ghost predicate Compacted(j0: seq<nat>, x0: seq<int>, lo: nat, jj: nat, j: seq<nat>, x: seq<int>, start: nat,
      nnz: nat)
    requires lo <= jj <= |j0| == |x0| == |j| == |x|
  {
    && start <= nnz <= |j| && Ascending(j, start, nnz)
    && SameRow(j, x, start, nnz, j0, x0, lo, jj)
  }

  /** One group of equal columns jj, ..., jj' - 1 is written as a single entry. */
  lemma CompactGroup(j0: seq<nat>, x0: seq<int>, lo: nat, jj: nat, jj': nat, hi: nat, acc: int,
                     j: seq<nat>, x: seq<int>, start: nat, nnz: nat)
    requires lo <= jj < jj' <= hi <= |j0| == |x0| == |j| == |x| && AscendingWeakly(j0, lo, hi)
    requires forall k | jj <= k < jj' :: j0[k] == j0[jj]
    requires jj > lo ==> j0[jj - 1] != j0[jj]
    requires acc == SumAt(j0, x0, jj, jj', j0[jj])
    requires nnz < |j| && Compacted(j0, x0, lo, jj, j, x, start, nnz)
    ensures Compacted(j0, x0, lo, jj', j[nnz := j0[jj]], x[nnz := acc], start, nnz + 1)
  {
    var c0, j', x' := j0[jj], j[nnz := j0[jj]], x[nnz := acc];
    forall k | start <= k < nnz
      ensures j'[k] < c0
    {
      assert Stores(j, start, nnz, j[k]);
      var l :| lo <= l < jj && j0[l] == j[k];
      assert j0[l] <= j0[jj - 1] <= j0[jj];
    }
    forall c: nat
      ensures Stores(j', start, nnz + 1, c) <==> Stores(j0, lo, jj', c)
    {
      StoredSame(j, j', start, nnz, c);
      StoredNext(j', start, nnz, c);
      StoredGroup(j0, lo, jj, jj', c);
    }
    forall c: nat
      ensures SumAt(j', x', start, nnz + 1, c) == SumAt(j0, x0, lo, jj', c)
    {
      SumAtSame(j, x, j', x', start, nnz, c);
      SumAtSplit(j0, x0, lo, jj, jj', c);
      if c != c0 {
        SumAtNone(j0, x0, jj, jj', c);
      }
    }
  }

  lemma StoredGroup(j0: seq<nat>, lo: nat, jj: nat, jj': nat, c: nat)
    requires lo <= jj < jj' <= |j0| && forall k | jj <= k < jj' :: j0[k] == j0[jj]
    ensures Stores(j0, lo, jj', c) <==> Stores(j0, lo, jj, c) || c == j0[jj]
  {
    if Stores(j0, lo, jj', c) && c != j0[jj] {
      var k :| lo <= k < jj' && j0[k] == c;
      assert k < jj;
    }
    if c == j0[jj] {
      assert lo <= jj < jj' && j0[jj] == c;
    }
  }

  /** The innermost loop: adds up the values of one group of equal columns. */
  method SumGroup(j: seq<nat>, x: seq<int>, first: nat, hi: nat, ghost j0: seq<nat>, ghost x0: seq<int>)
      returns (acc: int, jj: nat)
    requires first < hi <= |j0| == |x0| == |j| == |x|
    requires forall k | first <= k < hi :: j[k] == j0[k] && x[k] == x0[k]
    ensures first < jj <= hi && (forall k | first <= k < jj :: j0[k] == j0[first])
    ensures jj < hi ==> j0[jj] != j0[first]
    ensures acc == SumAt(j0, x0, first, jj, j0[first])
  {
    var c := j[first];
    acc, jj := x[first], first + 1;
    while jj < hi && j[jj] == c
      invariant first < jj <= hi && forall k | first <= k < jj :: j0[k] == c
      invariant acc == SumAt(j0, x0, first, jj, c)
      decreases hi - jj
    {
      acc := acc + x[jj];
      jj := jj + 1;
    }
  }

  /** The inner loops for one row, which read at jj and write at nnz <= jj. */
  method CompactRow(j1: seq<nat>, x1: seq<int>, lo: nat, hi: nat, start: nat, ghost j0: seq<nat>, ghost x0: seq<int>)
    returns (j: seq<nat>, x: seq<int>, nnz: nat)
    requires start <= lo <= hi <= |j0| == |x0| == |j1| == |x1| && AscendingWeakly(j0, lo, hi)
    requires forall k | lo <= k < |j0| :: j1[k] == j0[k] && x1[k] == x0[k]
    ensures |j| == |x| == |j0| && nnz <= hi && Compacted(j0, x0, lo, hi, j, x, start, nnz)
    ensures forall k | 0 <= k < start :: j[k] == j1[k] && x[k] == x1[k]
    ensures forall k | hi <= k < |j0| :: j[k] == j0[k] && x[k] == x0[k]
  {
    j, x, nnz := j1, x1, start;
    var jj := lo;
    while jj < hi
      invariant lo <= jj <= hi && start <= nnz <= start + (jj - lo)
      invariant |j| == |x| == |j0| && Compacted(j0, x0, lo, jj, j, x, start, nnz)
      invariant lo < jj < hi ==> j0[jj - 1] != j0[jj]
      invariant forall k | 0 <= k < start :: j[k] == j1[k] && x[k] == x1[k]
      invariant forall k | jj <= k < |j0| :: j[k] == j0[k] && x[k] == x0[k]
      decreases hi - jj
    {
      ghost var first := jj;
      var c := j[jj];
      var acc;
      acc, jj := SumGroup(j, x, jj, hi, j0, x0);
      CompactGroup(j0, x0, lo, first, jj, hi, acc, j, x, start, nnz);
      j := j[nnz := c];
      x := x[nnz := acc];
      nnz := nnz + 1;
    }
  }

  /** Row r of the result is row r of the original with duplicates added up. */
  ghost predicate RowCompacted(p0: seq<nat>, j0: seq<nat>, x0: seq<int>, lo: nat, hi: nat, j: seq<nat>, x: seq<int>,
      r: nat)
    requires r + 1 < |p0| && p0[r] <= p0[r + 1] <= |j0| == |x0| && hi <= |j| == |x|
  {
    && lo <= hi && Ascending(j, lo, hi)
    && SameRow(j, x, lo, hi, j0, x0, p0[r], p0[r + 1])
  }

  lemma RowCompactedStays(p0: seq<nat>, j0: seq<nat>, x0: seq<int>, lo: nat, hi: nat, j: seq<nat>, x: seq<int>,
                          j': seq<nat>, x': seq<int>, r: nat)
    requires r + 1 < |p0| && p0[r] <= p0[r + 1] <= |j0| == |x0| && hi <= |j| == |x| && hi <= |j'| == |x'|
    requires RowCompacted(p0, j0, x0, lo, hi, j, x, r) && forall k | lo <= k < hi :: j'[k] == j[k] && x'[k] == x[k]
    ensures RowCompacted(p0, j0, x0, lo, hi, j', x', r)
  {
    SameRowSame(j, x, j', x', lo, hi);
  }

  /** The state of csr_sum_duplicates before row i. */
  ghost predicate Compacting(p0: seq<nat>, j0: seq<nat>, x0: seq<int>, row: nat, p: seq<nat>, j: seq<nat>,
      x: seq<int>, i: nat)
    requires |j0| == |x0| && Pointers(p0, row, |j0|)
  {
    && i <= row && |p| == row + 1 && |j| == |x| == |j0|
    && p[0] == 0 && p[i] <= p0[i]
    && (forall r, s | 0 <= r <= s <= i :: p[r] <= p[s])
    && (forall r | i < r <= row :: p[r] == p0[r])
    && (forall r | 0 <= r < i :: RowCompacted(p0, j0, x0, p[r], p[r + 1], j, x, r))
    && (forall k | p0[i] <= k < |j0| :: j[k] == j0[k] && x[k] == x0[k])
  }

  lemma CompactingNext(p0: seq<nat>, j0: seq<nat>, x0: seq<int>, row: nat, p: seq<nat>, j: seq<nat>, x: seq<int>,
      i: nat, j': seq<nat>, x': seq<int>, nnz: nat)
    requires |j0| == |x0| && Pointers(p0, row, |j0|) && i < row && Compacting(p0, j0, x0, row, p, j, x, i)
    requires |j'| == |x'| == |j0| && p[i] <= nnz <= p0[i + 1]
    requires Compacted(j0, x0, p0[i], p0[i + 1], j', x', p[i], nnz)
    requires forall k | 0 <= k < p[i] :: j'[k] == j[k] && x'[k] == x[k]
    requires forall k | p0[i + 1] <= k < |j0| :: j'[k] == j0[k] && x'[k] == x0[k]
    ensures Compacting(p0, j0, x0, row, p[i + 1 := nnz], j', x', i + 1)
  {
    var p' := p[i + 1 := nnz];
    forall r | 0 <= r < i + 1
      ensures RowCompacted(p0, j0, x0, p'[r], p'[r + 1], j', x', r)
    {
      if r < i {
        assert p'[r] == p[r] && p'[r + 1] == p[r + 1] <= p[i];
        RowCompactedStays(p0, j0, x0, p[r], p[r + 1], j, x, j', x', r);
      } else {
        assert p'[i] == p[i] && p'[i + 1] == nnz;
      }
    }
  }

  /** csr_sum_duplicates, on rows sorted by column. */
  method SumDuplicates(p0: seq<nat>, j0: seq<nat>, x0: seq<int>, row: nat, ghost col: nat)
    returns (p: seq<nat>, j: seq<nat>, x: seq<int>)
    requires |j0| == |x0| && Pointers(p0, row, |j0|) && p0[0] == 0
    requires forall r | 0 <= r < row :: AscendingWeakly(j0, p0[r], p0[r + 1])
    ensures |p| == row + 1 && |j| == |x| == p[row] <= |j0| && p[0] == 0
    ensures forall r, s | 0 <= r <= s <= row :: p[r] <= p[s]
    ensures forall r | 0 <= r < row :: RowCompacted(p0, j0, x0, p[r], p[r + 1], j, x, r)
  {
    p, j, x := p0, j0, x0;
    var nnz, rowEnd := 0, 0;
    for i := 0 to row
      invariant Compacting(p0, j0, x0, row, p, j, x, i)
      invariant nnz == p[i] && rowEnd == p0[i]
    {
      var jj := rowEnd;
      rowEnd := p[i + 1];
      ghost var j1, x1 := j, x;
      j, x, nnz := CompactRow(j, x, jj, rowEnd, nnz, j0, x0);
      CompactingNext(p0, j0, x0, row, p, j1, x1, i, j, x, nnz);
      p := p[i + 1 := nnz];
    }
    ghost var j2, x2 := j, x;
    j, x := j[..nnz], x[..nnz];
    forall r | 0 <= r < row
      ensures RowCompacted(p0, j0, x0, p[r], p[r + 1], j, x, r)
    {
      RowCompactedStays(p0, j0, x0, p[r], p[r + 1], j2, x2, j, x, r);
    }
  }

  // ----- from_coo

  /** Positions lo, ..., hi - 1 hold the triplets of row r. */
  ghost predicate HoldsTriplets(i: seq<nat>, j: seq<nat>, x: seq<int>, J: seq<nat>, X: seq<int>, lo: nat, hi: nat,
      r: nat)
    requires |x| <= |i| && |x| <= |j| && hi <= |J| == |X|
  {
    && (forall c: nat :: SumAt(J, X, lo, hi, c) == CooSum(i, j, x, |x|, r, c))
    && (forall c: nat :: Stores(J, lo, hi, c) <==> HasTriplet(i, j, |x|, r, c))
  }

  ghost predicate AllRowsHold(i: seq<nat>, j: seq<nat>, x: seq<int>, J: seq<nat>, X: seq<int>, p: seq<nat>, row: nat)
    requires |x| <= |i| && |x| <= |j| && |J| == |X| && Pointers(p, row, |J|)
  {
    forall r | 0 <= r < row :: HoldsTriplets(i, j, x, J, X, p[r], p[r + 1], r)
  }

  ghost predicate AllSorted(p: seq<nat>, j0: seq<nat>, x0: seq<int>, j: seq<nat>, x: seq<int>, row: nat)
    requires |j0| == |x0| == |j| == |x| && Pointers(p, row, |j|)
  {
    forall r | 0 <= r < row :: RowSorted(p, j0, x0, j, x, r)
  }

  ghost predicate AllCompacted(p0: seq<nat>, j0: seq<nat>, x0: seq<int>, C: Matrix)
    requires |j0| == |x0| && Pointers(p0, C.row, |j0|) && |C.j| == |C.x| && Pointers(C.p, C.row, |C.j|)
  {
    forall r | 0 <= r < C.row :: RowCompacted(p0, j0, x0, C.p[r], C.p[r + 1], C.j, C.x, r)
  }

  /** The dense entries of C are the sums of the triplets, and C stores something exactly where a triplet is. */
  ghost predicate IsSumOfTriplets(C: Matrix, i: seq<nat>, j: seq<nat>, x: seq<int>)
    requires |x| <= |i| && |x| <= |j| && WellFormed(C)
  {
    && (forall r, c: nat | 0 <= r < C.row :: Entry(C, r, c) == CooSum(i, j, x, |x|, r, c))
    && (forall r, c: nat | 0 <= r < C.row :: IsStored(C, r, c) <==> HasTriplet(i, j, |x|, r, c))
  }

  /** Counting, scattering and shifting: the triplets grouped by rows. */
  method GroupByRows(row: nat, col: nat, i: seq<nat>, j: seq<nat>, x: seq<int>)
    returns (p: seq<nat>, J: seq<nat>, X: seq<int>)
    requires |x| <= |i| && |x| <= |j| && forall m | 0 <= m < |x| :: i[m] < row && j[m] < col
    ensures |J| == |X| == |x| && Pointers(p, row, |x|) && p[0] == 0
    ensures forall k | 0 <= k < |J| :: J[k] < col
    ensures AllRowsHold(i, j, x, J, X, p, row)
  {
    p := CountRows(row, i, |x|);
    p := CumulativeSum(row, p, |x|, i);
    p, J, X := Scatter(row, col, i, j, x, p);
    ghost var ends := p;
    p := ShiftPointers(p);
    PointersAreStarts(row, col, i, j, x, ends, p, J, X);
  }

  lemma PointersAreStarts(row: nat, col: nat, i: seq<nat>, j: seq<nat>, x: seq<int>, ends: seq<nat>, p: seq<nat>,
      J: seq<nat>, X: seq<int>)
    requires |x| <= |i| && |x| <= |j| && forall m | 0 <= m < |x| :: i[m] < row && j[m] < col
    requires Scattered(row, col, i, j, x, |x|, |x|, ends, J, X) && ends[row] == |x|
    requires |p| == row + 1 && p[0] == 0 && forall r | 1 <= r < |p| :: p[r] == ends[r - 1]
    ensures Pointers(p, row, |x|)
    ensures AllRowsHold(i, j, x, J, X, p, row)
  {
    forall r | 0 <= r <= row
      ensures p[r] == Start(i, |x|, r)
    {
      if r > 0 {
        assert ends[r - 1] == Start(i, |x|, r - 1) + CountIn(i, |x|, r - 1);
      }
    }
    StartsArePointers(row, i, |x|, p);
    forall r | 0 <= r < row
      ensures HoldsTriplets(i, j, x, J, X, p[r], p[r + 1], r)
    {
      assert p[r + 1] == ends[r];
      RowsHold(i, j, x, J, X, p[r], ends[r], r);
    }
  }

  lemma StartsArePointers(row: nat, i: seq<nat>, n: nat, p: seq<nat>)
    requires n <= |i| && |p| == row + 1 && forall m | 0 <= m < n :: i[m] < row
    requires forall r | 0 <= r <= row :: p[r] == Start(i, n, r)
    ensures Pointers(p, row, n)
  {
    StartAll(i, n, row);
    forall r, s | 0 <= r <= s <= row
      ensures p[r] <= p[s]
    {
      StartMonotone(i, n, r, s);
    }
  }

  lemma RowsHold(i: seq<nat>, j: seq<nat>, x: seq<int>, J: seq<nat>, X: seq<int>, lo: nat, hi: nat, r: nat)
    requires |x| <= |i| && |x| <= |j| && hi <= |x| == |J| == |X| && lo == Start(i, |x|, r)
    requires forall c: nat :: RowHolds(i, j, x, |x|, |x|, J, X, r, c, hi)
    ensures HoldsTriplets(i, j, x, J, X, lo, hi, r)
  {
    forall c: nat
      ensures SumAt(J, X, lo, hi, c) == CooSum(i, j, x, |x|, r, c)
      ensures Stores(J, lo, hi, c) <==> HasTriplet(i, j, |x|, r, c)
    {
      assert RowHolds(i, j, x, |x|, |x|, J, X, r, c, hi);
    }
  }

  /**
   from_coo: a canonical matrix whose entry (r, c) is the sum of all triplets at (r, c).  A position is stored
   exactly when there is a triplet for it, even when the values add up to 0.
   */
  method FromCoo(row: nat, col: nat, i: seq<nat>, j: seq<nat>, x: seq<int>) returns (C: Matrix)
    requires |x| <= |i| && |x| <= |j| && forall m | 0 <= m < |x| :: i[m] < row && j[m] < col
    ensures Canonical(C) && C.row == row && C.col == col
    ensures IsSumOfTriplets(C, i, j, x)
    ensures C.p[0] == 0 && |C.j| <= |x|
  {
    var p, J, X := GroupByRows(row, col, i, j, x);
    ghost var p1, J0, X0 := p, J, X;
    J, X := SortIndices(p, J, X, row, col);
    ghost var J1, X1 := J, X;
    forall r | 0 <= r < row
      ensures AscendingWeakly(J, p[r], p[r + 1])
    {
      assert RowSorted(p, J0, X0, J, X, r);
    }
    p, J, X := SumDuplicates(p, J, X, row, col);
    C := Matrix(row, col, p, J, X);
    CompactedColumns(p1, J1, X1, C);
    CompactedEntries(i, j, x, p1, J0, X0, J1, X1, C);
  }

  lemma CompactedColumns(p: seq<nat>, J1: seq<nat>, X1: seq<int>, C: Matrix)
    requires |J1| == |X1| && Pointers(p, C.row, |J1|) && forall k | 0 <= k < |J1| :: J1[k] < C.col
    requires |C.j| == |C.x| && Pointers(C.p, C.row, |C.j|) && C.p[C.row] == |C.j| && C.p[0] == 0
    requires AllCompacted(p, J1, X1, C)
    ensures Canonical(C)
  {
    forall k | 0 <= k < |C.j|
      ensures C.j[k] < C.col
    {
      var r := RowAt(C.p, C.row, k);
      assert RowCompacted(p, J1, X1, C.p[r], C.p[r + 1], C.j, C.x, r);
      assert Stores(C.j, C.p[r], C.p[r + 1], C.j[k]);
    }
    forall r | 0 <= r < C.row
      ensures Ascending(C.j, C.p[r], C.p[r + 1])
    {
      assert RowCompacted(p, J1, X1, C.p[r], C.p[r + 1], C.j, C.x, r);
    }
  }

  lemma CompactedEntries(i: seq<nat>, j: seq<nat>, x: seq<int>, p: seq<nat>, J0: seq<nat>, X0: seq<int>,
                         J1: seq<nat>, X1: seq<int>, C: Matrix)
    requires |x| <= |i| && |x| <= |j| && |J0| == |X0| == |J1| == |X1| && Pointers(p, C.row, |J1|)
    requires AllRowsHold(i, j, x, J0, X0, p, C.row) && AllSorted(p, J0, X0, J1, X1, C.row)
    requires WellFormed(C) && AllCompacted(p, J1, X1, C)
    ensures IsSumOfTriplets(C, i, j, x)
  {
    forall r, c: nat | 0 <= r < C.row
      ensures Entry(C, r, c) == CooSum(i, j, x, |x|, r, c)
      ensures IsStored(C, r, c) <==> HasTriplet(i, j, |x|, r, c)
    {
      assert RowCompacted(p, J1, X1, C.p[r], C.p[r + 1], C.j, C.x, r);
      assert RowSorted(p, J0, X0, J1, X1, r);
      assert HoldsTriplets(i, j, x, J0, X0, p[r], p[r + 1], r);
    }
  }
}
