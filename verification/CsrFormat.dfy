/**
 The check of the canonical format (csr_has_sorted_indices, csr_has_canonical_format and is_canonical in
 src/sparse_matrix.cpp), with the unsigned guards of its scans.

 On a canonical matrix with an empty first row the scan for descents takes all columns as one row.  It finds
 a descent between two rows, or it leaves the array; it never confirms the format.
 */
module CsrFormat {
  import opened Csr
  import opened CsrBinop
  import opened CsrFromCoo

  /** Two neighbours of which the second column is smaller. */
  ghost predicate Descends(j: seq<nat>, lo: nat, hi: nat)
    requires hi <= |j|
  {
    exists k :: lo <= k && k + 1 < hi && j[k] > j[k + 1]
  }

  /** The scan of one row for descents: whether it is sorted. */
  method ScanSorted(j: seq<nat>, lo: nat, end: nat) returns (r: Scan)
    requires lo <= end <= |j| < UNSIGNED_RANGE
    ensures end > 0 ==> r == Answer(!Descends(j, lo, end))
    ensures end == 0 ==> r == if Descends(j, 0, |j|) then Answer(false) else PastTheEnd
  {
    var k := lo;
    while k < UnsignedPred(end)
      invariant lo <= k <= |j| && (k == lo || k < |j|)
      invariant forall l | lo <= l < k && l + 1 < |j| :: j[l] <= j[l + 1]
      decreases |j| - k
    {
      if k + 1 >= |j| {
        return PastTheEnd;
      }
      if j[k] > j[k + 1] {
        return Answer(false);
      }
      k := k + 1;
    }
    return Answer(true);
  }

  /** csr_has_sorted_indices. */
  method HasSortedIndices(p: seq<nat>, j: seq<nat>, row: nat) returns (r: Scan)
    requires Pointers(p, row, |j|) && |j| < UNSIGNED_RANGE
    ensures row > 0 && p[1] == 0 ==> r == if Descends(j, 0, |j|) then Answer(false) else PastTheEnd
    ensures row == 0 || p[1] > 0 ==> r == Answer(forall i | 0 <= i < row :: !Descends(j, p[i], p[i + 1]))
  {
    for i := 0 to row
      invariant i > 0 ==> p[1] > 0
      invariant forall h | 0 <= h < i :: !Descends(j, p[h], p[h + 1])
    {
      r := ScanSorted(j, p[i], p[i + 1]);
      if r != Answer(true) {
        return;
      }
    }
    return Answer(true);
  }

  /** The sizes the format demands. */
  ghost predicate IsSized(A: Matrix) {
    |A.p| == A.row + 1 && |A.j| == |A.x| == A.p[A.row]
  }

  ghost predicate FirstRowEmpty(A: Matrix)
    requires IsSized(A)
  {
    A.row > 0 && A.p[1] == 0
  }

  /** csr_has_canonical_format. */
  method HasCanonicalFormat(p: seq<nat>, j: seq<nat>, row: nat) returns (r: Scan)
    requires |p| == row + 1 && p[row] == |j| < UNSIGNED_RANGE
    ensures !Pointers(p, row, |j|) ==> r == Answer(false)
    ensures Pointers(p, row, |j|) && row > 0 && p[1] == 0 ==>
      r == if Descends(j, 0, |j|) then Answer(false) else PastTheEnd
    ensures Pointers(p, row, |j|) && (row == 0 || p[1] > 0) ==>
      r == Answer(forall i | 0 <= i < row :: Ascending(j, p[i], p[i + 1]))
  {
    for i := 0 to row
      invariant forall h, k | 0 <= h <= k <= i :: p[h] <= p[k]
    {
      if p[i] > p[i + 1] {
        return Answer(false);
      }
    }
    forall i | 0 <= i < row
      ensures Ascending(j, p[i], p[i + 1]) <==> !Descends(j, p[i], p[i + 1]) && !Repeats(j, p[i], p[i + 1])
    {
      AscendingByNeighbours(j, p[i], p[i + 1]);
    }
    r := HasSortedIndices(p, j, row);
    if r == Answer(true) {
      var duplicates := HasDuplicates(p, j, row);
      r := if duplicates.Answer? then Answer(!duplicates.found) else PastTheEnd;
    }
  }

  lemma {:induction false} AscendingByNeighbours(j: seq<nat>, lo: nat, hi: nat)
    requires hi <= |j|
    ensures Ascending(j, lo, hi) <==> !Descends(j, lo, hi) && !Repeats(j, lo, hi)
    decreases hi
  {
    if lo + 1 < hi {
      var last := hi - 1;
      AscendingByNeighbours(j, lo, last);
      var k := last - 1;
      if !Descends(j, lo, hi) && !Repeats(j, lo, hi) {
        assert j[k] < j[k + 1];
      }
    }
  }

  /**
   is_canonical.  A matrix with nothing stored passes whatever its pointers are.  Otherwise the check confirms
   the format exactly when the matrix has it and the first row is not empty, and it leaves the array exactly
   when the pointers ascend, the first row is empty and the columns as a whole never descend.
   */
  method IsCanonical(A: Matrix) returns (r: Scan)
    requires |A.p| > A.row && |A.j| < UNSIGNED_RANGE && forall k | 0 <= k < |A.j| :: A.j[k] < A.col
    ensures r == Answer(true) <==> IsSized(A) && (A.p[A.row] == 0 || (Canonical(A) && !FirstRowEmpty(A)))
    ensures r == PastTheEnd <==> && IsSized(A) && A.p[A.row] > 0 && WellFormed(A) && FirstRowEmpty(A)
                                 && !Descends(A.j, 0, |A.j|)
  {
    if |A.p| != A.row + 1 || |A.j| != A.p[A.row] || |A.x| != A.p[A.row] {
      return Answer(false);
    }
    if A.p[A.row] != 0 {
      r := HasCanonicalFormat(A.p, A.j, A.row);
    } else {
      r := Answer(true);
    }
  }

  /** One of the first n triplets lies in row r. */
  ghost predicate InRow(i: seq<nat>, n: nat, r: nat)
    requires n <= |i|
  {
    exists m :: 0 <= m < n && i[m] == r
  }

  /** A triplet m lies above a triplet n and has the greater column. */
  ghost predicate Crosses(i: seq<nat>, j: seq<nat>, m: nat, n: nat)
    requires m < |i| && m < |j| && n < |i| && n < |j|
  {
    i[m] < i[n] && j[m] > j[n]
  }

  ghost predicate SomeCross(i: seq<nat>, j: seq<nat>, count: nat)
    requires count <= |i| && count <= |j|
  {
    exists m, n :: 0 <= m < count && 0 <= n < count && Crosses(i, j, m, n)
  }

  /**
   from_coo with the assertion of the constructor it ends in.  The assertion holds exactly when there is no
   triplet at all or one in the first row.  Its scan leaves the array exactly when there are triplets, none of
   them in the first row, and no triplet has a greater column than one in a later row.
   */
  method CheckedFromCoo(row: nat, col: nat, i: seq<nat>, j: seq<nat>, x: seq<int>) returns (C: Matrix, check: Scan)
    requires |x| <= |i| && |x| <= |j| && forall m | 0 <= m < |x| :: i[m] < row && j[m] < col
    requires |x| < UNSIGNED_RANGE
    ensures Canonical(C) && C.row == row && C.col == col && IsSumOfTriplets(C, i, j, x)
    ensures check == Answer(true) <==> |x| == 0 || InRow(i, |x|, 0)
    ensures check == PastTheEnd <==> |x| > 0 && !InRow(i, |x|, 0) && !SomeCross(i, j, |x|)
  {
    C := FromCoo(row, col, i, j, x);
    AnythingStored(C, i, j, x);
    FirstRowStored(C, i, j, x);
    DescendsIffCross(C, i, j, x);
    check := IsCanonical(C);
  }

  lemma AnythingStored(C: Matrix, i: seq<nat>, j: seq<nat>, x: seq<int>)
    requires |x| <= |i| && |x| <= |j| && Canonical(C) && C.p[0] == 0 && IsSumOfTriplets(C, i, j, x)
    requires forall m | 0 <= m < |x| :: i[m] < C.row
    ensures C.p[C.row] == 0 <==> |x| == 0
  {
    if |x| > 0 {
      assert HasTriplet(i, j, |x|, i[0], j[0]);
      assert IsStored(C, i[0], j[0]);
    }
    if C.p[C.row] > 0 {
      var r := RowAt(C.p, C.row, 0);
      assert IsStored(C, r, C.j[0]);
    }
  }

  lemma FirstRowStored(C: Matrix, i: seq<nat>, j: seq<nat>, x: seq<int>)
    requires |x| <= |i| && |x| <= |j| && Canonical(C) && C.p[0] == 0 && IsSumOfTriplets(C, i, j, x)
    ensures C.row > 0 ==> (C.p[1] > 0 <==> InRow(i, |x|, 0))
  {
    if C.row > 0 && C.p[1] > 0 {
      assert IsStored(C, 0, C.j[0]);
    }
    if C.row > 0 && InRow(i, |x|, 0) {
      var m :| 0 <= m < |x| && i[m] == 0;
      assert HasTriplet(i, j, |x|, 0, j[m]);
      assert IsStored(C, 0, j[m]);
    }
  }

  /** The stored columns descend somewhere exactly when two triplets cross. */
  lemma DescendsIffCross(C: Matrix, i: seq<nat>, j: seq<nat>, x: seq<int>)
    requires |x| <= |i| && |x| <= |j| && Canonical(C) && C.p[0] == 0 && IsSumOfTriplets(C, i, j, x)
    requires forall m | 0 <= m < |x| :: i[m] < C.row
    ensures Descends(C.j, 0, |C.j|) <==> SomeCross(i, j, |x|)
  {
    if Descends(C.j, 0, |C.j|) {
      var k :| 0 <= k && k + 1 < |C.j| && C.j[k] > C.j[k + 1];
      var r := RowAt(C.p, C.row, k);
      var s := RowAt(C.p, C.row, k + 1);
      assert r < s;
      assert IsStored(C, r, C.j[k]) && IsStored(C, s, C.j[k + 1]);
      var m :| 0 <= m < |x| && i[m] == r && j[m] == C.j[k];
      var n :| 0 <= n < |x| && i[n] == s && j[n] == C.j[k + 1];
      assert Crosses(i, j, m, n);
    }
    if SomeCross(i, j, |x|) {
      var m, n :| 0 <= m < |x| && 0 <= n < |x| && Crosses(i, j, m, n);
      assert HasTriplet(i, j, |x|, i[m], j[m]) && HasTriplet(i, j, |x|, i[n], j[n]);
      assert IsStored(C, i[m], j[m]) && IsStored(C, i[n], j[n]);
      var k :| C.p[i[m]] <= k < C.p[i[m] + 1] && C.j[k] == j[m];
      var l :| C.p[i[n]] <= l < C.p[i[n] + 1] && C.j[l] == j[n];
      DescentBetween(C.j, k, l);
    }
  }

  lemma {:induction false} DescentBetween(j: seq<nat>, k: nat, l: nat)
    requires k < l < |j| && j[k] > j[l]
    ensures Descends(j, 0, |j|)
    decreases l
  {
    if j[l - 1] <= j[l] {
      DescentBetween(j, k, l - 1);
    } else {
      var m := l - 1;
      assert j[m] > j[m + 1];
    }
  }

  /** One triplet in the second row: by CheckedFromCoo the scan leaves the array. */
  lemma TripletBelowEmptyRow(i: seq<nat>, j: seq<nat>, v: int)
    requires i == [1] && j == [0]
    ensures var x := [v];
      |x| > 0 && (forall m | 0 <= m < |x| :: i[m] < 2 && j[m] < 1) && !InRow(i, |x|, 0) && !SomeCross(i, j, |x|)
  {
    forall m, n | 0 <= m < 1 && 0 <= n < 1
      ensures !Crosses(i, j, m, n)
    {
      assert m == n;
    }
  }
}
