/** Compressed sparse row matrices (src/sparse_matrix.cpp) and the dense matrices they stand for. */
module Csr {

  /** The values of the 32-bit type unsigned end before this one. */
  const UNSIGNED_RANGE := 0x1_0000_0000

  /** Row i is stored in positions p[i], ..., p[i+1] - 1 of the column indices j and the values x. */
  datatype Matrix = Matrix(row: nat, col: nat, p: seq<nat>, j: seq<nat>, x: seq<int>)

  ghost predicate Pointers(p: seq<nat>, row: nat, n: nat) {
    && |p| == row + 1 && p[row] <= n
    && forall i, k | 0 <= i <= k <= row :: p[i] <= p[k]
  }

  ghost predicate WellFormed(A: Matrix) {
    && |A.x| == |A.j| && Pointers(A.p, A.row, |A.j|)
    && forall k | 0 <= k < |A.j| :: A.j[k] < A.col
  }

  /** The columns of positions lo, ..., hi - 1 increase strictly. */
  ghost predicate Ascending(j: seq<nat>, lo: nat, hi: nat)
    requires hi <= |j|
  {
    forall k, l | lo <= k < l < hi :: j[k] < j[l]
  }

  /** Canonical format: every row sorted and without duplicates, nothing stored beyond the last row. */
  ghost predicate Canonical(A: Matrix) {
    && WellFormed(A) && A.p[A.row] == |A.j|
    && forall i | 0 <= i < A.row :: Ascending(A.j, A.p[i], A.p[i + 1])
  }

  /** The sum of the values stored for column c in positions lo, ..., hi - 1. */
  ghost function SumAt(j: seq<nat>, x: seq<int>, lo: nat, hi: nat, c: nat): int
    requires hi <= |j| == |x|
  {
    if hi <= lo then 0 else SumAt(j, x, lo, hi - 1, c) + if j[hi - 1] == c then x[hi - 1] else 0
  }

  /** Entry (i, c) of the dense matrix. */
  ghost function Entry(A: Matrix, i: nat, c: nat): int
    requires WellFormed(A) && i < A.row
  {
    SumAt(A.j, A.x, A.p[i], A.p[i + 1], c)
  }

  lemma {:induction false} SumAtSame(j: seq<nat>, x: seq<int>, j': seq<nat>, x': seq<int>, lo: nat, hi: nat, c: nat)
    requires hi <= |j| == |x| && hi <= |j'| == |x'|
    requires forall k | lo <= k < hi :: j[k] == j'[k] && x[k] == x'[k]
    ensures SumAt(j, x, lo, hi, c) == SumAt(j', x', lo, hi, c)
  {
    if lo < hi {
      SumAtSame(j, x, j', x', lo, hi - 1, c);
    }
  }

  lemma {:induction false} SumAtSplit(j: seq<nat>, x: seq<int>, lo: nat, mid: nat, hi: nat, c: nat)
    requires lo <= mid <= hi <= |j| == |x|
    ensures SumAt(j, x, lo, hi, c) == SumAt(j, x, lo, mid, c) + SumAt(j, x, mid, hi, c)
  {
    if mid < hi {
      SumAtSplit(j, x, lo, mid, hi - 1, c);
    }
  }

  lemma {:induction false} SumAtNone(j: seq<nat>, x: seq<int>, lo: nat, hi: nat, c: nat)
    requires hi <= |j| == |x| && forall k | lo <= k < hi :: j[k] != c
    ensures SumAt(j, x, lo, hi, c) == 0
  {
    if lo < hi {
      SumAtNone(j, x, lo, hi - 1, c);
    }
  }

  /** In a row without duplicates the entry is the one value stored for its column. */
  lemma SumAtSingle(j: seq<nat>, x: seq<int>, lo: nat, k: nat, hi: nat)
    requires lo <= k < hi <= |j| == |x|
    requires forall l | lo <= l < hi && l != k :: j[l] != j[k]
    ensures SumAt(j, x, lo, hi, j[k]) == x[k]
  {
    SumAtSplit(j, x, lo, k + 1, hi, j[k]);
    SumAtNone(j, x, lo, k, j[k]);
    SumAtNone(j, x, k + 1, hi, j[k]);
  }

  /** Some position lo, ..., hi - 1 stores column c. */
  ghost predicate Stores(j: seq<nat>, lo: nat, hi: nat, c: nat)
    requires hi <= |j|
  {
    exists k :: lo <= k < hi && j[k] == c
  }

  ghost predicate IsStored(A: Matrix, i: nat, c: nat)
    requires WellFormed(A) && i < A.row
  {
    Stores(A.j, A.p[i], A.p[i + 1], c)
  }

  /** The row a position belongs to. */
  lemma {:induction false} RowAt(p: seq<nat>, row: nat, k: nat) returns (r: nat)
    requires row < |p| && p[0] == 0 && k < p[row]
    ensures r < row && p[r] <= k < p[r + 1]
    decreases row
  {
    if p[row - 1] <= k {
      r := row - 1;
    } else {
      r := RowAt(p, row - 1, k);
    }
  }

  /** Two row segments with the same sums in every column. */
  ghost predicate SameSums(j: seq<nat>, x: seq<int>, lo: nat, hi: nat, j0: seq<nat>, x0: seq<int>, lo0: nat, hi0: nat)
    requires hi <= |j| == |x| && hi0 <= |j0| == |x0|
  {
    forall c: nat :: SumAt(j, x, lo, hi, c) == SumAt(j0, x0, lo0, hi0, c)
  }
}
