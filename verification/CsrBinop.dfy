/** The merge of two canonical sparse matrices by a binary operation: csr_binop_csr_canonical. */
module CsrBinop {
  import opened Csr
  import opened CsrFromCoo
  import opened CsrUnique

  type Op = (int, int) -> int

  ghost predicate AllBelow(j: seq<nat>, lo: nat, hi: nat, c: nat)
    requires hi <= |j|
  {
    forall k | lo <= k < hi :: j[k] < c
  }

  /** One row of an operand: positions lo, ..., hi - 1 with strictly increasing columns. */
  datatype Row = Row(j: seq<nat>, x: seq<int>, lo: nat, hi: nat)

  ghost predicate RowOk(a: Row) {
    a.lo <= a.hi <= |a.j| == |a.x| && Ascending(a.j, a.lo, a.hi)
  }

  /** What the operation yields at column c for the parts of the two rows before the given positions. */
  ghost function OpAt(op: Op, a: Row, apos: nat, b: Row, bpos: nat, c: nat): int
    requires RowOk(a) && RowOk(b) && apos <= a.hi && bpos <= b.hi
  {
    if StoresEither(a, apos, b, bpos, c)
    then op(SumAt(a.j, a.x, a.lo, apos, c), SumAt(b.j, b.x, b.lo, bpos, c))
    else 0
  }

  ghost predicate StoresEither(a: Row, apos: nat, b: Row, bpos: nat, c: nat)
    requires RowOk(a) && RowOk(b) && apos <= a.hi && bpos <= b.hi
  {
    Stores(a.j, a.lo, apos, c) || Stores(b.j, b.lo, bpos, c)
  }

  /** Every output column comes from one of the rows, with a nonzero value. */
  ghost predicate FromRows(a: Row, apos: nat, b: Row, bpos: nat, j: seq<nat>, x: seq<int>, start: nat)
    requires RowOk(a) && RowOk(b) && apos <= a.hi && bpos <= b.hi && |j| == |x|
  {
    forall k | start <= k < |j| :: x[k] != 0 && StoresEither(a, apos, b, bpos, j[k])
  }

  /** The output and what was passed in the other row lie below the next column of row a. */
  ghost predicate Below(a: Row, apos: nat, b: Row, bpos: nat, j: seq<nat>, start: nat)
    requires RowOk(a) && RowOk(b) && apos <= a.hi && bpos <= b.hi
  {
    apos < a.hi ==> AllBelow(j, start, |j|, a.j[apos]) && AllBelow(b.j, b.lo, bpos, a.j[apos])
  }

  /** The output from start on holds the results for the parts of the rows merged so far. */
  ghost predicate Merged(op: Op, a: Row, apos: nat, b: Row, bpos: nat, j: seq<nat>, x: seq<int>, start: nat)
  {
    && RowOk(a) && RowOk(b) && a.lo <= apos <= a.hi && b.lo <= bpos <= b.hi
    && start <= |j| == |x| && |j| - start <= apos - a.lo + bpos - b.lo && Ascending(j, start, |j|)
    && FromRows(a, apos, b, bpos, j, x, start)
    && Below(a, apos, b, bpos, j, start) && Below(b, bpos, a, apos, j, start)
    && SumsAre(op, a, apos, b, bpos, j, x, start)
  }

  ghost predicate SumIs(op: Op, a: Row, apos: nat, b: Row, bpos: nat, j: seq<nat>, x: seq<int>, start: nat, c: nat)
    requires RowOk(a) && RowOk(b) && apos <= a.hi && bpos <= b.hi && |j| == |x|
  {
    SumAt(j, x, start, |j|, c) == OpAt(op, a, apos, b, bpos, c)
  }

  ghost predicate SumsAre(op: Op, a: Row, apos: nat, b: Row, bpos: nat, j: seq<nat>, x: seq<int>, start: nat)
    requires RowOk(a) && RowOk(b) && apos <= a.hi && bpos <= b.hi && |j| == |x|
  {
    forall c: nat :: SumIs(op, a, apos, b, bpos, j, x, start, c)
  }

  /** Either row a stays before c0, or it advances over c0. */
  ghost predicate Advances(a: Row, apos: nat, apos': nat, c0: nat)
    requires RowOk(a) && apos <= a.hi
  {
    || (apos' == apos && (apos < a.hi ==> c0 < a.j[apos]))
    || (apos' == apos + 1 <= a.hi && a.j[apos] == c0)
  }

  lemma PushSum(j: seq<nat>, x: seq<int>, start: nat, c0: nat, r: int, c: nat)
    requires start <= |j| == |x|
    ensures SumAt(j + [c0], x + [r], start, |j| + 1, c) == SumAt(j, x, start, |j|, c) + if c == c0 then r else 0
  {
    SumAtSame(j, x, j + [c0], x + [r], start, |j|, c);
  }

  /** Extending a row by its next position. */
  lemma NextPosition(a: Row, pos: nat, c: nat)
    requires RowOk(a) && a.lo <= pos < a.hi
    ensures Stores(a.j, a.lo, pos + 1, c) <==> Stores(a.j, a.lo, pos, c) || c == a.j[pos]
    ensures SumAt(a.j, a.x, a.lo, pos + 1, a.j[pos]) == a.x[pos] && !Stores(a.j, a.lo, pos, a.j[pos])
  {
    if Stores(a.j, a.lo, pos + 1, c) && c != a.j[pos] {
      var k :| a.lo <= k < pos + 1 && a.j[k] == c;
      assert k < pos;
    }
    if Stores(a.j, a.lo, pos, c) {
      var k :| a.lo <= k < pos && a.j[k] == c;
    }
    if c == a.j[pos] {
      assert a.lo <= pos < pos + 1 && a.j[pos] == c;
    }
    SumAtNone(a.j, a.x, a.lo, pos, a.j[pos]);
  }

  lemma BelowMeansAbsent(j: seq<nat>, x: seq<int>, lo: nat, hi: nat, c: nat)
    requires hi <= |j| == |x| && AllBelow(j, lo, hi, c)
    ensures !Stores(j, lo, hi, c) && SumAt(j, x, lo, hi, c) == 0
  {
    SumAtNone(j, x, lo, hi, c);
  }

  /** After advancing over c0, c0 lies below what is left of row a. */
  lemma StepBelow(a: Row, apos: nat, apos': nat, b: Row, bpos: nat, bpos': nat, j: seq<nat>, start: nat, c0: nat)
    requires RowOk(a) && RowOk(b) && a.lo <= apos <= a.hi && b.lo <= bpos <= b.hi && start <= |j|
    requires Advances(a, apos, apos', c0) && Advances(b, bpos, bpos', c0)
    requires Below(a, apos, b, bpos, j, start)
    ensures Below(a, apos', b, bpos', j, start) && Below(a, apos', b, bpos', j + [c0], start)
  {
    if apos' < a.hi {
      assert c0 < a.j[apos'];
      assert apos < a.hi && a.j[apos] <= a.j[apos'];
    }
  }

  lemma StepSum(op: Op, a: Row, apos: nat, apos': nat, b: Row, bpos: nat, bpos': nat, c0: nat, r: int, c: nat)
    requires RowOk(a) && RowOk(b) && a.lo <= apos <= apos' <= a.hi && b.lo <= bpos <= bpos' <= b.hi
    requires apos' == apos || (apos' == apos + 1 && a.j[apos] == c0)
    requires bpos' == bpos || (bpos' == bpos + 1 && b.j[bpos] == c0)
    requires apos' > apos || bpos' > bpos
    requires AllBelow(a.j, a.lo, apos, c0) && AllBelow(b.j, b.lo, bpos, c0)
    requires r == op(if apos' > apos then a.x[apos] else 0, if bpos' > bpos then b.x[bpos] else 0)
    ensures OpAt(op, a, apos', b, bpos', c) == if c == c0 then r else OpAt(op, a, apos, b, bpos, c)
    ensures StoresEither(a, apos', b, bpos', c) <==> c == c0 || StoresEither(a, apos, b, bpos, c)
  {
    BelowMeansAbsent(a.j, a.x, a.lo, apos, c0);
    BelowMeansAbsent(b.j, b.x, b.lo, bpos, c0);
    if apos' > apos {
      NextPosition(a, apos, c);
    }
    if bpos' > bpos {
      NextPosition(b, bpos, c);
    }
  }

  /** The column c0 lies above everything merged so far. */
  lemma NextColumn(a: Row, apos: nat, apos': nat, b: Row, bpos: nat, bpos': nat, j: seq<nat>, start: nat, c0: nat)
    requires RowOk(a) && RowOk(b) && a.lo <= apos <= a.hi && b.lo <= bpos <= b.hi && start <= |j|
    requires Advances(a, apos, apos', c0) && Advances(b, bpos, bpos', c0) && (apos' > apos || bpos' > bpos)
    requires Below(a, apos, b, bpos, j, start) && Below(b, bpos, a, apos, j, start)
    ensures AllBelow(j, start, |j|, c0) && AllBelow(a.j, a.lo, apos, c0) && AllBelow(b.j, b.lo, bpos, c0)
  {
  }

  /** The sums and the origin of the columns after a step, with (c0, r) appended unless r is zero. */
  lemma StepContents(op: Op, a: Row, apos: nat, apos': nat, b: Row, bpos: nat, bpos': nat, j: seq<nat>, x: seq<int>,
      start: nat, c0: nat, r: int, j': seq<nat>, x': seq<int>)
    requires RowOk(a) && RowOk(b) && a.lo <= apos <= apos' <= a.hi && b.lo <= bpos <= bpos' <= b.hi
      && start <= |j| == |x|
    requires apos' == apos || (apos' == apos + 1 && a.j[apos] == c0)
    requires bpos' == bpos || (bpos' == bpos + 1 && b.j[bpos] == c0)
    requires apos' > apos || bpos' > bpos
    requires AllBelow(j, start, |j|, c0) && AllBelow(a.j, a.lo, apos, c0) && AllBelow(b.j, b.lo, bpos, c0)
    requires r == op(if apos' > apos then a.x[apos] else 0, if bpos' > bpos then b.x[bpos] else 0)
    requires SumsAre(op, a, apos, b, bpos, j, x, start) && FromRows(a, apos, b, bpos, j, x, start)
    requires if r == 0 then j' == j && x' == x else j' == j + [c0] && x' == x + [r]
    ensures SumsAre(op, a, apos', b, bpos', j', x', start) && FromRows(a, apos', b, bpos', j', x', start)
  {
    forall c: nat
      ensures SumIs(op, a, apos', b, bpos', j', x', start, c)
      ensures StoresEither(a, apos', b, bpos', c) <==> c == c0 || StoresEither(a, apos, b, bpos, c)
    {
      StepSum(op, a, apos, apos', b, bpos, bpos', c0, r, c);
      assert SumIs(op, a, apos, b, bpos, j, x, start, c);
      PushSum(j, x, start, c0, r, c);
      if c == c0 {
        BelowMeansAbsent(j, x, start, |j|, c0);
      }
    }
  }

  /** The next column is c0: a, b or both advance over it, and the result for it is appended unless it is zero. */
  lemma MergeStep(op: Op, a: Row, apos: nat, apos': nat, b: Row, bpos: nat, bpos': nat, j: seq<nat>, x: seq<int>,
      start: nat, c0: nat, r: int, j': seq<nat>, x': seq<int>)
    requires Merged(op, a, apos, b, bpos, j, x, start)
    requires Advances(a, apos, apos', c0) && Advances(b, bpos, bpos', c0) && (apos' > apos || bpos' > bpos)
    requires r == op(if apos' > apos then a.x[apos] else 0, if bpos' > bpos then b.x[bpos] else 0)
    requires if r == 0 then j' == j && x' == x else j' == j + [c0] && x' == x + [r]
    ensures Merged(op, a, apos', b, bpos', j', x', start)
  {
    NextColumn(a, apos, apos', b, bpos, bpos', j, start, c0);
    StepBelow(a, apos, apos', b, bpos, bpos', j, start, c0);
    StepBelow(b, bpos, bpos', a, apos, apos', j, start, c0);
    StepContents(op, a, apos, apos', b, bpos, bpos', j, x, start, c0, r, j', x');
  }

  // ----- merging a row

  method Append(j0: seq<nat>, x0: seq<int>, c: nat, r: int) returns (j: seq<nat>, x: seq<int>)
    ensures r == 0 ==> j == j0 && x == x0
    ensures r != 0 ==> j == j0 + [c] && x == x0 + [r]
  {
    j, x := j0, x0;
    if r != 0 {
      j, x := j + [c], x + [r];
    }
  }

  /** The output has grown from (j0, x0) and holds the merge up to the two positions. */
  ghost predicate Growing(op: Op, a: Row, apos: nat, b: Row, bpos: nat, j0: seq<nat>, x0: seq<int>, j: seq<nat>,
      x: seq<int>)
  {
    && Merged(op, a, apos, b, bpos, j, x, |j0|)
    && |j0| == |x0| && j0 <= j && x0 <= x
  }

  /** One comparison of the two rows. */
  method MergeNext(op: Op, a: Row, apos: nat, b: Row, bpos: nat, ghost j0: seq<nat>, ghost x0: seq<int>, j: seq<nat>,
      x: seq<int>)
    returns (apos': nat, bpos': nat, j': seq<nat>, x': seq<int>)
    requires Growing(op, a, apos, b, bpos, j0, x0, j, x) && apos < a.hi && bpos < b.hi
    ensures apos <= apos' && bpos <= bpos' && apos + bpos < apos' + bpos'
    ensures Growing(op, a, apos', b, bpos', j0, x0, j', x')
  {
    apos', bpos' := apos, bpos;
    var aj, bj := a.j[apos], b.j[bpos];
    var c, r;
    if aj == bj {
      c, r := aj, op(a.x[apos], b.x[bpos]);
      apos', bpos' := apos + 1, bpos + 1;
    } else if aj < bj {
      c, r := aj, op(a.x[apos], 0);
      apos' := apos + 1;
    } else {
      c, r := bj, op(0, b.x[bpos]);
      bpos' := bpos + 1;
    }
    j', x' := Append(j, x, c, r);
    MergeStep(op, a, apos, apos', b, bpos, bpos', j, x, |j0|, c, r, j', x');
  }

  method MergeRow(op: Op, a: Row, b: Row, j0: seq<nat>, x0: seq<int>) returns (j: seq<nat>, x: seq<int>)
    requires RowOk(a) && RowOk(b) && |j0| == |x0|
    ensures Growing(op, a, a.hi, b, b.hi, j0, x0, j, x)
  {
    j, x := j0, x0;
    var apos: nat, bpos: nat := a.lo, b.lo;
    EmptyMerge(op, a, b, j, x);
    while apos < a.hi && bpos < b.hi
      invariant apos <= a.hi && bpos <= b.hi
      invariant Growing(op, a, apos, b, bpos, j0, x0, j, x)
      decreases a.hi - apos + b.hi - bpos
    {
      apos, bpos, j, x := MergeNext(op, a, apos, b, bpos, j0, x0, j, x);
    }
    j, x := TailA(op, a, apos, b, bpos, j0, x0, j, x);
    j, x := TailB(op, a, b, bpos, j0, x0, j, x);
  }

  /** The rest of the first row. */
  method TailA(op: Op, a: Row, apos0: nat, b: Row, bpos: nat, ghost j0: seq<nat>, ghost x0: seq<int>, j1: seq<nat>,
      x1: seq<int>)
    returns (j: seq<nat>, x: seq<int>)
    requires Growing(op, a, apos0, b, bpos, j0, x0, j1, x1) && (apos0 == a.hi || bpos == b.hi)
    ensures Growing(op, a, a.hi, b, bpos, j0, x0, j, x)
  {
    j, x := j1, x1;
    var apos := apos0;
    while apos < a.hi
      invariant apos0 <= apos <= a.hi && Growing(op, a, apos, b, bpos, j0, x0, j, x)
    {
      var r := op(a.x[apos], 0);
      ghost var j2, x2 := j, x;
      j, x := Append(j, x, a.j[apos], r);
      MergeStep(op, a, apos, apos + 1, b, bpos, bpos, j2, x2, |j0|, a.j[apos], r, j, x);
      apos := apos + 1;
    }
  }

  /** The rest of the second row. */
  method TailB(op: Op, a: Row, b: Row, bpos0: nat, ghost j0: seq<nat>, ghost x0: seq<int>, j1: seq<nat>, x1: seq<int>)
    returns (j: seq<nat>, x: seq<int>)
    requires Growing(op, a, a.hi, b, bpos0, j0, x0, j1, x1)
    ensures Growing(op, a, a.hi, b, b.hi, j0, x0, j, x)
  {
    j, x := j1, x1;
    var bpos := bpos0;
    while bpos < b.hi
      invariant bpos0 <= bpos <= b.hi && Growing(op, a, a.hi, b, bpos, j0, x0, j, x)
    {
      var r := op(0, b.x[bpos]);
      ghost var j2, x2 := j, x;
      j, x := Append(j, x, b.j[bpos], r);
      MergeStep(op, a, a.hi, a.hi, b, bpos, bpos + 1, j2, x2, |j0|, b.j[bpos], r, j, x);
      bpos := bpos + 1;
    }
  }

  lemma EmptyMerge(op: Op, a: Row, b: Row, j: seq<nat>, x: seq<int>)
    requires RowOk(a) && RowOk(b) && |j| == |x|
    ensures Growing(op, a, a.lo, b, b.lo, j, x, j, x)
  {
  }

  // ----- merging the matrices

  ghost predicate SameShape(A: Matrix, B: Matrix) {
    Canonical(A) && Canonical(B) && A.row == B.row && A.col == B.col
  }

  function RowView(A: Matrix, i: nat): (r: Row)
    requires |A.p| > i + 1
  {
    Row(A.j, A.x, A.p[i], A.p[i + 1])
  }

  /** Row i of the output is the merge of the rows of the operands. */
  ghost predicate RowMerged(op: Op, A: Matrix, B: Matrix, i: nat, j: seq<nat>, x: seq<int>, lo: nat, hi: nat)
    requires SameShape(A, B) && i < A.row
  {
    && lo <= hi <= |j| == |x| && Ascending(j, lo, hi)
    && (forall k | lo <= k < hi :: x[k] != 0 && j[k] < A.col)
    && (forall c: nat :: SumAt(j, x, lo, hi, c) == OpAt(op, RowView(A, i), A.p[i + 1], RowView(B, i), B.p[i + 1], c))
  }

  lemma MergedRow(op: Op, A: Matrix, B: Matrix, i: nat, j: seq<nat>, x: seq<int>, start: nat)
    requires SameShape(A, B) && i < A.row
    requires Merged(op, RowView(A, i), A.p[i + 1], RowView(B, i), B.p[i + 1], j, x, start)
    ensures RowMerged(op, A, B, i, j, x, start, |j|)
  {
    forall c: nat
      ensures SumAt(j, x, start, |j|, c) == OpAt(op, RowView(A, i), A.p[i + 1], RowView(B, i), B.p[i + 1], c)
    {
      assert SumIs(op, RowView(A, i), A.p[i + 1], RowView(B, i), B.p[i + 1], j, x, start, c);
    }
    forall k | start <= k < |j|
      ensures j[k] < A.col
    {
      if Stores(A.j, A.p[i], A.p[i + 1], j[k]) {
        var l :| A.p[i] <= l < A.p[i + 1] && A.j[l] == j[k];
      } else {
        var l :| B.p[i] <= l < B.p[i + 1] && B.j[l] == j[k];
      }
    }
  }

  lemma RowMergedStays(op: Op, A: Matrix, B: Matrix, i: nat, j: seq<nat>, x: seq<int>, lo: nat, hi: nat, j': seq<nat>,
      x': seq<int>)
    requires SameShape(A, B) && i < A.row && RowMerged(op, A, B, i, j, x, lo, hi)
    requires |j| <= |j'| == |x'| && j <= j' && x <= x'
    ensures RowMerged(op, A, B, i, j', x', lo, hi)
  {
    forall c: nat
      ensures SumAt(j', x', lo, hi, c) == OpAt(op, RowView(A, i), A.p[i + 1], RowView(B, i), B.p[i + 1], c)
    {
      SumAtSame(j, x, j', x', lo, hi, c);
    }
  }

  ghost predicate RowsMerged(op: Op, A: Matrix, B: Matrix, p: seq<nat>, j: seq<nat>, x: seq<int>, n: nat)
    requires SameShape(A, B)
  {
    && n <= A.row && |p| == n + 1 && |j| == |x| == p[n] && p[0] == 0
    && (forall i, k | 0 <= i <= k <= n :: p[i] <= p[k])
    && (forall i | 0 <= i < n :: RowMerged(op, A, B, i, j, x, p[i], p[i + 1]))
  }

  lemma RowsMergedNext(op: Op, A: Matrix, B: Matrix, p: seq<nat>, j: seq<nat>, x: seq<int>, n: nat, j': seq<nat>,
      x': seq<int>)
    requires SameShape(A, B) && n < A.row && RowsMerged(op, A, B, p, j, x, n)
    requires |j| <= |j'| == |x'| && j <= j' && x <= x'
    requires RowMerged(op, A, B, n, j', x', |j|, |j'|)
    ensures RowsMerged(op, A, B, p + [|j'|], j', x', n + 1)
  {
    var p' := p + [|j'|];
    forall i | 0 <= i < n + 1
      ensures RowMerged(op, A, B, i, j', x', p'[i], p'[i + 1])
    {
      if i < n {
        RowMergedStays(op, A, B, i, j, x, p[i], p[i + 1], j', x');
      }
    }
  }

  // ----- the scan for duplicates

  /** The value of end - 1 in unsigned arithmetic, by which the scan of a row is guarded. */
  function UnsignedPred(end: nat): nat {
    (end + UNSIGNED_RANGE - 1) % UNSIGNED_RANGE
  }

  ghost predicate Admits(k: nat, end: nat) {
    k < UnsignedPred(end)
  }

  ghost predicate IsPairStart(k: nat, end: nat) {
    k + 1 < end
  }

  ghost predicate AdmitsPairsOnly(start: nat, end: nat) {
    forall k: nat | start <= k && Admits(k, end) :: IsPairStart(k, end)
  }

  /** What the guard of row i admits are pairs of neighbours within the row. */
  ghost predicate StaysInside(p: seq<nat>, i: nat)
    requires i + 1 < |p|
  {
    AdmitsPairsOnly(p[i], p[i + 1])
  }

  ghost predicate EndsAtZero(p: seq<nat>, i: nat)
    requires i + 1 < |p|
  {
    p[i + 1] == 0
  }

  /** The guard keeps the scan inside the rows exactly when no row ends at 0. */
  lemma GuardStaysInside(p: seq<nat>, row: nat, n: nat)
    requires Pointers(p, row, n) && n < UNSIGNED_RANGE
    ensures (forall i | 0 <= i < row :: StaysInside(p, i)) <==> forall i | 0 <= i < row :: !EndsAtZero(p, i)
  {
    forall i | 0 <= i < row
      ensures StaysInside(p, i) <==> !EndsAtZero(p, i)
    {
      if EndsAtZero(p, i) {
        assert p[i] <= 0 && Admits(0, p[i + 1]) && !IsPairStart(0, p[i + 1]);
      }
    }
  }

  /** Two neighbours with the same column. */
  ghost predicate Repeats(j: seq<nat>, lo: nat, hi: nat)
    requires hi <= |j|
  {
    exists k :: lo <= k && k + 1 < hi && j[k] == j[k + 1]
  }

  /** What the scan finds, unless it reads beyond the last column index. */
  datatype Scan = Answer(found: bool) | PastTheEnd

  /** The scan of one row. */
  method ScanRow(j: seq<nat>, lo: nat, end: nat) returns (r: Scan)
    requires lo <= end <= |j| < UNSIGNED_RANGE
    ensures end > 0 ==> r == Answer(Repeats(j, lo, end))
    ensures end == 0 ==> r == if Repeats(j, 0, |j|) then Answer(true) else PastTheEnd
  {
    var k := lo;
    while k < UnsignedPred(end)
      invariant lo <= k <= |j| && (k == lo || k < |j|)
      invariant forall l | lo <= l < k && l + 1 < |j| :: j[l] != j[l + 1]
      decreases |j| - k
    {
      if k + 1 >= |j| {
        return PastTheEnd;
      }
      if j[k] == j[k + 1] {
        return Answer(true);
      }
      k := k + 1;
    }
    return Answer(false);
  }

  /**
   csr_has_duplicates.  When the first row ends at 0 the guard of its scan wraps around: all columns are
   scanned as one row, and without equal neighbours the scan leaves the array.  Otherwise no row does.
   */
  method HasDuplicates(p: seq<nat>, j: seq<nat>, row: nat) returns (r: Scan)
    requires Pointers(p, row, |j|) && |j| < UNSIGNED_RANGE
    ensures row > 0 && p[1] == 0 ==> r == if Repeats(j, 0, |j|) then Answer(true) else PastTheEnd
    ensures row == 0 || p[1] > 0 ==> r == Answer(exists i :: 0 <= i < row && Repeats(j, p[i], p[i + 1]))
  {
    for i := 0 to row
      invariant i > 0 ==> p[1] > 0
      invariant forall h | 0 <= h < i :: !Repeats(j, p[h], p[h + 1])
    {
      r := ScanRow(j, p[i], p[i + 1]);
      if r != Answer(false) {
        return;
      }
    }
    return Answer(false);
  }

  /** The result of the merge, entry by entry: the operation wherever one operand stores something, else zero. */
  ghost predicate IsMerge(op: Op, A: Matrix, B: Matrix, C: Matrix)
    requires SameShape(A, B)
  {
    && Canonical(C) && C.row == A.row && C.col == A.col
    && C.p[0] == 0 && StoresNoZero(C)
    && (forall i, c: nat | 0 <= i < A.row :: Entry(C, i, c) == if IsStored(A, i, c) || IsStored(B, i, c)
                                                               then op(Entry(A, i, c), Entry(B, i, c)) else 0)
  }

  /** At (i, c) something is stored and the operation does not give 0. */
  ghost predicate Counts(op: Op, A: Matrix, B: Matrix, i: nat, c: nat)
    requires SameShape(A, B) && i < A.row
  {
    (IsStored(A, i, c) || IsStored(B, i, c)) && op(Entry(A, i, c), Entry(B, i, c)) != 0
  }

  ghost predicate FirstRowCounts(op: Op, A: Matrix, B: Matrix)
    requires SameShape(A, B) && A.row > 0
  {
    exists c: nat :: Counts(op, A, B, 0, c)
  }

  /** The last column that counts in row i is the first that counts in row k, and none counts in between. */
  ghost predicate RowsMeet(op: Op, A: Matrix, B: Matrix, i: nat, k: nat, c: nat)
    requires SameShape(A, B)
  {
    && i < k < A.row && Counts(op, A, B, i, c) && Counts(op, A, B, k, c)
    && (forall d: nat | d > c :: !Counts(op, A, B, i, d))
    && (forall d: nat | d < c :: !Counts(op, A, B, k, d))
    && (forall r, d: nat | i < r < k :: !Counts(op, A, B, r, d))
  }

  /** When the final scan stays inside the array of columns. */
  ghost predicate ScanInside(op: Op, A: Matrix, B: Matrix)
    requires SameShape(A, B)
  {
    A.row == 0 || FirstRowCounts(op, A, B) || exists i: nat, k: nat, c: nat :: RowsMeet(op, A, B, i, k, c)
  }

  /**
   csr_binop_csr_canonical.  The result is merged before the final scan for duplicates, and that scan stays
   inside the array exactly when the first row counts or two rows meet in a column.
   */
  method Binop(op: Op, A: Matrix, B: Matrix) returns (C: Matrix, inside: bool)
    requires SameShape(A, B) && |A.j| + |B.j| < UNSIGNED_RANGE
    ensures IsMerge(op, A, B, C)
    ensures inside <==> ScanInside(op, A, B)
  {
    var p: seq<nat>, j: seq<nat>, x: seq<int> := [0], [], [];
    for i := 0 to A.row
      invariant RowsMerged(op, A, B, p, j, x, i) && |j| <= A.p[i] + B.p[i]
    {
      ghost var j0, x0 := j, x;
      j, x := MergeRow(op, RowView(A, i), RowView(B, i), j, x);
      MergedRow(op, A, B, i, j, x, |j0|);
      RowsMergedNext(op, A, B, p, j0, x0, i, j, x);
      p := p + [|j|];
    }
    C := Matrix(A.row, A.col, p, j, x);
    MergeComplete(op, A, B, C);
    FirstRowIsEmpty(op, A, B, C);
    RepeatsIffMeet(op, A, B, C);
    var duplicates := HasDuplicates(C.p, C.j, C.row);
    inside := duplicates.Answer?;
    if duplicates == Answer(true) {
      ghost var M := C;
      p, j, x := SumDuplicates(C.p, C.j, C.x, C.row, C.col);
      C := Matrix(A.row, A.col, p, j, x);
      NothingToSum(M, C);
    }
  }

  lemma FirstRowIsEmpty(op: Op, A: Matrix, B: Matrix, C: Matrix)
    requires SameShape(A, B) && IsMerge(op, A, B, C) && C.p[0] == 0
    ensures A.row > 0 ==> (C.p[1] > 0 <==> FirstRowCounts(op, A, B))
    ensures forall i | 0 <= i < C.row :: !Repeats(C.j, C.p[i], C.p[i + 1])
  {
    if A.row > 0 {
      if C.p[1] > 0 {
        SumAtStored(C.j, C.x, 0, C.p[1], 0);
        assert Entry(C, 0, C.j[0]) != 0;
        assert Counts(op, A, B, 0, C.j[0]);
      } else {
        forall c: nat
          ensures Entry(C, 0, c) == 0
        {
          SumAtNone(C.j, C.x, C.p[0], C.p[1], c);
        }
      }
    }
  }

  /** What counts is what the merge stores. */
  lemma CountsIffStored(op: Op, A: Matrix, B: Matrix, C: Matrix, i: nat, c: nat)
    requires SameShape(A, B) && IsMerge(op, A, B, C) && i < A.row
    ensures Counts(op, A, B, i, c) <==> IsStored(C, i, c)
  {
    assert Ascending(C.j, C.p[i], C.p[i + 1]);
    if Stores(C.j, C.p[i], C.p[i + 1], c) {
      var k :| C.p[i] <= k < C.p[i + 1] && C.j[k] == c;
      SumAtStored(C.j, C.x, C.p[i], C.p[i + 1], k);
    } else {
      SumAtNone(C.j, C.x, C.p[i], C.p[i + 1], c);
    }
    assert Entry(C, i, c) == SumAt(C.j, C.x, C.p[i], C.p[i + 1], c);
  }

  lemma {:induction false} EmptyRows(C: Matrix, lo: nat, hi: nat)
    requires WellFormed(C) && lo <= hi <= C.row
    ensures C.p[lo] <= C.p[hi]
    ensures C.p[lo] == C.p[hi] <==> forall r, d: nat | lo <= r < hi :: !IsStored(C, r, d)
    decreases hi - lo
  {
    if lo < hi {
      EmptyRows(C, lo + 1, hi);
      if C.p[lo] < C.p[lo + 1] {
        assert IsStored(C, lo, C.j[C.p[lo]]);
      }
    }
  }

  lemma MeetAt(op: Op, A: Matrix, B: Matrix, C: Matrix, i: nat, k: nat, a: nat, b: nat)
    requires SameShape(A, B) && IsMerge(op, A, B, C) && i < k < A.row
    requires C.p[i] <= a < C.p[i + 1] && C.p[k] <= b < C.p[k + 1] && C.j[a] == C.j[b]
    ensures RowsMeet(op, A, B, i, k, C.j[a]) <==> b == a + 1
  {
    var c := C.j[a];
    CountsIffStored(op, A, B, C, i, c);
    CountsIffStored(op, A, B, C, k, c);
    LastToCount(op, A, B, C, i, a);
    FirstToCount(op, A, B, C, k, b);
    NoneToCount(op, A, B, C, i + 1, k);
  }

  /** A stored column is the last to count in its row exactly when it is stored last. */
  lemma LastToCount(op: Op, A: Matrix, B: Matrix, C: Matrix, i: nat, a: nat)
    requires SameShape(A, B) && IsMerge(op, A, B, C) && i < A.row && C.p[i] <= a < C.p[i + 1]
    ensures (forall d: nat | d > C.j[a] :: !Counts(op, A, B, i, d)) <==> a + 1 == C.p[i + 1]
  {
    assert Ascending(C.j, C.p[i], C.p[i + 1]);
    if a + 1 < C.p[i + 1] {
      assert IsStored(C, i, C.j[a + 1]);
      CountsIffStored(op, A, B, C, i, C.j[a + 1]);
    } else {
      forall d: nat | d > C.j[a]
        ensures !Counts(op, A, B, i, d)
      {
        CountsIffStored(op, A, B, C, i, d);
      }
    }
  }

  lemma FirstToCount(op: Op, A: Matrix, B: Matrix, C: Matrix, k: nat, b: nat)
    requires SameShape(A, B) && IsMerge(op, A, B, C) && k < A.row && C.p[k] <= b < C.p[k + 1]
    ensures (forall d: nat | d < C.j[b] :: !Counts(op, A, B, k, d)) <==> b == C.p[k]
  {
    assert Ascending(C.j, C.p[k], C.p[k + 1]);
    if b > C.p[k] {
      assert IsStored(C, k, C.j[b - 1]);
      CountsIffStored(op, A, B, C, k, C.j[b - 1]);
    } else {
      forall d: nat | d < C.j[b]
        ensures !Counts(op, A, B, k, d)
      {
        CountsIffStored(op, A, B, C, k, d);
      }
    }
  }

  lemma NoneToCount(op: Op, A: Matrix, B: Matrix, C: Matrix, lo: nat, hi: nat)
    requires SameShape(A, B) && IsMerge(op, A, B, C) && lo <= hi <= A.row
    ensures C.p[lo] <= C.p[hi]
    ensures (forall r, d: nat | lo <= r < hi :: !Counts(op, A, B, r, d)) <==> C.p[lo] == C.p[hi]
  {
    forall r, d: nat | lo <= r < hi
      ensures Counts(op, A, B, r, d) <==> IsStored(C, r, d)
    {
      CountsIffStored(op, A, B, C, r, d);
    }
    EmptyRows(C, lo, hi);
  }

  /** Neighbours in the merged columns are equal exactly when two rows meet. */
  lemma RepeatsIffMeet(op: Op, A: Matrix, B: Matrix, C: Matrix)
    requires SameShape(A, B) && IsMerge(op, A, B, C)
    ensures Repeats(C.j, 0, |C.j|) <==> exists i: nat, k: nat, c: nat :: RowsMeet(op, A, B, i, k, c)
  {
    if Repeats(C.j, 0, |C.j|) {
      var a :| 0 <= a && a + 1 < |C.j| && C.j[a] == C.j[a + 1];
      var i := RowAt(C.p, C.row, a);
      var k := RowAt(C.p, C.row, a + 1);
      assert Ascending(C.j, C.p[i], C.p[i + 1]);
      MeetAt(op, A, B, C, i, k, a, a + 1);
    }
    if i: nat, k: nat, c: nat :| RowsMeet(op, A, B, i, k, c) {
      CountsIffStored(op, A, B, C, i, c);
      CountsIffStored(op, A, B, C, k, c);
      var a :| C.p[i] <= a < C.p[i + 1] && C.j[a] == c;
      var b :| C.p[k] <= b < C.p[k + 1] && C.j[b] == c;
      MeetAt(op, A, B, C, i, k, a, b);
    }
  }

  /** Two matrices with one row and nothing in it make the scan leave the array. */
  lemma EmptyRowLeaves(op: Op, A: Matrix)
    requires A == Matrix(1, 1, [0, 0], [], [])
    ensures SameShape(A, A) && !ScanInside(op, A, A)
  {
    assert forall c: nat :: !IsStored(A, 0, c);
  }

  /** csr_sum_duplicates leaves a matrix without duplicates alone. */
  lemma NothingToSum(M: Matrix, C: Matrix)
    requires Canonical(M) && StoresNoZero(M) && M.p[0] == 0 && C.row == M.row && C.col == M.col
    requires |C.j| == |C.x| && Pointers(C.p, C.row, |C.j|) && C.p[C.row] == |C.j| && C.p[0] == 0
    requires AllCompacted(M.p, M.j, M.x, C)
    ensures C == M
  {
    CompactedColumns(M.p, M.j, M.x, C);
    forall i, c: nat | 0 <= i < M.row
      ensures Entry(C, i, c) == Entry(M, i, c)
    {
      assert RowCompacted(M.p, M.j, M.x, C.p[i], C.p[i + 1], C.j, C.x, i);
    }
    forall k | 0 <= k < |C.x|
      ensures C.x[k] != 0
    {
      var r := RowAt(C.p, C.row, k);
      assert RowCompacted(M.p, M.j, M.x, C.p[r], C.p[r + 1], C.j, C.x, r);
      assert Ascending(C.j, C.p[r], C.p[r + 1]);
      SumAtSingle(C.j, C.x, C.p[r], k, C.p[r + 1]);
      assert Stores(C.j, C.p[r], C.p[r + 1], C.j[k]);
      var l :| M.p[r] <= l < M.p[r + 1] && M.j[l] == C.j[k];
      SumAtStored(M.j, M.x, M.p[r], M.p[r + 1], l);
    }
    CanonicalIsUnique(C, M);
  }

  lemma {:induction false} MergeComplete(op: Op, A: Matrix, B: Matrix, C: Matrix)
    requires SameShape(A, B) && C.row == A.row && C.col == A.col && RowsMerged(op, A, B, C.p, C.j, C.x, A.row)
    requires C.p[0] == 0
    ensures IsMerge(op, A, B, C)
  {
    forall k | 0 <= k < |C.j|
      ensures C.j[k] < C.col && C.x[k] != 0
    {
      var r := RowAt(C.p, C.row, k);
      assert RowMerged(op, A, B, r, C.j, C.x, C.p[r], C.p[r + 1]);
    }
    forall i | 0 <= i < C.row
      ensures Ascending(C.j, C.p[i], C.p[i + 1])
    {
      assert RowMerged(op, A, B, i, C.j, C.x, C.p[i], C.p[i + 1]);
    }
    forall i, c: nat | 0 <= i < A.row
      ensures Entry(C, i, c) == if IsStored(A, i, c) || IsStored(B, i, c) then op(Entry(A, i, c), Entry(B, i, c)) else 0
    {
      assert RowMerged(op, A, B, i, C.j, C.x, C.p[i], C.p[i + 1]);
    }
  }

  /** C is the dense matrix op(A, B). */
  ghost predicate IsPointwise(op: Op, A: Matrix, B: Matrix, C: Matrix)
    requires SameShape(A, B) && WellFormed(C) && C.row == A.row
  {
    forall i, c: nat | 0 <= i < A.row && c < A.col :: Entry(C, i, c) == op(Entry(A, i, c), Entry(B, i, c))
  }

  /** Every position is stored in one of the operands. */
  ghost predicate Covers(A: Matrix, B: Matrix)
    requires SameShape(A, B)
  {
    forall i, c: nat | 0 <= i < A.row && c < A.col :: IsStored(A, i, c) || IsStored(B, i, c)
  }

  /**
   The merge computes the operation on the dense matrices exactly when it maps (0, 0) to 0 or no entry is
   implicit.
   */
  lemma PointwiseIff(op: Op, A: Matrix, B: Matrix, C: Matrix)
    requires SameShape(A, B) && IsMerge(op, A, B, C)
    ensures IsPointwise(op, A, B, C) <==> op(0, 0) == 0 || Covers(A, B)
  {
    forall i, c: nat | 0 <= i < A.row && c < A.col && !IsStored(A, i, c) && !IsStored(B, i, c)
      ensures Entry(C, i, c) == 0 && Entry(A, i, c) == 0 && Entry(B, i, c) == 0
    {
      SumAtNone(A.j, A.x, A.p[i], A.p[i + 1], c);
      SumAtNone(B.j, B.x, B.p[i], B.p[i + 1], c);
    }
    if IsPointwise(op, A, B, C) && !Covers(A, B) {
      var i, c: nat :| 0 <= i < A.row && c < A.col && !IsStored(A, i, c) && !IsStored(B, i, c);
      assert Entry(C, i, c) == op(Entry(A, i, c), Entry(B, i, c));
    }
  }
}
