/** The two passes of the sparse product in src/sparse_matrix.cpp. */
module CsrProduct {
  import opened Csr

  /** The columns are linked by numbers of type int. */
  const INT_RANGE := 0x8000_0000

  // ----- which columns a row of the product touches

  ghost function Columns(j: seq<nat>, lo: nat, hi: nat): set<nat>
    requires hi <= |j|
  {
    set k | lo <= k < hi :: j[k]
  }

  lemma ColumnsStep(j: seq<nat>, lo: nat, hi: nat)
    requires lo <= hi < |j|
    ensures Columns(j, lo, hi + 1) == Columns(j, lo, hi) + {j[hi]}
  {
  }

  /** A and B can be multiplied, and the scratch arrays of length A.col can hold the columns stored in B. */
  ghost predicate Compatible(A: Matrix, B: Matrix) {
    && WellFormed(A) && WellFormed(B) && A.col == B.row && A.col < UNSIGNED_RANGE
    && forall k | 0 <= k < B.p[B.row] :: B.j[k] < A.col
  }

  /** Some stored entry lo, ..., hi - 1 of A meets column c in its row of B. */
  ghost predicate Touches(A: Matrix, B: Matrix, lo: nat, hi: nat, c: nat)
    requires Compatible(A, B) && hi <= |A.j|
  {
    exists k :: lo <= k < hi && c in Columns(B.j, B.p[A.j[k]], B.p[A.j[k] + 1])
  }

  /** The columns touched by the stored entries of A at positions lo, ..., hi - 1. */
  ghost function Touched(A: Matrix, B: Matrix, lo: nat, hi: nat): set<nat>
    requires Compatible(A, B) && hi <= |A.j|
  {
    set c: nat | c < A.col && Touches(A, B, lo, hi, c)
  }

  ghost function RowTouched(A: Matrix, B: Matrix, i: nat): set<nat>
    requires Compatible(A, B) && i < A.row
  {
    Touched(A, B, A.p[i], A.p[i + 1])
  }

  ghost function RowCounts(A: Matrix, B: Matrix): (s: seq<nat>)
    requires Compatible(A, B)
    ensures |s| == A.row && forall i | 0 <= i < A.row :: s[i] == |RowTouched(A, B, i)|
  {
    seq(A.row, i requires 0 <= i < A.row => |RowTouched(A, B, i)|)
  }

  ghost function PrefixSum(s: seq<nat>, i: nat): nat
    requires i <= |s|
  {
    if i == 0 then 0 else PrefixSum(s, i - 1) + s[i - 1]
  }

  lemma {:induction false} PrefixSumMonotone(s: seq<nat>, i: nat, k: nat)
    requires i <= k <= |s|
    ensures PrefixSum(s, i) <= PrefixSum(s, k)
    decreases k
  {
    if i < k {
      PrefixSumMonotone(s, i, k - 1);
    }
  }

  /** How many entries the first i rows of the product touch. */
  ghost function TotalTouched(A: Matrix, B: Matrix, i: nat): nat
    requires Compatible(A, B) && i <= A.row
  {
    PrefixSum(RowCounts(A, B), i)
  }

  lemma TotalStep(A: Matrix, B: Matrix, i: nat)
    requires Compatible(A, B) && i < A.row
    ensures TotalTouched(A, B, i + 1) == TotalTouched(A, B, i) + |RowTouched(A, B, i)|
  {
    assert RowCounts(A, B)[i] == |RowTouched(A, B, i)|;
  }

  lemma TotalMonotone(A: Matrix, B: Matrix, i: nat, k: nat)
    requires Compatible(A, B) && i <= k <= A.row
    ensures TotalTouched(A, B, i) <= TotalTouched(A, B, k)
  {
    PrefixSumMonotone(RowCounts(A, B), i, k);
  }

  lemma TouchedBound(A: Matrix, B: Matrix, lo: nat, hi: nat)
    requires Compatible(A, B) && hi <= |A.j|
    ensures forall c | c in Touched(A, B, lo, hi) :: c < A.col && c < B.col
    ensures |Touched(A, B, lo, hi)| <= A.col
  {
    TouchedBelow(A, B, lo, hi);
    BelowCardinality(Touched(A, B, lo, hi), A.col);
  }

  lemma TouchedBelow(A: Matrix, B: Matrix, lo: nat, hi: nat)
    requires Compatible(A, B) && hi <= |A.j|
    ensures forall c | c in Touched(A, B, lo, hi) :: c < A.col && c < B.col
  {
    forall c | c in Touched(A, B, lo, hi)
      ensures c < B.col
    {
      var k :| lo <= k < hi && c in Columns(B.j, B.p[A.j[k]], B.p[A.j[k] + 1]);
      var j := A.j[k];
      ColumnsBelow(A, B, j, Columns(B.j, B.p[j], B.p[j + 1]));
    }
  }

  lemma ColumnsBelow(A: Matrix, B: Matrix, j: nat, s: set<nat>)
    requires Compatible(A, B) && j < B.row && s == Columns(B.j, B.p[j], B.p[j + 1])
    ensures forall c | c in s :: c < A.col && c < B.col
  {
  }

  lemma {:induction false} BelowCardinality(s: set<nat>, n: nat)
    requires forall c | c in s :: c < n
    ensures |s| <= n
  {
    if n == 0 {
      assert s == {};
    } else {
      BelowCardinality(s - {n - 1}, n - 1);
    }
  }

  // ----- pass 1

  /** mask[c] is i exactly for the columns seen in row i so far. */
  ghost predicate MaskOk(mask: seq<int>, i: nat, seen: set<nat>) {
    && (forall c | c in seen :: c < |mask|)
    && (forall c | 0 <= c < |mask| :: mask[c] <= i && (mask[c] == i <==> c in seen))
  }

  /** The inner loop: marks the columns of positions lo, ..., hi - 1 of B. */
  method MarkColumns(Bj: seq<nat>, lo: nat, hi: nat, i: nat, mask0: seq<int>, count0: nat, ghost seen: set<nat>)
    returns (mask: seq<int>, count: nat)
    requires lo <= hi <= |Bj| && MaskOk(mask0, i, seen) && count0 == |seen|
    requires forall k | lo <= k < hi :: Bj[k] < |mask0|
    ensures |mask| == |mask0| && MaskOk(mask, i, seen + Columns(Bj, lo, hi))
    ensures count == |seen + Columns(Bj, lo, hi)|
  {
    mask, count := mask0, count0;
    ghost var now := seen;
    assert seen + Columns(Bj, lo, lo) == seen;
    for kk := lo to hi
      invariant now == seen + Columns(Bj, lo, kk)
      invariant |mask| == |mask0| && MaskOk(mask, i, now) && count == |now|
    {
      var k := Bj[kk];
      ColumnsStep(Bj, lo, kk);
      MarkOne(mask, i, now, k);
      if mask[k] != i {
        mask := mask[k := i];
        count := count + 1;
      }
      now := now + {k};
    }
  }

  /** Marking one more column. */
  lemma MarkOne(mask: seq<int>, i: nat, seen: set<nat>, k: nat)
    requires MaskOk(mask, i, seen) && k < |mask|
    ensures MaskOk(mask[k := i], i, seen + {k})
    ensures mask[k] == i ==> mask[k := i] == mask && seen + {k} == seen
    ensures mask[k] != i ==> |seen + {k}| == |seen| + 1
  {
  }

  lemma TouchedStep(A: Matrix, B: Matrix, lo: nat, hi: nat)
    requires Compatible(A, B) && lo <= hi < |A.j|
    ensures Touched(A, B, lo, hi + 1) == Touched(A, B, lo, hi) + Columns(B.j, B.p[A.j[hi]], B.p[A.j[hi] + 1])
  {
    var j := A.j[hi];
    ColumnsBelow(A, B, j, Columns(B.j, B.p[j], B.p[j + 1]));
    forall c: nat
      ensures Touches(A, B, lo, hi + 1, c) <==> Touches(A, B, lo, hi, c) || c in Columns(B.j, B.p[j], B.p[j + 1])
    {
      if Touches(A, B, lo, hi + 1, c) {
        var k :| lo <= k < hi + 1 && c in Columns(B.j, B.p[A.j[k]], B.p[A.j[k] + 1]);
        assert k == hi || Touches(A, B, lo, hi, c);
      }
    }
  }

  method CountRow(A: Matrix, B: Matrix, i: nat, mask0: seq<int>) returns (mask: seq<int>, rowNnz: nat)
    requires Compatible(A, B) && i < A.row && |mask0| == A.col && MaskOk(mask0, i, {})
    ensures |mask| == A.col && MaskOk(mask, i, RowTouched(A, B, i))
    ensures rowNnz == |RowTouched(A, B, i)|
  {
    RowBounds(A, i);
    mask, rowNnz := CountEntries(A, B, i, A.p[i], A.p[i + 1], mask0);
  }

  /** The stored entries lo, ..., hi - 1 of A. */
  method CountEntries(A: Matrix, B: Matrix, i: nat, lo: nat, hi: nat, mask0: seq<int>)
      returns (mask: seq<int>, count: nat)
    requires Compatible(A, B) && lo <= hi <= |A.j| && |mask0| == A.col && MaskOk(mask0, i, {})
    ensures |mask| == A.col && MaskOk(mask, i, Touched(A, B, lo, hi)) && count == |Touched(A, B, lo, hi)|
  {
    mask, count := mask0, 0;
    for jj := lo to hi
      invariant Counting(A, B, i, lo, jj, mask, count)
    {
      mask, count := CountEntry(A, B, i, lo, jj, mask, count);
    }
  }

  /** The columns met by the entries lo, ..., jj - 1 of A are marked and counted. */
  ghost predicate Counting(A: Matrix, B: Matrix, i: nat, lo: nat, jj: nat, mask: seq<int>, count: nat)
    requires Compatible(A, B) && jj <= |A.j|
  {
    |mask| == A.col && MaskOk(mask, i, Touched(A, B, lo, jj)) && count == |Touched(A, B, lo, jj)|
  }

  lemma RowBounds(A: Matrix, i: nat)
    requires WellFormed(A) && i < A.row
    ensures A.p[i] <= A.p[i + 1] <= |A.j|
  {
  }

  /** One stored entry of A: the columns of the row of B it meets. */
  method CountEntry(A: Matrix, B: Matrix, i: nat, ghost lo: nat, jj: nat, mask0: seq<int>, count0: nat)
    returns (mask: seq<int>, count: nat)
    requires Compatible(A, B) && lo <= jj < |A.j| && Counting(A, B, i, lo, jj, mask0, count0)
    ensures Counting(A, B, i, lo, jj + 1, mask, count)
  {
    var j := A.j[jj];
    TouchedStep(A, B, lo, jj);
    RowBounds(B, j);
    mask, count := MarkColumns(B.j, B.p[j], B.p[j + 1], i, mask0, count0, Touched(A, B, lo, jj));
  }

  /** The row pointers of a matrix that stores every touched entry. */
  ghost function RowPointers(A: Matrix, B: Matrix, n: nat): (p: seq<nat>)
    requires Compatible(A, B) && n <= A.row
    ensures |p| == n + 1 && forall i | 0 <= i <= n :: p[i] == TotalTouched(A, B, i)
  {
    seq(n + 1, i requires 0 <= i <= n => TotalTouched(A, B, i))
  }

  lemma RowPointersStep(A: Matrix, B: Matrix, n: nat)
    requires Compatible(A, B) && n < A.row
    ensures RowPointers(A, B, n + 1) == RowPointers(A, B, n) + [TotalTouched(A, B, n + 1)]
  {
  }

  lemma NextMask(mask: seq<int>, i: nat, seen: set<nat>)
    requires MaskOk(mask, i, seen)
    ensures MaskOk(mask, i + 1, {})
  {
  }

  datatype Outcome = Counted(p: seq<nat>) | OverflowError(message: string)

  /** csr_matmat_pass1: the row pointers count the touched entries, unless the count does not fit an unsigned. */
  method Pass1(A: Matrix, B: Matrix) returns (r: Outcome)
    requires Compatible(A, B)
    ensures r.OverflowError? <==> TotalTouched(A, B, A.row) >= UNSIGNED_RANGE
    ensures r.Counted? ==> r.p == RowPointers(A, B, A.row)
  {
    var mask: seq<int> := seq(A.col, _ => -1);
    var p: seq<nat> := [0];
    var nnz: nat := 0;
    for i := 0 to A.row
      invariant |mask| == A.col
      invariant MaskOk(mask, i, {})
      invariant nnz == TotalTouched(A, B, i) < UNSIGNED_RANGE
      invariant p == RowPointers(A, B, i)
    {
      var rowNnz;
      mask, rowNnz := CountRow(A, B, i, mask);
      NextMask(mask, i, RowTouched(A, B, i));
      TouchedBound(A, B, A.p[i], A.p[i + 1]);
      TotalStep(A, B, i);
      RowPointersStep(A, B, i);
      var nextNnz: nat := (nnz + rowNnz) % UNSIGNED_RANGE;
      WrapAround(nnz, rowNnz);
      if nextNnz < nnz {
        TotalMonotone(A, B, i + 1, A.row);
        return OverflowError("nnz of the result is too large");
      }
      nnz := nextNnz;
      p := p + [nnz];
    }
    r := Counted(p);
  }

  /** An unsigned sum has wrapped around exactly when it is smaller than its summand. */
  lemma WrapAround(a: nat, b: nat)
    requires a < UNSIGNED_RANGE && b < UNSIGNED_RANGE
    ensures (a + b) % UNSIGNED_RANGE < a <==> a + b >= UNSIGNED_RANGE
    ensures (a + b) % UNSIGNED_RANGE >= a ==> (a + b) % UNSIGNED_RANGE == a + b
  {
  }

  // ----- what the product is

  /** The contribution of the stored entries lo, ..., hi - 1 of A to column c of the product row. */
  ghost function Partial(A: Matrix, B: Matrix, lo: nat, hi: nat, c: nat): int
    requires Compatible(A, B) && hi <= |A.j|
  {
    if hi <= lo then 0 else Partial(A, B, lo, hi - 1, c) + A.x[hi - 1] * Entry(B, A.j[hi - 1], c)
  }

  /** Row i of the dense A times the first m rows of column c of the dense B. */
  ghost function DenseProduct(A: Matrix, B: Matrix, lo: nat, hi: nat, c: nat, m: nat): int
    requires Compatible(A, B) && hi <= |A.j| && m <= A.col
  {
    if m == 0 then 0 else DenseProduct(A, B, lo, hi, c, m - 1) + SumAt(A.j, A.x, lo, hi, m - 1) * Entry(B, m - 1, c)
  }

  /** Summing over the stored entries is summing over the columns of A. */
  lemma {:induction false} PartialIsProduct(A: Matrix, B: Matrix, lo: nat, hi: nat, c: nat)
    requires Compatible(A, B) && hi <= |A.j|
    ensures Partial(A, B, lo, hi, c) == DenseProduct(A, B, lo, hi, c, A.col)
    decreases hi
  {
    if hi <= lo {
      EmptyProduct(A, B, lo, hi, c, A.col);
    } else {
      PartialIsProduct(A, B, lo, hi - 1, c);
      ProductStep(A, B, lo, hi, c, A.col);
    }
  }

  lemma {:induction false} EmptyProduct(A: Matrix, B: Matrix, lo: nat, hi: nat, c: nat, m: nat)
    requires Compatible(A, B) && hi <= |A.j| && m <= A.col && hi <= lo
    ensures DenseProduct(A, B, lo, hi, c, m) == 0
  {
    if m > 0 {
      EmptyProduct(A, B, lo, hi, c, m - 1);
      assert 0 * Entry(B, m - 1, c) == 0;
    }
  }

  lemma {:induction false} ProductStep(A: Matrix, B: Matrix, lo: nat, hi: nat, c: nat, m: nat)
    requires Compatible(A, B) && lo < hi <= |A.j| && m <= A.col
    ensures DenseProduct(A, B, lo, hi, c, m)
         == DenseProduct(A, B, lo, hi - 1, c, m) + if A.j[hi - 1] < m then A.x[hi - 1] * Entry(B, A.j[hi - 1], c) else 0
    decreases m
  {
    if m > 0 {
      ProductStep(A, B, lo, hi, c, m - 1);
      Distribute(SumAt(A.j, A.x, lo, hi - 1, m - 1), A.x[hi - 1], Entry(B, m - 1, c));
    }
  }

  lemma Distribute(s: int, x: int, e: int)
    ensures (s + x) * e == s * e + x * e
    ensures (s + 0) * e == s * e
  {
  }

  // ----- the linked list of touched columns

  ghost predicate DistinctColumns(chain: seq<nat>) {
    forall s, t | 0 <= s < t < |chain| :: chain[s] != chain[t]
  }

  /** What follows the t-th column of the chain. */
  ghost function After(chain: seq<nat>, t: nat): int
    requires t < |chain|
  {
    if t + 1 < |chain| then chain[t + 1] else -2
  }

  /** Starting from head, next leads through the columns of chain in order and ends in -2; all others are -1. */
  ghost predicate Chained(next: seq<int>, head: int, chain: seq<nat>) {
    && DistinctColumns(chain)
    && (forall t | 0 <= t < |chain| :: chain[t] < |next|)
    && head == (if chain == [] then -2 else chain[0])
    && (forall t {:trigger After(chain, t)} | 0 <= t < |chain| :: next[chain[t]] == After(chain, t))
    && (forall c: nat | c < |next| && c !in chain :: next[c] == -1)
  }

  lemma ChainedMember(next: seq<int>, head: int, chain: seq<nat>, c: nat)
    requires Chained(next, head, chain) && c < |next|
    ensures next[c] == -1 <==> c !in chain
  {
    if c in chain {
      var t :| 0 <= t < |chain| && chain[t] == c;
      assert After(chain, t) != -1;
    }
  }

  lemma ChainPush(next: seq<int>, head: int, chain: seq<nat>, k: nat)
    requires Chained(next, head, chain) && k < |next| && k !in chain
    ensures Chained(next[k := head], k, [k] + chain)
  {
    var chain' := [k] + chain;
    forall t | 0 <= t < |chain'|
      ensures next[k := head][chain'[t]] == After(chain', t)
    {
      if t > 0 {
        assert chain'[t] == chain[t - 1] && chain[t - 1] in chain;
        assert After(chain', t) == After(chain, t - 1);
      }
    }
  }

  lemma ChainPop(next: seq<int>, head: int, chain: seq<nat>)
    requires Chained(next, head, chain) && chain != []
    ensures 0 <= head < |next| && head == chain[0]
    ensures Chained(next[head := -1], next[head], chain[1..])
  {
    var rest := chain[1..];
    forall t | 0 <= t < |rest|
      ensures next[head := -1][rest[t]] == After(rest, t)
    {
      assert rest[t] == chain[t + 1] && chain[t + 1] != head;
      assert After(rest, t) == After(chain, t + 1);
    }
    assert next[chain[0]] == After(chain, 0);
    forall c: nat | c < |next| && c !in rest
      ensures next[head := -1][c] == -1
    {
      if c != head {
        assert c !in chain;
      }
    }
  }

  ghost function Members(chain: seq<nat>): set<nat> {
    set c | c in chain
  }

  lemma {:induction false} MembersCount(chain: seq<nat>)
    requires DistinctColumns(chain)
    ensures |Members(chain)| == |chain|
  {
    if chain != [] {
      MembersCount(chain[1..]);
      assert Members(chain) == Members(chain[1..]) + {chain[0]};
      assert chain[0] !in chain[1..];
    }
  }

  /** The chain after the columns of positions lo, ..., hi - 1: a column met for the first time goes to the front. */
  ghost function Linked(chain: seq<nat>, j: seq<nat>, lo: nat, hi: nat): seq<nat>
    requires hi <= |j|
  {
    if hi <= lo then chain
    else
      var c := Linked(chain, j, lo, hi - 1);
      if j[hi - 1] in c then c else [j[hi - 1]] + c
  }

  /** The columns that the stored entries lo, ..., hi - 1 of A touch, the one met first last. */
  ghost function LinkedColumns(A: Matrix, B: Matrix, lo: nat, hi: nat): seq<nat>
    requires Compatible(A, B) && hi <= |A.j|
  {
    if hi <= lo then []
    else
      var j := A.j[hi - 1];
      Linked(LinkedColumns(A, B, lo, hi - 1), B.j, B.p[j], B.p[j + 1])
  }

  lemma {:induction false} LinkedBehind(chain: seq<nat>, j: seq<nat>, lo: nat, hi: nat) returns (front: seq<nat>)
    requires hi <= |j|
    ensures Linked(chain, j, lo, hi) == front + chain
  {
    if hi <= lo {
      front := [];
    } else {
      var rest := LinkedBehind(chain, j, lo, hi - 1);
      if j[hi - 1] in rest + chain {
        front := rest;
      } else {
        front := [j[hi - 1]] + rest;
        assert [j[hi - 1]] + (rest + chain) == front + chain;
      }
    }
  }

  /** What was met earlier stands behind what was met later, in the same order as before. */
  lemma {:induction false} EarlierStandsBehind(A: Matrix, B: Matrix, lo: nat, m: nat, hi: nat)
    returns (front: seq<nat>)
    requires Compatible(A, B) && lo <= m <= hi <= |A.j|
    ensures LinkedColumns(A, B, lo, hi) == front + LinkedColumns(A, B, lo, m)
    decreases hi
  {
    if m == hi {
      front := [];
    } else {
      var rest := EarlierStandsBehind(A, B, lo, m, hi - 1);
      var j := A.j[hi - 1];
      var latest := LinkedBehind(LinkedColumns(A, B, lo, hi - 1), B.j, B.p[j], B.p[j + 1]);
      front := latest + rest;
    }
  }

  /** The columns of the chain whose entry in row i of the product is not 0. */
  ghost function Surviving(A: Matrix, B: Matrix, i: nat, chain: seq<nat>): seq<nat>
    requires Compatible(A, B) && i < A.row
  {
    if chain == [] then []
    else
      var n := |chain| - 1;
      Surviving(A, B, i, chain[..n])
        + if Partial(A, B, A.p[i], A.p[i + 1], chain[n]) != 0 then [chain[n]] else []
  }

  /** The columns of row i of the product in the order in which they are stored. */
  ghost function StoredColumns(A: Matrix, B: Matrix, i: nat): seq<nat>
    requires Compatible(A, B) && i < A.row
  {
    Surviving(A, B, i, LinkedColumns(A, B, A.p[i], A.p[i + 1]))
  }

  // ----- pass 2: accumulating a row

  /** v times the sum for column c, one stored value at a time. */
  ghost function ScaledSum(v: int, j: seq<nat>, x: seq<int>, lo: nat, hi: nat, c: nat): int
    requires hi <= |j| == |x|
  {
    if hi <= lo then 0 else ScaledSum(v, j, x, lo, hi - 1, c) + if j[hi - 1] == c then v * x[hi - 1] else 0
  }

  lemma {:induction false} ScaledSumIs(v: int, j: seq<nat>, x: seq<int>, lo: nat, hi: nat, c: nat)
    requires hi <= |j| == |x|
    ensures ScaledSum(v, j, x, lo, hi, c) == v * SumAt(j, x, lo, hi, c)
  {
    if hi <= lo {
      assert v * 0 == 0;
    } else {
      ScaledSumIs(v, j, x, lo, hi - 1, c);
      Distribute(SumAt(j, x, lo, hi - 1, c), x[hi - 1], v);
    }
  }

  /** Adds v times row lo, ..., hi - 1 of B to the sums and links the columns met for the first time. */
  method AccumulateRow(Bj: seq<nat>, Bx: seq<int>, lo: nat, hi: nat, v: int, next0: seq<int>, sums0: seq<int>,
      head0: int, length0: nat, ghost chain0: seq<nat>)
    returns (next: seq<int>, sums: seq<int>, head: int, length: nat, ghost chain: seq<nat>)
    requires lo <= hi <= |Bj| == |Bx| && |next0| == |sums0|
    requires forall k | lo <= k < hi :: Bj[k] < |next0|
    requires Chained(next0, head0, chain0) && length0 == |chain0|
    ensures |next| == |sums| == |next0|
    ensures Chained(next, head, chain) && length == |chain|
    ensures Members(chain) == Members(chain0) + Columns(Bj, lo, hi) && chain == Linked(chain0, Bj, lo, hi)
    ensures forall c: nat | c < |sums| :: sums[c] == sums0[c] + ScaledSum(v, Bj, Bx, lo, hi, c)
  {
    next, sums, head, length, chain := next0, sums0, head0, length0, chain0;
    for kk := lo to hi
      invariant |next| == |sums| == |next0|
      invariant Chained(next, head, chain) && length == |chain|
      invariant Members(chain) == Members(chain0) + Columns(Bj, lo, kk) && chain == Linked(chain0, Bj, lo, kk)
      invariant forall c: nat | c < |sums| :: sums[c] == sums0[c] + ScaledSum(v, Bj, Bx, lo, kk, c)
    {
      var k := Bj[kk];
      ColumnsStep(Bj, lo, kk);
      sums := sums[k := sums[k] + v * Bx[kk]];
      ChainedMember(next, head, chain, k);
      if next[k] == -1 {
        ChainPush(next, head, chain, k);
        assert Members([k] + chain) == Members(chain) + {k};
        next := next[k := head];
        head := k;
        length := length + 1;
        chain := [k] + chain;
      }
    }
  }

  lemma {:induction false} UntouchedIsZero(A: Matrix, B: Matrix, lo: nat, hi: nat, c: nat)
    requires Compatible(A, B) && hi <= |A.j| && c !in Touched(A, B, lo, hi)
    ensures Partial(A, B, lo, hi, c) == 0
  {
    if lo < hi {
      UntouchedIsZero(A, B, lo, hi - 1, c);
      var j := A.j[hi - 1];
      assert forall k | B.p[j] <= k < B.p[j + 1] :: B.j[k] in Columns(B.j, B.p[j], B.p[j + 1]);
      SumAtNone(B.j, B.x, B.p[j], B.p[j + 1], c);
      assert A.x[hi - 1] * 0 == 0;
    }
  }

  /** The scratch arrays hold the sums of one row, and nothing outside the columns in the chain. */
  ghost predicate Accumulated(A: Matrix, B: Matrix, i: nat, sums: seq<int>, chain: seq<nat>)
    requires Compatible(A, B) && i < A.row
  {
    forall c: nat | c < |sums| :: sums[c] == if c in chain then Partial(A, B, A.p[i], A.p[i + 1], c) else 0
  }

  ghost predicate Clean(s: seq<int>, value: int) {
    forall c | 0 <= c < |s| :: s[c] == value
  }

  /** After the stored entries lo, ..., jj - 1 of the row. */
  ghost predicate Scanned(A: Matrix, B: Matrix, lo: nat, jj: nat, sums: seq<int>, chain: seq<nat>)
    requires Compatible(A, B) && jj <= |A.j|
  {
    && Members(chain) == Touched(A, B, lo, jj) && chain == LinkedColumns(A, B, lo, jj)
    && forall c: nat | c < |sums| :: sums[c] == Partial(A, B, lo, jj, c)
  }

  lemma ScannedNext(A: Matrix, B: Matrix, lo: nat, jj: nat, sums0: seq<int>, chain0: seq<nat>, sums: seq<int>,
      chain: seq<nat>)
    requires Compatible(A, B) && lo <= jj < |A.j| && Scanned(A, B, lo, jj, sums0, chain0) && |sums| == |sums0|
    requires var j := A.j[jj];
      && Members(chain) == Members(chain0) + Columns(B.j, B.p[j], B.p[j + 1])
      && chain == Linked(chain0, B.j, B.p[j], B.p[j + 1])
      && forall c: nat | c < |sums| :: sums[c] == sums0[c] + ScaledSum(A.x[jj], B.j, B.x, B.p[j], B.p[j + 1], c)
    ensures Scanned(A, B, lo, jj + 1, sums, chain)
  {
    PartialStep(A, B, lo, jj);
  }

  lemma PartialStep(A: Matrix, B: Matrix, lo: nat, jj: nat)
    requires Compatible(A, B) && lo <= jj < |A.j|
    ensures var j := A.j[jj];
      forall c: nat ::
        Partial(A, B, lo, jj + 1, c)
        == Partial(A, B, lo, jj, c) + ScaledSum(A.x[jj], B.j, B.x, B.p[j], B.p[j + 1], c)
  {
    var j := A.j[jj];
    forall c: nat
      ensures Partial(A, B, lo, jj + 1, c)
        == Partial(A, B, lo, jj, c) + ScaledSum(A.x[jj], B.j, B.x, B.p[j], B.p[j + 1], c)
    {
      ScaledSumIs(A.x[jj], B.j, B.x, B.p[j], B.p[j + 1], c);
    }
  }

  method ScanRow(A: Matrix, B: Matrix, i: nat, next0: seq<int>, sums0: seq<int>)
    returns (next: seq<int>, sums: seq<int>, head: int, length: nat, ghost chain: seq<nat>)
    requires Compatible(A, B) && i < A.row && |next0| == |sums0| == A.col
    requires Clean(next0, -1) && Clean(sums0, 0)
    ensures |next| == |sums| == A.col
    ensures Chained(next, head, chain) && length == |chain|
    ensures Members(chain) == RowTouched(A, B, i) && chain == LinkedColumns(A, B, A.p[i], A.p[i + 1])
    ensures Accumulated(A, B, i, sums, chain)
  {
    next, sums, head, length, chain := next0, sums0, -2, 0, [];
    ghost var lo := A.p[i];
    for jj := A.p[i] to A.p[i + 1]
      invariant |next| == |sums| == A.col
      invariant Chained(next, head, chain) && length == |chain|
      invariant Scanned(A, B, lo, jj, sums, chain)
    {
      var j := A.j[jj];
      ghost var sums1, chain1 := sums, chain;
      next, sums, head, length, chain :=
        AccumulateRow(B.j, B.x, B.p[j], B.p[j + 1], A.x[jj], next, sums, head, length, chain);
      ScannedNext(A, B, lo, jj, sums1, chain1, sums, chain);
    }
    SumsAreAccumulated(A, B, i, sums, chain);
  }

  lemma SumsAreAccumulated(A: Matrix, B: Matrix, i: nat, sums: seq<int>, chain: seq<nat>)
    requires Compatible(A, B) && i < A.row && Members(chain) == RowTouched(A, B, i)
    requires forall c: nat | c < |sums| :: sums[c] == Partial(A, B, A.p[i], A.p[i + 1], c)
    ensures Accumulated(A, B, i, sums, chain)
  {
    forall c: nat | c < |sums| && c !in chain
      ensures sums[c] == 0
    {
      assert c !in Members(chain);
      UntouchedIsZero(A, B, A.p[i], A.p[i + 1], c);
    }
  }

  // ----- pass 2: writing a row

  /** Positions lo, ..., hi - 1 hold the given columns whose sum is not zero, in this order, with their sums. */
  ghost predicate RowWritten(A: Matrix, B: Matrix, i: nat, j: seq<nat>, x: seq<int>, lo: nat, hi: nat, done: seq<nat>)
    requires Compatible(A, B) && i < A.row
  {
    && lo <= hi <= |j| == |x| && j[lo..hi] == Surviving(A, B, i, done)
    && forall k | lo <= k < hi :: x[k] == Partial(A, B, A.p[i], A.p[i + 1], j[k])
  }

  lemma SurvivingNext(A: Matrix, B: Matrix, i: nat, done: seq<nat>, c: nat)
    requires Compatible(A, B) && i < A.row
    ensures Surviving(A, B, i, done + [c])
         == Surviving(A, B, i, done) + if Partial(A, B, A.p[i], A.p[i + 1], c) != 0 then [c] else []
  {
    assert (done + [c])[..|done|] == done;
  }

  lemma {:induction false} SurvivingMembers(A: Matrix, B: Matrix, i: nat, chain: seq<nat>, c: nat)
    requires Compatible(A, B) && i < A.row
    ensures c in Surviving(A, B, i, chain) <==> c in chain && Partial(A, B, A.p[i], A.p[i + 1], c) != 0
  {
    if chain != [] {
      var n := |chain| - 1;
      SurvivingMembers(A, B, i, chain[..n], c);
      assert chain == chain[..n] + [chain[n]];
    }
  }

  lemma {:induction false} SurvivingDistinct(A: Matrix, B: Matrix, i: nat, chain: seq<nat>)
    requires Compatible(A, B) && i < A.row && DistinctColumns(chain)
    ensures DistinctColumns(Surviving(A, B, i, chain))
  {
    if chain != [] {
      var n := |chain| - 1;
      SurvivingDistinct(A, B, i, chain[..n]);
      SurvivingMembers(A, B, i, chain[..n], chain[n]);
    }
  }

  lemma WrittenSlice(j: seq<nat>, lo: nat, hi: nat, c: nat)
    requires lo <= hi < |j|
    ensures j[hi := c][lo..hi + 1] == j[lo..hi] + [c]
  {
  }

  lemma WriteOne(A: Matrix, B: Matrix, i: nat, j: seq<nat>, x: seq<int>, lo: nat, hi: nat, done: seq<nat>, c: nat,
      s: int)
    requires Compatible(A, B) && i < A.row && RowWritten(A, B, i, j, x, lo, hi, done)
    requires s == Partial(A, B, A.p[i], A.p[i + 1], c)
    ensures s == 0 ==> RowWritten(A, B, i, j, x, lo, hi, done + [c])
    ensures s != 0 && hi < |j| ==> RowWritten(A, B, i, j[hi := c], x[hi := s], lo, hi + 1, done + [c])
  {
    SurvivingNext(A, B, i, done, c);
    if s != 0 && hi < |j| {
      WrittenSlice(j, lo, hi, c);
    }
  }

  /** The state of the writing loop after the first n columns of the chain. */
  ghost predicate Emitting(A: Matrix, B: Matrix, i: nat, chain: seq<nat>, n: nat, next: seq<int>, sums: seq<int>,
      head: int, j0: seq<nat>, x0: seq<int>, start: nat, j: seq<nat>, x: seq<int>, nnz: nat)
    requires Compatible(A, B) && i < A.row && n <= |chain|
  {
    && DistinctColumns(chain)
    && |next| == |sums| == A.col && Chained(next, head, chain[n..]) && Accumulated(A, B, i, sums, chain[n..])
    && |j| == |x| == |j0| == |x0| && start <= nnz <= start + n && start + |chain| <= |j0|
    && (forall k | 0 <= k < |j| && (k < start || nnz <= k) :: j[k] == j0[k] && x[k] == x0[k])
    && RowWritten(A, B, i, j, x, start, nnz, chain[..n])
  }

  lemma StartEmitting(A: Matrix, B: Matrix, i: nat, chain: seq<nat>, next: seq<int>, sums: seq<int>, head: int,
                      j0: seq<nat>, x0: seq<int>, start: nat)
    requires Compatible(A, B) && i < A.row && |next| == |sums| == A.col
    requires Chained(next, head, chain) && Accumulated(A, B, i, sums, chain) && |j0| == |x0| && start + |chain| <= |j0|
    ensures Emitting(A, B, i, chain, 0, next, sums, head, j0, x0, start, j0, x0, start)
  {
    assert chain[0..] == chain && chain[..0] == [];
  }

  lemma EndEmitting(A: Matrix, B: Matrix, i: nat, chain: seq<nat>, next: seq<int>, sums: seq<int>, head: int,
                    j0: seq<nat>, x0: seq<int>, start: nat, j: seq<nat>, x: seq<int>, nnz: nat)
    requires Compatible(A, B) && i < A.row
    requires Emitting(A, B, i, chain, |chain|, next, sums, head, j0, x0, start, j, x, nnz)
    ensures Clean(next, -1) && Clean(sums, 0) && RowWritten(A, B, i, j, x, start, nnz, chain)
  {
    assert chain[|chain|..] == [] && chain[..|chain|] == chain;
  }

  /** One column: written unless its sum is zero, and cleared in the scratch arrays. */
  method EmitColumn(A: Matrix, B: Matrix, i: nat, ghost chain: seq<nat>, ghost n: nat, next0: seq<int>,
      sums0: seq<int>, head0: int, ghost j0: seq<nat>, ghost x0: seq<int>, ghost start: nat, j1: seq<nat>,
      x1: seq<int>, nnz0: nat)
    returns (next: seq<int>, sums: seq<int>, head: int, j: seq<nat>, x: seq<int>, nnz: nat)
    requires Compatible(A, B) && i < A.row && n < |chain|
    requires Emitting(A, B, i, chain, n, next0, sums0, head0, j0, x0, start, j1, x1, nnz0)
    ensures Emitting(A, B, i, chain, n + 1, next, sums, head, j0, x0, start, j, x, nnz)
  {
    next, sums, head, j, x, nnz := next0, sums0, head0, j1, x1, nnz0;
    ChainPop(next, head, chain[n..]);
    assert chain[n..][1..] == chain[n + 1..] && chain[..n + 1] == chain[..n] + [chain[n]];
    WriteOne(A, B, i, j, x, start, nnz, chain[..n], head, sums[head]);
    if sums[head] != 0 {
      j := j[nnz := head];
      x := x[nnz := sums[head]];
      nnz := nnz + 1;
    }
    var temp := head;
    head := next[head];
    next := next[temp := -1];
    sums := sums[temp := 0];
  }

  method EmitRow(A: Matrix, B: Matrix, i: nat, next0: seq<int>, sums0: seq<int>, head0: int, length: nat,
      ghost chain: seq<nat>, j0: seq<nat>, x0: seq<int>, start: nat)
    returns (next: seq<int>, sums: seq<int>, j: seq<nat>, x: seq<int>, nnz: nat)
    requires Compatible(A, B) && i < A.row && |next0| == |sums0| == A.col
    requires Chained(next0, head0, chain) && length == |chain| && Members(chain) == RowTouched(A, B, i)
    requires Accumulated(A, B, i, sums0, chain)
    requires |j0| == |x0| && start + length <= |j0|
    ensures |next| == |sums| == A.col && Clean(next, -1) && Clean(sums, 0)
    ensures |j| == |x| == |j0| && start <= nnz <= start + length
    ensures forall k | 0 <= k < |j| && (k < start || nnz <= k) :: j[k] == j0[k] && x[k] == x0[k]
    ensures RowWritten(A, B, i, j, x, start, nnz, chain)
  {
    next, sums, j, x, nnz := next0, sums0, j0, x0, start;
    var head := head0;
    StartEmitting(A, B, i, chain, next, sums, head, j0, x0, start);
    for jj := 0 to length
      invariant Emitting(A, B, i, chain, jj, next, sums, head, j0, x0, start, j, x, nnz)
    {
      next, sums, head, j, x, nnz := EmitColumn(A, B, i, chain, jj, next, sums, head, j0, x0, start, j, x, nnz);
    }
    EndEmitting(A, B, i, chain, next, sums, head, j0, x0, start, j, x, nnz);
  }

  // ----- pass 2 as a whole

  /** Row i of C is that of the product: distinct columns in the order of StoredColumns, no zeros, dense entries. */
  ghost predicate ProductRow(A: Matrix, B: Matrix, j: seq<nat>, x: seq<int>, lo: nat, hi: nat, i: nat)
    requires Compatible(A, B) && i < A.row
  {
    && lo <= hi <= |j| == |x| && j[lo..hi] == StoredColumns(A, B, i)
    && (forall k | lo <= k < hi :: j[k] < B.col && x[k] != 0)
    && (forall k, l | lo <= k < l < hi :: j[k] != j[l])
    && (forall c: nat :: SumAt(j, x, lo, hi, c) == DenseProduct(A, B, A.p[i], A.p[i + 1], c, A.col))
  }

  /** A written row has distinct touched columns and no zeros. */
  lemma WrittenColumns(A: Matrix, B: Matrix, i: nat, j: seq<nat>, x: seq<int>, lo: nat, hi: nat, chain: seq<nat>)
    requires Compatible(A, B) && i < A.row && RowWritten(A, B, i, j, x, lo, hi, chain) && DistinctColumns(chain)
    requires Members(chain) == RowTouched(A, B, i)
    ensures forall k | lo <= k < hi :: j[k] < B.col && x[k] != 0
    ensures forall k, l | lo <= k < l < hi :: j[k] != j[l]
  {
    var stored := Surviving(A, B, i, chain);
    TouchedBound(A, B, A.p[i], A.p[i + 1]);
    SurvivingDistinct(A, B, i, chain);
    assert forall k | lo <= k < hi :: j[k] == stored[k - lo];
    forall k | lo <= k < hi
      ensures j[k] < B.col && x[k] != 0
    {
      SurvivingMembers(A, B, i, chain, j[k]);
      assert stored[k - lo] in stored;
      assert j[k] in Members(chain);
    }
  }

  lemma WrittenIsProduct(A: Matrix, B: Matrix, i: nat, j: seq<nat>, x: seq<int>, lo: nat, hi: nat, chain: seq<nat>)
    requires Compatible(A, B) && i < A.row && RowWritten(A, B, i, j, x, lo, hi, chain) && DistinctColumns(chain)
    requires Members(chain) == RowTouched(A, B, i) && chain == LinkedColumns(A, B, A.p[i], A.p[i + 1])
    ensures ProductRow(A, B, j, x, lo, hi, i)
  {
    WrittenColumns(A, B, i, j, x, lo, hi, chain);
    forall c: nat
      ensures SumAt(j, x, lo, hi, c) == DenseProduct(A, B, A.p[i], A.p[i + 1], c, A.col)
    {
      PartialIsProduct(A, B, A.p[i], A.p[i + 1], c);
      if k :| lo <= k < hi && j[k] == c {
        SumAtSingle(j, x, lo, k, hi);
      } else {
        SumAtNone(j, x, lo, hi, c);
        NotWritten(A, B, i, j, x, lo, hi, chain, c);
      }
    }
  }

  lemma NotWritten(A: Matrix, B: Matrix, i: nat, j: seq<nat>, x: seq<int>, lo: nat, hi: nat, chain: seq<nat>, c: nat)
    requires Compatible(A, B) && i < A.row && RowWritten(A, B, i, j, x, lo, hi, chain)
    requires Members(chain) == RowTouched(A, B, i) && forall k | lo <= k < hi :: j[k] != c
    ensures Partial(A, B, A.p[i], A.p[i + 1], c) == 0
  {
    var stored := Surviving(A, B, i, chain);
    assert forall k | 0 <= k < |stored| :: stored[k] == j[lo + k];
    SurvivingMembers(A, B, i, chain, c);
    if c !in chain {
      assert c !in Members(chain);
      UntouchedIsZero(A, B, A.p[i], A.p[i + 1], c);
    }
  }

  /** Later writes beyond hi leave the row alone. */
  lemma ProductRowStays(A: Matrix, B: Matrix, j: seq<nat>, x: seq<int>, j': seq<nat>, x': seq<int>, lo: nat, hi: nat,
      i: nat)
    requires Compatible(A, B) && i < A.row && ProductRow(A, B, j, x, lo, hi, i)
    requires |j'| == |x'| == |j| && forall k | 0 <= k < hi :: j[k] == j'[k] && x[k] == x'[k]
    ensures ProductRow(A, B, j', x', lo, hi, i)
  {
    assert j'[lo..hi] == j[lo..hi];
    forall c: nat
      ensures SumAt(j', x', lo, hi, c) == DenseProduct(A, B, A.p[i], A.p[i + 1], c, A.col)
    {
      SumAtSame(j, x, j', x', lo, hi, c);
    }
  }

  /** The first n rows are written. */
  ghost predicate RowsDone(A: Matrix, B: Matrix, p: seq<nat>, j: seq<nat>, x: seq<int>, n: nat)
    requires Compatible(A, B)
  {
    && n <= A.row && |p| == A.row + 1 && |j| == |x| && p[0] == 0
    && (forall i | 0 <= i < n :: ProductRow(A, B, j, x, p[i], p[i + 1], i))
    && (forall i | 0 <= i <= n :: p[i] <= TotalTouched(A, B, i))
  }

  lemma {:induction false} RowsBelow(A: Matrix, B: Matrix, p: seq<nat>, j: seq<nat>, x: seq<int>, n: nat, i: nat)
    requires Compatible(A, B) && RowsDone(A, B, p, j, x, n) && i <= n
    ensures p[i] <= p[n] <= |j|
    decreases n - i
  {
    if i < n {
      RowsBelow(A, B, p, j, x, n, i + 1);
      assert ProductRow(A, B, j, x, p[i], p[i + 1], i);
    } else if n > 0 {
      assert ProductRow(A, B, j, x, p[n - 1], p[n], n - 1);
    }
  }

  lemma RowsExtend(A: Matrix, B: Matrix, p: seq<nat>, j: seq<nat>, x: seq<int>, n: nat, j': seq<nat>, x': seq<int>,
      nnz: nat)
    requires Compatible(A, B) && n < A.row && RowsDone(A, B, p, j, x, n)
    requires |j'| == |x'| == |j| && p[n] <= |j| && forall k | 0 <= k < p[n] :: j[k] == j'[k] && x[k] == x'[k]
    requires ProductRow(A, B, j', x', p[n], nnz, n) && nnz <= TotalTouched(A, B, n + 1)
    ensures RowsDone(A, B, p[n + 1 := nnz], j', x', n + 1)
  {
    RowsKept(A, B, p, j, x, n, j', x', nnz, p[n + 1 := nnz]);
    PointersBelow(A, B, p, n, nnz);
  }

  lemma RowsKept(A: Matrix, B: Matrix, p: seq<nat>, j: seq<nat>, x: seq<int>, n: nat, j': seq<nat>, x': seq<int>,
      nnz: nat, p': seq<nat>)
    requires Compatible(A, B) && n < A.row && RowsDone(A, B, p, j, x, n) && p' == p[n + 1 := nnz]
    requires |j'| == |x'| == |j| && p[n] <= |j| && forall k | 0 <= k < p[n] :: j[k] == j'[k] && x[k] == x'[k]
    requires ProductRow(A, B, j', x', p[n], nnz, n)
    ensures forall i | 0 <= i < n + 1 :: ProductRow(A, B, j', x', p'[i], p'[i + 1], i)
  {
    forall i | 0 <= i < n + 1
      ensures ProductRow(A, B, j', x', p'[i], p'[i + 1], i)
    {
      if i < n {
        EarlierRow(A, B, p, j, x, n, j', x', i);
      }
    }
  }

  lemma PointersBelow(A: Matrix, B: Matrix, p: seq<nat>, n: nat, nnz: nat)
    requires Compatible(A, B) && n < A.row && |p| == A.row + 1 && nnz <= TotalTouched(A, B, n + 1)
    requires forall i | 0 <= i <= n :: p[i] <= TotalTouched(A, B, i)
    ensures forall i | 0 <= i <= n + 1 :: p[n + 1 := nnz][i] <= TotalTouched(A, B, i)
  {
  }

  lemma EarlierRow(A: Matrix, B: Matrix, p: seq<nat>, j: seq<nat>, x: seq<int>, n: nat, j': seq<nat>, x': seq<int>,
      i: nat)
    requires Compatible(A, B) && i < n && RowsDone(A, B, p, j, x, n)
    requires |j'| == |x'| == |j| && p[n] <= |j| && forall k | 0 <= k < p[n] :: j[k] == j'[k] && x[k] == x'[k]
    ensures ProductRow(A, B, j', x', p[i], p[i + 1], i)
  {
    RowsBelow(A, B, p, j, x, n, i + 1);
    assert ProductRow(A, B, j, x, p[i], p[i + 1], i);
    ProductRowStays(A, B, j, x, j', x', p[i], p[i + 1], i);
  }

  /** C stands for the product: its rows have distinct columns and no stored zeros, and its entries are those of A B. */
  ghost predicate IsProduct(A: Matrix, B: Matrix, C: Matrix)
    requires Compatible(A, B)
  {
    && C.row == A.row && C.col == B.col && |C.p| == A.row + 1 && |C.j| == |C.x| && C.p[0] == 0
    && forall i | 0 <= i < A.row :: ProductRow(A, B, C.j, C.x, C.p[i], C.p[i + 1], i)
  }

  /** csr_matmat_pass2, with the arrays of C sized by pass 1: it never writes beyond them. */
  method Pass2(A: Matrix, B: Matrix, C: Matrix) returns (C': Matrix)
    requires Compatible(A, B) && A.col <= INT_RANGE && C.row == A.row && C.col == B.col && |C.p| == A.row + 1
    requires |C.j| == |C.x| && TotalTouched(A, B, A.row) <= |C.j|
    ensures IsProduct(A, B, C') && C'.p[A.row] <= TotalTouched(A, B, A.row)
    ensures |C'.j| == |C'.x| == |C.j|
    ensures forall k | C'.p[A.row] <= k < |C.j| :: C'.j[k] == C.j[k] && C'.x[k] == C.x[k]
  {
    var next: seq<int> := seq(A.col, _ => -1);
    var sums: seq<int> := seq(A.col, _ => 0);
    var p: seq<nat>, j: seq<nat>, x := C.p[0 := 0], C.j, C.x;
    var nnz := 0;
    for i := 0 to A.row
      invariant |next| == |sums| == A.col && Clean(next, -1) && Clean(sums, 0)
      invariant |j| == |x| == |C.j|
      invariant RowsDone(A, B, p, j, x, i) && nnz == p[i]
      invariant forall k | nnz <= k < |C.j| :: j[k] == C.j[k] && x[k] == C.x[k]
    {
      var head, length;
      ghost var chain;
      next, sums, head, length, chain := ScanRow(A, B, i, next, sums);
      MembersCount(chain);
      TotalMonotone(A, B, i + 1, A.row);
      ghost var j0, x0 := j, x;
      RowsBelow(A, B, p, j, x, i, i);
      next, sums, j, x, nnz := EmitRow(A, B, i, next, sums, head, length, chain, j, x, nnz);
      WrittenIsProduct(A, B, i, j, x, p[i], nnz, chain);
      RowsExtend(A, B, p, j0, x0, i, j, x, nnz);
      p := p[i + 1 := nnz];
    }
    C' := Matrix(A.row, B.col, p, j, x);
  }

  // ----- both passes

  /** The arrays of C are as long as pass 1 found; they hold zeros before pass 2. */
  method Multiply(A: Matrix, B: Matrix) returns (r: Outcome, C: Matrix)
    requires Compatible(A, B) && A.col <= INT_RANGE
    ensures r.OverflowError? <==> TotalTouched(A, B, A.row) >= UNSIGNED_RANGE
    ensures r.Counted? ==> WellFormed(C) && C.row == A.row && C.col == B.col && IsDenseProduct(A, B, C)
    ensures r.Counted? ==> forall i | 0 <= i < C.row :: StoredOnce(C, i) && StoredInOrder(A, B, C, i)
    ensures r.Counted? ==> |C.j| == |C.x| == TotalTouched(A, B, A.row) && ZeroFrom(C, C.p[A.row])
  {
    r := Pass1(A, B);
    C := Matrix(A.row, B.col, [], [], []);
    if r.Counted? {
      var n := r.p[A.row];
      C := Matrix(A.row, B.col, r.p, seq(n, _ => 0), seq(n, _ => 0));
      if n > 0 {
        ColumnExists(A, B, A.row);
      }
      ghost var C0 := C;
      C := Pass2(A, B, C);
      ProductIsWellFormed(A, B, C0, C);
      ProductIsDense(A, B, C);
    }
  }

  /** Where something is touched B has a column. */
  lemma {:induction false} ColumnExists(A: Matrix, B: Matrix, n: nat)
    requires Compatible(A, B) && n <= A.row && TotalTouched(A, B, n) > 0
    ensures B.col > 0
  {
    TotalStep(A, B, n - 1);
    if |RowTouched(A, B, n - 1)| > 0 {
      TouchedBound(A, B, A.p[n - 1], A.p[n]);
      var c :| c in RowTouched(A, B, n - 1);
      assert c < B.col;
    } else {
      ColumnExists(A, B, n - 1);
    }
  }

  /** Every entry of C is that of the dense product. */
  ghost predicate IsDenseProduct(A: Matrix, B: Matrix, C: Matrix)
    requires Compatible(A, B) && WellFormed(C) && C.row == A.row
  {
    forall i, c: nat | 0 <= i < A.row :: Entry(C, i, c) == DenseProduct(A, B, A.p[i], A.p[i + 1], c, A.col)
  }

  /** Row i stores distinct columns and no zeros. */
  ghost predicate StoredOnce(C: Matrix, i: nat)
    requires WellFormed(C) && i < C.row
  {
    && (forall k, l | C.p[i] <= k < l < C.p[i + 1] :: C.j[k] != C.j[l])
    && (forall k | C.p[i] <= k < C.p[i + 1] :: C.x[k] != 0)
  }

  /** The columns of row i stand in the order in which the chain gives them: the one met last comes first. */
  ghost predicate StoredInOrder(A: Matrix, B: Matrix, C: Matrix, i: nat)
    requires Compatible(A, B) && WellFormed(C) && i < C.row == A.row
  {
    C.j[C.p[i]..C.p[i + 1]] == StoredColumns(A, B, i)
  }

  /** The positions that pass 1 counted and pass 2 does not need still hold zeros. */
  ghost predicate ZeroFrom(C: Matrix, n: nat)
    requires |C.j| == |C.x|
  {
    forall k | n <= k < |C.j| :: C.j[k] == 0 && C.x[k] == 0
  }

  lemma {:induction false} ProductPointers(A: Matrix, B: Matrix, C: Matrix, i: nat, k: nat)
    requires Compatible(A, B) && IsProduct(A, B, C) && i <= k <= A.row
    ensures C.p[i] <= C.p[k] <= |C.j|
    decreases k - i
  {
    if i < k {
      ProductPointers(A, B, C, i, k - 1);
      assert ProductRow(A, B, C.j, C.x, C.p[k - 1], C.p[k], k - 1);
    } else if i > 0 {
      assert ProductRow(A, B, C.j, C.x, C.p[i - 1], C.p[i], i - 1);
    }
  }

  lemma ProductIsWellFormed(A: Matrix, B: Matrix, C0: Matrix, C: Matrix)
    requires Compatible(A, B) && IsProduct(A, B, C) && |C.j| == |C0.j|
    requires forall k | 0 <= k < |C0.j| :: C0.j[k] < B.col
    requires forall k | C.p[A.row] <= k < |C.j| :: C.j[k] == C0.j[k]
    ensures WellFormed(C)
  {
    forall i, k | 0 <= i <= k <= A.row
      ensures C.p[i] <= C.p[k] <= |C.j|
    {
      ProductPointers(A, B, C, i, k);
    }
    forall k | 0 <= k < |C.j|
      ensures C.j[k] < B.col
    {
      if k < C.p[A.row] {
        var r := RowAt(C.p, A.row, k);
        assert ProductRow(A, B, C.j, C.x, C.p[r], C.p[r + 1], r);
      }
    }
  }

  lemma ProductIsDense(A: Matrix, B: Matrix, C: Matrix)
    requires Compatible(A, B) && IsProduct(A, B, C) && WellFormed(C)
    ensures IsDenseProduct(A, B, C) && forall i | 0 <= i < C.row :: StoredOnce(C, i) && StoredInOrder(A, B, C, i)
  {
    forall i, c: nat | 0 <= i < A.row
      ensures Entry(C, i, c) == DenseProduct(A, B, A.p[i], A.p[i + 1], c, A.col)
    {
      assert ProductRow(A, B, C.j, C.x, C.p[i], C.p[i + 1], i);
    }
    forall i | 0 <= i < C.row
      ensures StoredOnce(C, i) && StoredInOrder(A, B, C, i)
    {
      assert ProductRow(A, B, C.j, C.x, C.p[i], C.p[i + 1], i);
    }
  }
}
