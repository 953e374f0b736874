/** The class CSRMatrix of src/sparse_matrix.cpp: reading and overwriting single entries. */
module CsrMatrix {
  import opened Csr

  /** One entry of the dense matrix replaced. */
  ghost predicate Replaces(C: Matrix, A: Matrix, i: nat, j: nat, e: int)
    requires Canonical(A) && Canonical(C)
  {
    && C.row == A.row && C.col == A.col
    && forall r, c: nat | 0 <= r < A.row && c < A.col ::
      Entry(C, r, c) == if r == i && c == j then e else Entry(A, r, c)
  }

  /** C stores at (i, j) if and only if asked to, and elsewhere where A does. */
  ghost predicate StoresAlso(C: Matrix, A: Matrix, i: nat, j: nat, stored: bool)
    requires WellFormed(A) && WellFormed(C) && C.row == A.row
  {
    forall r, c: nat | 0 <= r < A.row && c < A.col ::
      IsStored(C, r, c) <==> if r == i && c == j then stored else IsStored(A, r, c)
  }

  /** A with the value 1 wherever it stores anything: where something is stored does not depend on the values. */
  ghost function Ones(A: Matrix): Matrix {
    A.(x := seq(|A.x|, _ => 1))
  }

  lemma StoredIsOne(A: Matrix, r: nat, c: nat)
    requires Canonical(A) && r < A.row
    ensures Canonical(Ones(A)) && (IsStored(A, r, c) <==> Entry(Ones(A), r, c) == 1)
  {
    var B := Ones(A);
    if k :| A.p[r] <= k < A.p[r + 1] && A.j[k] == c {
      assert Ascending(A.j, A.p[r], A.p[r + 1]);
      SumAtSingle(B.j, B.x, A.p[r], k, A.p[r + 1]);
    } else {
      SumAtNone(B.j, B.x, A.p[r], A.p[r + 1], c);
    }
  }

  /** If replacing works for the values 1, it tells where something is stored. */
  lemma StoresByOnes(C: Matrix, A: Matrix, i: nat, j: nat, stored: bool)
    requires Canonical(A) && Canonical(C) && Canonical(Ones(A)) && Canonical(Ones(C))
    requires Replaces(Ones(C), Ones(A), i, j, if stored then 1 else 0)
    ensures StoresAlso(C, A, i, j, stored)
  {
    forall r, c: nat | 0 <= r < A.row && c < A.col
      ensures IsStored(C, r, c) <==> if r == i && c == j then stored else IsStored(A, r, c)
    {
      StoredIsOne(A, r, c);
      StoredIsOne(C, r, c);
    }
  }

  /** k is where column j is stored, or would be inserted, in row i. */
  ghost predicate Position(A: Matrix, i: nat, j: nat, k: nat)
    requires Canonical(A) && i < A.row
  {
    && A.p[i] <= k <= A.p[i + 1]
    && (forall l | A.p[i] <= l < k :: A.j[l] < j)
    && (forall l | k <= l < A.p[i + 1] :: j <= A.j[l])
  }

  lemma EntryAtPosition(A: Matrix, i: nat, j: nat, k: nat)
    requires Canonical(A) && i < A.row && Position(A, i, j, k)
    ensures Entry(A, i, j) == if k < A.p[i + 1] && A.j[k] == j then A.x[k] else 0
  {
    if k < A.p[i + 1] && A.j[k] == j {
      SumAtSingle(A.j, A.x, A.p[i], k, A.p[i + 1]);
    } else {
      SumAtNone(A.j, A.x, A.p[i], A.p[i + 1], j);
    }
  }

  // ----- overwriting a stored value

  lemma OverwrittenSum(j: seq<nat>, x: seq<int>, lo: nat, k: nat, hi: nat, e: int, c: nat)
    requires lo <= k < hi <= |j| == |x| && Ascending(j, lo, hi)
    ensures SumAt(j, x[k := e], lo, hi, c) == if c == j[k] then e else SumAt(j, x, lo, hi, c)
  {
    var x' := x[k := e];
    if c == j[k] {
      SumAtSingle(j, x', lo, k, hi);
    } else {
      SumAtSplit(j, x, lo, k, hi, c);
      SumAtSplit(j, x, k, k + 1, hi, c);
      SumAtSplit(j, x', lo, k, hi, c);
      SumAtSplit(j, x', k, k + 1, hi, c);
      SumAtSame(j, x, j, x', lo, k, c);
      SumAtSame(j, x, j, x', k + 1, hi, c);
    }
  }

  lemma Overwritten(A: Matrix, i: nat, k: nat, e: int)
    requires Canonical(A) && i < A.row && A.p[i] <= k < A.p[i + 1]
    ensures Canonical(A.(x := A.x[k := e]))
    ensures Replaces(A.(x := A.x[k := e]), A, i, A.j[k], e)
    ensures StoresAlso(A.(x := A.x[k := e]), A, i, A.j[k], true)
  {
    var C := A.(x := A.x[k := e]);
    forall r, c: nat | 0 <= r < A.row && c < A.col
      ensures Entry(C, r, c) == if r == i && c == A.j[k] then e else Entry(A, r, c)
    {
      if r == i {
        OverwrittenSum(A.j, A.x, A.p[i], k, A.p[i + 1], e, c);
      } else {
        SumAtSame(A.j, A.x, C.j, C.x, A.p[r], A.p[r + 1], c);
      }
    }
    assert Stores(A.j, A.p[i], A.p[i + 1], A.j[k]);
  }

  // ----- inserting and removing a stored entry

  /** The row pointers after row i are moved by one place. */
  ghost predicate Shifted(p: seq<nat>, q: seq<nat>, i: nat, d: int) {
    |q| == |p| && forall l | 0 <= l < |p| :: q[l] == if l <= i then p[l] else p[l] + d
  }

  ghost predicate Inserted(A: Matrix, C: Matrix, i: nat, j: nat, k: nat, e: int)
    requires Canonical(A) && i < A.row && k <= |A.j|
  {
    && C.row == A.row && C.col == A.col && Shifted(A.p, C.p, i, 1)
    && C.j == A.j[..k] + [j] + A.j[k..] && C.x == A.x[..k] + [e] + A.x[k..]
  }

  /** Where position l is found after one place was made at k. */
  function Later(l: nat, k: nat): nat {
    if l < k then l else l + 1
  }

  function Earlier(l: nat, k: nat): nat {
    if l <= k then l else l - 1
  }

  /** t is s with one more element at k. */
  ghost predicate Moved<T>(s: seq<T>, t: seq<T>, k: nat) {
    |t| == |s| + 1 && forall l | 0 <= l < |s| :: t[Later(l, k)] == s[l]
  }

  /** C is A with (j, e) at position k of row i, seen element by element. */
  ghost predicate Grown(A: Matrix, C: Matrix, i: nat, j: nat, k: nat, e: int) {
    && |A.x| == |A.j| && |C.x| == |C.j| && k <= |A.j| && Shifted(A.p, C.p, i, 1)
    && Moved(A.j, C.j, k) && Moved(A.x, C.x, k) && C.j[k] == j && C.x[k] == e
  }

  lemma InsertedAt(A: Matrix, C: Matrix, i: nat, j: nat, k: nat, e: int)
    requires Canonical(A) && i < A.row && k <= |A.j| && Inserted(A, C, i, j, k, e)
    ensures Grown(A, C, i, j, k, e)
  {
  }

  /** Sums over a stretch that was moved by one place. */
  lemma {:induction false} SumAfterInsert(A: Matrix, C: Matrix, k: nat, lo: nat, hi: nat, c: nat)
    requires |A.x| == |A.j| && |C.j| == |C.x| && Moved(A.j, C.j, k) && Moved(A.x, C.x, k) && k <= lo <= hi <= |A.j|
    ensures SumAt(C.j, C.x, lo + 1, hi + 1, c) == SumAt(A.j, A.x, lo, hi, c)
    decreases hi
  {
    if lo < hi {
      SumAfterInsert(A, C, k, lo, hi - 1, c);
      assert C.j[Later(hi - 1, k)] == A.j[hi - 1] && C.x[Later(hi - 1, k)] == A.x[hi - 1];
    }
  }

  lemma SumBeforeInsert(A: Matrix, C: Matrix, k: nat, lo: nat, hi: nat, c: nat)
    requires |A.x| == |A.j| && |C.j| == |C.x| && Moved(A.j, C.j, k) && Moved(A.x, C.x, k) && hi <= k && hi <= |A.j|
    ensures SumAt(C.j, C.x, lo, hi, c) == SumAt(A.j, A.x, lo, hi, c)
  {
    forall l | lo <= l < hi
      ensures A.j[l] == C.j[l] && A.x[l] == C.x[l]
    {
      assert C.j[Later(l, k)] == A.j[l] && C.x[Later(l, k)] == A.x[l];
    }
    SumAtSame(A.j, A.x, C.j, C.x, lo, hi, c);
  }

  lemma MovedAscending(s: seq<nat>, t: seq<nat>, k: nat, lo: nat, hi: nat)
    requires Moved(s, t, k) && hi <= |s| && Ascending(s, lo, hi)
    ensures hi <= k ==> Ascending(t, lo, hi)
    ensures k <= lo ==> Ascending(t, lo + 1, hi + 1)
  {
    if hi <= k {
      forall a, b | lo <= a < b < hi
        ensures t[a] < t[b]
      {
        assert t[Later(a, k)] == s[a] && t[Later(b, k)] == s[b];
      }
    }
    if k <= lo {
      forall a, b | lo + 1 <= a < b < hi + 1
        ensures t[a] < t[b]
      {
        assert t[Later(a - 1, k)] == s[a - 1] && t[Later(b - 1, k)] == s[b - 1];
      }
    }
  }

  lemma GrownAscending(s: seq<nat>, t: seq<nat>, k: nat, lo: nat, hi: nat)
    requires Moved(s, t, k) && lo <= k <= hi <= |s| && Ascending(s, lo, hi)
    requires forall l | lo <= l < k :: s[l] < t[k]
    requires forall l | k <= l < hi :: t[k] < s[l]
    ensures Ascending(t, lo, hi + 1)
  {
    forall a, b | lo <= a < b < hi + 1
      ensures t[a] < t[b]
    {
      if a != k {
        assert t[Later(Earlier(a, k), k)] == s[Earlier(a, k)];
      }
      if b != k {
        assert t[Later(Earlier(b, k), k)] == s[Earlier(b, k)];
      }
    }
  }

  lemma InsertedAscending(A: Matrix, C: Matrix, i: nat, j: nat, k: nat, e: int, r: nat)
    requires Canonical(A) && i < A.row && r < A.row && Position(A, i, j, k) && Grown(A, C, i, j, k, e)
    requires k < A.p[i + 1] ==> A.j[k] != j
    ensures C.p[r] <= C.p[r + 1] <= |C.j| == |C.x| && Ascending(C.j, C.p[r], C.p[r + 1])
  {
    ShiftedRow(A.p, C.p, A.row, i, r);
    assert Ascending(A.j, A.p[r], A.p[r + 1]);
    if r == i {
      GrownAscending(A.j, C.j, k, A.p[r], A.p[r + 1]);
    } else {
      MovedAscending(A.j, C.j, k, A.p[r], A.p[r + 1]);
    }
  }

  lemma InsertedSum(A: Matrix, C: Matrix, i: nat, j: nat, k: nat, e: int, r: nat, c: nat)
    requires WellFormed(A) && i < A.row && r < A.row && A.p[i] <= k <= A.p[i + 1] && Grown(A, C, i, j, k, e)
    ensures C.p[r + 1] <= |C.j| == |C.x|
    ensures SumAt(C.j, C.x, C.p[r], C.p[r + 1], c)
         == SumAt(A.j, A.x, A.p[r], A.p[r + 1], c) + if r == i && c == j then e else 0
  {
    ShiftedRow(A.p, C.p, A.row, i, r);
    var lo, hi := A.p[r], A.p[r + 1];
    if r < i {
      SumBeforeInsert(A, C, k, lo, hi, c);
    } else if r > i {
      SumAfterInsert(A, C, k, lo, hi, c);
    } else {
      SumWithInsert(A, C, lo, k, hi, c);
    }
  }

  /** Where row r is found after one place was made in row i. */
  lemma ShiftedRow(p: seq<nat>, q: seq<nat>, row: nat, i: nat, r: nat)
    requires |p| == row + 1 && i < row && r < row && Shifted(p, q, i, 1)
    requires forall s, t | 0 <= s <= t <= row :: p[s] <= p[t]
    ensures q[r] == p[r] + (if r > i then 1 else 0) && q[r + 1] == p[r + 1] + if r >= i then 1 else 0
    ensures r < i ==> p[r + 1] <= p[i]
    ensures r > i ==> p[i + 1] <= p[r]
    ensures p[r + 1] <= p[row]
  {
  }

  lemma SumWithInsert(A: Matrix, C: Matrix, lo: nat, k: nat, hi: nat, c: nat)
    requires |A.x| == |A.j| && |C.j| == |C.x| && Moved(A.j, C.j, k) && Moved(A.x, C.x, k) && lo <= k <= hi <= |A.j|
    ensures SumAt(C.j, C.x, lo, hi + 1, c) == SumAt(A.j, A.x, lo, hi, c) + if c == C.j[k] then C.x[k] else 0
  {
    SumAtSplit(A.j, A.x, lo, k, hi, c);
    SumAtSplit(C.j, C.x, lo, k, hi + 1, c);
    SumAtSplit(C.j, C.x, k, k + 1, hi + 1, c);
    SumBeforeInsert(A, C, k, lo, k, c);
    SumAfterInsert(A, C, k, k, hi, c);
  }

  lemma InsertCanonical(A: Matrix, C: Matrix, i: nat, j: nat, k: nat, e: int)
    requires Canonical(A) && i < A.row && j < A.col && Position(A, i, j, k) && Grown(A, C, i, j, k, e)
    requires k < A.p[i + 1] ==> A.j[k] != j
    requires C.row == A.row && C.col == A.col
    ensures Canonical(C)
  {
    var p := C.p;
    GrownPointers(A.p, p, A.row, i, |A.j|);
    forall r | 0 <= r < A.row
      ensures Ascending(C.j, p[r], p[r + 1])
    {
      InsertedAscending(A, C, i, j, k, e, r);
    }
    forall l | 0 <= l < |C.j|
      ensures C.j[l] < C.col
    {
      if l != k {
        assert C.j[Later(Earlier(l, k), k)] == A.j[Earlier(l, k)];
      }
    }
  }

  lemma GrownPointers(p: seq<nat>, q: seq<nat>, row: nat, i: nat, n: nat)
    requires Pointers(p, row, n) && p[row] == n && i < row && Shifted(p, q, i, 1)
    ensures Pointers(q, row, n + 1) && q[row] == n + 1
  {
  }

  lemma InsertReplaces(A: Matrix, C: Matrix, i: nat, j: nat, k: nat, e: int)
    requires Canonical(A) && i < A.row && j < A.col && Position(A, i, j, k) && Inserted(A, C, i, j, k, e)
    requires k < A.p[i + 1] ==> A.j[k] != j
    ensures Canonical(C) && Replaces(C, A, i, j, e)
  {
    InsertedAt(A, C, i, j, k, e);
    InsertCanonical(A, C, i, j, k, e);
    EntryAtPosition(A, i, j, k);
    GrownReplaces(A, C, i, j, k, e);
  }

  lemma InsertStores(A: Matrix, C: Matrix, i: nat, j: nat, k: nat, e: int)
    requires Canonical(A) && i < A.row && j < A.col && Position(A, i, j, k) && Inserted(A, C, i, j, k, e)
    requires Canonical(C) && (k < A.p[i + 1] ==> A.j[k] != j)
    ensures StoresAlso(C, A, i, j, true)
  {
    assert Ones(C).x == Ones(A).x[..k] + [1] + Ones(A).x[k..];
    InsertReplaces(Ones(A), Ones(C), i, j, k, 1);
    StoresByOnes(C, A, i, j, true);
  }

  lemma RemoveStores(A: Matrix, C: Matrix, i: nat, k: nat)
    requires Canonical(A) && i < A.row && A.p[i] <= k < A.p[i + 1]
    requires C.row == A.row && C.col == A.col && Shifted(A.p, C.p, i, -1) && Canonical(C)
    requires C.j == A.j[..k] + A.j[k + 1..] && C.x == A.x[..k] + A.x[k + 1..]
    ensures StoresAlso(C, A, i, A.j[k], false)
  {
    assert Ones(C).x == Ones(A).x[..k] + Ones(A).x[k + 1..];
    RemoveReplaces(Ones(A), Ones(C), i, k);
    StoresByOnes(C, A, i, A.j[k], false);
  }

  lemma NothingAtPosition(A: Matrix, i: nat, j: nat, k: nat)
    requires Canonical(A) && i < A.row && Position(A, i, j, k) && (k < A.p[i + 1] ==> A.j[k] != j)
    ensures StoresAlso(A, A, i, j, false)
  {
  }

  lemma GrownReplaces(A: Matrix, C: Matrix, i: nat, j: nat, k: nat, e: int)
    requires Canonical(A) && Canonical(C) && C.row == A.row && C.col == A.col && i < A.row && j < A.col
    requires A.p[i] <= k <= A.p[i + 1] && Grown(A, C, i, j, k, e) && Entry(A, i, j) == 0
    ensures Replaces(C, A, i, j, e)
  {
    forall r, c: nat | 0 <= r < A.row && c < A.col
      ensures Entry(C, r, c) == if r == i && c == j then e else Entry(A, r, c)
    {
      InsertedSum(A, C, i, j, k, e, r, c);
    }
  }

  /** Removing a stored entry is undone by inserting it: C with (j, e) inserted at k is A. */
  lemma RemoveReplaces(A: Matrix, C: Matrix, i: nat, k: nat)
    requires Canonical(A) && i < A.row && A.p[i] <= k < A.p[i + 1]
    requires C.row == A.row && C.col == A.col && Shifted(A.p, C.p, i, -1)
    requires C.j == A.j[..k] + A.j[k + 1..] && C.x == A.x[..k] + A.x[k + 1..]
    ensures Canonical(C) && Replaces(C, A, i, A.j[k], 0)
  {
    var j, e := A.j[k], A.x[k];
    RemovedCanonical(A, C, i, k);
    RemovedGrown(A, C, i, k);
    EntryAtPosition(C, i, j, k);
    forall r, c: nat | 0 <= r < A.row && c < A.col
      ensures Entry(C, r, c) == if r == i && c == j then 0 else Entry(A, r, c)
    {
      InsertedSum(C, A, i, j, k, e, r, c);
    }
  }

  lemma RemovedGrown(A: Matrix, C: Matrix, i: nat, k: nat)
    requires |A.x| == |A.j| && k < |A.j| && Shifted(A.p, C.p, i, -1)
    requires C.j == A.j[..k] + A.j[k + 1..] && C.x == A.x[..k] + A.x[k + 1..]
    ensures Grown(C, A, i, A.j[k], k, A.x[k])
  {
    forall l | 0 <= l < |C.j|
      ensures A.j[Later(l, k)] == C.j[l] && A.x[Later(l, k)] == C.x[l]
    {
    }
  }

  lemma RemovedCanonical(A: Matrix, C: Matrix, i: nat, k: nat)
    requires Canonical(A) && i < A.row && A.p[i] <= k < A.p[i + 1]
    requires C.row == A.row && C.col == A.col && Shifted(A.p, C.p, i, -1)
    requires C.j == A.j[..k] + A.j[k + 1..] && C.x == A.x[..k] + A.x[k + 1..]
    ensures Canonical(C) && Position(C, i, A.j[k], k)
    ensures k < C.p[i + 1] ==> C.j[k] != A.j[k]
  {
    PointersShift(A.p, C.p, A.row, i);
    RemovedWellFormed(A, C, i, k);
    var p := C.p;
    forall r | 0 <= r < A.row
      ensures Ascending(C.j, p[r], p[r + 1])
    {
      RemovedAscending(A, C, i, k, r);
    }
    assert Canonical(C);
    RemovedPosition(A, C, i, k);
  }

  lemma RemovedWellFormed(A: Matrix, C: Matrix, i: nat, k: nat)
    requires WellFormed(A) && A.p[A.row] == |A.j| && i < A.row && A.p[i] <= k < A.p[i + 1] && Shifted(A.p, C.p, i, -1)
    requires C.row == A.row && C.col == A.col && forall r, s | 0 <= r <= s <= A.row :: C.p[r] <= C.p[s]
    requires C.j == A.j[..k] + A.j[k + 1..] && C.x == A.x[..k] + A.x[k + 1..]
    ensures WellFormed(C) && C.p[C.row] == |C.j|
  {
    assert forall l | 0 <= l < |C.j| :: C.j[l] == A.j[Later(l, k)];
  }

  lemma RemovedPosition(A: Matrix, C: Matrix, i: nat, k: nat)
    requires Canonical(A) && Canonical(C) && C.row == A.row && i < A.row && A.p[i] <= k < A.p[i + 1]
      && Shifted(A.p, C.p, i, -1)
    requires C.j == A.j[..k] + A.j[k + 1..]
    ensures Position(C, i, A.j[k], k)
    ensures k < C.p[i + 1] ==> C.j[k] != A.j[k]
  {
    assert Ascending(A.j, A.p[i], A.p[i + 1]);
    assert forall l | 0 <= l < |C.j| :: C.j[l] == A.j[Later(l, k)];
  }

  lemma RemovedAscending(A: Matrix, C: Matrix, i: nat, k: nat, r: nat)
    requires Canonical(A) && i < A.row && r < A.row && A.p[i] <= k < A.p[i + 1] && Shifted(A.p, C.p, i, -1)
    requires C.j == A.j[..k] + A.j[k + 1..]
    ensures C.p[r] <= C.p[r + 1] <= |C.j| && Ascending(C.j, C.p[r], C.p[r + 1])
  {
    assert Ascending(A.j, A.p[r], A.p[r + 1]);
    assert r < i ==> A.p[r + 1] <= A.p[i];
    assert r > i ==> A.p[i + 1] <= A.p[r];
    assert forall l | 0 <= l < |C.j| :: C.j[l] == A.j[Later(l, k)];
  }

  lemma PointersShift(p: seq<nat>, q: seq<nat>, row: nat, i: nat)
    requires |p| == row + 1 && i < row && Shifted(p, q, i, -1) && p[i] < p[i + 1]
    requires forall r, s | 0 <= r <= s <= row :: p[r] <= p[s]
    ensures forall r, s | 0 <= r <= s <= row :: q[r] <= q[s]
  {
    forall r, s | 0 <= r <= s <= row
      ensures q[r] <= q[s]
    {
      if r <= i < s {
        assert p[r] <= p[i] && p[i + 1] <= p[s];
      }
    }
  }

  class CSRMatrix {
    const row: nat
    const col: nat
    var p: seq<nat>
    var j: seq<nat>
    var x: seq<int>

    ghost function View(): Matrix
      reads this
    {
      Matrix(row, col, p, j, x)
    }

    ghost predicate Valid()
      reads this
    {
      Canonical(View())
    }

    /** The zero matrix. */
    constructor (row: nat, col: nat)
      ensures Valid() && this.row == row && this.col == col
      ensures forall r, c: nat | 0 <= r < row && c < col :: Entry(View(), r, c) == 0
      ensures |p| == row + 1 && j == [] && x == [] && forall r | 0 <= r <= row :: p[r] == 0
    {
      this.row, this.col := row, col;
      p := seq(row + 1, _ => 0);
      j, x := [], [];
    }

    method Get(i: nat, jj: nat) returns (e: int)
      requires Valid() && i < row && jj < col
      ensures e == Entry(View(), i, jj)
    {
      var k := p[i];
      while k < p[i + 1]
        invariant p[i] <= k <= p[i + 1] && forall l | p[i] <= l < k :: j[l] < jj
      {
        if j[k] == jj {
          EntryAtPosition(View(), i, jj, k);
          return x[k];
        } else if j[k] > jj {
          break;
        }
        k := k + 1;
      }
      EntryAtPosition(View(), i, jj, k);
      return 0;
    }

    /** set: replaces entry (i, jj) and nothing else, storing it unless it is 0, and keeps the canonical format. */
    method Set(i: nat, jj: nat, e: int)
      requires Valid() && i < row && jj < col
      modifies this
      ensures Valid() && Replaces(View(), old(View()), i, jj, e)
      ensures StoresAlso(View(), old(View()), i, jj, e != 0)
      ensures (forall k | 0 <= k < |old(x)| :: old(x[k]) != 0) ==> forall k | 0 <= k < |x| :: x[k] != 0
    {
      ghost var A := View();
      var k := p[i];
      var rowEnd := p[i + 1];
      while k < rowEnd && j[k] < jj
        invariant p[i] <= k <= rowEnd && forall l | p[i] <= l < k :: j[l] < jj
      {
        k := k + 1;
      }
      assert Position(A, i, jj, k);
      if e != 0 {
        if k < rowEnd && j[k] == jj {
          Overwritten(A, i, k, e);
          x := x[k := e];
        } else {
          x := x[..k] + [e] + x[k..];
          j := j[..k] + [jj] + j[k..];
          ShiftUp(i);
          InsertReplaces(A, View(), i, jj, k, e);
          InsertStores(A, View(), i, jj, k, e);
        }
      } else if k < rowEnd && j[k] == jj {
        x := x[..k] + x[k + 1..];
        j := j[..k] + j[k + 1..];
        ShiftDown(A, i, k);
        RemoveReplaces(A, View(), i, k);
        RemoveStores(A, View(), i, k);
      } else {
        EntryAtPosition(A, i, jj, k);
        NothingAtPosition(A, i, jj, k);
      }
    }

    method ShiftUp(i: nat)
      requires |p| == row + 1 && i < row
      modifies this`p
      ensures Shifted(old(p), p, i, 1)
    {
      for l := i + 1 to row + 1
        invariant |p| == row + 1
        invariant forall m | 0 <= m <= row :: p[m] == if i < m < l then old(p[m]) + 1 else old(p[m])
      {
        p := p[l := p[l] + 1];
      }
    }

    method ShiftDown(ghost A: Matrix, i: nat, ghost k: nat)
      requires |p| == row + 1 && i < row && p == A.p && A.row == row && Canonical(A) && A.p[i] <= k < A.p[i + 1]
      modifies this`p
      ensures Shifted(old(p), p, i, -1)
    {
      for l := i + 1 to row + 1
        invariant |p| == row + 1
        invariant forall m | 0 <= m <= row :: p[m] as int == if i < m < l then old(p[m]) - 1 else old(p[m])
      {
        assert A.p[i + 1] <= A.p[l];
        p := p[l := p[l] - 1];
      }
    }
  }
}
