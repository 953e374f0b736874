/** A canonical matrix that stores no zero is determined by its dense entries. */
module CsrUnique {
  import opened Csr

  ghost predicate Nonzero(x: seq<int>, lo: nat, hi: nat)
    requires hi <= |x|
  {
    forall k | lo <= k < hi :: x[k] != 0
  }

  /** A row segment in canonical form without zeros. */
  ghost predicate Proper(j: seq<nat>, x: seq<int>, lo: nat, hi: nat) {
    lo <= hi <= |j| == |x| && Ascending(j, lo, hi) && Nonzero(x, lo, hi)
  }

  lemma SumAtStored(j: seq<nat>, x: seq<int>, lo: nat, hi: nat, k: nat)
    requires Proper(j, x, lo, hi) && lo <= k < hi
    ensures SumAt(j, x, lo, hi, j[k]) == x[k] != 0
  {
    SumAtSingle(j, x, lo, k, hi);
  }

  /** The column of the last entry of the one is stored in the other. */
  lemma LastIsStored(j: seq<nat>, x: seq<int>, lo: nat, hi: nat, j': seq<nat>, x': seq<int>, lo': nat, hi': nat)
    requires Proper(j, x, lo, hi) && Proper(j', x', lo', hi') && SameSums(j, x, lo, hi, j', x', lo', hi') && lo < hi
    ensures lo' < hi' && j[hi - 1] <= j'[hi' - 1]
  {
    SumAtStored(j, x, lo, hi, hi - 1);
    if forall k | lo' <= k < hi' :: j'[k] != j[hi - 1] {
      SumAtNone(j', x', lo', hi', j[hi - 1]);
    }
  }

  lemma {:induction false} SegmentsAgree(j: seq<nat>, x: seq<int>, lo: nat, hi: nat,
                                         j': seq<nat>, x': seq<int>, lo': nat, hi': nat)
    requires Proper(j, x, lo, hi) && Proper(j', x', lo', hi') && SameSums(j, x, lo, hi, j', x', lo', hi')
    ensures hi - lo == hi' - lo'
    ensures j[lo..hi] == j'[lo'..hi'] && x[lo..hi] == x'[lo'..hi']
    decreases hi
  {
    if lo < hi {
      LastIsStored(j, x, lo, hi, j', x', lo', hi');
      LastIsStored(j', x', lo', hi', j, x, lo, hi);
      SumAtStored(j, x, lo, hi, hi - 1);
      SumAtStored(j', x', lo', hi', hi' - 1);
      var h, h' := hi - 1, hi' - 1;
      forall c: nat
        ensures SumAt(j, x, lo, h, c) == SumAt(j', x', lo', h', c)
      {
        assert SumAt(j, x, lo, hi, c) == SumAt(j', x', lo', hi', c);
      }
      SegmentsAgree(j, x, lo, h, j', x', lo', h');
      assert j[lo..hi] == j[lo..hi - 1] + [j[hi - 1]] && j'[lo'..hi'] == j'[lo'..hi' - 1] + [j'[hi' - 1]];
      assert x[lo..hi] == x[lo..hi - 1] + [x[hi - 1]] && x'[lo'..hi'] == x'[lo'..hi' - 1] + [x'[hi' - 1]];
    } else if lo' < hi' {
      LastIsStored(j', x', lo', hi', j, x, lo, hi);
    }
  }

  ghost predicate SameEntries(A: Matrix, B: Matrix)
    requires WellFormed(A) && WellFormed(B) && A.row == B.row
  {
    forall i, c: nat | 0 <= i < A.row :: Entry(A, i, c) == Entry(B, i, c)
  }

  ghost predicate StoresNoZero(A: Matrix) {
    forall k | 0 <= k < |A.x| :: A.x[k] != 0
  }

  lemma {:induction false} PrefixesAgree(A: Matrix, B: Matrix, n: nat)
    requires Canonical(A) && Canonical(B) && A.row == B.row && A.p[0] == 0 == B.p[0] && n <= A.row
    requires StoresNoZero(A) && StoresNoZero(B) && SameEntries(A, B)
    ensures A.p[..n + 1] == B.p[..n + 1] && A.j[..A.p[n]] == B.j[..A.p[n]] && A.x[..A.p[n]] == B.x[..A.p[n]]
  {
    if n == 0 {
      assert A.p[..1] == [0] == B.p[..1];
    } else {
      var m := n - 1;
      PrefixesAgree(A, B, m);
      assert A.p[..n][m] == A.p[m] && B.p[..n][m] == B.p[m];
      assert Ascending(A.j, A.p[m], A.p[n]) && Ascending(B.j, B.p[m], B.p[n]);
      forall c: nat
        ensures SumAt(A.j, A.x, A.p[m], A.p[n], c) == SumAt(B.j, B.x, B.p[m], B.p[n], c)
      {
        assert Entry(A, m, c) == Entry(B, m, c);
      }
      SegmentsAgree(A.j, A.x, A.p[m], A.p[n], B.j, B.x, B.p[m], B.p[n]);
      JoinPrefix(A.j, A.p[m], A.p[n]);
      JoinPrefix(B.j, B.p[m], B.p[n]);
      JoinPrefix(A.x, A.p[m], A.p[n]);
      JoinPrefix(B.x, B.p[m], B.p[n]);
      assert A.p[..n + 1] == A.p[..n] + [A.p[n]] && B.p[..n + 1] == B.p[..n] + [B.p[n]];
    }
  }

  lemma JoinPrefix<T>(s: seq<T>, lo: nat, hi: nat)
    requires lo <= hi <= |s|
    ensures s[..hi] == s[..lo] + s[lo..hi]
  {
  }

  /** Equal entries, equal storage. */
  lemma CanonicalIsUnique(A: Matrix, B: Matrix)
    requires Canonical(A) && Canonical(B) && A.row == B.row && A.col == B.col && A.p[0] == 0 == B.p[0]
    requires StoresNoZero(A) && StoresNoZero(B) && SameEntries(A, B)
    ensures A == B
  {
    PrefixesAgree(A, B, A.row);
    assert A.p[..A.row + 1] == A.p && B.p[..A.row + 1] == B.p;
    assert A.p[A.row] == B.p[A.row];
    assert A.j[..|A.j|] == A.j && B.j[..|B.j|] == B.j;
    assert A.x[..|A.x|] == A.x && B.x[..|B.x|] == B.x;
  }
}
