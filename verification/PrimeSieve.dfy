/** The segmented sieve of src/ntheory.cpp. */
module PrimeSieve {
  import opened Common
  import opened ModArith
  import opened Primes

  /** s is the ascending list of exactly the primes up to b. */
  ghost predicate IsPrimeList(s: seq<nat>, b: int) {
    && (forall i, j | 0 <= i < j < |s| :: s[i] < s[j])
    && (forall i | 0 <= i < |s| :: IsPrime(s[i]) && s[i] <= b)
    && (forall q: nat | IsPrime(q) && q <= b :: q in s)
  }

  lemma SmallFactor(x: int) returns (q: nat)
    requires x >= 2 && !IsPrime(x)
    ensures IsPrime(q) && Divides(q, x) && q * q <= x
  {
    var d :| 1 < d < x && Divides(d, x);
    var e := Quotient(d, x);
    MulAtLeast(e, d);
    assert e >= 2 by {
      if e <= 0 {
        NonNegativeProduct(-e, d);
      }
    }
    var f := if d <= e then d else e;
    assert f * f <= x by {
      FactorSquare(d, e, f);
    }
    MultipleDivides(e, x, d);
    q := PrimeDivisor(f);
    DividesTransitive(q, f, x);
    DividesBound(q, f);
    FactorSquare(f, f, q);
  }

  lemma FactorSquare(d: int, e: int, f: int)
    requires 0 <= f <= d && f <= e
    ensures f * f <= d * e
  {
    NonNegativeProduct(f, e - f);
    NonNegativeProduct(d - f, e);
    assert f * (e - f) == f * e - f * f && (d - f) * e == d * e - f * e;
  }

  // ----- the window

  /** The odd number that entry i of the window stands for. */
  function Odd(start: nat, i: nat): nat {
    start + 1 + 2 * i
  }

  ghost predicate Survives(x: int, primes: seq<nat>, n: nat)
    requires n <= |primes| && forall k | 0 <= k < |primes| :: primes[k] > 0
  {
    forall k | 1 <= k < n :: !Divides(primes[k], x)
  }

  /** m is the first odd multiple of n beyond start. */
  ghost predicate IsFirstMultiple(m: int, start: nat, n: nat)
    requires n > 0
  {
    start < m <= start + 2 * n && m % 2 == 1 && Divides(n, m)
  }

  lemma FirstMultipleIs(start: nat, n: nat, q: nat, m: int)
    requires n > 0 && n % 2 == 1 && start % 2 == 0 && q == start / n && m == (q + 1) * n
    ensures IsFirstMultiple(if m % 2 == 0 then m + n else m, start, n)
  {
    NextMultiple(start, n);
    MultipleDivides(n, m, q + 1);
    assert m + n == (q + 2) * n;
    MultipleDivides(n, m + n, q + 2);
    OneIsOdd(m, n);
  }

  lemma NextMultiple(start: nat, n: nat)
    requires n > 0
    ensures start < (start / n + 1) * n <= start + n
  {
    DivModEquation(start, n);
    assert (start / n + 1) * n == (start / n) * n + n;
  }

  lemma OneIsOdd(m: int, n: int)
    requires n % 2 == 1
    ensures m % 2 == 0 ==> (m + n) % 2 == 1
    ensures m % 2 != 0 ==> m % 2 == 1
  {
  }

  /** i is one of offset, offset + n, offset + 2 n, ... below end. */
  ghost predicate InSlice(i: int, offset: nat, n: nat, end: int)
    requires n > 0
  {
    offset <= i < end && Divides(n, i - offset)
  }

  /** The multiples of n in the window are the entries a slice of stride n addresses. */
  lemma MultiplesAreSlice(start: nat, n: nat, i: nat, m: nat, x: nat)
    requires n > 0 && n % 2 == 1 && start % 2 == 0 && IsFirstMultiple(m, start, n) && x == Odd(start, i)
    ensures Divides(n, x) <==> i >= (m - start) / 2 && Divides(n, i - (m - start) / 2)
  {
    var h := (m - start) / 2;
    HalfDistance(start, m, i, x, h);
    MultipleNotBefore(start, n, m, x);
    SliceResidue(n, m, x, i, h);
  }

  lemma SliceResidue(n: nat, m: nat, x: nat, i: nat, h: int)
    requires n > 0 && n % 2 == 1 && Divides(n, m) && x - m == 2 * (i - h) && (Divides(n, x) ==> x >= m)
    ensures Divides(n, x) <==> i >= h && Divides(n, i - h)
  {
    SameResidue(n, m, x, i - h);
  }

  lemma HalfDistance(start: nat, m: int, i: nat, x: int, h: int)
    requires start % 2 == 0 && m % 2 == 1 && x == Odd(start, i) && h == (m - start) / 2
    ensures x - m == 2 * (i - h) && x % 2 == 1
  {
  }

  lemma MultipleNotBefore(start: nat, n: nat, m: nat, x: nat)
    requires n > 0 && n % 2 == 1 && IsFirstMultiple(m, start, n) && x > start && x % 2 == 1
    ensures Divides(n, x) ==> x >= m
  {
    if Divides(n, x) {
      NoMultipleBetween(start, n, m, x);
    }
  }

  lemma SameResidue(n: nat, m: int, x: int, y: int)
    requires n > 0 && n % 2 == 1 && Divides(n, m) && x - m == 2 * y
    ensures Divides(n, x) <==> Divides(n, y)
  {
    if Divides(n, x) {
      DividesCombination(n, x, m, 1, -1);
      CoprimeFromBezout(n, 2, 1, -(n / 2));
      EuclidLemma(n, 2, y);
    }
    if Divides(n, y) {
      DividesCombination(n, m, y, 1, 2);
    }
  }

  lemma CancelLess(q: int, k: int, n: int)
    requires n > 0 && q * n < k * n
    ensures q < k
  {
    assert (q - k) * n == q * n - k * n;
    NonNegativeProduct(if q >= k then q - k else 0, n);
  }

  lemma NoMultipleBetween(start: nat, n: nat, m: nat, x: nat)
    requires n > 0 && n % 2 == 1 && start < x && m <= start + 2 * n && Divides(n, m) && Divides(n, x)
    requires m % 2 == 1 && x % 2 == 1
    ensures x >= m
  {
    DividesCombination(n, m, x, 1, -1);
    var q := Quotient(n, m - x);
    CancelLess(q, 2, n);
    assert q * n == 2 * (q * (n / 2)) + q by {
      assert n == 2 * (n / 2) + 1;
      assert q * (2 * (n / 2) + 1) == 2 * (q * (n / 2)) + q;
    }
    assert q <= 0;
    NonNegativeProduct(-q, n);
    assert (-q) * n == -(q * n);
  }

  /** is_prime[std::slice(offset, size, n)] = false. */
  method ClearSlice(a: array<bool>, offset: nat, size: nat, n: nat)
    requires n > 0 && size > 0 && offset + (size - 1) * n < a.Length
    modifies a
    ensures forall i | 0 <= i < a.Length :: a[i] == (old(a[i]) && !InSlice(i, offset, n, offset + size * n))
  {
    var pos := offset;
    for t := 0 to size
      invariant pos == offset + t * n
      invariant forall i | 0 <= i < a.Length :: a[i] == (old(a[i]) && !InSlice(i, offset, n, pos))
    {
      SliceStep(n, t, size);
      a[pos] := false;
      SliceGrows(offset, n, t, pos);
      assert (t + 1) * n == t * n + n;
      pos := pos + n;
    }
  }

  lemma SliceStep(n: nat, t: nat, size: nat)
    requires n > 0 && t < size
    ensures t * n <= (size - 1) * n && t * n >= 0
  {
    NonNegativeProduct(size - 1 - t, n);
    NonNegativeProduct(t, n);
    assert (size - 1 - t) * n == (size - 1) * n - t * n;
  }

  /** Between t n and (t + 1) n only t n itself is a multiple of n. */
  lemma SliceGrows(offset: nat, n: nat, t: nat, pos: int)
    requires n > 0 && pos == offset + t * n
    ensures forall i :: InSlice(i, offset, n, pos + n) <==> i == pos || InSlice(i, offset, n, pos)
  {
    NonNegativeProduct(t, n);
    MultipleDivides(n, t * n, t);
    forall i
      ensures InSlice(i, offset, n, pos + n) <==> i == pos || InSlice(i, offset, n, pos)
    {
      if pos <= i < pos + n {
        DivModUnique(i - offset, t, i - pos, n);
      }
    }
  }

  /** The body of the marking loop: clears the odd multiples of n. */
  method ClearMultiples(a: array<bool>, start: nat, finish: nat, n: nat)
    requires start % 2 == 0 && start <= finish <= start + 2 * a.Length && n > 0 && n % 2 == 1
    modifies a
    ensures forall i | 0 <= i < a.Length && Odd(start, i) <= finish :: a[i] <==> old(a[i]) && !Divides(n, Odd(start, i))
  {
    var multiple := (start / n + 1) * n;
    FirstMultipleIs(start, n, start / n, multiple);
    if multiple % 2 == 0 {
      multiple := multiple + n;
    }
    if multiple <= finish {
      SliceFits(start, finish, multiple, n, a.Length);
      ClearSlice(a, (multiple - start) / 2, 1 + (finish - multiple) / (2 * n), n);
    }
    forall i | 0 <= i < a.Length && Odd(start, i) <= finish
      ensures a[i] <==> old(a[i]) && !Divides(n, Odd(start, i))
    {
      MultiplesAreSlice(start, n, i, multiple, Odd(start, i));
      if multiple <= finish {
        SliceEnd(start, finish, multiple, n, i);
      }
    }
  }

  /** Marks the multiples of the primes with index 1, 2, ... whose square is at most finish. */
  method MarkComposites(a: array<bool>, start: nat, finish: nat, primes: seq<nat>) returns (index: nat)
    requires start % 2 == 0 && start <= finish <= start + 2 * a.Length
    requires primes != [] && IsPrimeList(primes, primes[|primes| - 1]) && primes[0] == 2
    requires forall i | 0 <= i < a.Length :: a[i]
    modifies a
    ensures 1 <= index <= |primes|
    ensures index == |primes| || primes[index] * primes[index] > finish
    ensures forall i | 0 <= i < a.Length && Odd(start, i) <= finish :: a[i] <==> Survives(Odd(start, i), primes, index)
  {
    index := 1;
    while index < |primes| && primes[index] * primes[index] <= finish
      invariant 1 <= index <= |primes|
      invariant forall i | 0 <= i < a.Length && Odd(start, i) <= finish ::
        a[i] <==> Survives(Odd(start, i), primes, index)
      decreases |primes| - index
    {
      OddListed(primes, index);
      ghost var was := a[..];
      ClearMultiples(a, start, finish, primes[index]);
      assert forall i | 0 <= i < a.Length && Odd(start, i) <= finish :: a[i] <==> was[i] && !Divides(primes[index],
        Odd(start, i));
      index := index + 1;
    }
  }

  lemma OddListed(primes: seq<nat>, k: nat)
    requires 1 <= k < |primes| && IsPrimeList(primes, primes[|primes| - 1]) && primes[0] == 2
    ensures primes[k] % 2 == 1 && primes[k] > 2
  {
    assert !Divides(2, primes[k]);
  }

  lemma SliceFits(start: nat, finish: nat, m: nat, n: nat, length: nat)
    requires n > 0 && start % 2 == 0 && m % 2 == 1 && start < m <= finish <= start + 2 * length
    ensures (finish - m) / (2 * n) >= 0
    ensures (m - start) / 2 + ((finish - m) / (2 * n)) * n < length
  {
    HalfReach(finish - m, n);
  }

  lemma HalfReach(z: nat, n: nat)
    requires n > 0
    ensures z / (2 * n) >= 0 && 2 * ((z / (2 * n)) * n) <= z
  {
    FloorTimes(z, 2 * n);
    Regroup(z / (2 * n), n);
  }

  lemma FloorTimes(z: nat, d: nat)
    requires d > 0
    ensures z / d >= 0 && (z / d) * d <= z
  {
    DivModEquation(z, d);
  }

  lemma Regroup(t: int, n: int)
    ensures 2 * (t * n) == t * (2 * n)
  {
  }

  /** An entry of the window lies in the slice as soon as it is a multiple, for the slice reaches finish. */
  lemma SliceEnd(start: nat, finish: nat, m: nat, n: nat, i: nat)
    requires n > 0 && start % 2 == 0 && m % 2 == 1 && start < m <= finish && Odd(start, i) <= finish
    requires (finish - m) / (2 * n) >= 0
    ensures var c := (m - start) / 2;
      InSlice(i, c, n, c + (1 + (finish - m) / (2 * n)) * n) <==> i >= c && Divides(n, i - c)
  {
    var c, t := (m - start) / 2, (finish - m) / (2 * n);
    if i >= c && Divides(n, i - c) {
      var q := Quotient(n, i - c);
      WithinReach(n, q, t, finish - m);
    }
  }

  lemma WithinReach(n: int, q: int, t: int, z: int)
    requires n > 0 && z >= 0 && t == z / (2 * n) && 2 * (q * n) <= z
    ensures q * n < (1 + t) * n
  {
    DivModEquation(z, 2 * n);
    assert 2 * (q * n) == q * (2 * n);
    assert (t + 1) * (2 * n) == t * (2 * n) + 2 * n;
    CancelLess(q, t + 1, 2 * n);
    NonNegativeProduct(t - q, n);
    assert (1 + t) * n - q * n == (t - q) * n + n;
  }

  /** The list covers the square roots of the window, and index marks the first prime not needed for it. */
  ghost predicate WindowReady(primes: seq<nat>, index: nat, start: nat, finish: nat) {
    && 2 <= start <= finish && start % 2 == 0
    && primes != [] && IsPrimeList(primes, primes[|primes| - 1]) && IsPrimeList(primes, start) && primes[0] == 2
    && 1 <= index <= |primes| && (index == |primes| || primes[index] * primes[index] > finish)
    && (forall q: nat | IsPrime(q) && q * q <= finish :: q in primes)
  }

  /** What survives is prime: a composite number up to finish has a factor among the primes used. */
  lemma SurvivorsArePrimes(x: nat, primes: seq<nat>, index: nat, start: nat, finish: nat)
    requires WindowReady(primes, index, start, finish) && start < x <= finish && x % 2 == 1
    ensures Survives(x, primes, index) <==> IsPrime(x)
  {
    if !IsPrime(x) {
      var q := SmallFactor(x);
      var k :| 0 <= k < |primes| && primes[k] == q;
      assert !Divides(2, x);
      assert k != 0;
      if k >= index {
        FactorSquare(q, q, primes[index]);
      }
    }
  }

  /** Appends the numbers of the window that survived. */
  method CollectPrimes(a: array<bool>, start: nat, finish: nat, primes0: seq<nat>, ghost index: nat)
      returns (primes: seq<nat>)
    requires WindowReady(primes0, index, start, finish) && finish <= start + 2 * a.Length
    requires forall i | 0 <= i < a.Length && Odd(start, i) <= finish ::
      a[i] <==> Survives(Odd(start, i), primes0, index)
    ensures IsPrimeList(primes, finish) && primes0 <= primes
  {
    primes := primes0;
    var n := start + 1;
    ghost var i := 0;
    while n <= finish
      invariant n == Odd(start, i) <= finish + 2
      invariant IsPrimeList(primes, n - 1) && primes0 <= primes
      decreases finish + 2 - n
    {
      CollectNext(primes, start, i, n, primes0, index, finish, a[i]);
      if a[(n - start) / 2] {
        primes := primes + [n];
      }
      n := n + 2;
      i := i + 1;
    }
    WindowIndex(start, i, n);
    ListBound(primes, n - 1, finish);
  }

  lemma WindowIndex(start: nat, i: nat, n: nat)
    requires n == Odd(start, i) && start % 2 == 0
    ensures (n - start) / 2 == i && n % 2 == 1 && (n - 1) % 2 == 0
  {
  }

  lemma ExtendList(primes: seq<nat>, n: nat, isPrime: bool)
    requires n >= 3 && n % 2 == 1 && IsPrimeList(primes, n - 1) && (isPrime <==> IsPrime(n))
    ensures IsPrimeList(if isPrime then primes + [n] else primes, n + 1)
  {
    assert Divides(2, n + 1);
    assert !IsPrime(n + 1);
    var s := if isPrime then primes + [n] else primes;
    forall q: nat | IsPrime(q) && q <= n + 1
      ensures q in s
    {
    }
  }

  lemma ListBound(primes: seq<nat>, b: int, finish: int)
    requires IsPrimeList(primes, b) && finish <= b <= finish + 1 && (b == finish + 1 ==> b % 2 == 0 && b > 2)
    ensures IsPrimeList(primes, finish)
  {
    if b == finish + 1 {
      assert Divides(2, b);
      assert !IsPrime(b);
    }
  }

  // ----- the list of primes

  /** The ascending list of the primes up to b. */
  ghost function PrimesUpTo(b: int): seq<nat>
    decreases if b < 0 then 0 else b
  {
    if b < 2 then [] else if IsPrime(b) then PrimesUpTo(b - 1) + [b] else PrimesUpTo(b - 1)
  }

  lemma {:induction false} PrimesUpToIsList(b: int)
    ensures IsPrimeList(PrimesUpTo(b), b)
    decreases if b < 0 then 0 else b
  {
    if b >= 2 {
      PrimesUpToIsList(b - 1);
      NextIsListed(PrimesUpTo(b - 1), b);
    }
  }

  lemma NextIsListed(s: seq<nat>, b: int)
    requires b >= 2 && IsPrimeList(s, b - 1)
    ensures IsPrimeList(if IsPrime(b) then s + [b] else s, b)
  {
  }

  lemma {:induction false} ListIsUnique(s: seq<nat>, b: int)
    requires IsPrimeList(s, b)
    ensures s == PrimesUpTo(b)
    decreases if b < 0 then 0 else b
  {
    if s != [] {
      FirstListed(s, b);
    }
    if b >= 2 {
      if IsPrime(b) {
        GreatestIsLast(s, b);
        var k := |s| - 1;
        WithoutLast(s, b);
        ListIsUnique(s[..k], b - 1);
        assert s == s[..k] + [b];
      } else {
        NotListed(s, b);
        ListIsUnique(s, b - 1);
      }
    }
  }

  lemma FirstListed(s: seq<nat>, b: int)
    requires IsPrimeList(s, b) && s != []
    ensures b >= 2
  {
    assert IsPrime(s[0]) && s[0] <= b;
  }

  lemma NotListed(s: seq<nat>, b: int)
    requires IsPrimeList(s, b) && !IsPrime(b)
    ensures IsPrimeList(s, b - 1)
  {
  }

  lemma GreatestIsLast(s: seq<nat>, b: int)
    requires IsPrimeList(s, b) && b in s
    ensures s[|s| - 1] == b
  {
    var k :| 0 <= k < |s| && s[k] == b;
    assert s[k] <= s[|s| - 1] <= b;
  }

  lemma WithoutLast(s: seq<nat>, b: int)
    requires s != [] && IsPrimeList(s, b) && s[|s| - 1] == b
    ensures IsPrimeList(s[..|s| - 1], b - 1)
  {
    var t := s[..|s| - 1];
    forall q: nat | IsPrime(q) && q <= b - 1
      ensures q in t
    {
      var i :| 0 <= i < |s| && s[i] == q;
      assert t[i] == q;
    }
  }

  lemma {:induction false} PrimesUpToPrefix(b: int, c: int)
    requires b <= c
    ensures PrimesUpTo(b) <= PrimesUpTo(c)
    decreases c - b
  {
    if b < c {
      PrimesUpToPrefix(b, c - 1);
    }
  }

  /** A list of primes ends with its greatest, and is complete up to it. */
  lemma CompleteToLast(s: seq<nat>, b: int)
    requires s != [] && s == PrimesUpTo(b)
    ensures s == PrimesUpTo(s[|s| - 1]) && s[|s| - 1] <= b && IsPrime(s[|s| - 1])
  {
    PrimesUpToIsList(b);
    ListIsUnique(s, s[|s| - 1]);
  }

  lemma EvenStep(b: int)
    requires b >= 3 && b % 2 == 1
    ensures PrimesUpTo(b + 1) == PrimesUpTo(b)
  {
    assert Divides(2, b + 1);
    assert !IsPrime(b + 1);
  }

  const FIRST_TEN: seq<nat> := [2, 3, 5, 7, 11, 13, 17, 19, 23, 29]

  lemma SmallPrime(p: int)
    requires 2 <= p < 36
    requires (p == 2 || p % 2 != 0) && (p == 3 || p % 3 != 0) && (p == 5 || p % 5 != 0)
    ensures IsPrime(p)
  {
    if !IsPrime(p) {
      var q := SmallFactor(p);
      PrimeFactorBelowSix(q, p);
    }
  }

  lemma PrimeFactorBelowSix(q: nat, p: int)
    requires IsPrime(q) && q * q <= p < 36
    ensures q == 2 || q == 3 || q == 5
  {
    if q >= 6 {
      FactorSquare(q, q, 6);
    }
    assert Divides(2, 4);
    assert !IsPrime(4);
  }

  lemma PrimeIsListed(q: nat)
    requires IsPrime(q) && q <= 29
    ensures q in FIRST_TEN
  {
    assert q == 2 || !Divides(2, q);
    assert q == 3 || !Divides(3, q);
    assert q == 5 || !Divides(5, q);
  }

  lemma FirstTenPrimes()
    ensures PrimesUpTo(29) == FIRST_TEN
  {
    forall q: nat | q <= 29
      ensures IsPrime(q) <==> q in FIRST_TEN
    {
      if q in FIRST_TEN {
        SmallPrime(q);
      } else if IsPrime(q) {
        PrimeIsListed(q);
      }
    }
    ListIsUnique(FIRST_TEN, 29);
  }

  ghost predicate RootReaches(r: nat, x: nat) {
    x < (r + 1) * (r + 1)
  }

  /** The integer square root. */
  ghost function Root(x: nat): (r: nat)
    ensures r * r <= x && RootReaches(r, x)
  {
    RootExists(x);
    var r: nat :| r * r <= x && RootReaches(r, x);
    r
  }

  lemma {:induction false} RootExists(x: nat)
    ensures exists r: nat :: r * r <= x && RootReaches(r, x)
  {
    if x == 0 {
      assert RootReaches(0, 0);
    } else {
      RootExists(x - 1);
      var r: nat :| r * r <= x - 1 && RootReaches(r, x - 1);
      if (r + 1) * (r + 1) <= x {
        assert (r + 2) * (r + 2) == (r + 1) * (r + 1) + 2 * r + 3;
        assert RootReaches(r + 1, x);
      } else {
        assert RootReaches(r, x);
      }
    }
  }

  method FloorSqrt(x: nat) returns (r: nat)
    ensures r == Root(x)
    ensures x > 1 ==> r < x
  {
    r := 0;
    while (r + 1) * (r + 1) <= x
      invariant r * r <= x
      decreases x - r * r
    {
      r := r + 1;
    }
    BelowRoot(Root(x), r, x);
    BelowRoot(r, Root(x), x);
    if x > 1 {
      RootIsSmaller(r, x);
    }
  }

  lemma RootIsSmaller(r: nat, x: nat)
    requires r * r <= x && x > 1
    ensures r < x
  {
    if r >= 2 {
      FactorSquare(r, r, 2);
      NonNegativeProduct(r - 2, r);
      assert (r - 2) * r == r * r - 2 * r;
    }
  }

  lemma BelowRoot(q: nat, r: nat, x: nat)
    requires q * q <= x && RootReaches(r, x)
    ensures q <= r
  {
    if q >= r + 1 {
      FactorSquare(q, q, r + 1);
    }
  }

  lemma RootBelowStart(x: nat, r: nat, c: nat)
    requires RootReaches(r, x) && r <= c
    ensures RootReaches(c, x)
  {
    FactorSquare(c + 1, c + 1, r + 1);
  }

  lemma CollectNext(primes: seq<nat>, start: nat, i: nat, n: nat, primes0: seq<nat>, index: nat, finish: nat,
      mark: bool)
    requires WindowReady(primes0, index, start, finish) && n == Odd(start, i) <= finish && IsPrimeList(primes, n - 1)
    requires mark <==> Survives(n, primes0, index)
    ensures (n - start) / 2 == i && IsPrimeList(if mark then primes + [n] else primes, n + 1)
  {
    WindowIndex(start, i, n);
    SurvivorsArePrimes(n, primes0, index, start, finish);
    ExtendList(primes, n, mark);
  }

  /**
   One window: from the primes up to start, complete up to a bound c beyond the root of finish, to those up
   to finish.
   */
  method SieveWindow(isPrime: array<bool>, primes0: seq<nat>, start: nat, finish: nat, ghost c: nat)
      returns (primes: seq<nat>)
    requires start % 2 == 0 && 30 <= start <= finish <= start + 2 * isPrime.Length
    requires primes0 == PrimesUpTo(start) == PrimesUpTo(c) && RootReaches(c, finish)
    modifies isPrime
    ensures primes == PrimesUpTo(finish)
  {
    forall i | 0 <= i < isPrime.Length {
      isPrime[i] := true;
    }
    ListStart(primes0, start);
    var index := MarkComposites(isPrime, start, finish, primes0);
    assert WindowReady(primes0, index, start, finish) by {
      PrimesUpToIsList(start);
      PrimesUpToIsList(c);
      forall q: nat | IsPrime(q) && q * q <= finish
        ensures q in primes0
      {
        BelowRoot(q, c, finish);
      }
    }
    primes := CollectPrimes(isPrime, start, finish, primes0, index);
    ListIsUnique(primes, finish);
  }

  lemma ListStart(primes: seq<nat>, b: int)
    requires b >= 29 && primes == PrimesUpTo(b)
    ensures |primes| >= 10 && primes[..10] == FIRST_TEN && primes[0] == 2
    ensures IsPrimeList(primes, primes[|primes| - 1])
    ensures primes[|primes| - 1] % 2 == 1 && 29 <= primes[|primes| - 1] <= b
    ensures primes == PrimesUpTo(primes[|primes| - 1])
  {
    FirstTenPrimes();
    PrimesUpToPrefix(29, b);
    assert primes[..10] == FIRST_TEN;
    assert primes[..10][0] == 2 && primes[..10][9] == 29;
    PrimesUpToIsList(b);
    CompleteToLast(primes, b);
    PrimesUpToIsList(primes[|primes| - 1]);
    OddPrime(primes[|primes| - 1]);
  }

  /** The window starts at the even number after the last prime, and the list is complete up to there. */
  lemma NextStart(primes: seq<nat>, b: int)
    requires b >= 29 && primes == PrimesUpTo(b)
    ensures primes != [] && 29 <= primes[|primes| - 1] <= b
    ensures (primes[|primes| - 1] + 1) % 2 == 0
    ensures primes == PrimesUpTo(primes[|primes| - 1]) == PrimesUpTo(primes[|primes| - 1] + 1)
  {
    ListStart(primes, b);
    var last := primes[|primes| - 1];
    EvenStep(last);
    NextIsEven(last);
  }

  lemma NextIsEven(x: int)
    requires x % 2 == 1
    ensures (x + 1) % 2 == 0
  {
  }

  /** The greatest prime up to b. */
  ghost function LastPrime(b: nat): (p: nat)
    requires b >= 29
    ensures 29 <= p <= b
  {
    NextStart(PrimesUpTo(b), b);
    PrimesUpTo(b)[|PrimesUpTo(b)| - 1]
  }

  /**
   The limit lies within one window after the last prime that is known when the windows begin, which is the
   last one up to the root of the limit if that lies beyond the list.
   */
  ghost predicate WithinWindow(limit: nat, last: nat, segment: nat)
    requires last >= 29
  {
    limit <= LastPrime(Max(Root(limit), last)) + 1 + 2 * segment
  }

  /** The recursive call for the root stays within its window. */
  lemma RootWithinWindow(limit: nat, last: nat, segment: nat)
    requires last >= 29 && WithinWindow(limit, last, segment) && Root(limit) > last
    ensures WithinWindow(Root(limit), last, segment)
  {
    RootIsShort(Root(limit), limit, segment);
  }

  lemma RootIsShort(r: nat, limit: nat, segment: nat)
    requires r >= 2 && r * r <= limit <= r + 1 + 2 * segment
    ensures r <= 1 + 2 * segment
  {
    NonNegativeProduct(r - 2, r);
    assert (r - 2) * r == r * r - 2 * r;
  }

  /** The windows may begin at start: the list is complete up to there and up to a bound c beyond the root. */
  ghost predicate ReadyFor(primes: seq<nat>, limit: nat, start: nat, c: nat, segment: nat) {
    && start % 2 == 0 && 30 <= start <= limit <= start + 2 * segment && segment > 0
    && primes == PrimesUpTo(start) == PrimesUpTo(c) && RootReaches(c, limit)
  }

  lemma WindowStart(primes: seq<nat>, limit: nat, last: nat, segment: nat, root: nat)
    requires last >= 29 && root == Root(limit) && primes == PrimesUpTo(Max(root, last))
    requires WithinWindow(limit, last, segment) && limit > last + 1
    ensures primes != [] && ReadyFor(primes, limit, primes[|primes| - 1] + 1, Max(root, last), segment)
  {
    NextStart(primes, Max(root, last));
    RootBelowStart(limit, root, Max(root, last));
    RootIsSmaller(root, limit);
  }

  /** A window reaches the limit, and at most one more begins there. */
  lemma NextWindow(start0: nat, start: nat, limit: nat, segment: nat, finish: nat)
    requires start0 <= start <= limit <= start0 + 2 * segment && segment > 0 && start % 2 == 0
    requires start == start0 || start == limit
    requires finish == if start + segment * 2 + 1 < limit then start + segment * 2 + 1 else limit
    ensures finish == limit <= start + 2 * segment
    ensures (start + 2 * segment) % 2 == 0
    ensures start + 2 * segment <= limit ==> start + 2 * segment == limit
  {
  }

  class Sieve {
    var primes: seq<nat>
    var segment: nat
    var clears: bool

    /** The list holds exactly the primes up to its last element. */
    ghost predicate Valid()
      reads this
    {
      && |primes| >= 10 && primes[|primes| - 1] >= 29
      && primes == PrimesUpTo(primes[|primes| - 1])
    }

    constructor ()
      ensures Valid() && primes == FIRST_TEN && segment == 32 * 1024 * 8
    {
      primes := FIRST_TEN;
      segment := 32 * 1024 * 8;
      clears := true;
      new;
      FirstTenPrimes();
    }

    method Clear()
      requires Valid()
      modifies this`primes
      ensures Valid() && primes == FIRST_TEN
    {
      ListStart(primes, primes[|primes| - 1]);
      primes := primes[..10];
      FirstTenPrimes();
    }

    /** _extend: after it the list holds exactly the primes up to limit, or what it held before if that is more. */
    method Extend(limit: nat)
      requires Valid() && WithinWindow(limit, primes[|primes| - 1], segment)
      modifies this`primes
      ensures Valid() && primes == PrimesUpTo(Max(limit, old(primes[|primes| - 1])))
      decreases limit
    {
      ghost var last := primes[|primes| - 1];
      var sqrtLimit := FloorSqrt(limit);
      var start := primes[|primes| - 1] + 1;
      NextStart(primes, last);
      if limit <= start {
        return;
      }
      if sqrtLimit >= start {
        RootWithinWindow(limit, last, segment);
        Extend(sqrtLimit);
        start := primes[|primes| - 1] + 1;
      }
      WindowStart(primes, limit, last, segment, sqrtLimit);
      SieveWindows(limit, start, Max(sqrtLimit, last));
    }

    /** The loop over the windows. */
    method SieveWindows(limit: nat, start0: nat, ghost c: nat)
      requires ReadyFor(primes, limit, start0, c, segment)
      modifies this`primes
      ensures Valid() && primes == PrimesUpTo(limit)
    {
      var start := start0;
      var isPrime := new bool[segment];
      while start <= limit
        invariant start % 2 == 0 && start0 <= start
        invariant start <= limit ==> start == start0 || start == limit
        invariant start <= limit && start == start0 ==> primes == PrimesUpTo(c)
        invariant primes == PrimesUpTo(if start <= limit then start else limit)
        decreases limit + 1 - start
      {
        var finish := if start + segment * 2 + 1 < limit then start + segment * 2 + 1 else limit;
        NextWindow(start0, start, limit, segment, finish);
        primes := SieveWindow(isPrime, primes, start, finish, if start == start0 then c else start);
        start := start + 2 * segment;
      }
      ListStart(primes, limit);
    }

    /** generate_primes: returns exactly the primes up to limit. */
    method GeneratePrimes(limit: nat) returns (result: seq<nat>)
      requires Valid() && WithinWindow(limit, primes[|primes| - 1], segment)
      modifies this`primes
      ensures Valid() && result == PrimesUpTo(limit)
    {
      ghost var last := primes[|primes| - 1];
      Extend(limit);
      result := UpToLimit(primes, limit, Max(limit, last));
      if clears {
        Clear();
      }
    }
  }

  /** Copies the elements up to limit. */
  method UpToLimit(primes: seq<nat>, limit: nat, ghost b: nat) returns (result: seq<nat>)
    requires primes == PrimesUpTo(b) && limit <= b
    ensures result == PrimesUpTo(limit)
  {
    PrimesUpToIsList(b);
    var it := 0;
    while it < |primes| && primes[it] <= limit
      invariant 0 <= it <= |primes| && forall i | 0 <= i < it :: primes[i] <= limit
    {
      it := it + 1;
    }
    result := primes[..it];
    PrefixIsList(primes, b, it, limit);
  }

  lemma PrefixIsList(primes: seq<nat>, b: nat, n: nat, limit: nat)
    requires IsPrimeList(primes, b) && limit <= b && n <= |primes| && (n < |primes| ==> primes[n] > limit)
    requires forall i | 0 <= i < n :: primes[i] <= limit
    ensures primes[..n] == PrimesUpTo(limit)
  {
    var result := primes[..n];
    forall q: nat | IsPrime(q) && q <= limit
      ensures q in result
    {
      var k :| 0 <= k < |primes| && primes[k] == q;
      assert result[k] == q;
    }
    ListIsUnique(result, limit);
  }

  // ----- the end of the window

  /** Whether collecting the primes from start to finish stays inside the window. */
  ghost predicate StaysInside(start: nat, finish: nat, segment: nat) {
    forall n: nat | start < n <= finish && n % 2 == 1 :: (n - start) / 2 < segment
  }

  /**
   With finish = min(start + 2 segment + 1, limit) the last odd number of a full window is one too far:
   the array is read out of range exactly when limit exceeds start + 2 segment.
   */
  lemma WindowOverrun(start: nat, segment: nat, limit: nat)
    requires start % 2 == 0
    ensures var finish := if start + segment * 2 + 1 < limit then start + segment * 2 + 1 else limit;
      StaysInside(start, finish, segment) <==> limit <= start + 2 * segment
  {
    var finish := if start + segment * 2 + 1 < limit then start + segment * 2 + 1 else limit;
    if limit > start + 2 * segment {
      var n := start + 2 * segment + 1;
      assert n <= finish && n % 2 == 1 && (n - start) / 2 == segment;
    }
  }
}
