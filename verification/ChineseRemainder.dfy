/** crt of src/ntheory.cpp: simultaneous congruences, with moduli that need not be coprime. */
module ChineseRemainder {
  import opened Common
  import opened ModArith

  datatype Outcome = Returned(solvable: bool) | RuntimeError(message: string)

  ghost predicate Positive(mod: seq<int>) {
    forall j | 0 <= j < |mod| :: mod[j] > 0
  }

  ghost predicate Nonzero(mod: seq<int>) {
    forall j | 0 <= j < |mod| :: mod[j] != 0
  }

  /** A congruence modulo a negative number is one modulo its absolute value. */
  ghost function Sizes(mod: seq<int>): (s: seq<int>)
    requires Nonzero(mod)
    ensures |s| == |mod| && Positive(s) && forall j | 0 <= j < |s| :: s[j] == Abs(mod[j])
  {
    seq(|mod|, j requires 0 <= j < |mod| => Abs(mod[j]))
  }

  /** x satisfies the first n congruences. */
  ghost predicate Solves(x: int, rem: seq<int>, mod: seq<int>, n: nat)
    requires n <= |mod| <= |rem| && Positive(mod)
  {
    forall j | 0 <= j < n :: Cong(x, rem[j], mod[j])
  }

  ghost predicate CommonMultiple(z: int, mod: seq<int>, n: nat)
    requires n <= |mod| && Positive(mod)
  {
    forall j | 0 <= j < n :: Divides(mod[j], z)
  }

  /** m generates the common multiples of the first n moduli. */
  ghost predicate IsLcm(m: int, mod: seq<int>, n: nat)
    requires n <= |mod| && Positive(mod)
  {
    m > 0 && CommonMultiple(m, mod, n) && forall z | CommonMultiple(z, mod, n) :: Divides(m, z)
  }

  /** The solutions of the first n congruences are exactly r + m Z. */
  ghost predicate Represents(r: int, m: int, rem: seq<int>, mod: seq<int>, n: nat)
    requires n <= |mod| <= |rem| && Positive(mod)
  {
    IsLcm(m, mod, n) && forall x :: Solves(x, rem, mod, n) <==> Cong(x, r, m)
  }

  /** The multiples of both m and n are the multiples of m (n / gcd). */
  lemma QuotientMultiple(m: int, n: int, g: int, h: int, l: int)
    requires m > 0 && n > 0 && g == Gcd(m, n) && g > 0 && h == n / g && l == m * h
    ensures h > 0 && l > 0 && n == h * g && Divides(g, m) && Divides(m, l) && Divides(n, l)
  {
    GcdDivides(m, n);
    DividesBound(g, n);
    DividesBound(g, m);
    var k := Quotient(g, m);
    DivModEquation(n, g);
    MulAtLeast(h, m);
    MultipleDivides(m, l, h);
    CrossProduct(k, g, h, m, n);
    MultipleDivides(n, l, k);
  }

  lemma CrossProduct(k: int, g: int, h: int, m: int, n: int)
    requires m == k * g && n == h * g
    ensures m * h == k * n
  {
    assert (k * g) * h == k * (h * g);
  }

  lemma JointMultiples(m: int, n: int, z: int)
    requires m > 0 && n > 0
    ensures Gcd(m, n) > 0 && m * (n / Gcd(m, n)) > 0
    ensures Divides(m * (n / Gcd(m, n)), z) <==> Divides(m, z) && Divides(n, z)
  {
    GcdPositive(m, n);
    var g, h, l := Gcd(m, n), n / Gcd(m, n), m * (n / Gcd(m, n));
    QuotientMultiple(m, n, g, h, l);
    if Divides(l, z) {
      DividesTransitive(m, l, z);
      DividesTransitive(n, l, z);
    }
    if Divides(m, z) && Divides(n, z) {
      var a := Quotient(m, z);
      var b := Quotient(n, z);
      var s, t := Bezout(m, n);
      LcmQuotient(m, n, g, h, z, a, b, s, t);
      MultipleDivides(l, z, b * s + a * t);
    }
  }

  lemma LcmQuotient(m: int, n: int, g: int, h: int, z: int, a: int, b: int, s: int, t: int)
    requires g > 0 && n == h * g && s * m + t * n == g && z == a * m && z == b * n
    ensures z == (b * s + a * t) * (m * h)
  {
    calc {
      z * g;
      z * (s * m + t * n);
      (b * n) * (s * m) + (a * m) * (t * n);
      (b * s) * (m * n) + (a * t) * (m * n);
      (b * s + a * t) * (m * n);
      ((b * s + a * t) * (m * h)) * g;
    }
    CancelFactor(z, (b * s + a * t) * (m * h), g);
  }

  lemma CancelFactor(a: int, b: int, g: int)
    requires g > 0 && a * g == b * g
    ensures a == b
  {
    assert (a - b) * g == 0;
    MulAtLeast(a - b, g);
  }

  lemma NextLcm(m: int, mod: seq<int>, n: nat)
    requires n < |mod| && Positive(mod) && IsLcm(m, mod, n)
    ensures Gcd(m, mod[n]) > 0 && IsLcm(m * (mod[n] / Gcd(m, mod[n])), mod, n + 1)
  {
    GcdPositive(m, mod[n]);
    var l := m * (mod[n] / Gcd(m, mod[n]));
    JointMultiples(m, mod[n], l);
    MultipleDivides(l, l, 1);
    forall j | 0 <= j < n
      ensures Divides(mod[j], l)
    {
      DividesTransitive(mod[j], m, l);
    }
    forall z | CommonMultiple(z, mod, n + 1)
      ensures Divides(l, z)
    {
      assert CommonMultiple(z, mod, n);
      JointMultiples(m, mod[n], z);
    }
  }

  /** A common solution exists only if the gcd divides the difference of the remainders. */
  lemma NoSolution(x: int, r: int, m: int, a: int, n: int)
    requires m > 0 && n > 0 && Cong(x, r, m) && Cong(x, a, n)
    ensures Gcd(m, n) > 0 && Divides(Gcd(m, n), a - r)
  {
    GcdDivides(m, n);
    var g := Gcd(m, n);
    DividesTransitive(g, m, x - r);
    DividesTransitive(g, n, x - a);
    DividesCombination(g, x - r, x - a, 1, -1);
  }

  lemma CongBySize(a: int, b: int, n: int, q: int)
    requires n != 0 && a == b + q * n
    ensures Cong(a, b, Abs(n))
  {
    CongBy(a, b, Abs(n), if n > 0 then q else -q);
  }

  /** The combined remainder satisfies both congruences. */
  lemma Combine(r: int, m: int, a: int, n: int, g: int, s: int, t: int)
    requires m != 0 && n != 0 && g > 0 && s * m + t * n == g && Divides(g, a - r)
    ensures Cong(r + m * s * ((a - r) / g), r, Abs(m))
    ensures Cong(r + m * s * ((a - r) / g), a, Abs(n))
  {
    var q := (a - r) / g;
    DivModEquation(a - r, g);
    assert m * s * q == (s * q) * m;
    CongBySize(r + m * s * q, r, m, s * q);
    assert q * g == q * (s * m) + q * (t * n);
    assert m * s * q == (a - r) + (-(t * q)) * n;
    CongBySize(r + m * s * q, a, n, -(t * q));
  }

  lemma DividesSize(d: int, x: int)
    requires d > 0
    ensures Divides(d, x) <==> Divides(d, Abs(x))
  {
    if Divides(d, x) {
      var q := Quotient(d, x);
      MultipleDivides(d, -x, -q);
    }
    if Divides(d, -x) {
      var q := Quotient(d, -x);
      MultipleDivides(d, x, -q);
    }
  }

  lemma GcdOfSizes(a: int, b: int)
    requires a != 0 && b != 0
    ensures Gcd(a, b) == Gcd(Abs(a), Abs(b)) > 0
  {
    var g, h := Gcd(a, b), Gcd(Abs(a), Abs(b));
    GcdDivides(a, b);
    GcdDivides(Abs(a), Abs(b));
    DividesSize(g, a);
    DividesSize(g, b);
    DividesSize(h, a);
    DividesSize(h, b);
    GcdGreatest(Abs(a), Abs(b), g);
    GcdGreatest(a, b, h);
    DividesBound(g, h);
    DividesBound(h, g);
  }

  /** The modulus after a step, with its sign. */
  lemma NextModulus(m: int, n: int, g: int)
    requires m != 0 && n != 0 && g == Gcd(m, n)
    ensures g == Gcd(Abs(m), Abs(n)) > 0 && Abs(m * (n / g)) == Abs(m) * (Abs(n) / g)
    ensures m * (n / g) != 0 && (m * (n / g) > 0 <==> (m > 0) == (n > 0))
  {
    GcdOfSizes(m, n);
    GcdDivides(m, n);
    var q := Quotient(g, n);
    SizeOfQuotient(n, q, g);
    SizeOfProduct(m, n, q, g);
  }

  lemma SizeOfQuotient(n: int, q: int, g: int)
    requires g > 0 && n == q * g
    ensures n / g == q && Abs(n) / g == if n > 0 then q else -q
  {
    ExactQuotient(n, q, g);
    ExactQuotient(Abs(n), if n > 0 then q else -q, g);
  }

  lemma SizeOfProduct(m: int, n: int, q: int, g: int)
    requires m != 0 && n != 0 && n == q * g && g > 0
    ensures m * q != 0 && Abs(m * q) == Abs(m) * (if n > 0 then q else -q) && (m * q > 0 <==> (m > 0) == (n > 0))
  {
    MulAtLeast(q, g);
    assert n > 0 ==> q >= 1;
    assert n < 0 ==> q <= -1;
    MulAtLeast(Abs(m), Abs(q));
    assert m * q == if (m > 0) == (q > 0) then Abs(m) * Abs(q) else -(Abs(m) * Abs(q));
  }

  /** mpz_fdiv_r: the remainder has the sign of the divisor. */
  function FloorMod(r: int, m: int): int
    requires m != 0
  {
    if m > 0 then r % m else -(-r % -m)
  }

  lemma FloorModCong(r: int, m: int)
    requires m != 0
    ensures Cong(r, FloorMod(r, m), Abs(m))
    ensures if m > 0 then 0 <= FloorMod(r, m) < m else m < FloorMod(r, m) <= 0
  {
    DivModEquation(if m > 0 then r else -r, Abs(m));
    if m > 0 {
      CongBy(r, r % m, m, r / m);
    } else {
      CongBySize(r, FloorMod(r, m), m, -r / -m);
    }
  }

  lemma NextRepresents(r: int, m: int, rem: seq<int>, mod: seq<int>, n: nat, r': int)
    requires n < |mod| <= |rem| && Positive(mod) && Represents(r, m, rem, mod, n)
    requires Cong(r', r, m) && Cong(r', rem[n], mod[n])
    ensures Gcd(m, mod[n]) > 0 && m * (mod[n] / Gcd(m, mod[n])) > 0
    ensures Represents(r', m * (mod[n] / Gcd(m, mod[n])), rem, mod, n + 1)
  {
    GcdPositive(m, mod[n]);
    var l := m * (mod[n] / Gcd(m, mod[n]));
    NextLcm(m, mod, n);
    CongSymmetric(r', r, m);
    CongSymmetric(r', rem[n], mod[n]);
    forall x
      ensures Solves(x, rem, mod, n + 1) <==> Cong(x, r', l)
    {
      JointMultiples(m, mod[n], x - r');
      assert Solves(x, rem, mod, n + 1) <==> Solves(x, rem, mod, n) && Cong(x, rem[n], mod[n]);
      Shift(x, r, r', m);
      Shift(x, rem[n], r', mod[n]);
    }
  }

  lemma Shift(x: int, a: int, b: int, n: int)
    requires n > 0 && Cong(a, b, n)
    ensures Cong(x, a, n) <==> Cong(x, b, n)
  {
    CongSymmetric(a, b, n);
    if Cong(x, a, n) {
      CongTransitive(x, a, b, n);
    }
    if Cong(x, b, n) {
      CongTransitive(x, b, a, n);
    }
  }

  lemma ReduceRepresents(r: int, r': int, m: int, rem: seq<int>, mod: seq<int>, n: nat)
    requires n <= |mod| <= |rem| && Positive(mod) && Represents(r, m, rem, mod, n) && Cong(r, r', m)
    ensures Represents(r', m, rem, mod, n)
  {
    forall x
      ensures Solves(x, rem, mod, n) <==> Cong(x, r', m)
    {
      Shift(x, r, r', m);
    }
  }

  lemma FirstRepresents(rem: seq<int>, mod: seq<int>)
    requires 0 < |mod| <= |rem| && Positive(mod)
    ensures Represents(rem[0], mod[0], rem, mod, 1)
  {
    MultipleDivides(mod[0], mod[0], 1);
  }

  /** mpz_gcdext. */
  method GcdExt(a: int, b: int) returns (g: int, s: int, t: int)
    requires a != 0 && b != 0
    ensures g == Gcd(a, b) > 0 && s * a + t * b == g
  {
    GcdPositive(a, b);
    g, s, t := ExtendedEuclid(a, b);
  }

  method ExtendedEuclid(a: int, b: int) returns (g: int, s: int, t: int)
    ensures g == Gcd(a, b) && s * a + t * b == g
    decreases Abs(b)
  {
    if b == 0 {
      return Abs(a), if a < 0 then -1 else 1, 0;
    }
    var u, v;
    g, u, v := ExtendedEuclid(b, a % b);
    s, t := v, u - v * (a / b);
    BezoutStep(a, b, a / b, a % b, u, v);
  }

  /** One round of the loop: the next congruence has no solution with the others, or is combined with them. */
  method CrtRound(r: int, m: int, rem: seq<int>, mod: seq<int>, i: nat) returns (solvable: bool, r': int, m': int)
    requires 0 < i < |mod| <= |rem| && Nonzero(mod) && m != 0 && Represents(r, Abs(m), rem, Sizes(mod), i)
    ensures !solvable ==> forall x :: !Solves(x, rem, Sizes(mod), |mod|)
    ensures solvable ==> m' != 0 && Represents(r', Abs(m'), rem, Sizes(mod), i + 1)
    ensures solvable ==> if m' > 0 then 0 <= r' < m' else m' < r' <= 0
    ensures solvable ==> (m' > 0 <==> (m > 0) == (mod[i] > 0))
  {
    ghost var sizes := Sizes(mod);
    var g, s, t := GcdExt(m, mod[i]);
    NextModulus(m, mod[i], g);
    var d := rem[i] - r;
    if d % g != 0 {
      forall x
        ensures !Solves(x, rem, sizes, |mod|)
      {
        Unsolvable(x, r, Abs(m), rem, sizes, i);
      }
      return false, r, m;
    }
    Combine(r, m, rem[i], mod[i], g, s, t);
    NextRepresents(r, Abs(m), rem, sizes, i, r + m * s * (d / g));
    r' := r + m * s * (d / g);
    m' := m * (mod[i] / g);
    FloorModCong(r', m');
    ReduceRepresents(r', FloorMod(r', m'), Abs(m'), rem, sizes, i + 1);
    r' := FloorMod(r', m');
    solvable := true;
  }

  /** The product of the first n moduli, none of them 0, is positive. */
  ghost predicate PositiveProduct(mod: seq<int>, n: nat)
    requires n <= |mod|
  {
    n == 0 || (mod[n - 1] > 0) == PositiveProduct(mod, n - 1)
  }

  /** Positive moduli have a positive product. */
  lemma {:induction false} AllPositiveProduct(mod: seq<int>, n: nat)
    requires n <= |mod| && Positive(mod)
    ensures PositiveProduct(mod, n)
  {
    if n > 0 {
      AllPositiveProduct(mod, n - 1);
    }
  }

  /**
   crt: it returns true exactly when the congruences have a common solution, and then the result stands
   for all of them modulo the least common multiple of the moduli.  With two or more moduli the result is
   the one solution less than that multiple in size that has the sign of the product of the moduli.
   */
  method Crt(rem: seq<int>, mod: seq<int>) returns (outcome: Outcome, R: int, ghost lcm: int)
    requires Nonzero(mod)
    ensures outcome.RuntimeError? <==> |mod| > |rem| || |mod| == 0
    ensures outcome.Returned? ==> (outcome.solvable <==> exists x :: Solves(x, rem, Sizes(mod), |mod|))
    ensures outcome.Returned? && outcome.solvable ==> Represents(R, lcm, rem, Sizes(mod), |mod|)
    ensures outcome.Returned? && outcome.solvable && |mod| == 1 ==> R == rem[0]
    ensures outcome.Returned? && outcome.solvable && |mod| >= 2 ==>
      if PositiveProduct(mod, |mod|) then 0 <= R < lcm else -lcm < R <= 0
  {
    if |mod| > |rem| {
      return RuntimeError("Too few remainders"), 0, 0;
    }
    if |mod| == 0 {
      return RuntimeError("Moduli vector cannot be empty"), 0, 0;
    }
    var m, r := mod[0], rem[0];
    FirstRepresents(rem, Sizes(mod));
    for i := 1 to |mod|
      invariant m != 0 && Represents(r, Abs(m), rem, Sizes(mod), i)
      invariant i >= 2 ==> if m > 0 then 0 <= r < m else m < r <= 0
      invariant i == 1 ==> r == rem[0]
      invariant m > 0 <==> PositiveProduct(mod, i)
    {
      var solvable;
      solvable, r, m := CrtRound(r, m, rem, mod, i);
      if !solvable {
        return Returned(false), 0, 0;
      }
    }
    CongReflexive(r, Abs(m));
    assert Solves(r, rem, Sizes(mod), |mod|);
    return Returned(true), r, Abs(m);
  }

  lemma Unsolvable(x: int, r: int, m: int, rem: seq<int>, mod: seq<int>, i: nat)
    requires i < |mod| <= |rem| && Positive(mod) && Represents(r, m, rem, mod, i)
    requires Gcd(m, mod[i]) > 0 && !Divides(Gcd(m, mod[i]), rem[i] - r)
    ensures !Solves(x, rem, mod, |mod|)
  {
    if Solves(x, rem, mod, |mod|) {
      assert Solves(x, rem, mod, i);
      NoSolution(x, r, m, rem[i], mod[i]);
      assert false;
    }
  }
}
