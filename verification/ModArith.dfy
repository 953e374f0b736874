/** Euclidean division and congruences. */
module ModArith {
  import opened Common

  lemma MulAtLeast(k: int, d: int)
    requires d > 0
    ensures k >= 1 ==> k * d >= d
    ensures k <= -1 ==> k * d <= -d
  {
    if k >= 1 {
      assert k * d == (k - 1) * d + d;
      NonNegativeProduct(k - 1, d);
    } else if k <= -1 {
      assert (-k) * d == (-k - 1) * d + d;
      NonNegativeProduct(-k - 1, d);
      assert k * d == -((-k) * d);
    }
  }

  lemma NonNegativeProduct(a: int, b: int)
    requires a >= 0 && b >= 0
    ensures a * b >= 0
  {
  }

  lemma Associative(a: int, b: int, c: int)
    ensures a * (b * c) == (a * b) * c
  {
  }

  lemma DivModUnique(x: int, q: int, r: int, d: int)
    requires d > 0 && x == q * d + r && 0 <= r < d
    ensures x / d == q && x % d == r
  {
    var k := q - x / d;
    assert x == d * (x / d) + x % d;
    assert k * d == q * d - (x / d) * d;
    MulAtLeast(k, d);
  }

  lemma ExactQuotient(a: int, q: int, d: int)
    requires d > 0 && a == q * d
    ensures a % d == 0 && a / d == q
  {
    DivModUnique(a, q, 0, d);
  }

  lemma DivModEquation(x: int, d: int)
    requires d != 0
    ensures x == (x / d) * d + x % d
  {
  }

  ghost predicate Divides(d: int, x: int)
    requires d > 0
  {
    x % d == 0
  }

  lemma Quotient(d: int, x: int) returns (q: int)
    requires d > 0 && Divides(d, x)
    ensures x == q * d
  {
    q := x / d;
    DivModEquation(x, d);
  }

  lemma MultipleDivides(d: int, x: int, q: int)
    requires d > 0 && x == q * d
    ensures Divides(d, x)
  {
    ExactQuotient(x, q, d);
  }

  lemma DividesTransitive(c: int, d: int, x: int)
    requires c > 0 && d > 0 && Divides(c, d) && Divides(d, x)
    ensures Divides(c, x)
  {
    var q := Quotient(c, d);
    var r := Quotient(d, x);
    assert x == (r * q) * c by {
      assert r * (q * c) == (r * q) * c;
    }
    MultipleDivides(c, x, r * q);
  }

  lemma DividesCombination(d: int, x: int, y: int, s: int, t: int)
    requires d > 0 && Divides(d, x) && Divides(d, y)
    ensures Divides(d, s * x + t * y)
  {
    var a := Quotient(d, x);
    var b := Quotient(d, y);
    assert s * x + t * y == (s * a + t * b) * d by {
      assert s * (a * d) == (s * a) * d && t * (b * d) == (t * b) * d;
    }
    MultipleDivides(d, s * x + t * y, s * a + t * b);
  }

  lemma DividesBound(d: int, x: int)
    requires d > 0 && x > 0 && Divides(d, x)
    ensures d <= x && x / d > 0
  {
    DivModEquation(x, d);
    if x / d <= 0 {
      NonNegativeProduct(-(x / d), d);
      assert (-(x / d)) * d == -((x / d) * d);
    }
    MulAtLeast(x / d, d);
  }

  // ----- congruences

  ghost predicate Cong(a: int, b: int, n: int)
    requires n > 0
  {
    Divides(n, a - b)
  }

  lemma CongBy(a: int, b: int, n: int, q: int)
    requires n > 0 && a == b + q * n
    ensures Cong(a, b, n)
  {
    MultipleDivides(n, a - b, q);
  }

  lemma CongWitness(a: int, b: int, n: int) returns (q: int)
    requires n > 0 && Cong(a, b, n)
    ensures a == b + q * n
  {
    q := Quotient(n, a - b);
  }

  lemma CongIffSameRemainder(a: int, b: int, n: int)
    requires n > 0
    ensures Cong(a, b, n) <==> a % n == b % n
  {
    DivModEquation(a, n);
    DivModEquation(b, n);
    if Cong(a, b, n) {
      var q := CongWitness(a, b, n);
      assert a == (b / n + q) * n + b % n by {
        assert (b / n + q) * n == (b / n) * n + q * n;
      }
      DivModUnique(a, b / n + q, b % n, n);
    }
    if a % n == b % n {
      assert a == b + (a / n - b / n) * n by {
        assert (a / n - b / n) * n == (a / n) * n - (b / n) * n;
      }
      CongBy(a, b, n, a / n - b / n);
    }
  }

  lemma CongRemainder(a: int, n: int)
    requires n > 0
    ensures Cong(a % n, a, n) && Cong(a, a % n, n)
  {
    DivModUnique(a % n, 0, a % n, n);
    CongIffSameRemainder(a % n, a, n);
    CongIffSameRemainder(a, a % n, n);
  }

  lemma CongReflexive(a: int, n: int)
    requires n > 0
    ensures Cong(a, a, n)
  {
    CongBy(a, a, n, 0);
  }

  lemma CongSymmetric(a: int, b: int, n: int)
    requires n > 0 && Cong(a, b, n)
    ensures Cong(b, a, n)
  {
    CongIffSameRemainder(a, b, n);
    CongIffSameRemainder(b, a, n);
  }

  lemma CongTransitive(a: int, b: int, c: int, n: int)
    requires n > 0 && Cong(a, b, n) && Cong(b, c, n)
    ensures Cong(a, c, n)
  {
    CongIffSameRemainder(a, b, n);
    CongIffSameRemainder(b, c, n);
    CongIffSameRemainder(a, c, n);
  }

  lemma CongAdd(a: int, b: int, c: int, d: int, n: int)
    requires n > 0 && Cong(a, b, n) && Cong(c, d, n)
    ensures Cong(a + c, b + d, n) && Cong(a - c, b - d, n)
  {
    var q := CongWitness(a, b, n);
    var r := CongWitness(c, d, n);
    assert (q + r) * n == q * n + r * n && (q - r) * n == q * n - r * n;
    CongBy(a + c, b + d, n, q + r);
    CongBy(a - c, b - d, n, q - r);
  }

  lemma CongMul(a: int, b: int, c: int, d: int, n: int)
    requires n > 0 && Cong(a, b, n) && Cong(c, d, n)
    ensures Cong(a * c, b * d, n)
  {
    var q := CongWitness(a, b, n);
    var r := CongWitness(c, d, n);
    MulExpand(b, q, d, r, n);
    CongBy(a * c, b * d, n, b * r + q * d + q * r * n);
  }

  lemma MulExpand(b: int, q: int, d: int, r: int, n: int)
    ensures (b + q * n) * (d + r * n) == b * d + (b * r + q * d + q * r * n) * n
  {
    assert (b + q * n) * (d + r * n) == b * d + b * (r * n) + (q * n) * d + (q * n) * (r * n);
    assert b * (r * n) == (b * r) * n && (q * n) * d == (q * d) * n && (q * n) * (r * n) == (q * r * n) * n;
    assert (b * r + q * d + q * r * n) * n == (b * r) * n + (q * d) * n + (q * r * n) * n;
  }

  /** Two remainders modulo n that are congruent are equal. */
  lemma CongSmall(a: int, b: int, n: int)
    requires n > 0 && Cong(a, b, n) && 0 <= a < n && 0 <= b < n
    ensures a == b
  {
    CongIffSameRemainder(a, b, n);
    DivModUnique(a, 0, a, n);
    DivModUnique(b, 0, b, n);
  }

  lemma CongModulus(a: int, b: int, m: int, n: int)
    requires m > 0 && n > 0 && Divides(m, n) && Cong(a, b, n)
    ensures Cong(a, b, m)
  {
    DividesTransitive(m, n, a - b);
  }

  // ----- powers

  function Pow(b: int, e: nat): int {
    if e == 0 then 1 else b * Pow(b, e - 1)
  }

  lemma {:induction false} PowAdd(b: int, x: nat, y: nat)
    ensures Pow(b, x + y) == Pow(b, x) * Pow(b, y)
  {
    if x > 0 {
      PowAdd(b, x - 1, y);
      assert b * (Pow(b, x - 1) * Pow(b, y)) == (b * Pow(b, x - 1)) * Pow(b, y);
    }
  }

  lemma {:induction false} PowMul(b: int, x: nat, y: nat)
    requires x * y >= 0
    ensures Pow(b, x * y) == Pow(Pow(b, x), y)
  {
    if y == 0 {
      assert x * y == 0;
    } else {
      assert x * y == x + x * (y - 1);
      NonNegativeProduct(x, y - 1);
      PowMul(b, x, y - 1);
      PowAdd(b, x, x * (y - 1));
    }
  }

  lemma {:induction false} PowProduct(a: int, b: int, e: nat)
    ensures Pow(a * b, e) == Pow(a, e) * Pow(b, e)
  {
    if e > 0 {
      PowProduct(a, b, e - 1);
      FourFactors(a, b, Pow(a, e - 1), Pow(b, e - 1));
    }
  }

  lemma FourFactors(a: int, b: int, x: int, y: int)
    ensures (a * b) * (x * y) == (a * x) * (b * y)
  {
  }

  lemma {:induction false} PowOne(e: nat)
    ensures Pow(1, e) == 1
  {
    if e > 0 {
      PowOne(e - 1);
    }
  }

  lemma {:induction false} PowPositive(b: int, e: nat)
    requires b > 0
    ensures Pow(b, e) > 0
  {
    if e > 0 {
      PowPositive(b, e - 1);
    }
  }

  lemma {:induction false} CongPow(a: int, b: int, e: nat, n: int)
    requires n > 0 && Cong(a, b, n)
    ensures Cong(Pow(a, e), Pow(b, e), n)
  {
    if e == 0 {
      CongReflexive(1, n);
    } else {
      CongPow(a, b, e - 1, n);
      CongMul(a, b, Pow(a, e - 1), Pow(b, e - 1), n);
    }
  }

  /** If x is 1 modulo n, so are its powers. */
  lemma CongPowOne(x: int, e: nat, n: int)
    requires n > 0 && Cong(x, 1, n)
    ensures Cong(Pow(x, e), 1, n)
  {
    CongPow(x, 1, e, n);
    PowOne(e);
  }

  // ----- greatest common divisors

  function Gcd(a: int, b: int): (g: nat)
    decreases Abs(b)
  {
    if b == 0 then Abs(a) else Gcd(b, a % b)
  }

  lemma {:induction false} GcdPositive(a: int, b: int)
    requires a != 0 || b != 0
    ensures Gcd(a, b) > 0
    decreases Abs(b)
  {
    if b != 0 {
      GcdPositive(b, a % b);
    }
  }

  lemma {:induction false} Bezout(a: int, b: int) returns (s: int, t: int)
    ensures s * a + t * b == Gcd(a, b)
    decreases Abs(b)
  {
    if b == 0 {
      s, t := if a < 0 then -1 else 1, 0;
    } else {
      var u, v := Bezout(b, a % b);
      s, t := v, u - v * (a / b);
      BezoutStep(a, b, a / b, a % b, u, v);
    }
  }

  lemma BezoutStep(a: int, b: int, q: int, r: int, u: int, v: int)
    requires a == q * b + r
    ensures v * a + (u - v * q) * b == u * b + v * r
  {
    assert v * a == v * (q * b) + v * r;
    assert (u - v * q) * b == u * b - (v * q) * b;
    assert (v * q) * b == v * (q * b);
  }

  lemma {:induction false} GcdDivides(a: int, b: int)
    requires a != 0 || b != 0
    ensures Gcd(a, b) > 0 && Divides(Gcd(a, b), a) && Divides(Gcd(a, b), b)
    decreases Abs(b)
  {
    GcdPositive(a, b);
    var g := Gcd(a, b);
    if b == 0 {
      MultipleDivides(g, a, if a < 0 then -1 else 1);
      MultipleDivides(g, b, 0);
    } else {
      GcdDivides(b, a % b);
      DividesCombination(g, b, a % b, a / b, 1);
      DivModEquation(a, b);
    }
  }

  lemma GcdGreatest(a: int, b: int, d: int)
    requires d > 0 && Divides(d, a) && Divides(d, b)
    ensures Divides(d, Gcd(a, b))
  {
    var s, t := Bezout(a, b);
    DividesCombination(d, a, b, s, t);
  }

  ghost predicate Coprime(a: int, b: int) {
    Gcd(a, b) == 1
  }

  lemma CoprimeFromBezout(a: int, b: int, s: int, t: int)
    requires s * a + t * b == 1
    ensures Coprime(a, b)
  {
    assert s * 0 + t * 0 == 0;
    GcdDivides(a, b);
    DividesCombination(Gcd(a, b), a, b, s, t);
    DividesBound(Gcd(a, b), 1);
  }

  lemma CoprimeSymmetric(a: int, b: int)
    requires Coprime(a, b)
    ensures Coprime(b, a)
  {
    var s, t := Bezout(a, b);
    CoprimeFromBezout(b, a, t, s);
  }

  /** If a and b divide out: d | x y with d coprime to x gives d | y. */
  lemma EuclidLemma(d: int, x: int, y: int)
    requires d > 0 && Coprime(d, x) && Divides(d, x * y)
    ensures Divides(d, y)
  {
    var s, t := Bezout(d, x);
    MultipleDivides(d, d, 1);
    DividesCombination(d, d, x * y, s * y, t);
    EuclidStep(d, x, y, s, t);
  }

  lemma EuclidStep(d: int, x: int, y: int, s: int, t: int)
    requires s * d + t * x == 1
    ensures (s * y) * d + t * (x * y) == y
  {
    assert (s * y) * d + t * (x * y) == (s * d + t * x) * y;
  }

  lemma CoprimeProduct(a: int, b: int, n: int)
    requires Coprime(a, n) && Coprime(b, n)
    ensures Coprime(a * b, n)
  {
    var s, t := Bezout(a, n);
    var u, v := Bezout(b, n);
    BezoutProduct(s, a, t, n, u, b, v);
    CoprimeFromBezout(a * b, n, s * u, s * a * v + t * u * b + t * v * n);
  }

  lemma BezoutProduct(s: int, a: int, t: int, n: int, u: int, b: int, v: int)
    requires s * a + t * n == 1 && u * b + v * n == 1
    ensures (s * u) * (a * b) + (s * a * v + t * u * b + t * v * n) * n == 1
  {
    ProductOfSums(s, a, t, n, u, b, v);
  }

  lemma ProductOfSums(s: int, a: int, t: int, n: int, u: int, b: int, v: int)
    ensures (s * u) * (a * b) + (s * a * v + t * u * b + t * v * n) * n == (s * a + t * n) * (u * b + v * n)
  {
    assert (s * a + t * n) * (u * b + v * n)
      == (s * a) * (u * b) + (s * a) * (v * n) + (t * n) * (u * b) + (t * n) * (v * n);
    assert (s * a) * (u * b) == (s * u) * (a * b);
    assert (s * a) * (v * n) == (s * a * v) * n && (t * n) * (u * b) == (t * u * b) * n
      && (t * n) * (v * n) == (t * v * n) * n;
  }

  lemma {:induction false} CoprimePow(a: int, e: nat, n: int)
    requires Coprime(a, n)
    ensures Coprime(Pow(a, e), n)
  {
    if e == 0 {
      CoprimeFromBezout(1, n, 1, 0);
    } else {
      CoprimePow(a, e - 1, n);
      CoprimeProduct(a, Pow(a, e - 1), n);
    }
  }

  /** A divisor of a number coprime to n is coprime to n. */
  lemma CoprimeDivisor(d: int, a: int, n: int)
    requires d > 0 && Divides(d, a) && Coprime(a, n)
    ensures Coprime(d, n)
  {
    var q := Quotient(d, a);
    var s, t := Bezout(a, n);
    BezoutDivisor(d, a, n, q, s, t);
    CoprimeFromBezout(d, n, s * q, t);
  }

  lemma BezoutDivisor(d: int, a: int, n: int, q: int, s: int, t: int)
    requires a == q * d && s * a + t * n == 1
    ensures (s * q) * d + t * n == 1
  {
    assert (s * q) * d == s * (q * d);
  }

  lemma CoprimeCong(a: int, b: int, n: int)
    requires n > 0 && Coprime(a, n) && Cong(a, b, n)
    ensures Coprime(b, n)
  {
    var q := CongWitness(a, b, n);
    var s, t := Bezout(a, n);
    assert s * (b + q * n) + t * n == s * b + (s * q + t) * n by {
      assert s * (b + q * n) == s * b + s * (q * n) && s * (q * n) == (s * q) * n;
      assert (s * q + t) * n == (s * q) * n + t * n;
    }
    CoprimeFromBezout(b, n, s, s * q + t);
  }

  /** Factors coprime to the modulus cancel. */
  lemma CongCancel(c: int, a: int, b: int, n: int)
    requires n > 0 && Coprime(c, n) && Cong(c * a, c * b, n)
    ensures Cong(a, b, n)
  {
    CoprimeSymmetric(c, n);
    assert c * a - c * b == c * (a - b);
    EuclidLemma(n, c, a - b);
  }

  /** Congruences modulo coprime numbers combine. */
  lemma CongCombine(a: int, b: int, m: int, n: int)
    requires m > 0 && n > 0 && m * n > 0 && Coprime(m, n) && Cong(a, b, m) && Cong(a, b, n)
    ensures Cong(a, b, m * n)
  {
    var q := CongWitness(a, b, m);
    CoprimeSymmetric(m, n);
    assert a - b == m * q;
    EuclidLemma(n, m, q);
    var r := Quotient(n, q);
    assert (r * n) * m == r * (m * n);
    CongBy(a, b, m * n, r);
  }

  lemma InverseExists(a: int, n: int)
    requires n > 0 && Coprime(a, n)
    ensures exists x :: 0 <= x < n && Cong(a * x, 1, n)
  {
    var s, t := Bezout(a, n);
    CongBy(a * s, 1, n, -t);
    CongRemainder(s, n);
    CongReflexive(a, n);
    CongMul(a, a, s % n, s, n);
    CongTransitive(a * (s % n), a * s, 1, n);
  }

  lemma InverseCoprime(a: int, x: int, n: int)
    requires n > 0 && Cong(a * x, 1, n)
    ensures Coprime(a, n) && Coprime(x, n)
  {
    var q := CongWitness(a * x, 1, n);
    assert x * a + (-q) * n == 1 && a * x + (-q) * n == 1;
    CoprimeFromBezout(a, n, x, -q);
    CoprimeFromBezout(x, n, a, -q);
  }
}
