/** Pohlig-Hellman with baby-step giant-step: _discrete_log of src/ntheory.cpp. */
module DiscreteLog {
  import opened ModArith
  import opened TonelliShanks

  /** n is the order of g modulo p. */
  ghost predicate HasOrder(g: int, n: int, p: int)
    requires p > 0
  {
    && n > 0 && Cong(Pow(g, n), 1, p)
    && forall i | 0 < i < n :: !Cong(Pow(g, i), 1, p)
  }

  lemma PowersAreUnits(g: int, n: int, p: int, e: nat)
    requires p > 0 && HasOrder(g, n, p)
    ensures Coprime(g, p) && Coprime(Pow(g, e), p)
  {
    assert Pow(g, n) == g * Pow(g, n - 1);
    InverseCoprime(g, Pow(g, n - 1), p);
    CoprimePow(g, e, p);
  }

  /** Exponents may be reduced modulo the order. */
  lemma ReduceExponent(g: int, n: int, p: int, x: nat)
    requires p > 0 && HasOrder(g, n, p)
    ensures Cong(Pow(g, x), Pow(g, x % n), p)
  {
    DivModEquation(x, n);
    QuotientNatural(x, n);
    DropMultiple(g, n, p, x / n, x % n);
  }

  lemma DropMultiple(g: int, n: nat, p: int, k: nat, r: nat)
    requires p > 0 && Cong(Pow(g, n), 1, p)
    ensures k * n + r >= 0 && Cong(Pow(g, k * n + r), Pow(g, r), p)
  {
    NonNegativeProduct(k, n);
    PowAdd(g, k * n, r);
    PowMul(g, n, k);
    CongPowOne(Pow(g, n), k, p);
    CongReflexive(Pow(g, r), p);
    CongMul(Pow(g, k * n), 1, Pow(g, r), Pow(g, r), p);
  }

  /** Different exponents below the order give different powers. */
  lemma PowersDiffer(g: int, n: int, p: int, i: nat, j: nat)
    requires p > 0 && HasOrder(g, n, p) && i < n && j < n && Cong(Pow(g, i), Pow(g, j), p)
    ensures i == j
  {
    var lo, hi := if i < j then i else j, if i < j then j else i;
    if i < j {
      CongSymmetric(Pow(g, i), Pow(g, j), p);
    }
    PowAdd(g, lo, hi - lo);
    PowersAreUnits(g, n, p, lo);
    assert Pow(g, lo) * 1 == Pow(g, lo);
    CongCancel(Pow(g, lo), Pow(g, hi - lo), 1, p);
  }

  /** g^(n / q) has order q. */
  lemma SubgroupOrder(g: int, n: int, p: int, q: int, alpha: int)
    requires p > 0 && q > 0 && HasOrder(g, n, p) && Divides(q, n) && n / q >= 0 && Cong(alpha, Pow(g, n / q), p)
    ensures HasOrder(alpha, q, p)
  {
    var m := n / q;
    DivModEquation(n, q);
    CongPow(alpha, Pow(g, m), q, p);
    PowMul(g, m, q);
    CongTransitive(Pow(alpha, q), Pow(g, n), 1, p);
    forall i | 0 < i < q
      ensures !Cong(Pow(alpha, i), 1, p)
    {
      NonNegativeProduct(m, i);
      SmallerMultiple(m, i, q);
      assert m * i != 0 by {
        DividesBound(q, n);
        MulAtLeast(m, i);
      }
      CongPow(alpha, Pow(g, m), i, p);
      PowMul(g, m, i);
      if Cong(Pow(alpha, i), 1, p) {
        CongSymmetric(Pow(alpha, i), Pow(g, m * i), p);
        CongTransitive(Pow(g, m * i), Pow(alpha, i), 1, p);
      }
    }
  }

  lemma SmallerMultiple(m: int, i: int, q: int)
    requires m >= 0 && i < q
    ensures m > 0 ==> m * i < m * q
  {
    assert m * q - m * i == (q - i) * m;
    if m > 0 {
      MulAtLeast(q - i, m);
    }
  }

  // ----- modular inverses and powers with negative exponents

  method InvertMod(b: int, p: int) returns (x: int)
    requires p > 0 && Coprime(b, p)
    ensures 0 <= x < p && Cong(b * x, 1, p)
  {
    InverseExists(b, p);
    x :| 0 <= x < p && (b * x - 1) % p == 0;
  }

  /** mpz_powm for the exponent -e: the inverse of b^e. */
  method NegativePowMod(b: int, e: nat, p: int) returns (r: int)
    requires p > 0 && Coprime(b, p)
    ensures 0 <= r < p && Cong(r * Pow(b, e), 1, p)
  {
    var x := InvertMod(b, p);
    r := PowMod(x, e, p);
    PowModCong(x, e, p);
    CongReflexive(Pow(b, e), p);
    CongMul(r, Pow(x, e), Pow(b, e), Pow(b, e), p);
    PowProduct(x, b, e);
    assert x * b == b * x;
    CongPowOne(x * b, e, p);
    CongTransitive(r * Pow(b, e), Pow(x * b, e), 1, p);
  }

  // ----- baby steps

  /** mpz_sqrtrem, rounded up. */
  method CeilingSqrt(q: nat) returns (m: nat)
    requires q >= 1
    ensures m * m >= q && 1 <= m <= q
    ensures (m - 1) * (m - 1) < q
  {
    m := 1;
    while m * m < q
      invariant 1 <= m <= q && (m - 1) * (m - 1) < q
      decreases q - m
    {
      assert m * m >= m by {
        NonNegativeProduct(m, m - 1);
        assert m * m == m * (m - 1) + m;
      }
      m := m + 1;
    }
  }

  /** The table holds every power of alpha below m, and each value is an exponent of its key. */
  ghost predicate BabySteps(table: map<int, nat>, alpha: int, m: nat, p: int)
    requires p > 0
  {
    && (forall j: nat | j < m :: PowMod(alpha, j, p) in table)
    && (forall d | d in table :: table[d] < m && PowMod(alpha, table[d], p) == d)
  }

  method BuildTable(alpha: int, m: nat, p: int) returns (table: map<int, nat>)
    requires p > 1
    ensures BabySteps(table, alpha, m, p)
  {
    table := map[];
    var power := 1;
    DivModUnique(1, 0, 1, p);
    for j := 0 to m
      invariant power == PowMod(alpha, j, p)
      invariant BabySteps(table, alpha, j, p)
    {
      if power !in table {
        table := table[power := j];
      }
      NextPower(alpha, j, p);
      power := (power * alpha) % p;
    }
  }

  lemma NextPower(alpha: int, j: nat, p: int)
    requires p > 0
    ensures (PowMod(alpha, j, p) * alpha) % p == PowMod(alpha, j + 1, p)
  {
    PowModCong(alpha, j, p);
    CongReflexive(alpha, p);
    CongMul(PowMod(alpha, j, p), Pow(alpha, j), alpha, alpha, p);
    CongIffSameRemainder(PowMod(alpha, j, p) * alpha, Pow(alpha, j) * alpha, p);
  }

  // ----- giant steps

  /** Finds the exponent of beta to the base alpha, which has order q. */
  method BabyGiant(beta: int, alpha: int, q: nat, m: nat, table: map<int, nat>, s: int, p: int, ghost digit: nat)
    returns (l: nat)
    requires p > 1 && HasOrder(alpha, q, p) && digit < q
    requires m * m >= q && 1 <= m <= q && BabySteps(table, alpha, m, p)
    requires Cong(s * Pow(alpha, m), 1, p)
    requires 0 <= beta < p && Cong(beta, Pow(alpha, digit), p)
    ensures l == digit
  {
    var d := beta;
    var i := 0;
    ghost var rest := digit;
    while i < m
      invariant 0 <= i <= m && rest >= 0 && digit == m * i + rest
      invariant 0 <= d < p && Cong(d, Pow(alpha, rest), p)
    {
      if d in table {
        TableHit(table, alpha, q, m, p, d, rest);
        return i * m + table[d];
      }
      TableMiss(table, alpha, m, p, d, rest);
      d := GiantStep(d, alpha, q, m, s, p, rest);
      NextGiant(m, i, rest, digit);
      rest := rest - m;
      i := i + 1;
    }
    assert false;
  }

  lemma NextGiant(m: int, i: int, rest: int, digit: int)
    requires digit == m * i + rest
    ensures digit == m * (i + 1) + (rest - m)
  {
  }

  lemma TableHit(table: map<int, nat>, alpha: int, q: nat, m: nat, p: int, d: int, rest: nat)
    requires p > 1 && HasOrder(alpha, q, p) && m <= q && BabySteps(table, alpha, m, p)
    requires d in table && rest < q && Cong(d, Pow(alpha, rest), p)
    ensures table[d] == rest
  {
    var j := table[d];
    PowModCong(alpha, j, p);
    CongTransitive(Pow(alpha, j), d, Pow(alpha, rest), p);
    PowersDiffer(alpha, q, p, j, rest);
  }

  lemma TableMiss(table: map<int, nat>, alpha: int, m: nat, p: int, d: int, rest: nat)
    requires p > 1 && BabySteps(table, alpha, m, p) && d !in table
    requires 0 <= d < p && Cong(d, Pow(alpha, rest), p)
    ensures rest >= m
  {
    if rest < m {
      PowModCong(alpha, rest, p);
      CongTransitive(d, Pow(alpha, rest), PowMod(alpha, rest, p), p);
      CongSmall(d, PowMod(alpha, rest, p), p);
    }
  }

  method GiantStep(d: int, alpha: int, ghost q: nat, ghost m: nat, s: int, p: int, ghost rest: nat) returns (d': int)
    requires p > 1 && HasOrder(alpha, q, p) && m <= rest
    requires Cong(s * Pow(alpha, m), 1, p) && Cong(d, Pow(alpha, rest), p)
    ensures 0 <= d' < p && Cong(d', Pow(alpha, rest - m), p)
  {
    d' := (d * s) % p;
    CongRemainder(d * s, p);
    CongReflexive(s, p);
    CongMul(d, Pow(alpha, rest), s, s, p);
    PowAdd(alpha, rest - m, m);
    CongReflexive(Pow(alpha, rest - m), p);
    CongMul(Pow(alpha, rest - m), Pow(alpha, rest - m), s * Pow(alpha, m), 1, p);
    SwapFactors(Pow(alpha, rest - m), Pow(alpha, m), s);
    CongTransitive(d * s, Pow(alpha, rest) * s, Pow(alpha, rest - m), p);
    CongTransitive(d', d * s, Pow(alpha, rest - m), p);
  }

  lemma SwapFactors(x: int, y: int, s: int)
    ensures (x * y) * s == x * (s * y)
  {
  }

  // ----- Pohlig-Hellman

  /** In round j the digits below j are known, and gamma is what is left of a. */
  ghost predicate DigitsKnown(g: int, p: int, x: nat, qj: int, log: int, gamma: int)
    requires p > 0
  {
    && qj > 0 && x / qj >= 0 && (x / qj) * qj >= 0
    && log == x % qj
    && Cong(gamma, Pow(g, (x / qj) * qj), p)
  }

  lemma NextDigit(x: nat, qj: int, q: int)
    requires qj > 0 && q > 0 && qj * q > 0
    ensures x / qj >= 0 && x / (qj * q) >= 0
    ensures x % (qj * q) == x % qj + ((x / qj) % q) * qj
    ensures (x / qj) * qj == (x / (qj * q)) * (qj * q) + ((x / qj) % q) * qj
    ensures ((x / qj) % q) * qj >= 0 && (x / (qj * q)) * (qj * q) >= 0
  {
    var y, r := x / qj, x % qj;
    DivModEquation(x, qj);
    DivModEquation(y, q);
    QuotientNatural(x, qj);
    QuotientNatural(y, q);
    var z, e := y / q, y % q;
    assert y * qj == z * (qj * q) + e * qj by {
      assert (z * q + e) * qj == (z * q) * qj + e * qj;
      assert (z * q) * qj == z * (qj * q);
    }
    NonNegativeProduct(e, qj);
    NonNegativeProduct(z, qj * q);
    assert e * qj + r < qj * q by {
      assert (q - e) * qj == q * qj - e * qj;
      MulAtLeast(q - e, qj);
    }
    DivModUnique(x, z, e * qj + r, qj * q);
  }

  lemma QuotientNatural(x: nat, d: int)
    requires d > 0
    ensures x / d >= 0
  {
  }

  /** The round's target: raising what is left of a to n / q^(j+1) leaves the next digit as exponent. */
  lemma DigitPower(g: int, n: int, p: int, q: int, x: nat, qj: int, nj: nat, gamma: int, alpha: int)
    requires p > 0 && q > 0 && HasOrder(g, n, p) && Divides(q, n) && n / q >= 0 && n / q == qj * nj
    requires qj > 0 && x / qj >= 0 && (x / qj) * qj >= 0 && Cong(gamma, Pow(g, (x / qj) * qj), p)
    requires Cong(alpha, Pow(g, n / q), p)
    ensures Cong(Pow(gamma, nj), Pow(alpha, (x / qj) % q), p)
  {
    var y, m := x / qj, n / q;
    CongPow(gamma, Pow(g, y * qj), nj, p);
    assert (y * qj) * nj == m * y by {
      assert (y * qj) * nj == y * (qj * nj);
    }
    NonNegativeProduct(m, y);
    PowMul(g, y * qj, nj);
    PowMul(g, m, y);
    CongSymmetric(alpha, Pow(g, m), p);
    CongPow(Pow(g, m), alpha, y, p);
    SubgroupOrder(g, n, p, q, alpha);
    ReduceExponent(alpha, q, p, y);
    CongTransitive(Pow(gamma, nj), Pow(g, m * y), Pow(alpha, y), p);
    CongTransitive(Pow(gamma, nj), Pow(alpha, y), Pow(alpha, y % q), p);
  }

  /** Multiplying by the inverse of g^(digit q^j) removes the digit. */
  lemma RemoveDigit(g: int, n: int, p: int, gamma: int, t: int, e: nat, f: nat)
    requires p > 0 && HasOrder(g, n, p)
    requires Cong(gamma, Pow(g, e + f), p) && Cong(t * Pow(g, f), 1, p)
    ensures Cong(gamma * t, Pow(g, e), p)
  {
    PowAdd(g, e, f);
    CongReflexive(t, p);
    CongMul(gamma, Pow(g, e + f), t, t, p);
    CongReflexive(Pow(g, e), p);
    CongMul(Pow(g, e), Pow(g, e), t * Pow(g, f), 1, p);
    SwapFactors(Pow(g, e), Pow(g, f), t);
    CongTransitive(gamma * t, Pow(g, e + f) * t, Pow(g, e), p);
  }

  lemma {:induction false} PrimePowerQuotient(q: int, k: nat)
    requires q > 0 && k > 0
    ensures Pow(q, k) > 0 && Pow(q, k) / q == Pow(q, k - 1) && Divides(q, Pow(q, k))
  {
    PowPositive(q, k);
    ExactQuotient(Pow(q, k), Pow(q, k - 1), q);
  }

  /** One round: finds digit j and removes it from gamma. */
  method Round(a: int, g: int, ghost n: int, q: int, ghost k: nat, p: int, ghost j: nat, ghost x: nat, n': nat, qj: int,
               alpha: int, m: nat, table: map<int, nat>, s: int, log: int, gamma: int)
    returns (log': int, gamma': int)
    requires p > 1 && q > 1 && j < k && n == Pow(q, k) && HasOrder(g, n, p)
    requires qj == Pow(q, j) && n' == Pow(q, k - j - 1)
    requires n / q >= 0 && Cong(alpha, Pow(g, n / q), p)
    requires m * m >= q && 1 <= m <= q && BabySteps(table, alpha, m, p)
    requires Cong(s * Pow(alpha, m), 1, p)
    requires DigitsKnown(g, p, x, qj, log, gamma)
    ensures DigitsKnown(g, p, x, Pow(q, j + 1), log', gamma')
  {
    PowAdd(q, j, k - j - 1);
    PrimePowerQuotient(q, k);
    SubgroupOrder(g, n, p, q, alpha);
    DigitPower(g, n, p, q, x, qj, n', gamma, alpha);
    ghost var digit := (x / qj) % q;
    var beta := PowMod(gamma, n', p);
    PowModCong(gamma, n', p);
    CongTransitive(beta, Pow(gamma, n'), Pow(alpha, digit), p);
    var l := BabyGiant(beta, alpha, q, m, table, s, p, digit);
    PowPositive(q, j + 1);
    assert qj * q == Pow(q, j + 1);
    NextDigit(x, qj, q);
    PowersAreUnits(g, n, p, 0);
    var t := NegativePowMod(g, l * qj, p);
    log' := log + l * qj;
    RemoveDigit(g, n, p, gamma, t, (x / (qj * q)) * (qj * q), l * qj);
    gamma' := gamma * t;
  }

  /**
   _discrete_log: for g of order n = q^k modulo p and a power a of g, the logarithm of a below q^k.
   */
  method Logarithm(a: int, g: int, n: int, q: int, k: nat, p: int) returns (log: int)
    requires p > 1 && q > 1 && n == Pow(q, k) && HasOrder(g, n, p)
    requires exists x: nat :: Cong(Pow(g, x), a, p)
    ensures 0 <= log < Pow(q, k) && Cong(Pow(g, log), a, p)
  {
    ghost var x := ReducedLog(a, g, n, p);
    log := 0;
    var gamma := a;
    var n' := n / q;
    QuotientNatural(n, q);
    var alpha := PowMod(g, n', p);
    AlphaUnit(g, n, p, n');
    var m := CeilingSqrt(q);
    var s := NegativePowMod(alpha, m, p);
    var table := BuildTable(alpha, m, p);
    var qj := 1;
    StartDigits(g, p, x, a);
    if k > 0 {
      PrimePowerQuotient(q, k);
    }
    for j := 0 to k
      invariant qj == Pow(q, j) && DigitsKnown(g, p, x, qj, log, gamma)
      invariant n' >= 0 && (j < k ==> n' == Pow(q, k - j - 1))
    {
      log, gamma := Round(a, g, n, q, k, p, j, x, n', qj, alpha, m, table, s, log, gamma);
      if j + 1 < k {
        PrimePowerQuotient(q, k - j - 1);
      }
      QuotientNatural(n', q);
      n' := n' / q;
      qj := qj * q;
      assert qj == Pow(q, j + 1);
    }
    AllDigits(g, p, x, n, log, gamma, a);
  }

  lemma ReducedLog(a: int, g: int, n: int, p: int) returns (x: nat)
    requires p > 1 && HasOrder(g, n, p) && exists x: nat :: Cong(Pow(g, x), a, p)
    ensures x < n && Cong(Pow(g, x), a, p) && Cong(a, Pow(g, x), p)
  {
    var x0: nat :| Cong(Pow(g, x0), a, p);
    x := x0 % n;
    ReduceExponent(g, n, p, x0);
    CongSymmetric(Pow(g, x0), Pow(g, x), p);
    CongTransitive(Pow(g, x), Pow(g, x0), a, p);
    CongSymmetric(Pow(g, x), a, p);
  }

  lemma AlphaUnit(g: int, n: int, p: int, e: nat)
    requires p > 0 && HasOrder(g, n, p)
    ensures Cong(PowMod(g, e, p), Pow(g, e), p) && Coprime(PowMod(g, e, p), p)
  {
    PowModCong(g, e, p);
    PowersAreUnits(g, n, p, e);
    CoprimeCong(Pow(g, e), PowMod(g, e, p), p);
  }

  lemma StartDigits(g: int, p: int, x: nat, a: int)
    requires p > 0 && Cong(a, Pow(g, x), p)
    ensures DigitsKnown(g, p, x, 1, 0, a)
  {
    DivModUnique(x, x, 0, 1);
  }

  lemma AllDigits(g: int, p: int, x: nat, n: int, log: int, gamma: int, a: int)
    requires p > 0 && n > x && DigitsKnown(g, p, x, n, log, gamma) && Cong(Pow(g, x), a, p)
    ensures 0 <= log < n && Cong(Pow(g, log), a, p)
  {
    DivModUnique(x, 0, x, n);
  }
}
