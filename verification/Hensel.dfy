/** The lifting of an r-th root from p to p^k in _nthroot_mod1 (src/ntheory.cpp). */
module Hensel {
  import opened Common
  import opened DiscreteLog
  import opened ModArith
  import opened TonelliShanks

  /** (x + d)^r = x^r + r x^(r-1) d + w d^2 for some integer w. */
  lemma {:induction false} TaylorPower(x: int, d: int, r: nat) returns (w: int)
    requires r > 0
    ensures Pow(x + d, r) == Pow(x, r) + r * Pow(x, r - 1) * d + w * (d * d)
    decreases r
  {
    if r == 1 {
      w := 0;
      assert Pow(x + d, 1) == (x + d) * Pow(x + d, 0) && Pow(x, 1) == x * Pow(x, 0);
    } else {
      var v := TaylorPower(x, d, r - 1);
      w := x * v + (r - 1) * Pow(x, r - 2) + v * d;
      TaylorStep(x, d, r - 1, Pow(x, r - 1), Pow(x, r - 2), v);
    }
  }

  lemma TaylorStep(x: int, d: int, m: int, y: int, z: int, v: int)
    requires y == x * z
    ensures (x + d) * (y + m * z * d + v * (d * d))
         == x * y + (m + 1) * y * d + (x * v + m * z + v * d) * (d * d)
  {
    assert (x + d) * (y + m * z * d + v * (d * d))
        == x * y + x * (m * z * d) + x * (v * (d * d)) + d * y + d * (m * z * d) + d * (v * (d * d));
    assert x * (m * z * d) == m * y * d by {
      assert x * (m * z * d) == m * (x * z) * d;
    }
    assert d * (m * z * d) == (m * z) * (d * d);
    assert (m + 1) * y * d == m * y * d + d * y;
    assert (x * v + m * z + v * d) * (d * d) == (x * v) * (d * d) + (m * z) * (d * d) + (v * d) * (d * d);
  }

  /** The Newton correction of a root known modulo P, computed modulo a multiple Q of P that divides P^2. */
  lemma NewtonStep(x: int, r: nat, s: int, P: int, Q: int, u: int, t: int)
    requires r > 0 && P > 0 && Q > 0 && P * P > 0 && Divides(P, Q) && Divides(Q, P * P)
    requires Cong(Pow(x, r), s, P)
    requires Cong(u, Pow(x, r - 1), Q) && Cong((r * u) * t, 1, Q)
    ensures Cong(Pow(x + (s - u * x) * t, r), s, Q)
    ensures Cong(x + (s - u * x) * t, x, P)
  {
    var d := (s - u * x) * t;
    CorrectionVanishes(x, r, s, P, Q, u, t);
    var w := TaylorPower(x, d, r);
    CorrectionSquared(w, d, P, Q);
    LinearPart(x, r, s, Q, u, t);
    CongAdd(Pow(x, r) + r * Pow(x, r - 1) * d, s, w * (d * d), 0, Q);
  }

  /** The square of a multiple of P is 0 modulo Q. */
  lemma CorrectionSquared(w: int, d: int, P: int, Q: int)
    requires P > 0 && Q > 0 && P * P > 0 && Divides(P, d) && Divides(Q, P * P)
    ensures Divides(Q, w * (d * d)) && Cong(w * (d * d), 0, Q)
  {
    var e := Quotient(P, d);
    SquareFactor(w, e, P);
    MultipleDivides(P * P, w * (d * d), w * e * e);
    DividesTransitive(Q, P * P, w * (d * d));
  }

  lemma SquareFactor(w: int, e: int, P: int)
    ensures w * ((e * P) * (e * P)) == (w * e * e) * (P * P)
  {
    assert (e * P) * (e * P) == (e * e) * (P * P);
    assert w * ((e * e) * (P * P)) == (w * e * e) * (P * P);
  }

  lemma CorrectionVanishes(x: int, r: nat, s: int, P: int, Q: int, u: int, t: int)
    requires r > 0 && P > 0 && Q > 0 && Divides(P, Q)
    requires Cong(Pow(x, r), s, P) && Cong(u, Pow(x, r - 1), Q)
    ensures Divides(P, (s - u * x) * t)
    ensures Cong(x + (s - u * x) * t, x, P)
  {
    CongModulus(u, Pow(x, r - 1), P, Q);
    CongReflexive(x, P);
    CongMul(u, Pow(x, r - 1), x, x, P);
    assert Pow(x, r - 1) * x == Pow(x, r);
    CongTransitive(u * x, Pow(x, r), s, P);
    CongSymmetric(u * x, s, P);
    DividesCombination(P, s - u * x, s - u * x, t, 0);
    assert t * (s - u * x) == (s - u * x) * t;
  }

  /** x^r + r x^(r-1) d = s modulo Q, because r u t = 1. */
  lemma LinearPart(x: int, r: nat, s: int, Q: int, u: int, t: int)
    requires r > 0 && Q > 0 && Cong(u, Pow(x, r - 1), Q) && Cong((r * u) * t, 1, Q)
    ensures Cong(Pow(x, r) + r * Pow(x, r - 1) * ((s - u * x) * t), s, Q)
  {
    var y, f := Pow(x, r - 1), s - u * x;
    CongSymmetric(u, y, Q);
    CongReflexive(r, Q);
    CongMul(r, r, y, u, Q);
    CongReflexive(f * t, Q);
    CongMul(r * y, r * u, f * t, f * t, Q);
    CongReflexive(f, Q);
    CongMul((r * u) * t, 1, f, f, Q);
    assert (r * u) * (f * t) == ((r * u) * t) * f by {
      SwapFactors(r * u, t, f);
      assert f * t == t * f;
    }
    CongTransitive((r * y) * (f * t), (r * u) * (f * t), f, Q);
    CongReflexive(x, Q);
    CongMul(x, x, y, u, Q);
    CongAdd(Pow(x, r), x * u, (r * y) * (f * t), f, Q);
    assert x * u + f == s;
  }

  lemma PowDivides(p: int, a: nat, b: nat)
    requires p > 0 && a <= b
    ensures Pow(p, a) > 0 && Pow(p, b) > 0 && Divides(Pow(p, a), Pow(p, b))
  {
    PowPositive(p, a);
    PowPositive(p, b);
    PowAdd(p, b - a, a);
    MultipleDivides(Pow(p, a), Pow(p, b), Pow(p, b - a));
  }

  /** The root is correct modulo p^half (or already modulo p^k), and unchanged modulo p. */
  ghost predicate Lifted(root: int, root0: int, r: nat, s: int, p: int, k: nat, half: nat)
    requires p > 0
  {
    && half >= 1 && Pow(p, Min(half, k)) > 0
    && Cong(Pow(root, r), s, Pow(p, Min(half, k)))
    && Cong(root, root0, p)
  }

  /** One round of the loop: from p^half to the modulus pd = p^min(2 half, k). */
  method LiftRound(root: int, ghost root0: int, r: nat, s: int, p: int, ghost k: nat, ghost half: nat, pd: int)
      returns (root': int)
    requires p > 1 && r > 0 && Coprime(r, p) && Coprime(root0, p)
    requires half < k && Lifted(root, root0, r, s, p, k, half)
    requires pd == Pow(p, Min(2 * half, k))
    ensures Lifted(root', root0, r, s, p, k, 2 * half) && 0 <= root' < Pow(p, k)
  {
    ghost var P := Pow(p, half);
    PowDivides(p, half, Min(2 * half, k));
    PowDivides(p, Min(2 * half, k), 2 * half);
    PowDivides(p, Min(2 * half, k), k);
    PowDivides(p, 1, half);
    PowAdd(p, half, half);
    assert Pow(p, 1) == p * Pow(p, 0) == p;
    var u := PowMod(root, r - 1, pd);
    PowModCong(root, r - 1, pd);
    UnitModulo(root, root0, r, p, pd, u, Min(2 * half, k));
    var t := InvertMod(r * u, pd);
    NewtonStep(root, r, s, P, pd, u, t);
    ghost var x := root + (s - u * root) * t;
    root' := (root + (s - u * root) * t) % pd;
    CongRemainder(x, pd);
    CongPow(root', x, r, pd);
    CongTransitive(Pow(root', r), Pow(x, r), s, pd);
    CongModulus(root', x, P, pd);
    CongTransitive(root', x, root, P);
    CongModulus(root', root, p, P);
    CongTransitive(root', root, root0, p);
    DividesBound(pd, Pow(p, k));
  }

  lemma UnitModulo(root: int, root0: int, r: nat, p: int, pd: int, u: int, e: nat)
    requires p > 1 && r > 0 && pd > 0 && pd == Pow(p, e)
    requires Coprime(r, p) && Coprime(root0, p) && Cong(root, root0, p) && Cong(Pow(root, r - 1), u, pd)
    ensures Coprime(r * u, pd)
  {
    CongSymmetric(root, root0, p);
    CoprimeCong(root0, root, p);
    CoprimePow(root, r - 1, p);
    CoprimeSymmetric(Pow(root, r - 1), p);
    CoprimePow(p, e, Pow(root, r - 1));
    CoprimeSymmetric(Pow(p, e), Pow(root, r - 1));
    CoprimeCong(Pow(root, r - 1), u, pd);
    CoprimeSymmetric(r, p);
    CoprimePow(p, e, r);
    CoprimeSymmetric(Pow(p, e), r);
    CoprimeProduct(r, u, pd);
  }

  /**
   The Hensel loop: from an r-th root of s modulo p, with p coprime to r and to the root, to one modulo
   p^k for every k >= 1, congruent to the one it started from.
   */
  method HenselLift(root0: int, r: nat, s: int, p: int, k: nat) returns (root: int)
    requires p > 1 && r > 0 && k >= 1 && Coprime(r, p) && Coprime(root0, p)
    requires Cong(Pow(root0, r), s, p)
    ensures Pow(p, k) > 0 && Cong(Pow(root, r), s, Pow(p, k)) && Cong(root, root0, p)
    ensures k > 1 ==> 0 <= root < Pow(p, k)
    ensures k == 1 ==> root == root0
  {
    var pk := Pow(p, k);
    root := root0;
    var pd := p;
    var d := 2;
    assert Pow(p, 1) == p * Pow(p, 0) == p;
    CongReflexive(root0, p);
    ghost var half := 1;
    while d < 2 * k
      invariant d == 2 * half && Lifted(root, root0, r, s, p, k, half)
      invariant half < k ==> pd == Pow(p, half)
      invariant half > 1 ==> 0 <= root < Pow(p, k)
      invariant k == 1 ==> root == root0
      decreases 2 * k - d
    {
      PowAdd(p, half, half);
      pd := pd * pd;
      if d > k {
        pd := pk;
      }
      root := LiftRound(root, root0, r, s, p, k, half, pd);
      half := d;
      d := d * 2;
    }
  }

  /** The lift is unique: two such roots modulo p^k that agree modulo p are equal modulo p^k. */
  lemma {:induction false} LiftUnique(x: int, y: int, r: nat, s: int, p: int, k: nat)
    requires p > 1 && r > 0 && k >= 1 && Coprime(r, p) && Coprime(x, p) && Cong(x, y, p)
    requires Pow(p, k) > 0 && Cong(Pow(x, r), s, Pow(p, k)) && Cong(Pow(y, r), s, Pow(p, k))
    ensures Cong(x, y, Pow(p, k))
    decreases k
  {
    assert Pow(p, 1) == p * Pow(p, 0) == p;
    if k > 1 {
      PowDivides(p, k - 1, k);
      CongModulus(Pow(x, r), s, Pow(p, k - 1), Pow(p, k));
      CongModulus(Pow(y, r), s, Pow(p, k - 1), Pow(p, k));
      LiftUnique(x, y, r, s, p, k - 1);
      UniqueStep(x, y, r, s, p, k);
    }
  }

  lemma UniqueStep(x: int, y: int, r: nat, s: int, p: int, k: nat)
    requires p > 1 && r > 0 && k > 1 && Coprime(r, p) && Coprime(x, p)
    requires Pow(p, k) > 0 && Pow(p, k - 1) > 0 && Cong(x, y, Pow(p, k - 1))
    requires Cong(Pow(x, r), s, Pow(p, k)) && Cong(Pow(y, r), s, Pow(p, k))
    ensures Cong(x, y, Pow(p, k))
  {
    var P, Q := Pow(p, k - 1), Pow(p, k);
    CongSymmetric(x, y, P);
    var q := CongWitness(y, x, P);
    var d := q * P;
    var w := TaylorPower(x, d, r);
    CongSymmetric(Pow(x, r), s, Q);
    CongTransitive(Pow(y, r), s, Pow(x, r), Q);
    // r x^(r-1) d + w d^2 is 0 modulo Q, and so is d^2
    var c := r * Pow(x, r - 1);
    assert Divides(Q, c * d + w * (d * d));
    assert P == p * Pow(p, k - 2);
    SquareVanishes(p, Pow(p, k - 2), q, w, Q);
    DividesCombination(Q, c * d + w * (d * d), w * (d * d), 1, -1);
    CoprimePow(x, r - 1, p);
    CoprimeProduct(r, Pow(x, r - 1), p);
    CoprimeSymmetric(c, p);
    CoprimePow(p, k, c);
    EuclidLemma(Q, c, d);
    assert y - x == d;
    CongSymmetric(y, x, Q);
  }

  lemma SquareVanishes(p: int, z: int, q: int, w: int, Q: int)
    requires Q > 0 && Q == p * (p * z)
    ensures Divides(Q, w * ((q * (p * z)) * (q * (p * z))))
  {
    assert w * ((q * (p * z)) * (q * (p * z))) == (w * q * q * z) * (p * (p * z));
    MultipleDivides(Q, w * ((q * (p * z)) * (q * (p * z))), w * q * q * z);
  }
}
