/** The algebra of Damgard-Jurik ciphertexts modulo `n^(s+1)`. */
module DamgardJurik {
  import opened Congruence
  import opened Coprimality

  // ---------- lifting congruences from n to n^(s+1) ----------

  /** `a^e - b^e` divided by `a - b`. */
  ghost function Geometric(a: int, b: int, e: nat): int
    decreases e
  {
    if e == 0 then 0 else a * Geometric(a, b, e - 1) + Pow(b, e - 1)
  }

  lemma {:induction false} DifferenceOfPowers(a: int, b: int, e: nat)
    ensures Pow(a, e) == Pow(b, e) + (a - b) * Geometric(a, b, e)
    decreases e
  {
    if e == 0 {
    } else {
      DifferenceOfPowers(a, b, e - 1);
      var x, y, g := Pow(a, e - 1), Pow(b, e - 1), Geometric(a, b, e - 1);
      PowerStep(a, b, y, g);
    }
  }

  lemma PowerStep(a: int, b: int, y: int, g: int)
    ensures a * (y + (a - b) * g) == b * y + (a - b) * (a * g + y)
  {
    var d := a - b;
    assert a * (y + d * g) == a * y + a * (d * g);
    assert a * (d * g) == d * (a * g) by { MulAssoc(a, d, g); MulAssoc(d, a, g); }
    assert d * (a * g + y) == d * (a * g) + d * y;
    assert d * y == a * y - b * y;
  }

  /** Modulo any divisor of `a - b` the sum has `e` equal terms. */
  lemma {:induction false} GeometricCong(a: int, b: int, e: nat, n: int)
    requires e > 0 && Cong(a, b, n)
    ensures Cong(Geometric(a, b, e), e * Pow(b, e - 1), n)
    decreases e
  {
    if e == 1 {
      CongRefl(1, n);
    } else {
      GeometricCong(a, b, e - 1, n);
      GeometricCongStep(a, b, Geometric(a, b, e - 1), e, Pow(b, e - 2), n);
    }
  }

  lemma GeometricCongStep(a: int, b: int, g: int, e: int, y: int, n: int)
    requires Cong(a, b, n) && Cong(g, (e - 1) * y, n)
    ensures Cong(a * g + b * y, e * (b * y), n)
  {
    CongMul(a, b, g, (e - 1) * y, n);
    CongRefl(b * y, n);
    CongAdd(a * g, b * ((e - 1) * y), b * y, b * y, n);
    assert b * ((e - 1) * y) + b * y == e * (b * y);
  }

  lemma FactorOut(n: int, x: int, i: int)
    ensures n * x + i * n == n * (x + i)
  {
  }

  lemma LiftStep(a: int, b: int, n: nat, k: int)
    requires n > 0 && Cong(a, b, n * k)
    ensures Cong(Pow(a, n), Pow(b, n), n * (n * k))
  {
    hide Cong, Geometric, Pow;
    CongFactor(a, b, n, k);
    GeometricCong(a, b, n, n);
    DifferenceOfPowers(a, b, n);
    var j := CongQuotient(a, b, n * k);
    var i := CongQuotient(Geometric(a, b, n), n * Pow(b, n - 1), n);
    var g := Pow(b, n - 1) + i;
    FactorOut(n, Pow(b, n - 1), i);
    LiftQuotient(j, n, k, g);
    CongFromQuotient(Pow(a, n), Pow(b, n), n * (n * k), j * g);
  }

  lemma LiftQuotient(j: int, n: int, k: int, g: int)
    ensures (j * (n * k)) * (n * g) == (j * g) * (n * (n * k))
  {
    MulSwap(j, n * k, g, n);
    assert n * g == g * n && (n * k) * n == n * (n * k);
  }

  /** Congruent numbers modulo `n` have congruent `n^s`-th powers modulo `n^(s+1)`. */
  lemma {:induction false} Lift(a: int, b: int, n: nat, s: nat)
    requires n > 0 && Cong(a, b, n)
    ensures Cong(Pow(a, Pow(n, s)), Pow(b, Pow(n, s)), Pow(n, s + 1))
    decreases s
  {
    if s == 0 {
      PowOne(a);
      PowOne(b);
      PowOne(n);
    } else {
      var e := Pow(n, s - 1);
      Lift(a, b, n, s - 1);
      LiftStep(Pow(a, e), Pow(b, e), n, Pow(n, s - 1));
      PowPow(a, e, n);
      PowPow(b, e, n);
      assert e * n == Pow(n, s);
    }
  }

  // ---------- ciphertexts ----------

  /** `(1+n)^x * r^N`, the ciphertext of `x` under randomness `r` before reduction. */
  ghost function Enc(n: nat, s: nat, x: nat, r: int): int {
    Pow(1 + n, x) * Pow(r, Pow(n, s))
  }

  /** `1+n` has order dividing `N` modulo `N'`. */
  lemma OrderOfBase(n: nat, s: nat)
    requires n > 0
    ensures Cong(Pow(1 + n, Pow(n, s)), 1, Pow(n, s + 1))
  {
    CongFromQuotient(1 + n, 1, n, 1);
    Lift(1 + n, 1, n, s);
    OnePow(Pow(n, s));
  }

  lemma EncMul(n: nat, s: nat, x: nat, r: int, y: nat, t: int)
    ensures Enc(n, s, x, r) * Enc(n, s, y, t) == Enc(n, s, x + y, r * t)
  {
    var N := Pow(n, s);
    PowAdd(1 + n, x, y);
    PowMul(r, t, N);
    MulSwap(Pow(1 + n, x), Pow(r, N), Pow(1 + n, y), Pow(t, N));
  }

  lemma EncPow(n: nat, s: nat, x: nat, r: int, e: nat)
    ensures x * e >= 0 && Pow(Enc(n, s, x, r), e) == Enc(n, s, x * e, Pow(r, e))
  {
    var N := Pow(n, s);
    PowMul(Pow(1 + n, x), Pow(r, N), e);
    PowPow(1 + n, x, e);
    PowPow(r, N, e);
    PowPow(r, e, N);
    assert N * e == e * N;
  }

  lemma EncZero(n: nat, s: nat, r: int)
    ensures Enc(n, s, 0, r) == Pow(r, Pow(n, s))
  {
  }

  lemma EncOne(n: nat, s: nat)
    ensures Enc(n, s, 0, 1) == 1
  {
    OnePow(Pow(n, s));
  }

  /** Only the plaintext modulo `N` and the randomness modulo `n` matter. */
  lemma EncCong(n: nat, s: nat, x: nat, r: int, y: nat, t: int)
    requires n > 0 && Cong(x, y, Pow(n, s)) && Cong(r, t, n)
    ensures Cong(Enc(n, s, x, r), Enc(n, s, y, t), Pow(n, s + 1))
  {
    OrderOfBase(n, s);
    PowPeriodic(1 + n, x, y, Pow(n, s), Pow(n, s + 1));
    Lift(r, t, n, s);
    CongMul(Pow(1 + n, x), Pow(1 + n, y), Pow(r, Pow(n, s)), Pow(t, Pow(n, s)), Pow(n, s + 1));
  }

  /** Two ciphertexts whose plaintexts and randomness cancel multiply to one. */
  lemma EncInverse(n: nat, s: nat, x: nat, r: int, y: nat, t: int)
    requires n > 0 && Cong(x + y, 0, Pow(n, s)) && Cong(r * t, 1, n)
    ensures Cong(Enc(n, s, x, r) * Enc(n, s, y, t), 1, Pow(n, s + 1))
  {
    EncMul(n, s, x, r, y, t);
    EncCong(n, s, x + y, r * t, 0, 1);
    EncOne(n, s);
  }

  lemma BaseCoprime(n: nat)
    ensures Coprime(1 + n, n)
  {
    CoprimeIntro(1 + n, n, 1, -1);
  }

  /** A ciphertext is a unit exactly when its randomness is. */
  lemma EncCoprime(n: nat, s: nat, x: nat, r: int)
    requires n > 0
    ensures Coprime(Enc(n, s, x, r), n) <==> Coprime(r, n)
  {
    BaseCoprime(n);
    CoprimePow(1 + n, x, n);
    var N := Pow(n, s);
    if Coprime(r, n) {
      CoprimePow(r, N, n);
      CoprimeMul(Pow(1 + n, x), Pow(r, N), n);
    }
    if Coprime(Enc(n, s, x, r), n) {
      CoprimeFactor(Pow(1 + n, x), Pow(r, N), n);
      assert Pow(r, N) == r * Pow(r, N - 1);
      CoprimeFactor(r, Pow(r, N - 1), n);
    }
  }
}
