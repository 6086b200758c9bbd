/** From two answers to one commitment, compute an opening of a Damgard-Jurik ciphertext. */
module DamgardJurikExtraction {
  import opened Congruence
  import opened Coprimality
  import opened DamgardJurik

  /** `c` is an encryption of `x` under unit randomness `r`. */
  ghost predicate Opens(n: nat, s: nat, c: int, x: nat, r: int) {
    Cong(c, Enc(n, s, x, r), Pow(n, s + 1)) && Coprime(r, n)
  }

  lemma OpensMeans(n: nat, s: nat, c: int, x: nat, r: int)
    requires Opens(n, s, c, x, r)
    ensures Cong(c, Enc(n, s, x, r), Pow(n, s + 1)) && Coprime(r, n)
  {
  }

  lemma OpensFrom(n: nat, s: nat, c: int, x: nat, r: int)
    requires Cong(c, Enc(n, s, x, r), Pow(n, s + 1)) && Coprime(r, n)
    ensures Opens(n, s, c, x, r)
  {
  }

  /** Move a unit to the other side of a congruence. */
  lemma MoveAcross(a: int, b: int, c: int, d: int, m: int)
    requires Cong(a * b, c, m) && Cong(b * d, 1, m)
    ensures Cong(a, c * d, m)
  {
    CongScale(a * b, c, d, m);
    CongScale(b * d, 1, a, m);
    assert a * (b * d) == (a * b) * d;
    CongSym(a * (b * d), a, m);
    CongTrans(a, (a * b) * d, c * d, m);
  }

  /** Non-negative Bezout coefficients for a challenge difference coprime to `n`. */
  lemma ChallengeInverse(n: nat, s: nat, delta: nat) returns (u: nat, v: nat)
    requires n > 0 && delta > 0 && Coprime(delta, n)
    ensures u * delta == 1 + v * Pow(n, s)
  {
    hide Cong, Pow, Coprime;
    var N := Pow(n, s);
    CoprimePowRight(delta, n, s);
    var w := InverseExists(delta, N);
    u := w + N;
    CongFromQuotient(delta * u, delta * w, N, delta);
    CongTrans(delta * u, delta * w, 1, N);
    var k := CongQuotient(delta * u, 1, N);
    assert u * delta >= 1;
    if k < 0 { MulAtLeast(k, N); }
    v := k;
  }

  /** Raising `c^delta` to the inverse of `delta` leaves `c` times an N-th power. */
  lemma RootOfPower(n: nat, s: nat, c: int, delta: nat, u: nat, v: nat, t: int)
    requires u * delta == 1 + v * Pow(n, s)
    requires Cong(Pow(c, delta), t, Pow(n, s + 1))
    ensures Cong(c * Enc(n, s, 0, Pow(c, v)), Pow(t, u), Pow(n, s + 1))
  {
    var N := Pow(n, s);
    PowCong(Pow(c, delta), t, u, Pow(n, s + 1));
    PowPow(c, delta, u);
    assert delta * u == 1 + v * N;
    PowAdd(c, 1, v * N);
    PowOne(c);
    PowPow(c, v, N);
    EncZero(n, s, Pow(c, v));
  }

  /** If `c^delta` is an encryption of `y`, then `c` is an encryption of `y*u`. */
  lemma ExtractOpening(n: nat, s: nat, c: int, delta: nat, u: nat, v: nat, y: nat, w: int) returns (r: int)
    requires n > 0 && u * delta == 1 + v * Pow(n, s)
    requires Coprime(c, n) && Opens(n, s, Pow(c, delta), y, w)
    ensures y * u >= 0 && Opens(n, s, c, y * u, r)
  {
    RootOfPower(n, s, c, delta, u, v, Enc(n, s, y, w));
    EncPow(n, s, y, w, u);
    CoprimePow(c, v, n);
    CoprimePow(w, u, n);
    r := RemovePower(n, s, c, Pow(c, v), Enc(n, s, y * u, Pow(w, u)));
    EncMul(n, s, y * u, Pow(w, u), 0, r);
    CoprimeMul(Pow(w, u), r, n);
    r := Pow(w, u) * r;
  }

  /** An N-th power of a unit moves across as the N-th power of its inverse. */
  lemma RemovePower(n: nat, s: nat, a: int, t: int, c: int) returns (k: int)
    requires n > 0 && Coprime(t, n) && Cong(a * Enc(n, s, 0, t), c, Pow(n, s + 1))
    ensures Coprime(k, n) && Cong(a, c * Enc(n, s, 0, k), Pow(n, s + 1))
  {
    k := InverseExists(t, n);
    CongRefl(0, Pow(n, s));
    EncInverse(n, s, 0, t, 0, k);
    MoveAcross(a, Enc(n, s, 0, t), c, Enc(n, s, 0, k), Pow(n, s + 1));
  }

  /** Dividing two accepting equations `c^e * a = Enc(z, w)` with one `a`. */
  lemma DivideAnswers(n: nat, s: nat, c: int, a: int, e: nat, e': nat, z: nat, w: int, z': nat, w': int)
      returns (y: nat, q: int)
    requires n > 0 && e > e' && Coprime(w, n) && Coprime(w', n)
    requires Cong(Pow(c, e) * a, Enc(n, s, z, w), Pow(n, s + 1))
    requires Cong(Pow(c, e') * a, Enc(n, s, z', w'), Pow(n, s + 1))
    ensures y == z + (Pow(n, s) - 1) * z'
    ensures Opens(n, s, Pow(c, e - e'), y, q)
  {
    var N, M := Pow(n, s), Pow(n, s + 1);
    var d := Pow(c, e - e');
    PowAdd(c, e - e', e');
    MulAssoc(d, Pow(c, e'), a);
    hide *;
    CongScale(Pow(c, e') * a, Enc(n, s, z', w'), d, M);
    CongSym(Pow(c, e) * a, d * Enc(n, s, z', w'), M);
    CongTrans(d * Enc(n, s, z', w'), Pow(c, e) * a, Enc(n, s, z, w), M);
    var k := InverseExists(w', n);
    var x := NegateExponent(N, z');
    EncInverse(n, s, z', w', x, k);
    MoveAcross(d, Enc(n, s, z', w'), Enc(n, s, z, w), Enc(n, s, x, k), M);
    EncMul(n, s, z, w, x, k);
    CoprimeMul(w, k, n);
    y, q := z + x, w * k;
    OpensFrom(n, s, d, y, q);
  }

  lemma NegateExponent(N: nat, z: nat) returns (x: nat)
    requires N > 0
    ensures x == (N - 1) * z && z + x == z * N && Cong(z + x, 0, N)
  {
    x := (N - 1) * z;
    assert z + x == z * N;
    CongFromQuotient(z + x, 0, N, z);
  }
}
