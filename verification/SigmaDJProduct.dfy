/** The sigma protocol proving that three Damgard-Jurik ciphertexts encrypt x1, x2 and x1*x2. */
module SigmaDJProduct {
  import opened Outcomes
  import opened Congruence
  import opened Coprimality
  import opened MathAlgorithms
  import opened Challenges
  import opened DamgardJurik
  import opened DamgardJurikExtraction
  import Zero = SigmaDJEncryptedZero

  datatype CommonInput = CommonInput(n: nat, c1: nat, c2: nat, c3: nat)

  datatype ProverInput = ProverInput(common: CommonInput, r1: int, r2: int, r3: int, x1: nat, x2: nat)

  datatype FirstMsg = FirstMsg(a1: nat, a2: nat)

  datatype SecondMsg = SecondMsg(z1: nat, z2: nat, z3: nat)

  /** `c1^e * a1 = (1+n)^z1 * z2^N` and `c2^z1 / (a2 * c3^e) = z3^N`, both modulo `N'`. */
  ghost predicate Equations(s: nat, c: CommonInput, a: FirstMsg, e: nat, z: SecondMsg) {
    && Cong(Pow(c.c1, e) * a.a1, Enc(c.n, s, z.z1, z.z2), Pow(c.n, s + 1))
    && Cong(Pow(c.c2, z.z1), (a.a2 * Pow(c.c3, e)) * Enc(c.n, s, 0, z.z3), Pow(c.n, s + 1))
  }

  /** Every value but `c3` is relatively prime to `n`. */
  ghost predicate UnitsChecked(c: CommonInput, a: FirstMsg, z: SecondMsg) {
    && Coprime(c.c1, c.n) && Coprime(c.c2, c.n)
    && Coprime(a.a1, c.n) && Coprime(a.a2, c.n)
    && Coprime(z.z1, c.n) && Coprime(z.z2, c.n) && Coprime(z.z3, c.n)
  }

  /** The documented acceptance condition. */
  ghost predicate Documented(s: nat, c: CommonInput, a: FirstMsg, e: nat, z: SecondMsg) {
    UnitsChecked(c, a, z) && Coprime(c.c3, c.n) && Equations(s, c, a, e, z)
  }

  // ---------- the prover's messages ----------

  function First(n: nat, s: nat, x2: nat, d: nat, rd: int, rdb: int): FirstMsg
    requires n > 0
  {
    var N, NTag := Pow(n, s), Pow(n, s + 1);
    FirstMsg((PowMod(n + 1, d, NTag) * PowMod(rd, N, NTag)) % NTag,
             (PowMod(n + 1, d * x2, NTag) * PowMod(rdb, N, NTag)) % NTag)
  }

  /** What the second message computes: `z3` is `r2^z1` divided by `rdb * r3^e` modulo `n`. */
  ghost predicate IsSecond(s: nat, input: ProverInput, d: nat, rd: int, rdb: int, e: nat, z: SecondMsg)
    requires input.common.n > 0
  {
    var n := input.common.n;
    && z.z1 == (e * input.x1 + d) % Pow(n, s)
    && z.z2 == (PowMod(input.r1, e, n) * rd) % n
    && z.z3 < n && Cong(Pow(input.r2, z.z1), (rdb * Pow(input.r3, e)) * z.z3, n)
  }

  class Prover {
    const t: nat
    const lengthParameter: nat
    var input: ProverInput
    var n: nat
    var N: nat
    var NTag: nat
    var d: nat
    var rd: nat
    var rdb: nat

    constructor (t: nat, lengthParameter: nat)
      ensures this.t == t && this.lengthParameter == lengthParameter
    {
      this.t, this.lengthParameter := t, lengthParameter;
      input := ProverInput(CommonInput(0, 0, 0, 0), 0, 0, 0, 0, 0);
      n, N, NTag, d, rd, rdb := 0, 0, 0, 0, 0, 0;
    }

    ghost predicate Ready()
      reads this
    {
      n > 1 && input.common.n == n && N == Pow(n, lengthParameter) && NTag == Pow(n, lengthParameter + 1)
    }

    method ComputeFirstMsg(in_: ProverInput, d0: nat, rd0: nat, rdb0: nat) returns (a: Outcome<FirstMsg>)
      requires in_.common.n > 0 && d0 < Pow(in_.common.n, lengthParameter)
      requires 1 <= rd0 < in_.common.n && 1 <= rdb0 < in_.common.n
      modifies this
      ensures input == in_ && n == in_.common.n
      ensures if Zero.SoundnessValid(t, n)
              then Ready() && d == d0 && rd == rd0 && rdb == rdb0
                && a == Returned(First(n, lengthParameter, in_.x2, d0, rd0, rdb0))
              else a == Threw(InvalidArgument) && d == old(d) && rd == old(rd) && rdb == old(rdb)
    {
      input, n := in_, in_.common.n;
      if !Zero.SoundnessValid(t, n) {
        return Threw(InvalidArgument);
      }
      N, NTag := Pow(n, lengthParameter), Pow(n, lengthParameter + 1);
      d, rd, rdb := d0, rd0, rdb0;
      var a1 := (PowMod(n + 1, d, NTag) * PowMod(rd, N, NTag)) % NTag;
      var exponent := d * input.x2;
      var a2 := (PowMod(n + 1, exponent, NTag) * PowMod(rdb, N, NTag)) % NTag;
      return Returned(FirstMsg(a1, a2));
    }

    /** Answers and erases the sampled values; dividing by a non-unit throws before they are erased. */
    method ComputeSecondMsg(challenge: seq<Byte>) returns (z: Outcome<SecondMsg>)
      requires Ready() && rdb >= 1 && challenge != [] && DecodeBigInteger(challenge) >= 0
      modifies this
      ensures Ready() && input == old(input) && n == old(n)
      ensures |challenge| != t / 8 ==> z == Threw(CheatAttempt) && d == old(d) && rd == old(rd) && rdb == old(rdb)
      ensures |challenge| == t / 8 ==>
        var denominator := old(rdb) * PowMod(input.r3, DecodeBigInteger(challenge), n);
        z.Threw? <==> denominator > 1 && Gcd(denominator, n) != 1
      ensures |challenge| == t / 8 && z.Threw? ==>
        z.error == DivisionByZero && d == old(d) && rd == old(rd) && rdb == old(rdb)
      ensures |challenge| == t / 8 && z.Returned? ==>
        && d == 0 && rd == 0 && rdb == 0
        && z.value.z1 == (DecodeBigInteger(challenge) * input.x1 + old(d)) % N
        && z.value.z2 == (PowMod(input.r1, DecodeBigInteger(challenge), n) * old(rd)) % n
      ensures |challenge| == t / 8 && Coprime(old(rdb), n) && Coprime(input.r3, n) ==>
        z.Returned? && IsSecond(lengthParameter, input, old(d), old(rd), old(rdb), DecodeBigInteger(challenge), z.value)
    {
      if |challenge| != t / 8 {
        return Threw(CheatAttempt);
      }
      var e := DecodeBigInteger(challenge);
      var z1 := (e * input.x1 + d) % N;
      var z2 := (PowMod(input.r1, e, n) * rd) % n;
      var numerator := PowMod(input.r2, z1, n);
      var r3ToE := PowMod(input.r3, e, n);
      var denominator := rdb * r3ToE;
      if Coprime(rdb, n) && Coprime(input.r3, n) {
        DenominatorUnit(n, rdb, input.r3, e);
      }
      var inverse :- ModInverse(denominator, n);
      var z3 := (numerator * inverse) % n;
      if Coprime(rdb, n) && Coprime(input.r3, n) {
        AnswerDivides(n, rdb, input.r2, z1, input.r3, e, inverse, z3);
      }
      d, rd, rdb := 0, 0, 0;
      return Returned(SecondMsg(z1, z2, z3));
    }
  }

  lemma DenominatorUnit(n: nat, rdb: nat, r3: int, e: nat)
    requires n > 1 && Coprime(rdb, n) && Coprime(r3, n) && rdb >= 1
    ensures rdb * PowMod(r3, e, n) >= 1 && Gcd(rdb * PowMod(r3, e, n), n) == 1
  {
    var w := PowMod(r3, e, n);
    CoprimePow(r3, e, n);
    PowModCong(r3, e, n);
    CongSym(w, Pow(r3, e), n);
    CoprimeCong(Pow(r3, e), w, n);
    UnitNonZero(w, n);
    CoprimeMul(rdb, w, n);
    MulAtLeast(rdb, w);
    GcdDecidesCoprime(rdb * w, n);
  }

  lemma UnitNonZero(w: int, n: int)
    requires n > 1 && Coprime(w, n)
    ensures w != 0
  {
    if w == 0 {
      CongRefl(0, n);
      CongFromQuotient(n, 0, n, 1);
      CoprimeNoCommonDivisor(0, n, n);
    }
  }

  lemma AnswerDivides(n: nat, rdb: nat, r2: int, z1: nat, r3: int, e: nat, k: int, z3: int)
    requires n > 1 && Cong((rdb * PowMod(r3, e, n)) * k, 1, n)
    requires z3 == (PowMod(r2, z1, n) * k) % n
    ensures Cong(Pow(r2, z1), (rdb * Pow(r3, e)) * z3, n)
  {
    var w, v := PowMod(r2, z1, n), PowMod(r3, e, n);
    PowModCong(r2, z1, n);
    PowModCong(r3, e, n);
    CongSym(v, Pow(r3, e), n);
    CongScale(Pow(r3, e), v, rdb, n);
    CongMod(w * k, n);
    Zero.QuotientEquation(z3, w, k, rdb * v, rdb * Pow(r3, e), Pow(r2, z1), n);
    assert z3 * (rdb * Pow(r3, e)) == (rdb * Pow(r3, e)) * z3;
  }

  // ---------- completeness ----------

  /** A product of reduced powers is the ciphertext it stands for. */
  lemma ReducedEnc(n: nat, s: nat, x: nat, r: int)
    requires n > 0
    ensures var m := Pow(n, s + 1);
      Cong((PowMod(n + 1, x, m) * PowMod(r, Pow(n, s), m)) % m, Enc(n, s, x, r), m)
  {
    var m := Pow(n, s + 1);
    var g, w := PowMod(n + 1, x, m), PowMod(r, Pow(n, s), m);
    PowModCong(n + 1, x, m);
    PowModCong(r, Pow(n, s), m);
    CongMul(g, Pow(1 + n, x), w, Pow(r, Pow(n, s)), m);
    CongMod(g * w, m);
    CongTrans((g * w) % m, g * w, Enc(n, s, x, r), m);
  }

  lemma FirstEquation(n: nat, s: nat, c1: int, x1: nat, r1: int, d: nat, rd: int, a1: int, e: nat, z1: nat, z2: int)
    requires n > 0 && Cong(c1, Enc(n, s, x1, r1), Pow(n, s + 1)) && Cong(a1, Enc(n, s, d, rd), Pow(n, s + 1))
    requires Cong(z1, e * x1 + d, Pow(n, s)) && Cong(z2, Pow(r1, e) * rd, n)
    ensures Cong(Pow(c1, e) * a1, Enc(n, s, z1, z2), Pow(n, s + 1))
  {
    var m := Pow(n, s + 1);
    PowCong(c1, Enc(n, s, x1, r1), e, m);
    EncPow(n, s, x1, r1, e);
    CongMul(Pow(c1, e), Enc(n, s, x1 * e, Pow(r1, e)), a1, Enc(n, s, d, rd), m);
    EncMul(n, s, x1 * e, Pow(r1, e), d, rd);
    CongSym(z1, e * x1 + d, Pow(n, s));
    CongSym(z2, Pow(r1, e) * rd, n);
    EncCong(n, s, x1 * e + d, Pow(r1, e) * rd, z1, z2);
    CongTrans(Pow(c1, e) * a1, Enc(n, s, x1 * e + d, Pow(r1, e) * rd), Enc(n, s, z1, z2), m);
  }

  lemma SecondProducts(x1: int, x2: int, d: int, e: int)
    ensures x2 * (e * x1 + d) == d * x2 + (x1 * x2) * e
  {
    assert x2 * (e * x1 + d) == x2 * (e * x1) + x2 * d;
    MulAssoc(e, x1, x2);
    assert x2 * (e * x1) == (e * x1) * x2 == e * (x1 * x2);
  }

  /** Exponents: `x2 * z1` and `d*x2 + x3*e` agree modulo `N` when `x3 = x1*x2`. */
  lemma SecondExponent(N: int, x1: int, x2: int, x3: int, d: int, e: int, z1: int)
    requires Cong(z1, e * x1 + d, N) && Cong(x3, x1 * x2, N)
    ensures Cong(x2 * z1, d * x2 + x3 * e, N)
  {
    hide Cong;
    CongScale(z1, e * x1 + d, x2, N);
    CongScale(x3, x1 * x2, e, N);
    CongSym(x3 * e, (x1 * x2) * e, N);
    CongRefl(d * x2, N);
    CongAdd(d * x2, d * x2, (x1 * x2) * e, x3 * e, N);
    SecondProducts(x1, x2, d, e);
    CongTrans(x2 * z1, x2 * (e * x1 + d), d * x2 + x3 * e, N);
  }

  lemma SecondEquation(n: nat, s: nat, c2: int, x2: nat, r2: int, c3: int, x3: nat, r3: int,
                       k: nat, rdb: int, a2: int, e: nat, z1: nat, z3: int)
    requires n > 0 && Cong(c2, Enc(n, s, x2, r2), Pow(n, s + 1)) && Cong(c3, Enc(n, s, x3, r3), Pow(n, s + 1))
    requires Cong(a2, Enc(n, s, k, rdb), Pow(n, s + 1))
    requires x2 * z1 >= 0 && x3 * e >= 0 && Cong(x2 * z1, k + x3 * e, Pow(n, s))
    requires Cong(Pow(r2, z1), (rdb * Pow(r3, e)) * z3, n)
    ensures Cong(Pow(c2, z1), (a2 * Pow(c3, e)) * Enc(n, s, 0, z3), Pow(n, s + 1))
  {
    var m := Pow(n, s + 1);
    PowCong(c2, Enc(n, s, x2, r2), z1, m);
    EncPow(n, s, x2, r2, z1);
    PowCong(c3, Enc(n, s, x3, r3), e, m);
    EncPow(n, s, x3, r3, e);
    CongMul(a2, Enc(n, s, k, rdb), Pow(c3, e), Enc(n, s, x3 * e, Pow(r3, e)), m);
    EncMul(n, s, k, rdb, x3 * e, Pow(r3, e));
    CongScale(a2 * Pow(c3, e), Enc(n, s, k + x3 * e, rdb * Pow(r3, e)), Enc(n, s, 0, z3), m);
    EncMul(n, s, k + x3 * e, rdb * Pow(r3, e), 0, z3);
    EncCong(n, s, x2 * z1, Pow(r2, z1), k + x3 * e, (rdb * Pow(r3, e)) * z3);
    var middle := Enc(n, s, k + x3 * e, (rdb * Pow(r3, e)) * z3);
    CongTrans(Pow(c2, z1), Enc(n, s, x2 * z1, Pow(r2, z1)), middle, m);
    CongSym((a2 * Pow(c3, e)) * Enc(n, s, 0, z3), middle, m);
    CongTrans(Pow(c2, z1), middle, (a2 * Pow(c3, e)) * Enc(n, s, 0, z3), m);
  }

  ghost predicate HonestStatement(s: nat, input: ProverInput, x3: nat) {
    && input.common.n > 0
    && Opens(input.common.n, s, input.common.c1, input.x1, input.r1)
    && Opens(input.common.n, s, input.common.c2, input.x2, input.r2)
    && Opens(input.common.n, s, input.common.c3, x3, input.r3)
    && Cong(x3, input.x1 * input.x2, Pow(input.common.n, s))
  }

  lemma HonestEquations(s: nat, input: ProverInput, x3: nat, d: nat, rd: int, rdb: int, e: nat, z: SecondMsg)
    requires HonestStatement(s, input, x3) && IsSecond(s, input, d, rd, rdb, e, z)
    ensures Equations(s, input.common, First(input.common.n, s, input.x2, d, rd, rdb), e, z)
  {
    hide Cong, Pow, PowMod, Enc;
    var n, c := input.common.n, input.common;
    var a := First(n, s, input.x2, d, rd, rdb);
    ReducedEnc(n, s, d, rd);
    ReducedEnc(n, s, d * input.x2, rdb);
    CongMod(e * input.x1 + d, Pow(n, s));
    SecondRandomness(n, input.r1, e, rd, z.z2);
    FirstEquation(n, s, c.c1, input.x1, input.r1, d, rd, a.a1, e, z.z1, z.z2);
    SecondExponent(Pow(n, s), input.x1, input.x2, x3, d, e, z.z1);
    SecondEquation(n, s, c.c2, input.x2, input.r2, c.c3, x3, input.r3,
                   d * input.x2, rdb, a.a2, e, z.z1, z.z3);
  }

  /** The honest messages satisfy both equations although `z1` is reduced modulo `N` and `z2, z3`
      modulo `n`; they are accepted exactly when `z1` and the sample `rd` are units. */
  lemma Completeness(s: nat, input: ProverInput, x3: nat, d: nat, rd: int, rdb: int, e: nat, z: SecondMsg)
    requires HonestStatement(s, input, x3)
    requires Coprime(rdb, input.common.n) && IsSecond(s, input, d, rd, rdb, e, z)
    ensures var a := First(input.common.n, s, input.x2, d, rd, rdb);
      && Equations(s, input.common, a, e, z)
      && (Documented(s, input.common, a, e, z) <==>
          Coprime(z.z1, input.common.n) && Coprime(rd, input.common.n))
  {
    HonestEquations(s, input, x3, d, rd, rdb, e, z);
    HonestUnits(s, input, x3, d, rd, rdb, e, z);
  }

  lemma SecondRandomness(n: nat, r1: int, e: nat, rd: int, z2: int)
    requires n > 0 && z2 == (PowMod(r1, e, n) * rd) % n
    ensures Cong(z2, Pow(r1, e) * rd, n)
  {
    PowModCong(r1, e, n);
    CongScale(PowMod(r1, e, n), Pow(r1, e), rd, n);
    CongMod(PowMod(r1, e, n) * rd, n);
    CongTrans(z2, PowMod(r1, e, n) * rd, Pow(r1, e) * rd, n);
  }

  lemma HonestUnits(s: nat, input: ProverInput, x3: nat, d: nat, rd: int, rdb: int, e: nat, z: SecondMsg)
    requires HonestStatement(s, input, x3)
    requires Coprime(rdb, input.common.n) && IsSecond(s, input, d, rd, rdb, e, z)
    ensures Coprime(input.common.c3, input.common.n)
    ensures UnitsChecked(input.common, First(input.common.n, s, input.x2, d, rd, rdb), z) <==>
      Coprime(z.z1, input.common.n) && Coprime(rd, input.common.n)
  {
    var n, c := input.common.n, input.common;
    var a := First(n, s, input.x2, d, rd, rdb);
    Zero.CipherCoprime(n, s, c.c1, input.x1, input.r1);
    Zero.CipherCoprime(n, s, c.c2, input.x2, input.r2);
    Zero.CipherCoprime(n, s, c.c3, x3, input.r3);
    ReducedEnc(n, s, d, rd);
    UnitIff(n, s, a.a1, d, rd);
    ReducedEnc(n, s, d * input.x2, rdb);
    UnitIff(n, s, a.a2, d * input.x2, rdb);
    SecondRandomness(n, input.r1, e, rd, z.z2);
    if Coprime(rd, n) {
      CoprimePow(input.r1, e, n);
      CoprimeMul(Pow(input.r1, e), rd, n);
      CongSym(z.z2, Pow(input.r1, e) * rd, n);
      CoprimeCong(Pow(input.r1, e) * rd, z.z2, n);
    }
    CoprimePow(input.r2, z.z1, n);
    CoprimeCong(Pow(input.r2, z.z1), (rdb * Pow(input.r3, e)) * z.z3, n);
    CoprimeFactor(rdb * Pow(input.r3, e), z.z3, n);
  }

  lemma UnitIff(n: nat, s: nat, a: int, x: nat, r: int)
    requires n > 0 && Cong(a, Enc(n, s, x, r), Pow(n, s + 1))
    ensures Coprime(a, n) <==> Coprime(r, n)
  {
    EncCoprime(n, s, x, r);
    CongFactor(a, Enc(n, s, x, r), n, Pow(n, s));
    CongSym(a, Enc(n, s, x, r), n);
    if Coprime(a, n) { CoprimeCong(a, Enc(n, s, x, r), n); }
    if Coprime(r, n) { CoprimeCong(Enc(n, s, x, r), a, n); }
  }

  // ---------- special soundness ----------

  /** The second equations of two answers, divided: `c3^delta = c2^y * q^N`. */
  lemma DivideSecondEquations(n: nat, s: nat, c2: int, c3: int, a2: int, e: nat, e': nat,
                              z1: nat, z3: int, z1': nat, z3': int) returns (y: nat, q: int)
    requires n > 0 && e > e' && Coprime(c2, n) && Coprime(z3, n) && Coprime(z3', n)
    requires Cong(Pow(c2, z1), (a2 * Pow(c3, e)) * Enc(n, s, 0, z3), Pow(n, s + 1))
    requires Cong(Pow(c2, z1'), (a2 * Pow(c3, e')) * Enc(n, s, 0, z3'), Pow(n, s + 1))
    ensures y == z1 + (Pow(n, s) - 1) * z1' && Coprime(q, n)
    ensures Cong(Pow(c3, e - e'), Pow(c2, y) * Enc(n, s, 0, q), Pow(n, s + 1))
  {
    var m, d := Pow(n, s + 1), Pow(c3, e - e');
    PowAdd(c3, e - e', e');
    CrossMultiply(a2, d, Pow(c3, e'), Enc(n, s, 0, z3), Enc(n, s, 0, z3'), Pow(c2, z1), Pow(c2, z1'), m);
    var k := RemovePower(n, s, d * Pow(c2, z1'), z3, Pow(c2, z1) * Enc(n, s, 0, z3'));
    var x := NegateExponent(Pow(n, s), z1');
    y := z1 + x;
    var l := InverseExists(Pow(c2, z1'), n) by { CoprimePow(c2, z1', n); }
    PowerCancels(n, s, c2, z1', x, l);
    MoveAcross(d, Pow(c2, z1'), (Pow(c2, z1) * Enc(n, s, 0, z3')) * Enc(n, s, 0, k),
               Pow(c2, x) * Enc(n, s, 0, l), m);
    CollectPowers(n, s, c2, z1, x, z3', k, l);
    q := (z3' * k) * l;
    CoprimeMul(z3', k, n);
    CoprimeMul(z3' * k, l, n);
  }

  lemma CrossMultiply(a2: int, d: int, f: int, p: int, p': int, u: int, u': int, m: int)
    requires Cong(u, (a2 * (d * f)) * p, m) && Cong(u', (a2 * f) * p', m)
    ensures Cong((d * u') * p, u * p', m)
  {
    hide Cong;
    CongScale(u', (a2 * f) * p', d * p, m);
    CongScale(u, (a2 * (d * f)) * p, p', m);
    CongSym(u * p', ((a2 * (d * f)) * p) * p', m);
    RotateFactors(u', d, p);
    CrossProducts(a2, d, f, p, p');
    CongTrans((d * u') * p, ((a2 * (d * f)) * p) * p', u * p', m);
  }

  lemma RotateFactors(u: int, d: int, p: int)
    ensures u * (d * p) == (d * u) * p
  {
    MulAssoc(u, d, p);
  }

  lemma CrossProducts(a2: int, d: int, f: int, p: int, p': int)
    ensures ((a2 * f) * p') * (d * p) == ((a2 * (d * f)) * p) * p'
  {
    MulSwap(a2 * f, p', d, p);
    assert (a2 * f) * d == a2 * (d * f);
    assert (a2 * (d * f)) * (p' * p) == ((a2 * (d * f)) * p) * p';
  }

  /** `c2^z` times `c2^((N-1)z)` is an N-th power, undone by the inverse of its root. */
  lemma PowerCancels(n: nat, s: nat, c2: int, z: nat, x: nat, l: int)
    requires n > 0 && z + x == z * Pow(n, s) && Cong(Pow(c2, z) * l, 1, n)
    ensures Cong(Pow(c2, z) * (Pow(c2, x) * Enc(n, s, 0, l)), 1, Pow(n, s + 1))
  {
    WholePower(n, s, c2, z, x);
    CongRefl(0, Pow(n, s));
    EncInverse(n, s, 0, Pow(c2, z), 0, l);
    MulAssoc(Pow(c2, z), Pow(c2, x), Enc(n, s, 0, l));
  }

  lemma {:induction false} WholePower(n: nat, s: nat, c2: int, z: nat, x: nat)
    requires z + x == z * Pow(n, s)
    ensures Pow(c2, z) * Pow(c2, x) == Enc(n, s, 0, Pow(c2, z))
  {
    PowAdd(c2, z, x);
    PowPow(c2, z, Pow(n, s));
    EncZero(n, s, Pow(c2, z));
  }

  lemma CollectPowers(n: nat, s: nat, c2: int, z: nat, x: nat, z3: int, k: int, l: int)
    ensures ((Pow(c2, z) * Enc(n, s, 0, z3)) * Enc(n, s, 0, k)) * (Pow(c2, x) * Enc(n, s, 0, l))
      == Pow(c2, z + x) * Enc(n, s, 0, (z3 * k) * l)
  {
    EncMul(n, s, 0, z3, 0, k);
    EncMul(n, s, 0, z3 * k, 0, l);
    PowAdd(c2, z, x);
    MulAssoc(Pow(c2, z), Enc(n, s, 0, z3), Enc(n, s, 0, k));
    MulSwap(Pow(c2, z), Enc(n, s, 0, z3 * k), Pow(c2, x), Enc(n, s, 0, l));
  }

  /** `c3^delta = c2^y * q^N` gives `c3 = c2^(y*u) * r^N`. */
  lemma ExtractPower(n: nat, s: nat, c2: int, c3: int, delta: nat, u: nat, v: nat, y: nat, q: int) returns (r: int)
    requires n > 0 && u * delta == 1 + v * Pow(n, s) && Coprime(c3, n) && Coprime(q, n)
    requires Cong(Pow(c3, delta), Pow(c2, y) * Enc(n, s, 0, q), Pow(n, s + 1))
    ensures y * u >= 0 && Coprime(r, n)
    ensures Cong(c3, Pow(c2, y * u) * Enc(n, s, 0, r), Pow(n, s + 1))
  {
    hide Cong, Pow, Enc, Coprime;
    RootOfPower(n, s, c3, delta, u, v, Pow(c2, y) * Enc(n, s, 0, q));
    PowMul(Pow(c2, y), Enc(n, s, 0, q), u);
    PowPow(c2, y, u);
    EncPow(n, s, 0, q, u);
    CoprimePow(c3, v, n);
    CoprimePow(q, u, n);
    var k := RemovePower(n, s, c3, Pow(c3, v), Pow(c2, y * u) * Enc(n, s, 0, Pow(q, u)));
    EncMul(n, s, 0, Pow(q, u), 0, k);
    MulAssoc(Pow(c2, y * u), Enc(n, s, 0, Pow(q, u)), Enc(n, s, 0, k));
    r := Pow(q, u) * k;
    CoprimeMul(Pow(q, u), k, n);
  }

  /** From two accepting transcripts with one first message and a challenge difference coprime to `n`:
      an opening of `c1` to some `x1`, and `c3 = c2^x1 * r^N`. */
  lemma Extractor(s: nat, c: CommonInput, a: FirstMsg, e: nat, z: SecondMsg, e': nat, z': SecondMsg)
      returns (x1: nat, r1: int, r: int)
    requires c.n > 0 && Documented(s, c, a, e, z) && Documented(s, c, a, e', z')
    requires e > e' && Coprime(e - e', c.n)
    ensures Opens(c.n, s, c.c1, x1, r1)
    ensures Coprime(r, c.n) && Cong(c.c3, Pow(c.c2, x1) * Enc(c.n, s, 0, r), Pow(c.n, s + 1))
  {
    var n := c.n;
    var u, v := ChallengeInverse(n, s, e - e');
    var y, q := DivideAnswers(n, s, c.c1, a.a1, e, e', z.z1, z.z2, z'.z1, z'.z2);
    r1 := ExtractOpening(n, s, c.c1, e - e', u, v, y, q);
    x1 := y * u;
    var y', q' := DivideSecondEquations(n, s, c.c2, c.c3, a.a2, e, e', z.z1, z.z3, z'.z1, z'.z3);
    r := ExtractPower(n, s, c.c2, c.c3, e - e', u, v, y', q');
  }

  /** Hence whatever `x2` the second ciphertext encrypts, the third encrypts `x1*x2`. */
  lemma ProductOpening(n: nat, s: nat, c2: int, c3: int, x1: nat, r: int, x2: nat, r2: int) returns (r3: int)
    requires n > 0 && Coprime(r, n) && Cong(c3, Pow(c2, x1) * Enc(n, s, 0, r), Pow(n, s + 1))
    requires Opens(n, s, c2, x2, r2)
    ensures x2 * x1 >= 0 && Opens(n, s, c3, x2 * x1, r3)
  {
    var m := Pow(n, s + 1);
    PowCong(c2, Enc(n, s, x2, r2), x1, m);
    EncPow(n, s, x2, r2, x1);
    CongScale(Pow(c2, x1), Enc(n, s, x2 * x1, Pow(r2, x1)), Enc(n, s, 0, r), m);
    EncMul(n, s, x2 * x1, Pow(r2, x1), 0, r);
    r3 := Pow(r2, x1) * r;
    CongTrans(c3, Pow(c2, x1) * Enc(n, s, 0, r), Enc(n, s, x2 * x1, r3), m);
    CoprimePow(r2, x1, n);
    CoprimeMul(Pow(r2, x1), r, n);
  }

  // ---------- the verifier ----------

  /** The denominator `a2 * c3^e mod N'` of the second equation. */
  function Denominator(s: nat, c: CommonInput, a: FirstMsg, e: nat): (d: nat)
    requires c.n > 0
  {
    (a.a2 * PowMod(c.c3, e, Pow(c.n, s + 1))) % Pow(c.n, s + 1)
  }

  /** What the code accepts: `c3` is not tested, and a zero denominator is divided by as if it were one. */
  ghost predicate CodeAccepts(s: nat, c: CommonInput, a: FirstMsg, e: nat, z: SecondMsg)
    requires c.n > 0
  {
    var m, d := Pow(c.n, s + 1), Denominator(s, c, a, e);
    && UnitsChecked(c, a, z)
    && Cong(Pow(c.c1, e) * a.a1, Enc(c.n, s, z.z1, z.z2), m)
    && (d == 0 || Coprime(d, m))
    && Cong(Pow(c.c2, z.z1), (if d == 0 then 1 else d) * Enc(c.n, s, 0, z.z3), m)
  }

  class Verifier {
    const t: nat
    const lengthParameter: nat
    var e: seq<Byte>

    constructor (t: nat, lengthParameter: nat)
      ensures this.t == t && this.lengthParameter == lengthParameter && e == []
    {
      this.t, this.lengthParameter := t, lengthParameter;
      e := [];
    }

    method SampleChallenge(random: seq<Byte>)
      requires |random| == t / 8 && random != []
      modifies this
      ensures e == MakePositive(random) && DecodeBigInteger(e) >= 0
    {
      e := MakePositive(random);
      DecodeRange(random);
    }

    /** Divides by zero exactly on a non-zero denominator that is no unit; otherwise decides `CodeAccepts`
        and forgets the challenge. */
    method Verify(input: CommonInput, a: FirstMsg, z: SecondMsg) returns (r: Outcome<bool>)
      requires input.n > 0 && e != [] && DecodeBigInteger(e) >= 0
      modifies this
      ensures !Zero.SoundnessValid(t, input.n) ==> r == Threw(InvalidArgument)
      ensures Zero.SoundnessValid(t, input.n) ==>
        var d := Denominator(lengthParameter, input, a, DecodeBigInteger(old(e)));
        && (r.Threw? <==> d != 0 && !Coprime(d, Pow(input.n, lengthParameter + 1)))
        && (r.Threw? ==> r.error == DivisionByZero && e == old(e))
        && (r.Returned? ==> e == [])
        && (r.Returned? ==> (r.value <==> CodeAccepts(lengthParameter, input, a, DecodeBigInteger(old(e)), z)))
    {
      var n := input.n;
      if !Zero.SoundnessValid(t, n) {
        return Threw(InvalidArgument);
      }
      var verified := AreRelativelyPrime(n, input.c1, input.c2, a.a1, a.a2, z.z1, z.z2, z.z3);
      var N, NTag := Pow(n, lengthParameter), Pow(n, lengthParameter + 1);
      var eBI := DecodeBigInteger(e);
      var left := (PowMod(input.c1, eBI, NTag) * a.a1) % NTag;
      var right := (PowMod(n + 1, z.z1, NTag) * PowMod(z.z2, N, NTag)) % NTag;
      verified := verified && left == right;
      UnitsDecided(input, a, z);
      FirstCheck(n, lengthParameter, input.c1, a.a1, eBI, z.z1, z.z2);
      var numerator := PowMod(input.c2, z.z1, NTag);
      var denominator := (a.a2 * PowMod(input.c3, eBI, NTag)) % NTag;
      DenominatorCases(denominator, n, lengthParameter);
      var inverse :- ModInverse(denominator, NTag);
      left := (numerator * inverse) % NTag;
      right := PowMod(z.z3, N, NTag);
      verified := verified && left == right;
      SecondCheck(n, lengthParameter, input.c2, z.z1, z.z3, denominator, inverse);
      e := [];
      return Returned(verified);
    }
  }

  predicate AreRelativelyPrime(n: nat, c1: nat, c2: nat, a1: nat, a2: nat, z1: nat, z2: nat, z3: nat) {
    && Gcd(c1, n) == 1 && Gcd(c2, n) == 1 && Gcd(c2, n) == 1
    && Gcd(a1, n) == 1 && Gcd(a2, n) == 1
    && Gcd(z1, n) == 1 && Gcd(z2, n) == 1 && Gcd(z3, n) == 1
  }

  lemma UnitsDecided(c: CommonInput, a: FirstMsg, z: SecondMsg)
    requires c.n > 0
    ensures AreRelativelyPrime(c.n, c.c1, c.c2, a.a1, a.a2, z.z1, z.z2, z.z3) <==> UnitsChecked(c, a, z)
  {
    GcdDecidesCoprime(c.c1, c.n);
    GcdDecidesCoprime(c.c2, c.n);
    GcdDecidesCoprime(a.a1, c.n);
    GcdDecidesCoprime(a.a2, c.n);
    GcdDecidesCoprime(z.z1, c.n);
    GcdDecidesCoprime(z.z2, c.n);
    GcdDecidesCoprime(z.z3, c.n);
  }

  lemma FirstCheck(n: nat, s: nat, c1: nat, a1: nat, e: nat, z1: nat, z2: nat)
    requires n > 0
    ensures var m := Pow(n, s + 1);
      (PowMod(c1, e, m) * a1) % m == (PowMod(n + 1, z1, m) * PowMod(z2, Pow(n, s), m)) % m
      <==> Cong(Pow(c1, e) * a1, Enc(n, s, z1, z2), m)
  {
    var m := Pow(n, s + 1);
    var right := PowMod(n + 1, z1, m) * PowMod(z2, Pow(n, s), m);
    PowModCong(c1, e, m);
    CongScale(PowMod(c1, e, m), Pow(c1, e), a1, m);
    ReducedEnc(n, s, z1, z2);
    CongMod(right, m);
    CongTrans(right, right % m, Enc(n, s, z1, z2), m);
    ReducedEqualIff(PowMod(c1, e, m) * a1, right, Pow(c1, e) * a1, Enc(n, s, z1, z2), m);
  }

  lemma ModulusAboveOne(n: nat, s: nat)
    requires n > 1
    ensures Pow(n, s + 1) > 1
  {
    MulAtLeast(Pow(n, s), n);
  }

  lemma DenominatorCases(d: nat, n: nat, s: nat)
    requires n > 1
    ensures Pow(n, s + 1) > 1
    ensures Gcd(d, Pow(n, s + 1)) == 1 <==> Coprime(d, Pow(n, s + 1))
    ensures d == 1 ==> Coprime(d, Pow(n, s + 1))
  {
    ModulusAboveOne(n, s);
    GcdDecidesCoprime(d, Pow(n, s + 1));
    CoprimeOne(Pow(n, s + 1));
  }

  lemma SecondCheck(n: nat, s: nat, c2: nat, z1: nat, z3: nat, d: nat, k: int)
    requires n > 1 && (if d == 0 then k == 1 else Cong(d * k, 1, Pow(n, s + 1)))
    ensures var m := Pow(n, s + 1);
      (PowMod(c2, z1, m) * k) % m == PowMod(z3, Pow(n, s), m)
      <==> Cong(Pow(c2, z1), (if d == 0 then 1 else d) * Enc(n, s, 0, z3), m)
  {
    var m, w, v := Pow(n, s + 1), Pow(c2, z1), Enc(n, s, 0, z3);
    EncZero(n, s, z3);
    PowModCong(c2, z1, m);
    CongScale(PowMod(c2, z1, m), w, k, m);
    CongRefl(v, m);
    ReducedEqualIff(PowMod(c2, z1, m) * k, v, w * k, v, m);
    if d != 0 { QuotientIff(w, k, d, v, m); }
  }

  /** `w/d = v` exactly when `w = d*v`, for a unit `d` with inverse `k`. */
  lemma QuotientIff(w: int, k: int, d: int, v: int, m: int)
    requires m > 0 && Cong(d * k, 1, m)
    ensures Cong(w * k, v, m) <==> Cong(w, d * v, m)
  {
    hide Cong, Coprime;
    CoprimeFromInverse(d, k, m);
    CongScale(d * k, 1, w, m);
    CongSym(w * (d * k), w, m);
    MulAssoc(w, d, k);
    MulAssoc(d, w, k);
    assert w * d == d * w;
    if Cong(w * k, v, m) {
      CongScale(w * k, v, d, m);
      CongTrans(w, d * (w * k), d * v, m);
    }
    if Cong(w, d * v, m) {
      CongTrans(d * (w * k), w, d * v, m);
      CongCancel(d, w * k, v, m);
    }
  }

  /** With `c3` a unit the code accepts exactly what is documented. */
  lemma CodeMeetsDocumentation(s: nat, c: CommonInput, a: FirstMsg, e: nat, z: SecondMsg)
    requires c.n > 1 && Coprime(c.c3, c.n)
    ensures CodeAccepts(s, c, a, e, z) <==> Documented(s, c, a, e, z)
  {
    var m, d, f := Pow(c.n, s + 1), Denominator(s, c, a, e), Pow(c.c3, e);
    ModulusAboveOne(c.n, s);
    Zero.ReducedFactor(a.a2, f, m);
    CongMod(a.a2 * f, m);
    if Coprime(a.a2, c.n) {
      CoprimePow(c.c3, e, c.n);
      CoprimeMul(a.a2, f, c.n);
      CoprimePowRight(a.a2 * f, c.n, s + 1);
      CoprimeCong(a.a2 * f, d, m);
      UnitNonZero(d, m);
      CongScale(d, a.a2 * f, Enc(c.n, s, 0, z.z3), m);
      CongScale(a.a2 * f, d, Enc(c.n, s, 0, z.z3), m);
      SameClass(Pow(c.c2, z.z1), d * Enc(c.n, s, 0, z.z3), (a.a2 * f) * Enc(c.n, s, 0, z.z3), m);
    }
  }

  lemma SameClass(w: int, x: int, y: int, m: int)
    requires Cong(x, y, m) && Cong(y, x, m)
    ensures Cong(w, x, m) <==> Cong(w, y, m)
  {
    if Cong(w, x, m) { CongTrans(w, x, y, m); }
    if Cong(w, y, m) { CongTrans(w, y, x, m); }
  }

  /** The transcript `e = 0`, `a = (1+n, c2)`, `z = (1, 1, 1)` is accepted whatever `c3` is. */
  lemma UncheckedThirdCiphertext(s: nat, c: CommonInput)
    requires c.n > 1 && Coprime(c.c1, c.n) && Coprime(c.c2, c.n)
    ensures CodeAccepts(s, c, FirstMsg(1 + c.n, c.c2), 0, SecondMsg(1, 1, 1))
  {
    hide Cong, Coprime;
    var n, m := c.n, Pow(c.n, s + 1);
    var a, z := FirstMsg(1 + n, c.c2), SecondMsg(1, 1, 1);
    var d := Denominator(s, c, a, 0);
    BaseCoprime(n);
    CoprimeOne(n);
    assert Pow(c.c1, 0) == 1;
    TrivialDenominator(s, c, a);
    EncOne(n, s);
    OnePow(Pow(n, s));
    PowOne(1 + n);
    PowOne(c.c2);
    hide Pow, Denominator;
    CongRefl(1 + n, m);
    CongMod(c.c2, m);
  }

  lemma TrivialDenominator(s: nat, c: CommonInput, a: FirstMsg)
    requires c.n > 1 && Coprime(c.c2, c.n) && a.a2 == c.c2
    ensures var m := Pow(c.n, s + 1);
            Denominator(s, c, a, 0) == c.c2 % m && Denominator(s, c, a, 0) != 0 && Coprime(Denominator(s, c, a, 0), m)
  {
    hide Cong, Coprime;
    var m, d := Pow(c.n, s + 1), Denominator(s, c, a, 0);
    assert Pow(c.c3, 0) == 1;
    Zero.SmallOne(c.n, s);
    assert d == c.c2 % m;
    hide Pow, Denominator;
    CongMod(c.c2, m);
    CoprimePowRight(c.c2, c.n, s + 1);
    CoprimeCong(c.c2, d, m);
    UnitNonZero(d, m);
  }

  /** So the code keeps to the documented condition on every transcript exactly when `gcd(c3, n) = 1`. */
  lemma DocumentationHoldsIff(s: nat, c: CommonInput)
    requires c.n > 1 && Coprime(c.c1, c.n) && Coprime(c.c2, c.n)
    ensures (forall a: FirstMsg, e: nat, z: SecondMsg :: CodeAccepts(s, c, a, e, z) ==> Documented(s, c, a, e, z))
      <==> Coprime(c.c3, c.n)
  {
    UncheckedThirdCiphertext(s, c);
    if Coprime(c.c3, c.n) {
      forall a: FirstMsg, e: nat, z: SecondMsg | CodeAccepts(s, c, a, e, z) ensures Documented(s, c, a, e, z) {
        CodeMeetsDocumentation(s, c, a, e, z);
      }
    }
  }

  /** One honest run of the stateful parties on ciphertexts of x1, x2 and x1*x2 with unit samples:
      the proof is accepted exactly when the answer `z1 = e*x1 + d mod N` is coprime to `n`. */
  method HonestRun(t: nat, s: nat, input: ProverInput, x3: nat, d: nat, rd: nat, rdb: nat, random: seq<Byte>)
      returns (accepted: Outcome<bool>)
    requires HonestStatement(s, input, x3)
    requires d < Pow(input.common.n, s) && 1 <= rd < input.common.n && 1 <= rdb < input.common.n
    requires Coprime(rd, input.common.n) && Coprime(rdb, input.common.n)
    requires |random| == t / 8 && random != []
    ensures !Zero.SoundnessValid(t, input.common.n) ==> accepted == Threw(InvalidArgument)
    ensures Zero.SoundnessValid(t, input.common.n) ==>
      var z1 := (DecodeBigInteger(MakePositive(random)) * input.x1 + d) % Pow(input.common.n, s);
      accepted.Returned? && (accepted.value <==> Coprime(z1, input.common.n))
  {
    var c := input.common;
    var prover := new Prover(t, s);
    var verifier := new Verifier(t, s);
    var a :- prover.ComputeFirstMsg(input, d, rd, rdb);
    verifier.SampleChallenge(random);
    var challenge := verifier.e;
    var z := prover.ComputeSecondMsg(challenge);
    ghost var e := DecodeBigInteger(challenge);
    Completeness(s, input, x3, d, rd, rdb, e, z.value);
    HonestUnits(s, input, x3, d, rd, rdb, e, z.value);
    CodeMeetsDocumentation(s, c, a, e, z.value);
    HonestDenominator(s, input, d, rd, rdb, e);
    accepted := verifier.Verify(c, a, z.value);
  }

  lemma HonestDenominator(s: nat, input: ProverInput, d: nat, rd: int, rdb: int, e: nat)
    requires input.common.n > 1 && Coprime(rdb, input.common.n) && Coprime(input.common.c3, input.common.n)
    ensures var a := First(input.common.n, s, input.x2, d, rd, rdb);
      Coprime(Denominator(s, input.common, a, e), Pow(input.common.n, s + 1))
  {
    var n := input.common.n;
    var a, f := First(n, s, input.x2, d, rd, rdb), Pow(input.common.c3, e);
    ReducedEnc(n, s, d * input.x2, rdb);
    UnitIff(n, s, a.a2, d * input.x2, rdb);
    CoprimePow(input.common.c3, e, n);
    CoprimeMul(a.a2, f, n);
    CoprimePowRight(a.a2 * f, n, s + 1);
    Zero.ReducedFactor(a.a2, f, Pow(n, s + 1));
    CongMod(a.a2 * f, Pow(n, s + 1));
    CoprimeCong(a.a2 * f, Denominator(s, input.common, a, e), Pow(n, s + 1));
  }
}
