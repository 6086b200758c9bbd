/** The simulator of the product protocol, and its correspondence with the prover. */
module SigmaDJProductSimulator {
  import opened Outcomes
  import opened Congruence
  import opened Coprimality
  import opened MathAlgorithms
  import opened Challenges
  import opened DamgardJurik
  import opened SigmaDJProduct
  import Zero = SigmaDJEncryptedZero

  /** `a1 = (1+n)^z1 * (z2^N / c1^e)` and `a2 = c2^z1 / (z3^N * c3^e)`, both modulo `N'`. */
  method Simulate(t: nat, s: nat, c: CommonInput, challenge: seq<Byte>, z: SecondMsg)
      returns (r: Outcome<(FirstMsg, SecondMsg)>)
    requires c.n > 0 && z.z1 < Pow(c.n, s) && 1 <= z.z2 < c.n && 1 <= z.z3 < c.n
    requires challenge != [] && DecodeBigInteger(challenge) >= 0
    ensures |challenge| != t / 8 ==> r == Threw(CheatAttempt)
    ensures |challenge| == t / 8 && !Zero.SoundnessValid(t, c.n) ==> r == Threw(InvalidArgument)
    ensures |challenge| == t / 8 && Zero.SoundnessValid(t, c.n) && r.Threw? ==> r.error == DivisionByZero
    ensures |challenge| == t / 8 && Zero.SoundnessValid(t, c.n) && Units(c) && Coprime(z.z3, c.n) ==>
      && r.Returned? && r.value.1 == z && Equations(s, c, r.value.0, DecodeBigInteger(challenge), z)
      && (Documented(s, c, r.value.0, DecodeBigInteger(challenge), z) <==> Coprime(z.z1, c.n) && Coprime(z.z2, c.n))
  {
    if |challenge| != t / 8 {
      return Threw(CheatAttempt);
    }
    if !Zero.SoundnessValid(t, c.n) {
      return Threw(InvalidArgument);
    }
    hide Cong, Coprime, Gcd, Pow, PowMod, Equations, Documented;
    var e := DecodeBigInteger(challenge);
    var n, N, NTag := c.n, Pow(c.n, s), Pow(c.n, s + 1);
    Zero.SmallOne(n, s);
    var leftMul := PowMod(n + 1, z.z1, NTag);
    var denom := PowMod(c.c1, e, NTag);
    if Units(c) { Zero.DenominatorInvertible(n, s, c.c1, e); }
    var denomInv :- ModInverse(denom, NTag);
    var rightMul := (PowMod(z.z2, N, NTag) * denomInv) % NTag;
    var a1 := (leftMul * rightMul) % NTag;
    ghost var k1 := denomInv;
    denom := (PowMod(c.c3, e, NTag) * PowMod(z.z3, N, NTag)) % NTag;
    if Units(c) && Coprime(z.z3, n) { SecondDenominator(n, s, c.c3, e, z.z3, denom); }
    denomInv :- ModInverse(denom, NTag);
    var a2 := (PowMod(c.c2, z.z1, NTag) * denomInv) % NTag;
    if Units(c) && Coprime(z.z3, n) {
      SimulatedEquations(s, c, e, z, k1, denomInv, FirstMsg(a1, a2));
      SimulatedUnits(s, c, FirstMsg(a1, a2), e, z);
    }
    return Returned((FirstMsg(a1, a2), z));
  }

  ghost predicate Units(c: CommonInput) {
    Coprime(c.c1, c.n) && Coprime(c.c2, c.n) && Coprime(c.c3, c.n)
  }

  lemma SecondDenominator(n: nat, s: nat, c3: int, e: nat, z3: int, d: int)
    requires n > 1 && Coprime(c3, n) && Coprime(z3, n)
    requires var m := Pow(n, s + 1); d == (PowMod(c3, e, m) * PowMod(z3, Pow(n, s), m)) % m
    ensures var m := Pow(n, s + 1); d >= 1 && Gcd(d, m) == 1 && Cong(d, Pow(c3, e) * Enc(n, s, 0, z3), m)
  {
    var m, u, v := Pow(n, s + 1), PowMod(c3, e, Pow(n, s + 1)), PowMod(z3, Pow(n, s), Pow(n, s + 1));
    Zero.SmallOne(n, s);
    hide *;
    PowModCong(c3, e, m);
    PowModCong(z3, Pow(n, s), m);
    EncZero(n, s, z3);
    CongMul(u, Pow(c3, e), v, Enc(n, s, 0, z3), m);
    CongMod(u * v, m);
    CongTrans(d, u * v, Pow(c3, e) * Enc(n, s, 0, z3), m);
    CoprimePow(c3, e, n);
    EncCoprime(n, s, 0, z3);
    CoprimeMul(Pow(c3, e), Enc(n, s, 0, z3), n);
    CoprimePowRight(Pow(c3, e) * Enc(n, s, 0, z3), n, s + 1);
    CongSym(d, Pow(c3, e) * Enc(n, s, 0, z3), m);
    CoprimeCong(Pow(c3, e) * Enc(n, s, 0, z3), d, m);
    UnitNonZero(d, m);
    GcdDecidesCoprime(d, m);
  }

  lemma SimulatedEquations(s: nat, c: CommonInput, e: nat, z: SecondMsg, k1: int, k2: int, a: FirstMsg)
    requires c.n > 1 && Units(c) && Coprime(z.z3, c.n)
    requires var n, m := c.n, Pow(c.n, s + 1);
             && Cong(PowMod(c.c1, e, m) * k1, 1, m)
             && a.a1 == (PowMod(n + 1, z.z1, m) * ((PowMod(z.z2, Pow(n, s), m) * k1) % m)) % m
             && Cong(((PowMod(c.c3, e, m) * PowMod(z.z3, Pow(n, s), m)) % m) * k2, 1, m)
             && a.a2 == (PowMod(c.c2, z.z1, m) * k2) % m
    ensures Equations(s, c, a, e, z)
  {
    FirstSimulated(c.n, s, c.c1, e, z.z1, z.z2, k1, a.a1);
    SecondSimulated(c.n, s, c.c2, c.c3, e, z.z1, z.z3, k2, a.a2);
  }

  lemma FirstSimulated(n: nat, s: nat, c1: int, e: nat, z1: nat, z2: int, k: int, a1: int)
    requires n > 1
    requires var m := Pow(n, s + 1);
             && Cong(PowMod(c1, e, m) * k, 1, m)
             && a1 == (PowMod(n + 1, z1, m) * ((PowMod(z2, Pow(n, s), m) * k) % m)) % m
    ensures Cong(Pow(c1, e) * a1, Enc(n, s, z1, z2), Pow(n, s + 1))
  {
    var m, d := Pow(n, s + 1), PowMod(c1, e, Pow(n, s + 1));
    var g, w := PowMod(n + 1, z1, m), PowMod(z2, Pow(n, s), m);
    assert a1 == (g * ((w * k) % m)) % m;
    hide *;
    PowModCong(c1, e, m);
    CongSym(d, Pow(c1, e), m);
    ReducedEnc(n, s, z1, z2);
    CongMod(g * w, m);
    CongTrans(g * w, (g * w) % m, Enc(n, s, z1, z2), m);
    Zero.ReducedFactor(g, w * k, m);
    CongMod(g * (w * k), m);
    MulAssoc(g, w, k);
    Zero.QuotientEquation(a1, g * w, k, d, Pow(c1, e), Enc(n, s, z1, z2), m);
    CongSym(Enc(n, s, z1, z2), a1 * Pow(c1, e), m);
    assert a1 * Pow(c1, e) == Pow(c1, e) * a1;
  }

  lemma SecondSimulated(n: nat, s: nat, c2: int, c3: int, e: nat, z1: nat, z3: int, k: int, a2: int)
    requires n > 1 && Coprime(c3, n) && Coprime(z3, n)
    requires var m := Pow(n, s + 1);
             && Cong(((PowMod(c3, e, m) * PowMod(z3, Pow(n, s), m)) % m) * k, 1, m)
             && a2 == (PowMod(c2, z1, m) * k) % m
    ensures Cong(Pow(c2, z1), (a2 * Pow(c3, e)) * Enc(n, s, 0, z3), Pow(n, s + 1))
  {
    var m := Pow(n, s + 1);
    var d, w := (PowMod(c3, e, m) * PowMod(z3, Pow(n, s), m)) % m, PowMod(c2, z1, m);
    SecondDenominator(n, s, c3, e, z3, d);
    hide *;
    var d' := Pow(c3, e) * Enc(n, s, 0, z3);
    CongSym(d, d', m);
    PowModCong(c2, z1, m);
    CongMod(w * k, m);
    Zero.QuotientEquation(a2, w, k, d, d', Pow(c2, z1), m);
    MulAssoc(a2, Pow(c3, e), Enc(n, s, 0, z3));
  }

  /** The simulated first messages are units when the answers are. */
  lemma SimulatedUnits(s: nat, c: CommonInput, a: FirstMsg, e: nat, z: SecondMsg)
    requires c.n > 1 && Units(c) && Coprime(z.z3, c.n) && Equations(s, c, a, e, z)
    ensures Documented(s, c, a, e, z) <==> Coprime(z.z1, c.n) && Coprime(z.z2, c.n)
  {
    var n := c.n;
    if Coprime(z.z2, n) {
      EncCoprime(n, s, z.z1, z.z2);
      CongFactor(Pow(c.c1, e) * a.a1, Enc(n, s, z.z1, z.z2), n, Pow(n, s));
      CongSym(Pow(c.c1, e) * a.a1, Enc(n, s, z.z1, z.z2), n);
      CoprimeCong(Enc(n, s, z.z1, z.z2), Pow(c.c1, e) * a.a1, n);
      CoprimeFactor(Pow(c.c1, e), a.a1, n);
    }
    CoprimePow(c.c2, z.z1, n);
    CongFactor(Pow(c.c2, z.z1), (a.a2 * Pow(c.c3, e)) * Enc(n, s, 0, z.z3), n, Pow(n, s));
    CoprimeCong(Pow(c.c2, z.z1), (a.a2 * Pow(c.c3, e)) * Enc(n, s, 0, z.z3), n);
    CoprimeFactor(a.a2 * Pow(c.c3, e), Enc(n, s, 0, z.z3), n);
    CoprimeFactor(a.a2, Pow(c.c3, e), n);
  }

  // ---------- the correspondence ----------

  /** Samples in the ranges the prover draws from, with units modulo `n`. */
  ghost predicate Samples(n: nat, s: nat, d: nat, rd: nat, rdb: nat) {
    d < Pow(n, s) && rd < n && rdb < n && Coprime(rd, n) && Coprime(rdb, n)
  }

  lemma UnitResidue(z: int, k: int, n: nat)
    requires n > 0 && Coprime(z, n) && Coprime(k, n)
    ensures Coprime((z * k) % n, n)
  {
    CoprimeMul(z, k, n);
    CongMod(z * k, n);
    CoprimeCong(z * k, (z * k) % n, n);
  }

  /** The `rd` behind an answer `z2`. */
  lemma FindRd(n: nat, r1: int, e: nat, z2: nat) returns (rd: nat)
    requires n > 0 && Coprime(r1, n) && z2 < n && Coprime(z2, n)
    ensures rd < n && Coprime(rd, n) && (PowMod(r1, e, n) * rd) % n == z2
    ensures forall y: nat :: y < n && (PowMod(r1, e, n) * y) % n == z2 ==> y == rd
  {
    hide Cong, Coprime, Pow, PowMod;
    CoprimePow(r1, e, n);
    var k := InverseExists(Pow(r1, e), n);
    rd := (z2 * k) % n;
    Zero.SampleFromAnswer(n, r1, e, z2, k);
    assert PowMod(r1, e, n) * rd == rd * PowMod(r1, e, n);
    UnitResidue(z2, k, n);
    forall y: nat | y < n && (PowMod(r1, e, n) * y) % n == z2 ensures y == rd {
      assert PowMod(r1, e, n) * y == y * PowMod(r1, e, n);
      Zero.AnswerInjective(n, r1, e, y, rd);
    }
  }

  /** The `rdb` behind an answer `z3`. */
  lemma FindRdb(n: nat, w: int, v: int, z3: nat) returns (rdb: nat)
    requires n > 0 && Coprime(w, n) && Coprime(v, n) && Coprime(z3, n)
    ensures rdb < n && Coprime(rdb, n) && Cong(w, (rdb * v) * z3, n)
    ensures forall y: nat :: y < n && Cong(w, (y * v) * z3, n) ==> y == rdb
  {
    hide Cong, Coprime;
    var f := v * z3;
    CoprimeMul(v, z3, n);
    var k := InverseExists(f, n);
    rdb := (w * k) % n;
    CongMod(w * k, n);
    CongRefl(f, n);
    CongRefl(w, n);
    Zero.QuotientEquation(rdb, w, k, f, f, w, n);
    MulAssoc(rdb, v, z3);
    UnitResidue(w, k, n);
    forall y: nat | y < n && Cong(w, (y * v) * z3, n) ensures y == rdb {
      SameFactor(n, w, v, z3, y, rdb);
    }
  }

  lemma SameFactor(n: nat, w: int, v: int, z3: int, y: nat, x: nat)
    requires n > 0 && Coprime(v * z3, n) && y < n && x < n
    requires Cong(w, (y * v) * z3, n) && Cong(w, (x * v) * z3, n)
    ensures y == x
  {
    hide Cong, Coprime;
    var f := v * z3;
    MulAssoc(y, v, z3);
    MulAssoc(x, v, z3);
    CongSym(w, y * f, n);
    CongTrans(y * f, w, x * f, n);
    assert y * f == f * y && x * f == f * x;
    CongCancel(f, y, x, n);
    CongSmall(y, x, n);
  }

  /** The `d` behind an answer `z1`. */
  lemma FindD(N: nat, k: int, z1: nat) returns (d: nat)
    requires z1 < N
    ensures d < N && (k + d) % N == z1 && d == (z1 - k) % N
  {
    hide Cong;
    d := (z1 - k) % N;
    CongMod(z1 - k, N);
    ShiftBack(d, z1, k, N);
    assert k + d == d + k;
  }

  lemma OneD(N: nat, k: int, z1: nat, y: nat)
    requires y < N && (k + y) % N == z1
    ensures y == (z1 - k) % N
  {
    hide Cong;
    assert k + y == y + k;
    CongMod(y + k, N);
    ShiftForward(y, z1, k, N);
  }

  /** For a true statement and a fixed challenge, every unit answer of the simulator comes from exactly one choice of
      the prover's samples, and then the only first message that satisfies the equations is the prover's. */
  lemma SimulatorMatchesProver(s: nat, input: ProverInput, x3: nat, e: nat, z: SecondMsg)
      returns (d: nat, rd: nat, rdb: nat)
    requires HonestStatement(s, input, x3)
    requires z.z1 < Pow(input.common.n, s) && z.z2 < input.common.n && z.z3 < input.common.n
    requires Coprime(z.z2, input.common.n) && Coprime(z.z3, input.common.n)
    ensures Samples(input.common.n, s, d, rd, rdb) && IsSecond(s, input, d, rd, rdb, e, z)
    ensures forall d': nat, rd': nat, rdb': nat ::
              Samples(input.common.n, s, d', rd', rdb') && IsSecond(s, input, d', rd', rdb', e, z) ==>
                d' == d && rd' == rd && rdb' == rdb
    ensures forall a: FirstMsg :: Reduced(input.common.n, s, a) && Equations(s, input.common, a, e, z) ==>
              a == First(input.common.n, s, input.x2, d, rd, rdb)
  {
    var n := input.common.n;
    d := FindD(Pow(n, s), e * input.x1, z.z1);
    rd := FindRd(n, input.r1, e, z.z2);
    CoprimePow(input.r2, z.z1, n);
    CoprimePow(input.r3, e, n);
    rdb := FindRdb(n, Pow(input.r2, z.z1), Pow(input.r3, e), z.z3);
    HonestEquations(s, input, x3, d, rd, rdb, e, z);
    forall d': nat, rd': nat, rdb': nat |
      Samples(n, s, d', rd', rdb') && IsSecond(s, input, d', rd', rdb', e, z)
      ensures d' == d && rd' == rd && rdb' == rdb
    {
      OneD(Pow(n, s), e * input.x1, z.z1, d');
    }
    forall a: FirstMsg | Reduced(n, s, a) && Equations(s, input.common, a, e, z)
      ensures a == First(n, s, input.x2, d, rd, rdb)
    {
      OneFirstMsg(s, input, x3, a, First(n, s, input.x2, d, rd, rdb), e, z);
    }
  }

  predicate Reduced(n: nat, s: nat, a: FirstMsg) {
    a.a1 < Pow(n, s + 1) && a.a2 < Pow(n, s + 1)
  }

  lemma OneFirstMsg(s: nat, input: ProverInput, x3: nat, a: FirstMsg, b: FirstMsg, e: nat, z: SecondMsg)
    requires HonestStatement(s, input, x3) && Coprime(z.z3, input.common.n)
    requires Reduced(input.common.n, s, a) && Reduced(input.common.n, s, b)
    requires Equations(s, input.common, a, e, z) && Equations(s, input.common, b, e, z)
    ensures a == b
  {
    hide Cong, Coprime, Pow;
    var n, c := input.common.n, input.common;
    var m := Pow(n, s + 1);
    Zero.CipherCoprime(n, s, c.c1, input.x1, input.r1);
    Zero.CipherCoprime(n, s, c.c3, x3, input.r3);
    CoprimePow(c.c1, e, n);
    CoprimePow(c.c3, e, n);
    EncCoprime(n, s, 0, z.z3);
    CoprimeMul(Pow(c.c3, e), Enc(n, s, 0, z.z3), n);
    SolvedOnce(n, s, Pow(c.c1, e), a.a1, b.a1, Enc(n, s, z.z1, z.z2));
    SecondSolvedOnce(n, s, Pow(c.c3, e), Enc(n, s, 0, z.z3), a.a2, b.a2, Pow(c.c2, z.z1));
  }

  lemma SolvedOnce(n: nat, s: nat, f: int, x: nat, y: nat, w: int)
    requires n > 0 && Coprime(f, n) && x < Pow(n, s + 1) && y < Pow(n, s + 1)
    requires Cong(f * x, w, Pow(n, s + 1)) && Cong(f * y, w, Pow(n, s + 1))
    ensures x == y
  {
    hide *;
    var m := Pow(n, s + 1);
    CongSym(f * y, w, m);
    CongTrans(f * x, w, f * y, m);
    CoprimePowRight(f, n, s + 1);
    CongCancel(f, x, y, m);
    CongSmall(x, y, m);
  }

  lemma SecondSolvedOnce(n: nat, s: nat, f: int, g: int, x: nat, y: nat, w: int)
    requires n > 0 && Coprime(f * g, n) && x < Pow(n, s + 1) && y < Pow(n, s + 1)
    requires Cong(w, (x * f) * g, Pow(n, s + 1)) && Cong(w, (y * f) * g, Pow(n, s + 1))
    ensures x == y
  {
    hide *;
    var m := Pow(n, s + 1);
    CongSym(w, (x * f) * g, m);
    CongSym(w, (y * f) * g, m);
    assert (x * f) * g == (f * g) * x && (y * f) * g == (f * g) * y;
    SolvedOnce(n, s, f * g, x, y, w);
  }
}
