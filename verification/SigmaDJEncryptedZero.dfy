/** The sigma protocol proving that a Damgard-Jurik ciphertext encrypts zero. */
module SigmaDJEncryptedZero {
  import opened Outcomes
  import opened Congruence
  import opened Coprimality
  import opened FermatEuler
  import opened MathAlgorithms
  import opened Challenges
  import opened DamgardJurik
  import opened DamgardJurikExtraction

  datatype CommonInput = CommonInput(n: nat, cipher: int)

  datatype ProverInput = ProverInput(common: CommonInput, r: int)

  /** The length of `n` in binary; that of zero is one. */
  function NumberOfBits(n: nat): nat {
    if n <= 1 then 1 else 1 + NumberOfBits(n / 2)
  }

  /** `NumberOfBits`, with the loop of `find_log2_floor`. */
  method CountBits(n: nat) returns (bits: nat)
    ensures bits == NumberOfBits(n)
  {
    var rest: nat, r := n / 2, 0;
    while rest != 0
      invariant NumberOfBits(n) == if rest == 0 then r + 1 else r + 1 + NumberOfBits(rest)
    {
      rest := rest / 2;
      r := r + 1;
    }
    return r + 1;
  }

  /** The length of `n` is the place of its highest bit. */
  lemma {:induction false} BitsBound(n: nat)
    requires n > 0
    ensures NumberOfBits(n) >= 1 && Pow(2, NumberOfBits(n) - 1) <= n < Pow(2, NumberOfBits(n))
    decreases n
  {
    if n == 1 {
      PowOne(2);
      PowUnfolds(2, 0);
    } else {
      BitsBound(n / 2);
      var b := NumberOfBits(n / 2);
      PowUnfolds(2, b - 1);
      PowUnfolds(2, b);
    }
  }

  lemma {:induction false} PowTwoMonotone(i: nat, j: nat)
    requires i <= j
    ensures Pow(2, i) <= Pow(2, j)
    decreases j
  {
    if i == j {
    } else {
      PowTwoMonotone(i, j - 1);
    }
  }

  /** The soundness parameter must be below a third of the length of `n`. */
  predicate SoundnessValid(t: nat, n: nat) {
    t < NumberOfBits(n) / 3
  }

  /** So the check is a bound on `n`. */
  lemma SoundnessIff(t: nat, n: nat)
    ensures SoundnessValid(t, n) <==> Pow(2, 3 * t + 2) <= n
  {
    hide Pow, NumberOfBits;
    var b := NumberOfBits(n);
    if n == 0 {
      BitsOfZero();
    } else {
      BitsBound(n);
      if t < b / 3 {
        PowTwoMonotone(3 * t + 2, b - 1);
      } else {
        PowTwoMonotone(b, 3 * t + 2);
      }
    }
  }

  lemma BitsOfZero()
    ensures NumberOfBits(0) == 1
  {
  }

  /** `c, a, z` are relatively prime to `n` and `z^N = a * c^e mod N'`. */
  ghost predicate Accepts(n: nat, s: nat, c: int, a: int, e: nat, z: int) {
    && Coprime(a, n) && Coprime(z, n) && Coprime(c, n)
    && Cong(Pow(z, Pow(n, s)), a * Pow(c, e), Pow(n, s + 1))
  }

  function FirstMsg(n: nat, s: nat, sample: int): int
    requires n > 0
  {
    PowMod(sample, Pow(n, s), Pow(n, s + 1))
  }

  function SecondMsg(n: nat, sample: int, r: int, e: nat): int
    requires n > 0
  {
    (sample * PowMod(r, e, n)) % n
  }

  // ---------- completeness ----------

  lemma FirstMsgCong(n: nat, s: nat, sample: int)
    requires n > 0
    ensures Cong(FirstMsg(n, s, sample), Enc(n, s, 0, sample), Pow(n, s + 1))
    ensures Coprime(FirstMsg(n, s, sample), n) <==> Coprime(sample, n)
  {
    var m, a := Pow(n, s + 1), FirstMsg(n, s, sample);
    PowModCong(sample, Pow(n, s), m);
    EncZero(n, s, sample);
    EncCoprime(n, s, 0, sample);
    CongFactor(a, Enc(n, s, 0, sample), n, Pow(n, s));
    CongSym(a, Enc(n, s, 0, sample), n);
    if Coprime(sample, n) { CoprimeCong(Enc(n, s, 0, sample), a, n); }
    if Coprime(a, n) { CoprimeCong(a, Enc(n, s, 0, sample), n); }
  }

  lemma SecondMsgCong(n: nat, sample: int, r: int, e: nat)
    requires n > 0
    ensures Cong(SecondMsg(n, sample, r, e), sample * Pow(r, e), n)
  {
    PowModCong(r, e, n);
    CongScale(PowMod(r, e, n), Pow(r, e), sample, n);
    CongMod(sample * PowMod(r, e, n), n);
    CongTrans(SecondMsg(n, sample, r, e), sample * PowMod(r, e, n), sample * Pow(r, e), n);
  }

  /** For an encryption of zero, the honest messages are accepted exactly when the sample is a unit. */
  lemma Completeness(n: nat, s: nat, c: int, r: int, sample: int, e: nat)
    requires n > 0 && Opens(n, s, c, 0, r)
    ensures Accepts(n, s, c, FirstMsg(n, s, sample), e, SecondMsg(n, sample, r, e)) <==> Coprime(sample, n)
  {
    FirstMsgCong(n, s, sample);
    if Coprime(sample, n) {
      var m, a, z := Pow(n, s + 1), FirstMsg(n, s, sample), SecondMsg(n, sample, r, e);
      SecondMsgCong(n, sample, r, e);
      CipherCoprime(n, s, c, 0, r);
      CoprimePow(r, e, n);
      CoprimeMul(sample, Pow(r, e), n);
      CongSym(z, sample * Pow(r, e), n);
      CoprimeCong(sample * Pow(r, e), z, n);
      PowCong(c, Enc(n, s, 0, r), e, m);
      CongMul(a, Enc(n, s, 0, sample), Pow(c, e), Pow(Enc(n, s, 0, r), e), m);
      EncPow(n, s, 0, r, e);
      EncMul(n, s, 0, sample, 0, Pow(r, e));
      CongSym(z, sample * Pow(r, e), n);
      Lift(z, sample * Pow(r, e), n, s);
      EncZero(n, s, sample * Pow(r, e));
      CongSym(a * Pow(c, e), Enc(n, s, 0, sample * Pow(r, e)), m);
      CongTrans(Pow(z, Pow(n, s)), Enc(n, s, 0, sample * Pow(r, e)), a * Pow(c, e), m);
    }
  }

  lemma CipherCoprime(n: nat, s: nat, c: int, x: nat, r: int)
    requires n > 0 && Opens(n, s, c, x, r)
    ensures Coprime(c, n)
  {
    EncCoprime(n, s, x, r);
    CongFactor(c, Enc(n, s, x, r), n, Pow(n, s));
    CongSym(c, Enc(n, s, x, r), n);
    CoprimeCong(Enc(n, s, x, r), c, n);
  }

  // ---------- special soundness ----------

  /** Two accepting transcripts with one first message yield an explicit N-th root of `c`. */
  lemma Extractor(n: nat, s: nat, c: int, a: int, e: nat, z: int, e': nat, z': int) returns (r: int)
    requires n > 0 && Accepts(n, s, c, a, e, z) && Accepts(n, s, c, a, e', z')
    requires e != e' && Coprime(e - e', n)
    ensures Opens(n, s, c, 0, r)
  {
    if e > e' {
      r := OrderedExtractor(n, s, c, a, e, z, e', z');
    } else {
      CoprimeNegate(e - e', n);
      r := OrderedExtractor(n, s, c, a, e', z', e, z);
    }
  }

  lemma CoprimeNegate(d: int, n: int)
    requires Coprime(d, n)
    ensures Coprime(-d, n)
  {
    var u, v := CoprimeWitness(d, n);
    assert (-d) * (-u) == d * u;
    CoprimeIntro(-d, n, -u, v);
  }

  lemma OrderedExtractor(n: nat, s: nat, c: int, a: int, e: nat, z: int, e': nat, z': int) returns (r: int)
    requires n > 0 && Accepts(n, s, c, a, e, z) && Accepts(n, s, c, a, e', z')
    requires e > e' && Coprime(e - e', n)
    ensures Opens(n, s, c, 0, r)
  {
    EquationAsEnc(n, s, c, a, e, z);
    EquationAsEnc(n, s, c, a, e', z');
    var y, q := DivideAnswers(n, s, c, a, e, e', 0, z, 0, z');
    assert y == 0;
    var u, v := ChallengeInverse(n, s, e - e');
    r := ExtractOpening(n, s, c, e - e', u, v, 0, q);
  }

  lemma EquationAsEnc(n: nat, s: nat, c: int, a: int, e: nat, z: int)
    requires n > 0 && Accepts(n, s, c, a, e, z)
    ensures Cong(Pow(c, e) * a, Enc(n, s, 0, z), Pow(n, s + 1))
  {
    EncZero(n, s, z);
    assert a * Pow(c, e) == Pow(c, e) * a;
    CongSym(Pow(z, Pow(n, s)), a * Pow(c, e), Pow(n, s + 1));
  }

  // ---------- simulation ----------

  /** `a = z^N / c^e mod N'`, with the library's inverse. */
  method Simulate(n: nat, s: nat, t: nat, c: nat, challenge: seq<Byte>, z: int)
      returns (r: Outcome<(int, int)>)
    requires 1 <= z < n
    requires challenge != [] && DecodeBigInteger(challenge) >= 0
    ensures |challenge| != t / 8 ==> r == Threw(CheatAttempt)
    ensures |challenge| == t / 8 && !SoundnessValid(t, n) ==> r == Threw(InvalidArgument)
    ensures |challenge| == t / 8 && SoundnessValid(t, n) && Coprime(c, n) ==>
      && r.Returned? && r.value.1 == z && 0 <= r.value.0 < Pow(n, s + 1)
      && Cong(Pow(z, Pow(n, s)), r.value.0 * Pow(c, DecodeBigInteger(challenge)), Pow(n, s + 1))
      && (Coprime(z, n) ==> Accepts(n, s, c, r.value.0, DecodeBigInteger(challenge), z))
    ensures |challenge| == t / 8 && SoundnessValid(t, n) && !Coprime(c, n) ==>
      var denominator := PowMod(c, DecodeBigInteger(challenge), Pow(n, s + 1));
      && (denominator > 1 ==> r == Threw(DivisionByZero))
      && (denominator <= 1 ==> r == Returned((PowMod(z, Pow(n, s), Pow(n, s + 1)), z)))
  {
    if |challenge| != t / 8 {
      return Threw(CheatAttempt);
    }
    if !SoundnessValid(t, n) {
      return Threw(InvalidArgument);
    }
    var e := DecodeBigInteger(challenge);
    var a :- SimulateFirst(n, s, c, e, z);
    return Returned((a, z));
  }

  method SimulateFirst(n: nat, s: nat, c: nat, e: nat, z: int) returns (a: Outcome<int>)
    requires 1 <= z < n
    ensures a.Returned? ==> 0 <= a.value < Pow(n, s + 1)
    ensures Coprime(c, n) ==> a.Returned? && Cong(Pow(z, Pow(n, s)), a.value * Pow(c, e), Pow(n, s + 1))
    ensures Coprime(c, n) && Coprime(z, n) ==> Accepts(n, s, c, a.value, e, z)
    ensures !Coprime(c, n) && PowMod(c, e, Pow(n, s + 1)) > 1 ==> a == Threw(DivisionByZero)
    ensures !Coprime(c, n) && PowMod(c, e, Pow(n, s + 1)) <= 1 ==>
      a == Returned(PowMod(z, Pow(n, s), Pow(n, s + 1)))
  {
    hide Cong, Coprime, Gcd, Pow, PowMod, Accepts;
    var N, NTag := Pow(n, s), Pow(n, s + 1);
    var zToN := PowMod(z, N, NTag);
    var denominator := PowMod(c, e, NTag);
    SmallOne(n, s);
    SmallRemainder(zToN, NTag);
    if Coprime(c, n) {
      DenominatorInvertible(n, s, c, e);
    } else if denominator > 1 {
      NonUnitDenominator(n, s, c, e, denominator);
    }
    var inverse :- ModInverse(denominator, NTag);
    if Coprime(c, n) {
      SimulatedAccepts(n, s, c, e, z, inverse, (zToN * inverse) % NTag);
    }
    return Returned((zToN * inverse) % NTag);
  }

  lemma DenominatorInvertible(n: nat, s: nat, c: int, e: nat)
    requires n > 1 && Coprime(c, n)
    ensures Pow(n, s + 1) > 1 && PowMod(c, e, Pow(n, s + 1)) >= 1
    ensures Gcd(PowMod(c, e, Pow(n, s + 1)), Pow(n, s + 1)) == 1
  {
    var m, d := Pow(n, s + 1), PowMod(c, e, Pow(n, s + 1));
    assert m == n * Pow(n, s);
    MulAtLeast(Pow(n, s), n);
    CoprimePow(c, e, n);
    CoprimePowRight(Pow(c, e), n, s + 1);
    PowModCong(c, e, m);
    CongSym(d, Pow(c, e), m);
    CoprimeCong(Pow(c, e), d, m);
    if d == 0 {
      CongFromQuotient(0, 0, m, 0);
      CongFromQuotient(m, 0, m, 1);
      CoprimeNoCommonDivisor(0, m, m);
    }
    GcdDecidesCoprime(d, m);
  }

  /** Dividing by a power of a ciphertext that is not a unit fails, unless the power is zero or one. */
  lemma NonUnitDenominator(n: nat, s: nat, c: int, e: nat, d: nat)
    requires n > 1 && !Coprime(c, n) && d == PowMod(c, e, Pow(n, s + 1)) && d > 1
    ensures Gcd(d, Pow(n, s + 1)) != 1
  {
    PowModCong(c, e, Pow(n, s + 1));
    if e == 0 {
      PowZero(c);
      SmallOne(n, s);
    } else {
      hide *;
      PowerNotUnit(n, c, e);
      ResidueNotUnit(n, s, Pow(c, e), d);
    }
  }

  lemma PowZero(c: int)
    ensures Pow(c, 0) == 1
  {
  }

  lemma SmallOne(n: nat, s: nat)
    requires n > 1
    ensures Pow(n, s + 1) > 1 && 1 % Pow(n, s + 1) == 1
  {
    assert Pow(n, s + 1) == n * Pow(n, s);
    MulAtLeast(Pow(n, s), n);
    SmallRemainder(1, Pow(n, s + 1));
  }

  lemma PowerNotUnit(n: nat, c: int, e: nat)
    requires e > 0 && !Coprime(c, n)
    ensures !Coprime(Pow(c, e), n)
  {
    assert Pow(c, e) == c * Pow(c, e - 1);
    if Coprime(Pow(c, e), n) {
      CoprimeFactor(c, Pow(c, e - 1), n);
    }
  }

  lemma ResidueNotUnit(n: nat, s: nat, w: int, d: nat)
    requires n > 1 && !Coprime(w, n) && Cong(d, w, Pow(n, s + 1))
    ensures Gcd(d, Pow(n, s + 1)) != 1
  {
    hide *;
    GcdDecidesCoprime(d, Pow(n, s + 1));
    if Coprime(d, Pow(n, s + 1)) {
      CoprimeCong(d, w, Pow(n, s + 1));
      CoprimePowIff(w, n, s + 1);
    }
  }

  lemma SimulatedAccepts(n: nat, s: nat, c: int, e: nat, z: int, k: int, a: int)
    requires n > 1 && Coprime(c, n)
    requires Cong(PowMod(c, e, Pow(n, s + 1)) * k, 1, Pow(n, s + 1))
    requires a == (PowMod(z, Pow(n, s), Pow(n, s + 1)) * k) % Pow(n, s + 1)
    ensures Cong(Pow(z, Pow(n, s)), a * Pow(c, e), Pow(n, s + 1))
    ensures Coprime(z, n) ==> Accepts(n, s, c, a, e, z)
  {
    var m, d, w := Pow(n, s + 1), PowMod(c, e, Pow(n, s + 1)), PowMod(z, Pow(n, s), Pow(n, s + 1));
    PowModCong(c, e, m);
    PowModCong(z, Pow(n, s), m);
    CongMod(w * k, m);
    CongSym(d, Pow(c, e), m);
    QuotientEquation(a, w, k, d, Pow(c, e), Pow(z, Pow(n, s)), m);
    if Coprime(z, n) {
      AcceptedUnit(n, s, a, Pow(c, e), z);
    }
  }

  /** If `a = w/d` then `a * d = w`. */
  lemma QuotientEquation(a: int, w: int, k: int, d: int, d': int, w': int, m: int)
    requires Cong(a, w * k, m) && Cong(d * k, 1, m) && Cong(d', d, m) && Cong(w, w', m)
    ensures Cong(w', a * d', m)
  {
    hide Cong;
    CongMul(a, w * k, d', d, m);
    CongScale(d * k, 1, w, m);
    MulAssoc(w, k, d);
    assert k * d == d * k;
    CongTrans(a * d', w * (d * k), w, m);
    CongTrans(a * d', w, w', m);
    CongSym(a * d', w', m);
  }

  /** The first message of an accepting transcript is a unit because the answer is. */
  lemma AcceptedUnit(n: nat, s: nat, a: int, d: int, z: int)
    requires n > 0 && Coprime(z, n) && Cong(Pow(z, Pow(n, s)), a * d, Pow(n, s + 1))
    ensures Coprime(a, n)
  {
    CoprimePow(z, Pow(n, s), n);
    CongFactor(Pow(z, Pow(n, s)), a * d, n, Pow(n, s));
    CoprimeCong(Pow(z, Pow(n, s)), a * d, n);
    CoprimeFactor(a, d, n);
  }

  /** For a fixed challenge, simulated and real transcripts correspond one to one: each unit answer
      comes from exactly one unit sample, and then the only accepted first message is the prover's. */
  lemma SimulatorMatchesProver(n: nat, s: nat, c: int, r: int, e: nat, z: nat) returns (sample: nat)
    requires n > 0 && Opens(n, s, c, 0, r) && z < n && Coprime(z, n)
    ensures sample < n && Coprime(sample, n) && SecondMsg(n, sample, r, e) == z
    ensures forall y: nat :: y < n && SecondMsg(n, y, r, e) == z ==> y == sample
    ensures forall a: nat :: a < Pow(n, s + 1) && Accepts(n, s, c, a, e, z) ==> a == FirstMsg(n, s, sample)
  {
    CoprimePow(r, e, n);
    var k := InverseExists(Pow(r, e), n);
    sample := (z * k) % n;
    SampleFromAnswer(n, r, e, z, k);
    forall y: nat | y < n && SecondMsg(n, y, r, e) == z ensures y == sample {
      AnswerInjective(n, r, e, y, sample);
    }
    CoprimeMul(z, k, n);
    CongMod(z * k, n);
    CoprimeCong(z * k, sample, n);
    Completeness(n, s, c, r, sample, e);
    forall a: nat | a < Pow(n, s + 1) && Accepts(n, s, c, a, e, z) ensures a == FirstMsg(n, s, sample) {
      FirstMsgUnique(n, s, c, e, z, a, FirstMsg(n, s, sample));
    }
  }

  lemma SampleFromAnswer(n: nat, r: int, e: nat, z: nat, k: int)
    requires n > 0 && z < n && Cong(Pow(r, e) * k, 1, n)
    ensures SecondMsg(n, (z * k) % n, r, e) == z
  {
    var y, d := (z * k) % n, Pow(r, e);
    SecondMsgCong(n, y, r, e);
    CongMod(z * k, n);
    CongRefl(d, n);
    CongRefl(z, n);
    QuotientEquation(y, z, k, d, d, z, n);
    CongSym(z, y * d, n);
    CongTrans(SecondMsg(n, y, r, e), y * d, z, n);
    CongSmall(SecondMsg(n, y, r, e), z, n);
  }

  lemma AnswerInjective(n: nat, r: int, e: nat, x: nat, y: nat)
    requires n > 0 && x < n && y < n && Coprime(Pow(r, e), n)
    requires SecondMsg(n, x, r, e) == SecondMsg(n, y, r, e)
    ensures x == y
  {
    var d := Pow(r, e);
    SecondMsgCong(n, x, r, e);
    SecondMsgCong(n, y, r, e);
    CongSym(SecondMsg(n, x, r, e), x * d, n);
    CongTrans(x * d, SecondMsg(n, y, r, e), y * d, n);
    assert x * d == d * x && y * d == d * y;
    CongCancel(d, x, y, n);
    CongSmall(x, y, n);
  }

  lemma FirstMsgUnique(n: nat, s: nat, c: int, e: nat, z: int, a: nat, b: nat)
    requires n > 0 && a < Pow(n, s + 1) && b < Pow(n, s + 1)
    requires Accepts(n, s, c, a, e, z) && Accepts(n, s, c, b, e, z)
    ensures a == b
  {
    hide Cong, Pow;
    var m, d := Pow(n, s + 1), Pow(c, e);
    CongSym(Pow(z, Pow(n, s)), a * d, m);
    CongTrans(a * d, Pow(z, Pow(n, s)), b * d, m);
    assert a * d == d * a && b * d == d * b;
    CoprimePow(c, e, n);
    CoprimePowRight(d, n, s + 1);
    CongCancel(d, a, b, m);
    CongSmall(a, b, m);
  }

  // ---------- randomness from the private key ----------

  /** `v` is `r^(n^(s-1)) mod n` for whatever plaintext and randomness `c` encrypts. */
  ghost predicate RecoveredFrom(n: nat, c: int, v: int)
    requires n > 0
  {
    forall s: nat, x: nat, r: int :: s >= 1 && Opens(n, s, c, x, r) ==> v == PowMod(r, Pow(n, s - 1), n)
  }

  /** `n` and `(p-1)(q-1)` of two factors. */
  function Modulus(p: nat, q: nat): (n: nat)
    requires p > 1 && q > 1
    ensures n > 1
  {
    MulAtLeast(q, p);
    p * q
  }

  function Totient(p: nat, q: nat): (phi: nat)
    requires p > 1 && q > 1
    ensures phi > 0
  {
    MulAtLeast(q - 1, p - 1);
    (p - 1) * (q - 1)
  }

  /** `c^m mod n` for `m = n^-1 mod (p-1)(q-1)`. For an encryption with length parameter `s` this is
      `r^(n^(s-1)) mod n`: the randomness itself at the default length parameter one. */
  method RecoverRandomness(p: nat, q: nat, c: int) returns (r: Outcome<int>)
    requires p > 1 && q > 1
    ensures r.Returned? <==> Totient(p, q) == 1 || Gcd(Modulus(p, q), Totient(p, q)) == 1
    ensures r.Threw? ==> r.error == DivisionByZero
    ensures r.Returned? && IsPrime(p) && IsPrime(q) && p != q ==> RecoveredFrom(Modulus(p, q), c, r.value)
  {
    hide Cong, RecoveredFrom, IsPrime, Gcd, PowMod;
    var n, phiN := Modulus(p, q), Totient(p, q);
    var m :- ModInverse(n, phiN);
    if IsPrime(p) && IsPrime(q) && p != q {
      RecoveredForAll(p, q, n, phiN, m, c);
    }
    return Returned(PowMod(c, m, n));
  }

  lemma RecoveredForAll(p: nat, q: nat, n: nat, phi: nat, m: int, c: int)
    requires IsPrime(p) && IsPrime(q) && p != q && n == p * q && phi == (p - 1) * (q - 1)
    requires n > 1 && phi > 1 ==> 1 <= m < phi && Cong(n * m, 1, phi)
    ensures n > 1 && m >= 0 && RecoveredFrom(n, c, PowMod(c, m, n))
  {
    MulAtLeast(q, p);
    TotientAboveOne(p, q);
    forall s: nat, x: nat, r: int | s >= 1 && Opens(n, s, c, x, r)
      ensures PowMod(c, m, n) == PowMod(r, Pow(n, s - 1), n)
    {
      EulerTwoPrimes(r, p, q, phi, q - 1, p - 1);
      RecoveredRandomness(n, phi, m, s, c, x, r);
    }
  }

  lemma TotientAboveOne(p: nat, q: nat)
    requires p > 1 && q > 1 && p != q
    ensures (p - 1) * (q - 1) > 1
  {
    if p > 2 { MulAtLeast(q - 1, p - 1); } else { MulAtLeast(p - 1, q - 1); }
  }

  lemma RecoveredRandomness(n: nat, phi: nat, m: nat, s: nat, c: int, x: nat, r: int)
    requires n > 0 && phi > 0 && s >= 1 && Opens(n, s, c, x, r)
    requires Cong(Pow(r, phi), 1, n) && Cong(n * m, 1, phi)
    ensures PowMod(c, m, n) == PowMod(r, Pow(n, s - 1), n)
  {
    var k := Pow(n, s - 1);
    CipherModN(n, s, c, x, r);
    PowCong(c, Pow(r, Pow(n, s)), m, n);
    PowPow(r, Pow(n, s), m);
    ExponentUndone(n, k, m, phi);
    PowPeriodic(r, Pow(n, s) * m, k, phi, n);
    CongTrans(Pow(c, m), Pow(r, Pow(n, s) * m), Pow(r, k), n);
    CongIffMod(Pow(c, m), Pow(r, k), n);
  }

  lemma ExponentUndone(n: int, k: int, m: int, phi: int)
    requires Cong(n * m, 1, phi)
    ensures Cong((n * k) * m, k, phi)
  {
    CongScale(n * m, 1, k, phi);
    assert (n * k) * m == k * (n * m);
  }

  /** Modulo `n` a ciphertext is the `N`-th power of its randomness. */
  lemma CipherModN(n: nat, s: nat, c: int, x: nat, r: int)
    requires n > 0 && Opens(n, s, c, x, r)
    ensures Cong(c, Pow(r, Pow(n, s)), n)
  {
    CongFactor(c, Enc(n, s, x, r), n, Pow(n, s));
    CongFromQuotient(1 + n, 1, n, 1);
    PowCong(1 + n, 1, x, n);
    OnePow(x);
    CongScale(Pow(1 + n, x), 1, Pow(r, Pow(n, s)), n);
    CongTrans(c, Enc(n, s, x, r), Pow(r, Pow(n, s)), n);
  }

  /** The recovered value is the randomness in `Z*n` exactly when the randomness to the `n^(s-1) - 1` is one. */
  lemma RecoveryExactIff(n: nat, s: nat, c: int, x: nat, r: nat, v: int)
    requires s >= 1 && r < n && Opens(n, s, c, x, r) && RecoveredFrom(n, c, v)
    ensures v == r <==> Cong(Pow(r, Pow(n, s - 1) - 1), 1, n)
  {
    var k := Pow(n, s - 1);
    assert v == PowMod(r, k, n);
    assert Pow(r, k) == r * Pow(r, k - 1);
    hide Cong, Pow;
    PowModCong(r, k, n);
    CongRefl(r, n);
    if v == r {
      CongSym(v, Pow(r, k), n);
      CongCancel(r, Pow(r, k - 1), 1, n);
    }
    if Cong(Pow(r, k - 1), 1, n) {
      CongScale(Pow(r, k - 1), 1, r, n);
      CongTrans(v, Pow(r, k), r, n);
      CongSmall(v, r, n);
    }
  }

  /** So at length parameter one it always is. */
  lemma RecoveryExactAtOne(n: nat, c: int, x: nat, r: nat, v: int)
    requires r < n && Opens(n, 1, c, x, r) && RecoveredFrom(n, c, v)
    ensures v == r
  {
    CongRefl(1, n);
    RecoveryExactIff(n, 1, c, x, r, v);
  }

  /** At length parameter two it need not be: under the key `15 = 3 * 5` the code recovers 8 from every ciphertext
      made with randomness 2. */
  method RecoveryFailsAtTwo(c: int, ghost x: nat) returns (v: Outcome<int>)
    requires Opens(15, 2, c, x, 2)
    ensures v == Returned(8)
  {
    SmallTotient();
    v := RecoverRandomness(3, 5, c);
    assert v.value == PowMod(2, Pow(15, 2 - 1), 15);
    TwoToFifteen();
  }

  lemma SmallTotient()
    ensures Gcd(15, 8) == 1 && IsPrime(3) && IsPrime(5)
  {
    assert Gcd(15, 8) == Gcd(8, 7) == Gcd(7, 1) == Gcd(1, 0);
    forall p: int, d: int | p in {3, 5} && 1 < d < p ensures !Divides(d, p) {
      DividesIffMod(d, p);
    }
  }

  lemma TwoToFifteen()
    ensures PowMod(2, Pow(15, 2 - 1), 15) == 8
  {
    hide Pow;
    PowOne(15);
    Fifteen();
  }

  lemma Fifteen()
    ensures Pow(2, 15) == 32768
  {
    assert Pow(2, 5) == 32;
    PowAdd(2, 5, 5);
    PowAdd(2, 10, 5);
  }

  // ---------- the stateful prover and verifier ----------

  class Prover {
    const t: nat
    const lengthParameter: nat
    var input: ProverInput
    var n: nat
    var s: int

    constructor (t: nat, lengthParameter: nat)
      ensures this.t == t && this.lengthParameter == lengthParameter
    {
      this.t, this.lengthParameter := t, lengthParameter;
      input, n, s := ProverInput(CommonInput(0, 0), 0), 0, 0;
    }

    /** Stores the input and the sample; sends `s^N mod N'`. */
    method ComputeFirstMsg(in_: ProverInput, sample: int) returns (a: Outcome<int>)
      requires 1 <= sample < in_.common.n
      modifies this
      ensures input == in_ && n == in_.common.n
      ensures if SoundnessValid(t, n)
              then s == sample && a == Returned(FirstMsg(n, lengthParameter, sample))
              else s == old(s) && a == Threw(InvalidArgument)
    {
      input, n := in_, in_.common.n;
      if !SoundnessValid(t, n) {
        return Threw(InvalidArgument);
      }
      s := sample;
      return Returned(PowMod(s, Pow(n, lengthParameter), Pow(n, lengthParameter + 1)));
    }

    /** Answers `s * r^e mod n` and erases the sample. */
    method ComputeSecondMsg(challenge: seq<Byte>) returns (z: Outcome<int>)
      requires n > 0 && challenge != [] && DecodeBigInteger(challenge) >= 0
      modifies this
      ensures input == old(input) && n == old(n)
      ensures if |challenge| == t / 8
              then s == 0 && z == Returned(SecondMsg(n, old(s), input.r, DecodeBigInteger(challenge)))
              else s == old(s) && z == Threw(CheatAttempt)
    {
      if |challenge| != t / 8 {
        return Threw(CheatAttempt);
      }
      var e := DecodeBigInteger(challenge);
      var rToE := PowMod(input.r, e, n);
      var answer := (s * rToE) % n;
      s := 0;
      return Returned(answer);
    }
  }

  class Verifier {
    const t: nat
    const lengthParameter: nat
    var e: seq<Byte>
    var n: nat

    constructor (t: nat, lengthParameter: nat)
      ensures this.t == t && this.lengthParameter == lengthParameter && e == []
    {
      this.t, this.lengthParameter := t, lengthParameter;
      e, n := [], 0;
    }

    /** Keeps the random bytes as challenge, with the top bit cleared. */
    method SampleChallenge(random: seq<Byte>)
      requires |random| == t / 8 && random != []
      modifies this
      ensures e == MakePositive(random) && DecodeBigInteger(e) >= 0 && n == old(n)
    {
      e := MakePositive(random);
      DecodeRange(random);
    }

    method SetChallenge(challenge: seq<Byte>)
      modifies this
      ensures e == challenge && n == old(n)
    {
      e := challenge;
    }

    /** Decides exactly the documented condition and forgets the challenge. */
    method Verify(input: CommonInput, a: nat, z: nat) returns (r: Outcome<bool>)
      requires input.n > 0 && input.cipher >= 0
      requires e != [] && DecodeBigInteger(e) >= 0
      modifies this
      ensures n == input.n
      ensures if SoundnessValid(t, n)
              then e == [] && r.Returned?
                && (r.value <==> Accepts(n, lengthParameter, input.cipher, a, DecodeBigInteger(old(e)), z))
              else e == old(e) && r == Threw(InvalidArgument)
    {
      n := input.n;
      if !SoundnessValid(t, n) {
        return Threw(InvalidArgument);
      }
      var c: nat := input.cipher;
      var verified := Gcd(a, n) == 1;
      verified := verified && Gcd(z, n) == 1;
      verified := verified && Gcd(c, n) == 1;
      var N, NTag := Pow(n, lengthParameter), Pow(n, lengthParameter + 1);
      var left := PowMod(z, N, NTag);
      var eBI := DecodeBigInteger(e);
      var right := (a * PowMod(c, eBI, NTag)) % NTag;
      verified := verified && left == right;
      VerifyDecides(n, lengthParameter, c, a, eBI, z);
      e := [];
      return Returned(verified);
    }
  }

  lemma VerifyDecides(n: nat, s: nat, c: nat, a: nat, e: nat, z: nat)
    requires n > 0
    ensures Accepts(n, s, c, a, e, z) <==>
      && Gcd(a, n) == 1 && Gcd(z, n) == 1 && Gcd(c, n) == 1
      && PowMod(z, Pow(n, s), Pow(n, s + 1)) == (a * PowMod(c, e, Pow(n, s + 1))) % Pow(n, s + 1)
  {
    var m := Pow(n, s + 1);
    GcdDecidesCoprime(a, n);
    GcdDecidesCoprime(z, n);
    GcdDecidesCoprime(c, n);
    ReducedFactor(a, Pow(c, e), m);
    CongIffMod(Pow(z, Pow(n, s)), a * Pow(c, e), m);
  }

  /** Reducing a factor first does not change the reduced product. */
  lemma ReducedFactor(a: int, d: int, m: int)
    requires m > 0
    ensures (a * (d % m)) % m == (a * d) % m
  {
    CongMod(d, m);
    CongScale(d % m, d, a, m);
    CongIffMod(a * (d % m), a * d, m);
  }
}
