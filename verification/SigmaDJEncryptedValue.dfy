/** The sigma protocol proving that a Damgard-Jurik ciphertext encrypts a given value,
    by reduction to the encryption-of-zero protocol. */
module SigmaDJEncryptedValue {
  import opened Outcomes
  import opened Congruence
  import opened Coprimality
  import opened Challenges
  import opened DamgardJurik
  import opened DamgardJurikExtraction
  import Zero = SigmaDJEncryptedZero

  datatype CommonInput = CommonInput(n: nat, cipher: nat, x: nat)

  datatype ProverInput = ProverInput(common: CommonInput, r: int)

  /** `(1+n)^(-x) mod N'`: a power of `1+n` whose exponent is `-x` modulo the order of `1+n`. */
  function NegativePower(n: nat, s: nat, x: nat): (v: nat)
    requires n > 0
  {
    PowMod(1 + n, (Pow(n, s) - 1) * x, Pow(n, s + 1))
  }

  /** `c' = c * (1+n)^(-x) mod N'`. */
  function Converted(n: nat, s: nat, c: nat, x: nat): (v: nat)
    requires n > 0
  {
    (c * NegativePower(n, s, x)) % Pow(n, s + 1)
  }

  lemma NegativePowerInverse(n: nat, s: nat, x: nat)
    requires n > 0
    ensures Cong(Pow(1 + n, x) * NegativePower(n, s, x), 1, Pow(n, s + 1))
  {
    var m := Pow(n, s + 1);
    var y := NegateExponent(Pow(n, s), x);
    PowModCong(1 + n, y, m);
    CongScale(PowMod(1 + n, y, m), Pow(1 + n, y), Pow(1 + n, x), m);
    PowAdd(1 + n, x, y);
    OrderOfBase(n, s);
    PowPeriodic(1 + n, x + y, 0, Pow(n, s), m);
    CongTrans(Pow(1 + n, x) * NegativePower(n, s, x), Pow(1 + n, x + y), 1, m);
  }

  lemma ConvertedCong(n: nat, s: nat, c: nat, x: nat)
    requires n > 0
    ensures Cong(Converted(n, s, c, x) * Pow(1 + n, x), c, Pow(n, s + 1))
  {
    var m, v, g := Pow(n, s + 1), NegativePower(n, s, x), Pow(1 + n, x);
    CongMod(c * v, m);
    NegativePowerInverse(n, s, x);
    CongRefl(g, m);
    CongRefl(c, m);
    Zero.QuotientEquation(Converted(n, s, c, x), c, v, g, g, c, m);
    CongSym(c, Converted(n, s, c, x) * g, m);
  }

  /** `c` encrypts `x` under `r` exactly when the converted ciphertext encrypts zero under `r`. */
  lemma Reduction(n: nat, s: nat, c: nat, x: nat, r: int)
    requires n > 0
    ensures Opens(n, s, c, x, r) <==> Opens(n, s, Converted(n, s, c, x), 0, r)
  {
    var m, c', g, w := Pow(n, s + 1), Converted(n, s, c, x), Pow(1 + n, x), Pow(r, Pow(n, s));
    ConvertedCong(n, s, c, x);
    EncZero(n, s, r);
    if Cong(c', w, m) {
      CongScale(c', w, g, m);
      CongSym(c' * g, c, m);
      CongTrans(c, c' * g, w * g, m);
      assert w * g == g * w;
    }
    if Cong(c, g * w, m) {
      CongTrans(c' * g, c, g * w, m);
      assert c' * g == g * c';
      BaseCoprime(n);
      CoprimePow(1 + n, x, n);
      CoprimePowRight(g, n, s + 1);
      CongCancel(g, c', w, m);
    }
  }

  /** Two accepting transcripts of the converted statement open `c` to `x`. */
  lemma Extractor(n: nat, s: nat, c: nat, x: nat, a: int, e: nat, z: int, e': nat, z': int) returns (r: int)
    requires n > 0 && e != e' && Coprime(e - e', n)
    requires Zero.Accepts(n, s, Converted(n, s, c, x), a, e, z)
    requires Zero.Accepts(n, s, Converted(n, s, c, x), a, e', z')
    ensures Opens(n, s, c, x, r)
  {
    r := Zero.Extractor(n, s, Converted(n, s, c, x), a, e, z, e', z');
    Reduction(n, s, c, x, r);
  }

  /** Delegates to a prover of the converted statement. The converted ciphertext it hands over is
      computed with the modulus overwritten by one, so it is always zero. */
  class Prover {
    const inner: Zero.Prover

    constructor (t: nat, lengthParameter: nat)
      ensures fresh(inner) && inner.t == t && inner.lengthParameter == lengthParameter
    {
      inner := new Zero.Prover(t, lengthParameter);
    }

    method ComputeFirstMsg(in_: ProverInput, sample: int) returns (a: Outcome<int>)
      requires 1 <= sample < in_.common.n
      modifies inner
      ensures inner.n == in_.common.n
      ensures inner.input == Zero.ProverInput(Zero.CommonInput(in_.common.n, 0), in_.r)
      ensures if Zero.SoundnessValid(inner.t, inner.n)
              then inner.s == sample && a == Returned(Zero.FirstMsg(inner.n, inner.lengthParameter, sample))
              else a == Threw(InvalidArgument)
    {
      var n := 1;
      var NTag := Pow(n, inner.lengthParameter + 1);
      OnePow(inner.lengthParameter + 1);
      var multVal := NegativePower(n, inner.lengthParameter, in_.common.x);
      var newCipher := (in_.common.cipher * multVal) % NTag;
      a := inner.ComputeFirstMsg(
        Zero.ProverInput(Zero.CommonInput(in_.common.n, newCipher), in_.r), sample);
    }

    method ComputeSecondMsg(challenge: seq<Byte>) returns (z: Outcome<int>)
      requires inner.n > 0 && challenge != [] && DecodeBigInteger(challenge) >= 0
      modifies inner
      ensures if |challenge| == inner.t / 8
              then inner.s == 0 && z == Returned(Zero.SecondMsg(
                old(inner.n), old(inner.s), old(inner.input.r), DecodeBigInteger(challenge)))
              else z == Threw(CheatAttempt)
    {
      z := inner.ComputeSecondMsg(challenge);
    }
  }

  /** Delegates to a verifier of the converted statement. */
  class Verifier {
    const inner: Zero.Verifier

    constructor (t: nat, lengthParameter: nat)
      ensures fresh(inner) && inner.t == t && inner.lengthParameter == lengthParameter
    {
      inner := new Zero.Verifier(t, lengthParameter);
    }

    method Verify(input: CommonInput, a: nat, z: nat) returns (r: Outcome<bool>)
      requires input.n > 0 && inner.e != [] && DecodeBigInteger(inner.e) >= 0
      modifies inner
      ensures if Zero.SoundnessValid(inner.t, input.n)
              then inner.e == [] && r.Returned? && (r.value <==> Zero.Accepts(
                input.n, inner.lengthParameter,
                Converted(input.n, inner.lengthParameter, input.cipher, input.x),
                a, DecodeBigInteger(old(inner.e)), z))
              else r == Threw(InvalidArgument)
    {
      var newCipher := Converted(input.n, inner.lengthParameter, input.cipher, input.x);
      r := inner.Verify(Zero.CommonInput(input.n, newCipher), a, z);
    }
  }

  /** One honest run of the stateful prover and verifier: an encryption of `x` is accepted exactly
      when the sampled value is a unit, although the prover's converted ciphertext is wrong. */
  method HonestRun(t: nat, s: nat, input: ProverInput, sample: nat, random: seq<Byte>) returns (accepted: Outcome<bool>)
    requires 1 <= sample < input.common.n
    requires Opens(input.common.n, s, input.common.cipher, input.common.x, input.r)
    requires |random| == t / 8 && random != []
    ensures Zero.SoundnessValid(t, input.common.n) ==>
      accepted.Returned? && (accepted.value <==> Coprime(sample, input.common.n))
    ensures !Zero.SoundnessValid(t, input.common.n) ==> accepted == Threw(InvalidArgument)
  {
    var n := input.common.n;
    var prover := new Prover(t, s);
    var verifier := new Verifier(t, s);
    var a :- prover.ComputeFirstMsg(input, sample);
    verifier.inner.SampleChallenge(random);
    var challenge := verifier.inner.e;
    var z := prover.ComputeSecondMsg(challenge);
    Reduction(n, s, input.common.cipher, input.common.x, input.r);
    Zero.Completeness(n, s, Converted(n, s, input.common.cipher, input.common.x), input.r, sample,
                      DecodeBigInteger(challenge));
    accepted := verifier.Verify(input.common, a, z.value);
  }
}
