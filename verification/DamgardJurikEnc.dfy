/** src/mid_layer/DamgardJurikEnc.cpp: encryption, decryption, and when one undoes the other. */
module DamgardJurikEnc {
  import opened Outcomes
  import opened Congruence
  import opened Coprimality
  import opened FermatEuler
  import opened MathAlgorithms
  import opened DamgardJurik
  import opened DamgardJurikExtraction
  import opened DamgardJurikBinding
  import opened DamgardJurikLog
  import Product = SigmaDJProduct

  /** `d = 1 mod N` and `d = 0 mod t`, by the Chinese remainder theorem. */
  method GenerateD(N: nat, t: nat) returns (d: Outcome<int>)
    requires N > 0 && t > 0
    ensures d.Returned? <==> Coprime(N, t)
    ensures d.Returned? ==> d.value >= 0 && Cong(d.value, 1, N) && Cong(d.value, 0, t)
  {
    var moduli := [N, t];
    var congruences := [1, 0];
    d := ChineseRemainderTheorem(congruences, moduli);
    assert PairwiseCoprime(moduli) <==> Coprime(moduli[0], moduli[1]);
    if d.Returned? {
      assert Cong(d.value, congruences[0], moduli[0]) && Cong(d.value, congruences[1], moduli[1]);
    }
  }

  /** `c = (1+n)^x * r^N mod N'`, for `x` in `Z_N` and `r` in `Z_N'`. */
  function Encrypt(n: nat, s: nat, x: int, r: int): Outcome<nat>
    requires n > 0
  {
    var N, NTag := Pow(n, s), Pow(n, s + 1);
    if x < 0 || x >= N then Threw(InvalidArgument)
    else if !(r >= 0 && r <= NTag - 1) then Threw(InvalidArgument)
    else Returned((PowMod(n + 1, x, NTag) * PowMod(r, N, NTag)) % NTag)
  }

  /** Encryption returns exactly for `x` in `Z_N` and `r` in `Z_N'`, and with a unit `r` what it returns opens to
      `x`. */
  lemma EncryptOpens(n: nat, s: nat, x: int, r: int)
    requires n > 0
    ensures Encrypt(n, s, x, r).Returned? <==> 0 <= x < Pow(n, s) && 0 <= r < Pow(n, s + 1)
    ensures Encrypt(n, s, x, r).Threw? ==> Encrypt(n, s, x, r).error == InvalidArgument
    ensures Encrypt(n, s, x, r).Returned? ==>
      Encrypt(n, s, x, r).value < Pow(n, s + 1) && Cong(Encrypt(n, s, x, r).value, Enc(n, s, x, r), Pow(n, s + 1))
    ensures Encrypt(n, s, x, r).Returned? && Coprime(r, n) ==> Opens(n, s, Encrypt(n, s, x, r).value, x, r)
  {
    if 0 <= x < Pow(n, s) && 0 <= r < Pow(n, s + 1) {
      Product.ReducedEnc(n, s, x, r);
    }
  }

  /** `x` is the code's logarithm of `c^d`, for an exponent `d` that is 1 modulo `N` and 0 modulo `t`. */
  ghost predicate DecryptsTo(n: nat, s: nat, t: nat, c: int, x: int)
    requires n > 0
  {
    exists d: nat :: Cong(d, 1, Pow(n, s)) && Cong(d, 0, t) && x == OuterPasses(n, s, PowMod(c, d, Pow(n, s + 1)))
  }

  method Decrypt(n: nat, s: nat, t: nat, c: int) returns (r: Outcome<int>)
    requires n > 0 && t > 0
    ensures !(0 <= c < Pow(n, s + 1)) ==> r == Threw(InvalidArgument)
    ensures 0 <= c < Pow(n, s + 1) && !Coprime(Pow(n, s), t) ==> r.Threw?
    ensures 0 <= c < Pow(n, s + 1) && Coprime(Pow(n, s), t) ==> r.Returned? && DecryptsTo(n, s, t, c, r.value)
  {
    var N, NTag := Pow(n, s), Pow(n, s + 1);
    if c < 0 || c >= NTag {
      return Threw(InvalidArgument);
    }
    var d :- GenerateD(N, t);
    var a := PowMod(c, d, NTag);
    var x := 0;
    for j := 1 to s + 1
      invariant x == OuterPasses(n, j - 1, a)
    {
      ghost var x0 := x;
      var t1 := TruncatedQuotient(a % Pow(n, j + 1) - 1, n);
      var t2 := x;
      var nPowJ := Pow(n, j);
      var k := 2;
      while k <= j
        invariant 2 <= k && (k <= j + 1 || j == 1)
        invariant InnerPasses(n, j, k, x, t1, t2) == OuterPasses(n, j, a)
        decreases j + 1 - k
      {
        x := x - 1;
        t2 := TruncatedRemainder(t2 * x, nPowJ);
        var temp := TruncatedQuotient(t2 * Pow(n, k - 1), Factorial(k));
        t1 := TruncatedRemainder(t1 - temp, nPowJ);
        k := k + 1;
      }
      x := t1;
    }
    return Returned(x);
  }

  // ---------- round trip ----------

  /** Raising to the decryption exponent removes the randomness. */
  lemma DecryptionExponent(n: nat, p: nat, q: nat, s: nat, t: nat, i: nat, j: nat, c: int, x: nat, r: int, d: nat)
    requires RsaKey(n, p, q) && t == (p - 1) * i == (q - 1) * j && Opens(n, s, c, x, r)
    requires Cong(d, 1, Pow(n, s)) && Cong(d, 0, t)
    ensures n > 1 && Cong(PowMod(c, d, Pow(n, s + 1)), Pow(1 + n, x), Pow(n, s + 1))
  {
    KeyFacts(n, p, q);
    var m := Pow(n, s + 1);
    EulerTwoPrimes(r, p, q, t, i, j);
    var k := CongQuotient(d, 0, t);
    if k >= 0 { PowMultiple(r, t, k, n); } else { NegativeMultiple(k, t, d); }
    assert Cong(Pow(r, d), 1, n) by { if d == 0 { CongRefl(1, n); } }
    RandomnessRemoved(n, s, c, x, r, d);
    CongScale(d, 1, x, Pow(n, s));
    OrderOfBase(n, s);
    PowPeriodic(1 + n, x * d, x, Pow(n, s), m);
    CongTrans(Pow(c, d), Pow(1 + n, x * d), Pow(1 + n, x), m);
    PowModCong(c, d, m);
    CongTrans(PowMod(c, d, m), Pow(c, d), Pow(1 + n, x), m);
  }

  lemma NegativeMultiple(k: int, t: nat, d: nat)
    requires k < 0 && d == k * t
    ensures d == 0
  {
    if t > 0 { MulAtLeast(k, t); }
  }

  /** The power of `1+n` whose logarithm the code takes when it decrypts an encryption of `x`. */
  function PowerOf(n: nat, s: nat, x: nat): nat
    requires n > 0
  {
    PowMod(1 + n, x, Pow(n, s + 1))
  }

  lemma DecryptedPower(n: nat, p: nat, q: nat, s: nat, t: nat, i: nat, j: nat, c: int, x: nat, r: int, y: int)
    requires RsaKey(n, p, q) && t == (p - 1) * i == (q - 1) * j && n > 0
    requires Opens(n, s, c, x, r) && DecryptsTo(n, s, t, c, y)
    ensures y == OuterPasses(n, s, PowerOf(n, s, x)) && Cong(PowerOf(n, s, x), Pow(1 + n, x), Pow(n, s + 1))
  {
    hide Cong, OuterPasses, Opens, RsaKey;
    var m := Pow(n, s + 1);
    var d: nat :| Cong(d, 1, Pow(n, s)) && Cong(d, 0, t) && y == OuterPasses(n, s, PowMod(c, d, m));
    DecryptionExponent(n, p, q, s, t, i, j, c, x, r, d);
    PowModCong(1 + n, x, m);
    CongSym(PowerOf(n, s, x), Pow(1 + n, x), m);
    CongTrans(PowMod(c, d, m), Pow(1 + n, x), PowerOf(n, s, x), m);
    CongSmall(PowMod(c, d, m), PowerOf(n, s, x), m);
  }

  /** `y` is the representative of `x` modulo `N` that is not negative, or the one below it. */
  predicate Represents(y: int, x: nat, N: int) {
    y == x || y == x - N
  }

  lemma RepresentsIff(y: int, x: nat, N: int)
    requires x < N && -N < y < N
    ensures Represents(y, x, N) <==> Cong(y, x, N)
  {
    hide Cong;
    if Cong(y, x, N) {
      var k := CongQuotient(y, x, N);
      OneOrNone(k, N);
    }
    if Represents(y, x, N) {
      CongFromQuotient(y, x, N, if y == x then 0 else -1);
    }
  }

  /** Far multiples leave the range. */
  lemma OneOrNone(k: int, N: int)
    requires N > 0
    ensures k >= 1 ==> k * N >= N
    ensures k <= -2 ==> k * N <= -(2 * N)
  {
    if k >= 1 {
      MulAtLeast(k, N);
    } else if k <= -2 {
      MulAtLeast(k + 1, N);
      assert (k + 1) * N == k * N + N;
    }
  }

  /** Decryption gives back `x`, or its negative representative, exactly when nothing is lost in the last pass,
      if nothing was lost before. */
  lemma RepresentedIff(n: nat, s: nat, x: nat)
    requires n > 1 && s >= 1 && x < Pow(n, s) && Coprime(Factorial(s), n)
    requires Cong(PowerOf(n, s, x), Pow(1 + n, x), Pow(n, s + 1)) && NothingLost(n, s - 1, PowerOf(n, s, x))
    ensures Represents(OuterPasses(n, s, PowerOf(n, s, x)), x, Pow(n, s)) <==> LossAt(n, s, PowerOf(n, s, x)) == 0
  {
    hide *;
    var a := PowerOf(n, s, x);
    OneLevelDown(n, s, a, x);
    LogRightIff(n, s - 1, a, x);
    LastPass(n, s, a, x);
    RangeOfLog(n, s, x, a);
    RepresentsIff(OuterPasses(n, s, a), x, Pow(n, s));
  }

  lemma RangeOfLog(n: nat, s: nat, x: nat, a: nat)
    requires n > 1 && s >= 1 && Cong(a, Pow(1 + n, x), Pow(n, s + 1))
    ensures -Pow(n, s) < OuterPasses(n, s, a) < Pow(n, s)
  {
    if s == 1 {
      LogAtOne(n, x, a);
      PowOne(n);
    } else {
      PassesRange(n, s, a);
    }
  }

  /** The same at length parameter three, where the condition is one on `n` and `x` alone. */
  lemma RepresentedAtThreeIff(n: nat, x: nat)
    requires n > 1 && x < Pow(n, 3) && Coprime(6, n)
    requires Cong(PowerOf(n, 3, x), Pow(1 + n, x), Pow(n, 4))
    ensures Represents(OuterPasses(n, 3, PowerOf(n, 3, x)), x, Pow(n, 3)) <==> LossAtThree(n, x) == 0
  {
    hide *;
    var a := PowerOf(n, 3, x);
    LogAtThree(n, x, a);
    RangeOfLog(n, 3, x, a);
    RepresentsIff(OuterPasses(n, 3, a), x, Pow(n, 3));
  }

  /** What the passes before the last got wrong and what the divisions of the last pass drop cancel modulo `N`. */
  ghost predicate ErrorsCancel(n: nat, s: nat, x: nat)
    requires n > 0 && s >= 1
  {
    var a := PowerOf(n, s, x);
    Cong(Subtracted(n, x, 2, s) + LossAt(n, s, a), Subtracted(n, OuterPasses(n, s - 1, a), 2, s), Pow(n, s))
  }

  /** Without any condition on the passes before. */
  lemma RepresentedAlwaysIff(n: nat, s: nat, x: nat)
    requires n > 1 && s >= 1 && x < Pow(n, s) && Coprime(Factorial(s), n)
    requires Cong(PowerOf(n, s, x), Pow(1 + n, x), Pow(n, s + 1))
    ensures Represents(OuterPasses(n, s, PowerOf(n, s, x)), x, Pow(n, s)) <==> ErrorsCancel(n, s, x)
  {
    hide Cong, OuterPasses, Subtracted, Loss, Pow, Coprime, Factorial, Represents, PowerOf;
    var a := PowerOf(n, s, x);
    PassIff(n, s, a, x);
    RangeOfLog(n, s, x, a);
    RepresentsIff(OuterPasses(n, s, a), x, Pow(n, s));
  }

  /** Which of the two comes back: the sign of the last difference decides, at every length parameter. */
  lemma WhichRepresentative(n: nat, s: nat, x: nat)
    requires n > 1 && s >= 2 && x < Pow(n, s) && Represents(LogOf(n, s, x), x, Pow(n, s))
    ensures LogOf(n, s, x) == if LastStep(n, s, x) >= 0 || x == 0 then x else x - Pow(n, s)
  {
    hide Pow, LogOf, LastStep, TruncatedRemainder;
    LogIsReduced(n, s, x);
    SignKept(LastStep(n, s, x), Pow(n, s));
  }

  lemma WhichAtThree(n: nat, x: nat, y: int)
    requires n > 1 && x < n * (n * n) && Represents(y, x, n * (n * n))
    requires y == TruncatedRemainder(LastDifferenceAtThree(n, x), n * (n * n))
    ensures y == if LastDifferenceAtThree(n, x) >= 0 || x == 0 then x else x - n * (n * n)
  {
    hide LastDifferenceAtThree, TruncatedRemainder;
    SignKept(LastDifferenceAtThree(n, x), n * (n * n));
  }

  /** `y` is what decryption gives for `x`: the number `LogOf(n, s, x)`, for every modulus. That is `x` itself at length
      parameter one, and `x` up to the sign at two; from there on it is `x` or its negative representative exactly under
      a condition on `n` and `x`, and the sign of the last difference says which. */
  ghost predicate Recovers(n: nat, s: nat, x: nat, y: int)
    requires n > 0
  {
    && y == LogOf(n, s, x)
    && (s >= 2 && Represents(y, x, Pow(n, s)) ==>
          y == if LastStep(n, s, x) >= 0 || x == 0 then x else x - Pow(n, s))
    && (s >= 1 && x <= 1 ==> y == x)
    && (s == 3 ==> y == TruncatedRemainder(LastDifferenceAtThree(n, x), n * (n * n)))
    && (s == 3 && Coprime(6, n) && LossAtThree(n, x) == 0 ==>
          y == if LastDifferenceAtThree(n, x) >= 0 || x == 0 then x else x - n * (n * n))
    && (s == 1 ==> y == x)
    && (s == 2 ==> y == if LastDifference(n, x) >= 0 then x else x - n * n)
    && (s == 3 && Coprime(6, n) ==> (Represents(y, x, Pow(n, 3)) <==> LossAtThree(n, x) == 0))
    && (s >= 1 && Coprime(Factorial(s), n) ==> (Represents(y, x, Pow(n, s)) <==> ErrorsCancel(n, s, x)))
    && (s >= 1 && Coprime(Factorial(s), n) && NothingLost(n, s - 1, PowerOf(n, s, x)) ==>
          (Represents(y, x, Pow(n, s)) <==> LossAt(n, s, PowerOf(n, s, x)) == 0))
  }

  /** What decrypting an encryption of `x` gives. */
  lemma DecryptedValue(n: nat, p: nat, q: nat, s: nat, t: nat, i: nat, j: nat, c: int, x: nat, r: int, y: int)
    requires RsaKey(n, p, q) && t == (p - 1) * i == (q - 1) * j && n > 0
    requires Opens(n, s, c, x, r) && x < Pow(n, s) && DecryptsTo(n, s, t, c, y)
    ensures Recovers(n, s, x, y)
  {
    hide Cong, Pow, OuterPasses, PowerOf, Represents, ErrorsCancel, NothingLost, LossAt, LossAtThree, LastDifference,
      Opens, DecryptsTo, RsaKey, Coprime, Factorial, LogOf, LastStep, LastDifferenceAtThree, TruncatedRemainder;
    PowsOf(n);
    KeyFacts(n, p, q);
    DecryptedPower(n, p, q, s, t, i, j, c, x, r, y);
    LogExact(n, s, PowerOf(n, s, x), x);
    if s >= 2 && Represents(y, x, Pow(n, s)) {
      WhichRepresentative(n, s, x);
    }
    if s >= 1 && x <= 1 {
      ZeroAndOne(n, s, x);
    }
    if s == 3 {
      LogAtThreeExact(n, x, PowerOf(n, s, x));
    }
    if s == 1 {
      LogAtOne(n, x, PowerOf(n, s, x));
      SmallRemainder(x, n);
    } else if s == 2 {
      LogAtTwo(n, x, PowerOf(n, s, x));
      SignedAnswer(n, x);
    } else if s == 3 && Coprime(6, n) {
      RepresentedAtThreeIff(n, x);
      if LossAtThree(n, x) == 0 {
        WhichAtThree(n, x, y);
      }
    }
    if s >= 1 && Coprime(Factorial(s), n) {
      RepresentedAlwaysIff(n, s, x);
      if NothingLost(n, s - 1, PowerOf(n, s, x)) {
        RepresentedIff(n, s, x);
      }
    }
  }

  /** Decrypting any encryption of `x`, with the private key's `t` a common multiple of `p-1` and `q-1`. */
  method DecryptOpened(n: nat, p: nat, q: nat, t: nat, ghost i: nat, ghost j: nat, s: nat, c: nat,
                       ghost x: nat, ghost r: int) returns (y: Outcome<int>)
    requires RsaKey(n, p, q) && t == (p - 1) * i == (q - 1) * j && t > 0 && Coprime(t, n)
    requires n > 0 && c < Pow(n, s + 1) && x < Pow(n, s) && Opens(n, s, c, x, r)
    ensures y.Returned? && Recovers(n, s, x, y.value)
  {
    hide Opens, DecryptsTo, RsaKey, Recovers, Coprime, Pow;
    CoprimePowRight(t, n, s);
    CoprimeSym(t, Pow(n, s));
    y := Decrypt(n, s, t, c);
    DecryptedValue(n, p, q, s, t, i, j, c, x, r, y.value);
  }

  /** Decryption after encryption. */
  method RoundTrip(n: nat, p: nat, q: nat, t: nat, ghost i: nat, ghost j: nat, s: nat, x: nat, r: nat)
      returns (y: Outcome<int>)
    requires RsaKey(n, p, q) && t == (p - 1) * i == (q - 1) * j && t > 0 && Coprime(t, n)
    requires n > 0 && x < Pow(n, s) && r < Pow(n, s + 1) && Coprime(r, n)
    ensures y.Returned? && Recovers(n, s, x, y.value)
  {
    hide Opens, RsaKey, Recovers, Coprime, Pow, PowMod;
    EncryptOpens(n, s, x, r);
    var c := Encrypt(n, s, x, r).value;
    y := DecryptOpened(n, p, q, t, i, j, s, c, x, r);
  }

  // ---------- operations on ciphertexts ----------

  predicate InZNTag(n: nat, s: nat, v: int)
    requires n > 0
  {
    0 <= v < Pow(n, s + 1)
  }

  function ReRandomize(n: nat, s: nat, c: int, r: int): Outcome<nat>
    requires n > 0
  {
    var N, NTag := Pow(n, s), Pow(n, s + 1);
    if !InZNTag(n, s, c) || !InZNTag(n, s, r) then Threw(InvalidArgument)
    else Returned((c * PowMod(r, N, NTag)) % NTag)
  }

  function Add(n: nat, s: nat, c1: int, c2: int, r: int): Outcome<nat>
    requires n > 0
  {
    var N, NTag := Pow(n, s), Pow(n, s + 1);
    if !InZNTag(n, s, r) || !InZNTag(n, s, c1) || !InZNTag(n, s, c2) then Threw(InvalidArgument)
    else Returned((((c1 * c2) % NTag) * PowMod(r, N, NTag)) % NTag)
  }

  /** The range check admits `N` itself. */
  function MultByConst(n: nat, s: nat, c: int, k: int, r: int): Outcome<nat>
    requires n > 0
  {
    var N, NTag := Pow(n, s), Pow(n, s + 1);
    if !InZNTag(n, s, r) || !InZNTag(n, s, c) || k < 0 || k > N then Threw(InvalidArgument)
    else Returned((PowMod(c, k, NTag) * PowMod(r, N, NTag)) % NTag)
  }

  /** The three operations on any two ciphertexts, with any randomness, units or not: the product, or the power, times
      an encryption of zero. */
  lemma OperationLaws(n: nat, s: nat, c: int, c': int, k: int, r: int)
    requires n > 0 && InZNTag(n, s, c) && InZNTag(n, s, c') && InZNTag(n, s, r)
    ensures var m := Pow(n, s + 1);
            && ReRandomize(n, s, c, r).Returned? && ReRandomize(n, s, c, r).value < m
            && Cong(ReRandomize(n, s, c, r).value, c * Enc(n, s, 0, r), m)
            && Add(n, s, c, c', r).Returned? && Add(n, s, c, c', r).value < m
            && Cong(Add(n, s, c, c', r).value, (c * c') * Enc(n, s, 0, r), m)
            && (MultByConst(n, s, c, k, r).Returned? <==> 0 <= k <= Pow(n, s))
            && (0 <= k <= Pow(n, s) ==>
                  && MultByConst(n, s, c, k, r).value < m
                  && Cong(MultByConst(n, s, c, k, r).value, Pow(c, k) * Enc(n, s, 0, r), m))
  {
    hide Cong, Pow, PowMod, Enc;
    var m := Pow(n, s + 1);
    CongRefl(c, m);
    Masked(n, s, c, c, r);
    CongMod(c * c', m);
    Masked(n, s, (c * c') % m, c * c', r);
    if 0 <= k <= Pow(n, s) {
      PowModCong(c, k, m);
      Masked(n, s, PowMod(c, k, m), Pow(c, k), r);
    }
  }

  lemma Masked(n: nat, s: nat, v: int, w: int, r: int)
    requires n > 0 && Cong(v, w, Pow(n, s + 1))
    ensures var m := Pow(n, s + 1);
            Cong((v * PowMod(r, Pow(n, s), m)) % m, w * Enc(n, s, 0, r), m)
  {
    hide *;
    var m, f := Pow(n, s + 1), PowMod(r, Pow(n, s), Pow(n, s + 1));
    PowModCong(r, Pow(n, s), m);
    EncZero(n, s, r);
    CongMul(v, w, f, Enc(n, s, 0, r), m);
    CongMod(v * f, m);
    CongTrans((v * f) % m, v * f, w * Enc(n, s, 0, r), m);
  }

  /** Multiplying by `r^N` keeps the plaintext and multiplies the randomness. */
  lemma MaskedOpens(n: nat, s: nat, v: int, w: int, x: nat, r: int, r': int)
    requires n > 0 && Cong(v, w, Pow(n, s + 1)) && Opens(n, s, w, x, r) && Coprime(r', n)
    ensures Opens(n, s, (v * PowMod(r', Pow(n, s), Pow(n, s + 1))) % Pow(n, s + 1), x, r * r')
  {
    hide *;
    var m, f := Pow(n, s + 1), PowMod(r', Pow(n, s), Pow(n, s + 1));
    OpensMeans(n, s, w, x, r);
    CongTrans(v, w, Enc(n, s, x, r), m);
    PowModCong(r', Pow(n, s), m);
    EncZero(n, s, r');
    CongMul(v, Enc(n, s, x, r), f, Enc(n, s, 0, r'), m);
    EncMul(n, s, x, r, 0, r');
    CongMod(v * f, m);
    CongTrans((v * f) % m, v * f, Enc(n, s, x, r * r'), m);
    CoprimeMul(r, r', n);
    OpensFrom(n, s, (v * f) % m, x, r * r');
  }

  lemma ReRandomizeOpens(n: nat, s: nat, c: int, x: nat, r: int, r': int)
    requires n > 0 && Opens(n, s, c, x, r) && Coprime(r', n)
    ensures ReRandomize(n, s, c, r').Returned? <==> InZNTag(n, s, c) && InZNTag(n, s, r')
    ensures ReRandomize(n, s, c, r').Returned? ==> Opens(n, s, ReRandomize(n, s, c, r').value, x, r * r')
  {
    CongRefl(c, Pow(n, s + 1));
    MaskedOpens(n, s, c, c, x, r, r');
  }

  /** `add` gives an encryption of the sum, with the product of all the randomness. */
  lemma AddOpens(n: nat, s: nat, c1: int, x1: nat, r1: int, c2: int, x2: nat, r2: int, r: int)
    requires n > 0 && Opens(n, s, c1, x1, r1) && Opens(n, s, c2, x2, r2) && Coprime(r, n)
    ensures Add(n, s, c1, c2, r).Returned? <==> InZNTag(n, s, c1) && InZNTag(n, s, c2) && InZNTag(n, s, r)
    ensures Add(n, s, c1, c2, r).Returned? ==> Opens(n, s, Add(n, s, c1, c2, r).value, x1 + x2, (r1 * r2) * r)
  {
    var m := Pow(n, s + 1);
    CongMul(c1, Enc(n, s, x1, r1), c2, Enc(n, s, x2, r2), m);
    EncMul(n, s, x1, r1, x2, r2);
    CoprimeMul(r1, r2, n);
    CongMod(c1 * c2, m);
    MaskedOpens(n, s, (c1 * c2) % m, c1 * c2, x1 + x2, r1 * r2, r);
  }

  /** `multByConst` gives an encryption of the multiple. */
  lemma MultByConstOpens(n: nat, s: nat, c: int, x: nat, r: int, k: nat, r': int)
    requires n > 0 && Opens(n, s, c, x, r) && Coprime(r', n)
    ensures MultByConst(n, s, c, k, r').Returned? <==> InZNTag(n, s, c) && InZNTag(n, s, r') && k <= Pow(n, s)
    ensures x * k >= 0
    ensures MultByConst(n, s, c, k, r').Returned? ==>
      Opens(n, s, MultByConst(n, s, c, k, r').value, x * k, Pow(r, k) * r')
  {
    var m := Pow(n, s + 1);
    PowCong(c, Enc(n, s, x, r), k, m);
    EncPow(n, s, x, r, k);
    CoprimePow(r, k, n);
    PowModCong(c, k, m);
    MaskedOpens(n, s, PowMod(c, k, m), Pow(c, k), x * k, Pow(r, k), r');
  }

  /** A plaintext may be reduced modulo `N`. */
  lemma OpensReduced(n: nat, s: nat, c: int, x: nat, r: int)
    requires n > 0 && Opens(n, s, c, x, r)
    ensures Opens(n, s, c, x % Pow(n, s), r)
  {
    CongMod(x, Pow(n, s));
    CongRefl(r, n);
    EncCong(n, s, x, r, x % Pow(n, s), r);
    CongTrans(c, Enc(n, s, x, r), Enc(n, s, x % Pow(n, s), r), Pow(n, s + 1));
  }

  /** Decrypting a re-randomized encryption gives what the encryption itself gives. */
  method ReRandomizeRoundTrip(n: nat, p: nat, q: nat, t: nat, ghost i: nat, ghost j: nat, s: nat, x: nat, r: nat,
                              r': nat)
      returns (y: Outcome<int>)
    requires RsaKey(n, p, q) && t == (p - 1) * i == (q - 1) * j && t > 0 && Coprime(t, n) && n > 0
    requires x < Pow(n, s) && r < Pow(n, s + 1) && r' < Pow(n, s + 1) && Coprime(r, n) && Coprime(r', n)
    ensures y.Returned? && Recovers(n, s, x, y.value)
  {
    hide Opens, RsaKey, Recovers, Coprime, Pow, PowMod;
    EncryptOpens(n, s, x, r);
    var c := Encrypt(n, s, x, r).value;
    ReRandomizeOpens(n, s, c, x, r, r');
    var c' := ReRandomize(n, s, c, r').value;
    y := DecryptOpened(n, p, q, t, i, j, s, c', x, r * r');
  }

  /** Encrypting two values, adding the ciphertexts and decrypting gives the sum modulo `N`, as far as decryption
      recovers it. */
  method AddRoundTrip(n: nat, p: nat, q: nat, t: nat, ghost i: nat, ghost j: nat, s: nat,
                      x1: nat, r1: nat, x2: nat, r2: nat, r: nat) returns (y: Outcome<int>)
    requires RsaKey(n, p, q) && t == (p - 1) * i == (q - 1) * j && t > 0 && Coprime(t, n) && n > 0
    requires x1 < Pow(n, s) && x2 < Pow(n, s) && r1 < Pow(n, s + 1) && r2 < Pow(n, s + 1) && r < Pow(n, s + 1)
    requires Coprime(r1, n) && Coprime(r2, n) && Coprime(r, n)
    ensures y.Returned? && Recovers(n, s, (x1 + x2) % Pow(n, s), y.value)
  {
    hide Opens, RsaKey, Recovers, Coprime, Pow, PowMod;
    EncryptOpens(n, s, x1, r1);
    EncryptOpens(n, s, x2, r2);
    var c1, c2 := Encrypt(n, s, x1, r1).value, Encrypt(n, s, x2, r2).value;
    AddOpens(n, s, c1, x1, r1, c2, x2, r2, r);
    var c := Add(n, s, c1, c2, r).value;
    OpensReduced(n, s, c, x1 + x2, (r1 * r2) * r);
    y := DecryptOpened(n, p, q, t, i, j, s, c, (x1 + x2) % Pow(n, s), (r1 * r2) * r);
  }

  /** Encrypting a value, multiplying by a constant and decrypting gives the multiple modulo `N`, as far as decryption
      recovers it. */
  method MultRoundTrip(n: nat, p: nat, q: nat, t: nat, ghost i: nat, ghost j: nat, s: nat,
                       x: nat, r: nat, k: nat, r': nat) returns (y: Outcome<int>)
    requires RsaKey(n, p, q) && t == (p - 1) * i == (q - 1) * j && t > 0 && Coprime(t, n) && n > 0
    requires x < Pow(n, s) && k <= Pow(n, s) && r < Pow(n, s + 1) && r' < Pow(n, s + 1)
    requires Coprime(r, n) && Coprime(r', n)
    ensures y.Returned? && Recovers(n, s, (x * k) % Pow(n, s), y.value)
  {
    hide Opens, RsaKey, Recovers, Coprime, Pow, PowMod;
    EncryptOpens(n, s, x, r);
    var c := Encrypt(n, s, x, r).value;
    MultByConstOpens(n, s, c, x, r, k, r');
    var multiple := MultByConst(n, s, c, k, r').value;
    OpensReduced(n, s, multiple, x * k, Pow(r, k) * r');
    y := DecryptOpened(n, p, q, t, i, j, s, multiple, (x * k) % Pow(n, s), Pow(r, k) * r');
  }

  // ---------- inputs that fail ----------

  lemma SmallPrimes()
    ensures IsPrime(3) && IsPrime(5) && IsPrime(7)
  {
    forall p: int, d: int | p in {3, 5, 7} && 1 < d < p ensures !Divides(d, p) {
      DividesIffMod(d, p);
    }
  }

  /** At two the sign matters: under the key `15 = 3 * 5` every encryption of 6 decrypts to -219. */
  method NegativeAtTwo(r: nat) returns (y: Outcome<int>)
    requires r < Pow(15, 3) && Coprime(r, 15)
    ensures y == Returned(-219)
  {
    hide Represents, Coprime, IsPrime, Pow, LossAtThree, ErrorsCancel, NothingLost, LossAt, LastDifference, LogOf,
      LastStep, LastDifferenceAtThree;
    SmallPrimes();
    CoprimeIntro(8, 15, 2, -1);
    CoprimeIntro(4, 15, 4, -1);
    SquareOfKey();
    NegativeDifference();
    y := RoundTrip(15, 3, 5, 4, 2, 1, 2, 6, r);
  }

  lemma SquareOfKey()
    ensures Pow(15, 2) == 225
  {
    PowsOf(15);
  }

  lemma NegativeDifference()
    ensures LastDifference(15, 6) < 0
  {
    Pairs(6);
  }

  /** At three the value itself can be wrong: under the key `35 = 5 * 7` no encryption of 9 decrypts to 9
      modulo `35^3`. */
  method WrongAtThree(r: nat) returns (y: Outcome<int>)
    requires r < Pow(35, 4) && Coprime(r, 35)
    ensures y.Returned? && !Represents(y.value, 9, Pow(35, 3))
  {
    hide Recovers, Represents, Coprime, IsPrime, Pow;
    SmallPrimes();
    CoprimeIntro(24, 35, -16, 11);
    CoprimeIntro(12, 35, 3, -1);
    CubeOfKey();
    y := RoundTrip(35, 5, 7, 12, 3, 2, 3, 9, r);
    NineIsLost(y.value);
  }

  lemma CubeOfKey()
    ensures Pow(35, 3) == 42875
  {
    PowsOf(35);
  }

  lemma NineIsLost(y: int)
    requires Recovers(35, 3, 9, y)
    ensures !Represents(y, 9, Pow(35, 3))
  {
    hide Represents, Coprime, Pow, LossAtThree, ErrorsCancel, NothingLost, LossAt, LogOf, LastStep,
      LastDifferenceAtThree;
    CoprimeIntro(6, 35, 6, -1);
    LostAtThree();
  }

  lemma LostAtThree()
    ensures LossAtThree(35, 9) == -4
  {
    hide LastDifference;
    NineAtTwo();
    assert TruncatedRemainder(-1216, 1225) == -1216;
    assert TruncatedRemainder(-1216 * -1217, 42875) == 22122;
    assert TruncatedRemainder(22122 * -1218, 42875) == -19096;
  }

  lemma NineAtTwo()
    ensures LastDifference(35, 9) == -1216
  {
    hide Binomial;
    Pairs(9);
    assert 35 * 35 == 1225 && 9 % 35 == 9 && 9 + 35 * 36 == 1269;
    assert 1269 % 1225 == 44;
  }
}
