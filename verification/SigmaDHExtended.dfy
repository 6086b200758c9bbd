/** The sigma protocol for `h_i = g_i^w`, one `w` for all `i`: the extended Diffie-Hellman tuples.
    With the arrays `[g, h]` and `[u, v]` it is the Diffie-Hellman protocol. */
module SigmaDHExtended {
  import opened Outcomes
  import opened Congruence
  import opened Coprimality
  import opened MathAlgorithms
  import opened Challenges
  import opened DlogGroups
  import opened SafePrimeGroups

  datatype CommonInput<G> = CommonInput(gs: seq<G>, hs: seq<G>)

  predicate SoundnessValid(t: nat, q: nat) {
    Pow(2, t) < q
  }

  /** The relation that is proved. */
  ghost predicate Related<G(!new)>(d: DlogGroup<G>, input: CommonInput<G>, w: int) {
    && |input.gs| == |input.hs|
    && forall i :: 0 <= i < |input.gs| ==> input.hs[i] == d.Exp(input.gs[i], w)
  }

  predicate Members<G>(d: DlogGroup<G>, xs: seq<G>) {
    forall i :: 0 <= i < |xs| ==> d.isMember(xs[i])
  }

  /** `g_i^z = a_i * h_i^e`. */
  predicate Equation<G(==)>(d: DlogGroup<G>, g: G, h: G, a: G, e: int, z: int) {
    d.Exp(g, z) == d.mul(a, d.Exp(h, e))
  }

  ghost predicate Accepts<G(!new)>(d: DlogGroup<G>, input: CommonInput<G>, a: seq<G>, e: int, z: int) {
    && |input.gs| == |input.hs| <= |a| && Members(d, input.gs)
    && forall i :: 0 <= i < |input.gs| ==> Equation(d, input.gs[i], input.hs[i], a[i], e, z)
  }

  function FirstMsg<G>(d: DlogGroup<G>, gs: seq<G>, r: int): seq<G> {
    seq(|gs|, i requires 0 <= i < |gs| => d.Exp(gs[i], r))
  }

  /** `z = (r + (e * w) mod q) mod q`, with remainders that keep the sign of the dividend. */
  function Answer(q: nat, r: int, w: int, e: int): int
    requires q > 0
  {
    TruncatedRemainder(r + TruncatedRemainder(e * w, q), q)
  }

  function SimulatedFirst<G>(d: DlogGroup<G>, input: CommonInput<G>, e: int, z: int): seq<G>
    requires |input.gs| == |input.hs|
  {
    seq(|input.gs|, i requires 0 <= i < |input.gs| =>
      d.mul(d.Exp(input.gs[i], z), d.Exp(input.hs[i], d.order - e)))
  }

  // ---------- one equation, in exponents ----------

  /** The equation holds exactly when it holds between the exponents. */
  lemma EquationInExponents<G(!new)>(d: DlogGroup<G>, g: G, h: G, a: G, e: int, z: int)
    requires ValidGroup(d) && d.isMember(g) && d.isMember(h) && d.isMember(a)
    ensures Equation(d, g, h, a, e, z) <==>
            Cong(Log(d, g) * z, Log(d, a) + Log(d, h) * e, d.order)
  {
    MemberIsPower(d, g);
    MemberIsPower(d, h);
    MemberIsPower(d, a);
    PowerExp(d, g, Log(d, g), z);
    PowerExp(d, h, Log(d, h), e);
    PowerMul(d, a, Log(d, a), d.Exp(h, e), Log(d, h) * e);
    PowersEqual(d, d.Exp(g, z), Log(d, g) * z, d.mul(a, d.Exp(h, e)), Log(d, a) + Log(d, h) * e);
  }

  lemma AnswerCong(q: nat, r: int, w: int, e: int)
    requires q > 0
    ensures Cong(Answer(q, r, w, e), r + e * w, q)
  {
    TruncatedRemainderCong(e * w, q);
    TruncatedRemainderCong(r + TruncatedRemainder(e * w, q), q);
    CongRefl(r, q);
    CongAdd(r, r, TruncatedRemainder(e * w, q), e * w, q);
    CongTrans(Answer(q, r, w, e), r + TruncatedRemainder(e * w, q), r + e * w, q);
  }

  /** The answer is the residue of `r + ew` in `[0, q)` exactly when the inner sum is not negative;
      otherwise it is that residue less `q`, and `ew` is negative. */
  lemma AnswerIsResidue(q: nat, r: nat, w: int, e: int)
    requires q > 0
    ensures Answer(q, r, w, e) < 0 <==> r + TruncatedRemainder(e * w, q) < 0
    ensures Answer(q, r, w, e) == (r + e * w) % q - (if r + TruncatedRemainder(e * w, q) < 0 then q else 0)
    ensures Answer(q, r, w, e) < 0 ==> e * w < 0
    ensures 0 - q < Answer(q, r, w, e) < q
  {
    var z := Answer(q, r, w, e);
    AnswerCong(q, r, w, e);
    TruncatedRemainderCong(e * w, q);
    TruncatedRemainderCong(r + TruncatedRemainder(e * w, q), q);
    NegativeSum(q, r, TruncatedRemainder(e * w, q));
    CongMod(r + e * w, q);
    CongTrans(z, r + e * w, (r + e * w) % q, q);
    if z >= 0 {
      CongSmall(z, (r + e * w) % q, q);
    } else {
      CongFromQuotient(z + q, z, q, 1);
      CongTrans(z + q, z, (r + e * w) % q, q);
      CongSmall(z + q, (r + e * w) % q, q);
    }
  }

  lemma NegativeSum(q: nat, r: nat, k: int)
    requires q > 0 && 0 - q < k < q
    ensures TruncatedRemainder(r + k, q) < 0 <==> r + k < 0
  {
    if r + k < 0 {
      SmallRemainder(-(r + k), q);
    } else {
      assert (r + k) % q >= 0;
    }
  }

  /** A negative challenge can give a negative answer, which no simulated transcript has. */
  lemma NegativeAnswer(q: nat)
    requires q > 1
    ensures Answer(q, 0, 1, -1) == -1
  {
    assert 1 % q == 1;
  }

  // ---------- completeness ----------

  lemma CompleteEquation<G(!new)>(d: DlogGroup<G>, g: G, h: G, r: int, w: int, e: int)
    requires ValidGroup(d) && d.isMember(g) && h == d.Exp(g, w)
    ensures Equation(d, g, h, d.Exp(g, r), e, Answer(d.order, r, w, e))
  {
    hide Cong, ValidGroup, Answer, IsPower, Log;
    var q, l, z := d.order, Log(d, g), Answer(d.order, r, w, e);
    MemberIsPower(d, g);
    PowerExp(d, g, l, w);
    PowerExp(d, g, l, r);
    PowerExp(d, h, l * w, e);
    PowerMul(d, d.Exp(g, r), l * r, d.Exp(h, e), l * w * e);
    PowerExp(d, g, l, z);
    AnswerCong(q, r, w, e);
    CongScale(z, r + e * w, l, q);
    DistributeExponent(l, r, w, e);
    PowersEqual(d, d.Exp(g, z), l * z, d.mul(d.Exp(g, r), d.Exp(h, e)), l * r + l * w * e);
  }

  lemma DistributeExponent(l: int, r: int, w: int, e: int)
    ensures l * (r + e * w) == l * r + l * w * e
  {
    assert l * (r + e * w) == l * r + l * (e * w);
    assert l * (e * w) == l * (w * e) == l * w * e by { MulAssoc(l, w, e); }
  }

  /** Honest messages are accepted, for every sample, witness and challenge, negative ones included. */
  lemma Completeness<G(!new)>(d: DlogGroup<G>, input: CommonInput<G>, r: int, w: int, e: int)
    requires ValidGroup(d) && Members(d, input.gs) && Related(d, input, w)
    ensures Accepts(d, input, FirstMsg(d, input.gs, r), e, Answer(d.order, r, w, e))
  {
    forall i | 0 <= i < |input.gs|
      ensures Equation(d, input.gs[i], input.hs[i], FirstMsg(d, input.gs, r)[i], e, Answer(d.order, r, w, e))
    {
      CompleteEquation(d, input.gs[i], input.hs[i], r, w, e);
    }
  }

  lemma FirstMembers<G(!new)>(d: DlogGroup<G>, gs: seq<G>, r: int)
    requires ValidGroup(d) && Members(d, gs)
    ensures Members(d, FirstMsg(d, gs, r))
  {
    forall i | 0 <= i < |gs| ensures d.isMember(FirstMsg(d, gs, r)[i]) {
      LogExp(d, gs[i], r);
    }
  }

  // ---------- special soundness ----------

  lemma ExtractEquation<G(!new)>(d: DlogGroup<G>, g: G, h: G, a: G, e: int, z: int, e': int, z': int, u: int)
    requires ValidGroup(d) && d.isMember(g) && d.isMember(h) && d.isMember(a)
    requires Equation(d, g, h, a, e, z) && Equation(d, g, h, a, e', z')
    requires Cong((e - e') * u, 1, d.order)
    ensures h == d.Exp(g, (z - z') * u)
  {
    var q, l, m := d.order, Log(d, g), Log(d, h);
    EquationInExponents(d, g, h, a, e, z);
    EquationInExponents(d, g, h, a, e', z');
    DivideEquations(q, l, m, Log(d, a), e, z, e', z', u);
    MemberIsPower(d, g);
    MemberIsPower(d, h);
    PowerExp(d, g, l, (z - z') * u);
    PowersEqual(d, d.Exp(g, (z - z') * u), l * ((z - z') * u), h, m);
  }

  lemma DivideEquations(q: int, l: int, m: int, a: int, e: int, z: int, e': int, z': int, u: int)
    requires Cong(l * z, a + m * e, q) && Cong(l * z', a + m * e', q) && Cong((e - e') * u, 1, q)
    ensures Cong(l * ((z - z') * u), m, q)
  {
    CongSub(l * z, a + m * e, l * z', a + m * e', q);
    CongScale(l * z - l * z', m * e - m * e', u, q);
    CongScale((e - e') * u, 1, m, q);
    FactorDifference(l, z, z', u);
    FactorDifference(m, e, e', u);
    CongTrans(l * ((z - z') * u), m * ((e - e') * u), m, q);
  }

  lemma FactorDifference(l: int, z: int, z': int, u: int)
    ensures (l * z - l * z') * u == l * ((z - z') * u)
  {
    assert l * z - l * z' == l * (z - z');
    MulAssoc(l, z - z', u);
  }

  /** Two accepted answers to one first message give the witness, for every number of tuples, when the `h_i` are
      members, which verify does not test; without that there is no witness at all. */
  lemma Extractor<G(!new)>(d: DlogGroup<G>, input: CommonInput<G>, a: seq<G>, e: int, z: int, e': int, z': int)
      returns (w: int)
    requires ValidGroup(d) && Members(d, a)
    requires Accepts(d, input, a, e, z) && Accepts(d, input, a, e', z')
    requires e != e' && 0 - d.order < e - e' < d.order
    ensures Related(d, input, w) <==> Members(d, input.hs)
    ensures !Members(d, input.hs) ==> forall w' :: !Related(d, input, w')
  {
    NonZeroIsUnit(e - e', d.order);
    var u := InverseExists(e - e', d.order);
    w := (z - z') * u;
    forall w' | Related(d, input, w') ensures Members(d, input.hs) {
      RelatedMembers(d, input, w');
    }
    if Members(d, input.hs) {
      forall i | 0 <= i < |input.gs| ensures input.hs[i] == d.Exp(input.gs[i], w) {
        ExtractEquation(d, input.gs[i], input.hs[i], a[i], e, z, e', z', u);
      }
    }
  }

  lemma RelatedMembers<G(!new)>(d: DlogGroup<G>, input: CommonInput<G>, w: int)
    requires ValidGroup(d) && Members(d, input.gs) && Related(d, input, w)
    ensures Members(d, input.hs)
  {
    forall i | 0 <= i < |input.hs| ensures d.isMember(input.hs[i]) {
      LogExp(d, input.gs[i], w);
    }
  }

  /** Under the soundness check any two different challenges of `t/8` bytes suffice, so for a false statement
      about members every first message is accepted for at most one challenge. */
  lemma AtMostOneChallenge<G(!new)>(d: DlogGroup<G>, t: nat, input: CommonInput<G>, a: seq<G>,
                                    b: seq<Byte>, z: int, b': seq<Byte>, z': int)
    requires ValidGroup(d) && Members(d, a) && SoundnessValid(t, d.order)
    requires |b| == |b'| == t / 8 && b != []
    requires Accepts(d, input, a, DecodeBigInteger(b), z) && Accepts(d, input, a, DecodeBigInteger(b'), z')
    ensures b == b' || ((exists w :: Related(d, input, w)) <==> Members(d, input.hs))
  {
    if b != b' {
      DecodeInjective(b, b');
      ByteChallenges(t / 8, t);
      var w := Extractor(d, input, a, DecodeBigInteger(b), z, DecodeBigInteger(b'), z');
    }
  }

  /** Without membership the count of challenges is unbounded: against `h = p - g^w`, of which no power of `g` is a
      value, the messages for `g^w` are accepted exactly for the even challenges. */
  lemma UntestedTarget(p: nat, q: nat, g: int, w: nat, r: int, e: nat)
    requires SafePrime(p, q) && q % 2 == 1 && ValidateElement(p, q, g) && g != 1
    ensures var d, input := SafePrimeGroup(p, q, g), CommonInput([g], [p - PowMod(g, w, p)]);
            && (forall w' :: !Related(d, input, w'))
            && (Accepts(d, input, FirstMsg(d, [g], r), e, Answer(q, r, w, e)) <==> e % 2 == 0)
  {
    var d, h := SafePrimeGroup(p, q, g), PowMod(g, w, p);
    var input := CommonInput([g], [p - h]);
    forall w' ensures !Related(d, input, w') {
      NegatedTarget(p, q, g, w, w');
    }
    NegatedTranscript(p, q, g, h, w, r, e) by { PowerMember(p, q, g, w); ExpIsPowMod(p, q, g, g, w); }
    assert FirstMsg(d, [g], r) == [d.Exp(g, r)];
    hide Equation, Answer, IsPrime, ValidateElement;
    assert Members(d, [g]) by { assert d.isMember([g][0]); }
  }

  lemma NegatedTarget(p: nat, q: nat, g: int, w: nat, w': int)
    requires SafePrime(p, q) && q % 2 == 1 && ValidateElement(p, q, g) && g != 1
    ensures !Related(SafePrimeGroup(p, q, g), CommonInput([g], [p - PowMod(g, w, p)]), w')
  {
    var d, h := SafePrimeGroup(p, q, g), PowMod(g, w, p);
    PowerMember(p, q, g, w);
    NegationNotMember(p, q, h);
    SafePrimeGroupValid(p, q, g);
    hide ValidGroup, IsPrime, Cong, Pow, Related;
    LogExp(d, g, w');
    RelatedPair(d, g, p - h, w');
  }

  lemma RelatedPair<G(!new)>(d: DlogGroup<G>, g: G, h: G, w: int)
    ensures Related(d, CommonInput([g], [h]), w) <==> h == d.Exp(g, w)
  {
    var input := CommonInput([g], [h]);
    assert input.hs[0] == h && input.gs[0] == g;
  }

  lemma NegatedTranscript(p: nat, q: nat, g: int, h: int, w: nat, r: int, e: nat)
    requires SafePrime(p, q) && ValidateElement(p, q, g) && g != 1 && ValidateElement(p, q, h)
    requires h == SafePrimeGroup(p, q, g).ExpNat(g, w)
    ensures var d := SafePrimeGroup(p, q, g);
            Equation(d, g, p - h, d.Exp(g, r), e, Answer(q, r, w, e)) <==> e % 2 == 0
  {
    var d := SafePrimeGroup(p, q, g);
    SafePrimeGroupValid(p, q, g);
    hide ValidGroup, Cong, Pow, Answer, Equation;
    CompleteEquation(d, g, h, r, w, e);
    LogExp(d, g, r);
    NegatedEquation(p, q, g, h, d.Exp(g, r), e, Answer(q, r, w, e));
  }

  lemma NegatedEquation(p: nat, q: nat, g: int, h: int, a: int, e: nat, z: int)
    requires p > 2 && q > 0 && IsPrime(p) && ValidateElement(p, q, h) && ValidateElement(p, q, a)
    requires Equation(SafePrimeGroup(p, q, g), g, h, a, e, z)
    ensures Equation(SafePrimeGroup(p, q, g), g, p - h, a, e, z) <==> e % 2 == 0
  {
    hide Pow, IsPrime, Cong;
    ExpIsPowMod(p, q, g, h, e);
    ExpIsPowMod(p, q, g, p - h, e);
    PowerMember(p, q, h, e);
    MemberIffPower(p, q, a);
    CoprimeFromPower(p, q, a);
    NegatedFactor(p, a, h, e);
    PowerInRange(p, q, h, e);
    if e % 2 == 1 {
      NegationDiffers(p, a, PowMod(h, e, p));
    }
  }

  lemma NegatedFactor(p: nat, a: int, h: int, e: nat)
    requires p > 0
    ensures e % 2 == 0 ==> PowMod(p - h, e, p) == PowMod(h, e, p)
    ensures e % 2 == 1 ==> MulMod(p, a, PowMod(p - h, e, p)) == MulMod(p, a, -PowMod(h, e, p))
  {
    CongFromQuotient(p - h, -1 * h, p, 1);
    PowCong(p - h, -1 * h, e, p);
    PowMul(-1, h, e);
    MinusOneOdd(e / 2);
    CongIffMod(Pow(p - h, e), Pow(-1 * h, e), p);
    if e % 2 == 1 {
      var u, v := PowMod(p - h, e, p), PowMod(h, e, p);
      PowModCong(p - h, e, p);
      CongTrans(u, Pow(p - h, e), -1 * Pow(h, e), p);
      PowModCong(h, e, p);
      CongSym(v, Pow(h, e), p);
      CongScale(Pow(h, e), v, -1, p);
      CongTrans(u, -1 * Pow(h, e), -1 * v, p);
      CongScale(u, -1 * v, a, p);
      CongIffMod(a * u, a * (-1 * v), p);
      assert -1 * v == -v;
    }
  }

  lemma NegationDiffers(p: nat, a: int, v: int)
    requires p > 2 && IsPrime(p) && Coprime(a, p) && 1 <= v < p
    ensures MulMod(p, a, -v) != MulMod(p, a, v)
  {
    if MulMod(p, a, -v) == MulMod(p, a, v) {
      CongIffMod(a * -v, a * v, p);
      CongCancel(a, -v, v, p);
      var k := CongQuotient(-v, v, p);
      CongFromQuotient(2 * v, 0, p, -k);
      PrimeCoprimeSmall(2, p);
      EuclidLemma(2, v, p);
      CongSmall(v, 0, p);
    }
  }

  // ---------- simulation ----------

  lemma SimulatedPower<G(!new)>(d: DlogGroup<G>, g: G, h: G, l: int, m: int, e: int, z: int)
    requires ValidGroup(d) && IsPower(d, g, l) && IsPower(d, h, m)
    ensures IsPower(d, d.mul(d.Exp(g, z), d.Exp(h, d.order - e)), l * z - m * e)
  {
    var q := d.order;
    PowerExp(d, g, l, z);
    PowerExp(d, h, m, q - e);
    PowerMul(d, d.Exp(g, z), l * z, d.Exp(h, q - e), m * (q - e));
    OrderMinus(l * z, m, e, q);
    PowerCong(d, d.mul(d.Exp(g, z), d.Exp(h, q - e)), l * z + m * (q - e), l * z - m * e);
  }

  lemma OrderMinus(x: int, m: int, e: int, q: int)
    ensures Cong(x + m * (q - e), x - m * e, q)
  {
    assert m * (q - e) == m * q - m * e;
    CongFromQuotient(x + m * (q - e), x - m * e, q, m);
  }

  /** The simulated first message is accepted with its answer, whether or not the statement is true. */
  lemma SimulationAccepted<G(!new)>(d: DlogGroup<G>, input: CommonInput<G>, e: int, z: int)
    requires ValidGroup(d) && |input.gs| == |input.hs| && Members(d, input.gs) && Members(d, input.hs)
    ensures Accepts(d, input, SimulatedFirst(d, input, e, z), e, z)
    ensures Members(d, SimulatedFirst(d, input, e, z))
  {
    var a := SimulatedFirst(d, input, e, z);
    forall i | 0 <= i < |input.gs|
      ensures Equation(d, input.gs[i], input.hs[i], a[i], e, z) && d.isMember(a[i])
    {
      SimulatedEquation(d, input.gs[i], input.hs[i], e, z);
    }
  }

  lemma SimulatedEquation<G(!new)>(d: DlogGroup<G>, g: G, h: G, e: int, z: int)
    requires ValidGroup(d) && d.isMember(g) && d.isMember(h)
    ensures var a := d.mul(d.Exp(g, z), d.Exp(h, d.order - e));
            Equation(d, g, h, a, e, z) && d.isMember(a)
  {
    var l, m := Log(d, g), Log(d, h);
    MemberIsPower(d, g);
    MemberIsPower(d, h);
    SimulatedPower(d, g, h, l, m, e, z);
    var a := d.mul(d.Exp(g, z), d.Exp(h, d.order - e));
    PowerExp(d, g, l, z);
    PowerExp(d, h, m, e);
    PowerMul(d, a, l * z - m * e, d.Exp(h, e), m * e);
    CongRefl(l * z, d.order);
    PowersEqual(d, d.Exp(g, z), l * z, d.mul(a, d.Exp(h, e)), l * z);
  }

  /** The sample that makes the prover give the simulated answer. */
  function MatchingSample(q: nat, w: int, e: int, z: int): (r: nat)
    requires q > 0
    ensures r < q
  {
    (z - e * w) % q
  }

  /** For a true statement, the simulated transcript with answer `z` has the first message of exactly one sample.
      The prover gives that answer from that sample exactly when the inner sum is not negative, and from no other. */
  lemma SimulatorMatchesProver<G(!new)>(d: DlogGroup<G>, input: CommonInput<G>, w: int, e: int, z: nat)
    requires ValidGroup(d) && Members(d, input.gs) && Related(d, input, w) && z < d.order
    ensures var r := MatchingSample(d.order, w, e, z);
            && SimulatedFirst(d, input, e, z) == FirstMsg(d, input.gs, r)
            && (Answer(d.order, r, w, e) == z <==> r + TruncatedRemainder(e * w, d.order) >= 0)
            && forall y: nat :: y < d.order && Answer(d.order, y, w, e) == z ==> y == r
  {
    var q, r := d.order, MatchingSample(d.order, w, e, z);
    SampleCong(q, w, e, z);
    forall y: nat | y < q && Answer(q, y, w, e) == z ensures y == r {
      SampleUnique(q, y, w, e, z);
    }
    SampleAnswersIff(q, w, e, z);
    forall i | 0 <= i < |input.gs|
      ensures SimulatedFirst(d, input, e, z)[i] == FirstMsg(d, input.gs, r)[i]
    {
      SameFirst(d, input.gs[i], input.hs[i], w, e, z, r);
    }
  }

  /** Some sample makes the prover answer `z`. */
  ghost predicate Answered(q: nat, w: int, e: int, z: int)
    requires q > 0
  {
    exists y: nat :: y < q && Answer(q, y, w, e) == z
  }

  /** So the prover's answers are those of the simulator, the residues below `q`, exactly when the reduced `ew` is
      not negative. */
  lemma SameAnswersIff(q: nat, w: int, e: int)
    requires q > 0
    ensures (forall z: nat :: z < q ==> Answered(q, w, e, z)) <==> TruncatedRemainder(e * w, q) >= 0
  {
    var k := TruncatedRemainder(e * w, q);
    if k >= 0 {
      forall z: nat | z < q ensures Answered(q, w, e, z) {
        SampleAnswersIff(q, w, e, z);
        assert Answer(q, MatchingSample(q, w, e, z), w, e) == z;
      }
    } else {
      MissedAnswer(q, w, e);
      assert !Answered(q, w, e, (e * w) % q);
    }
  }

  /** When the reduced `ew` is negative, no sample gives the answer `ew mod q`. */
  lemma MissedAnswer(q: nat, w: int, e: int)
    requires q > 0 && TruncatedRemainder(e * w, q) < 0
    ensures 0 <= (e * w) % q < q && !Answered(q, w, e, (e * w) % q)
  {
    var z := (e * w) % q;
    CongMod(e * w, q);
    CongRefl(e * w, q);
    CongSub(z, e * w, e * w, e * w, q);
    CongIffMod(z - e * w, 0, q);
    SampleAnswersIff(q, w, e, z);
    forall y: nat | y < q && Answer(q, y, w, e) == z ensures false {
      SampleUnique(q, y, w, e, z);
    }
  }

  /** For instance with witness one and challenge minus one no sample gives the answer `q - 1`. */
  lemma MinusOneMissed(q: nat)
    requires q > 1
    ensures !Answered(q, 1, -1, q - 1)
  {
    assert 1 % q == 1;
    assert (-1) % q == q - 1;
    MissedAnswer(q, 1, -1);
  }

  lemma SampleCong(q: nat, w: int, e: int, z: int)
    requires q > 0
    ensures Cong(MatchingSample(q, w, e, z), z - e * w, q)
  {
    CongMod(z - e * w, q);
  }

  lemma SampleAnswersIff(q: nat, w: int, e: int, z: nat)
    requires z < q
    ensures var r := MatchingSample(q, w, e, z);
            Answer(q, r, w, e) == z <==> r + TruncatedRemainder(e * w, q) >= 0
  {
    var r := MatchingSample(q, w, e, z);
    SampleCong(q, w, e, z);
    AnswerIsResidue(q, r, w, e);
    ShiftBack(r, z, e * w, q);
  }

  lemma SampleUnique(q: nat, y: nat, w: int, e: int, z: nat)
    requires 0 < q && y < q && Answer(q, y, w, e) == z
    ensures y == MatchingSample(q, w, e, z)
  {
    AnswerCong(q, y, w, e);
    ShiftForward(y, z, e * w, q);
  }

  lemma FirstExponent(l: int, z: int, w: int, e: int, r: int, q: int)
    requires Cong(r, z - e * w, q)
    ensures Cong(l * z - l * w * e, l * r, q)
  {
    CongScale(r, z - e * w, l, q);
    assert l * (z - e * w) == l * z - l * (e * w);
    assert l * (e * w) == l * (w * e) == l * w * e by { MulAssoc(l, w, e); }
    CongSym(l * r, l * (z - e * w), q);
  }

  lemma SameFirst<G(!new)>(d: DlogGroup<G>, g: G, h: G, w: int, e: int, z: int, r: int)
    requires ValidGroup(d) && d.isMember(g) && h == d.Exp(g, w) && Cong(r, z - e * w, d.order)
    ensures d.mul(d.Exp(g, z), d.Exp(h, d.order - e)) == d.Exp(g, r)
  {
    var l, q := Log(d, g), d.order;
    MemberIsPower(d, g);
    PowerExp(d, g, l, w);
    SimulatedPower(d, g, h, l, l * w, e, z);
    PowerExp(d, g, l, r);
    FirstExponent(l, z, w, e, r, q);
    PowersEqual(d, d.mul(d.Exp(g, z), d.Exp(h, q - e)), l * z - l * w * e, d.Exp(g, r), l * r);
  }

  // ---------- the objects ----------

  /** The decision of a verifier: wrong sizes and non-members in the first message throw. */
  function Decide<G(==)>(d: DlogGroup<G>, input: CommonInput<G>, a: seq<G>, e: int, z: int): Outcome<bool>
    requires |a| >= |input.gs|
  {
    if |input.gs| != |input.hs| || !Members(d, a[..|input.gs|]) then Threw(InvalidArgument)
    else Returned(Members(d, input.gs) && forall i :: 0 <= i < |input.gs| ==>
      Equation(d, input.gs[i], input.hs[i], a[i], e, z))
  }

  class Prover<G> {
    const d: DlogGroup<G>
    const t: nat
    var input: CommonInput<G>
    var w: int
    var r: int

    constructor (d: DlogGroup<G>, t: nat)
      requires SoundnessValid(t, d.order)
      ensures this.d == d && this.t == t
    {
      this.d, this.t := d, t;
      input, w, r := CommonInput([], []), 0, 0;
    }

    /** The throwing constructor: `2^t < q` is demanded. */
    static method Create(d: DlogGroup<G>, t: nat) returns (o: Outcome<Prover<G>>)
      ensures o.Returned? <==> SoundnessValid(t, d.order)
      ensures o.Returned? ==> fresh(o.value) && o.value.d == d && o.value.t == t
      ensures o.Threw? ==> o.error == InvalidArgument
    {
      if !SoundnessValid(t, d.order) {
        return Threw(InvalidArgument);
      }
      var x := new Prover(d, t);
      return Returned(x);
    }

    /** Refuses arrays of different sizes; otherwise keeps the sample and sends `g_i^r`. */
    method ComputeFirstMsg(common: CommonInput<G>, secret: int, sample: nat) returns (a: Outcome<seq<G>>)
      requires sample < d.order
      modifies this
      ensures input == common && w == secret
      ensures if |common.gs| == |common.hs|
              then r == sample && a == Returned(FirstMsg(d, common.gs, sample))
              else r == old(r) && a == Threw(InvalidArgument)
    {
      input, w := common, secret;
      if |common.gs| != |common.hs| {
        return Threw(InvalidArgument);
      }
      r := sample;
      var aArray := [];
      for i := 0 to |common.gs|
        invariant aArray == FirstMsg(d, common.gs, sample)[..i]
      {
        aArray := aArray + [d.Exp(common.gs[i], r)];
      }
      assert aArray == FirstMsg(d, common.gs, sample);
      return Returned(aArray);
    }

    /** Answers and erases the sample. */
    method ComputeSecondMsg(challenge: seq<Byte>) returns (z: Outcome<int>)
      requires d.order > 0 && challenge != []
      modifies this
      ensures input == old(input) && w == old(w)
      ensures if |challenge| == t / 8
              then r == 0 && z == Returned(Answer(d.order, old(r), w, DecodeBigInteger(challenge)))
              else r == old(r) && z == Threw(CheatAttempt)
    {
      if |challenge| != t / 8 {
        return Threw(CheatAttempt);
      }
      var q, e := d.order, DecodeBigInteger(challenge);
      var ew := TruncatedRemainder(e * w, q);
      var answer := TruncatedRemainder(r + ew, q);
      r := 0;
      return Returned(answer);
    }
  }

  class Verifier<G(==)> {
    const d: DlogGroup<G>
    const t: nat
    var e: seq<Byte>

    constructor (d: DlogGroup<G>, t: nat)
      requires SoundnessValid(t, d.order)
      ensures this.d == d && this.t == t && e == []
    {
      this.d, this.t := d, t;
      e := [];
    }

    /** The throwing constructor: `2^t < q` is demanded. */
    static method Create(d: DlogGroup<G>, t: nat) returns (o: Outcome<Verifier<G>>)
      ensures o.Returned? <==> SoundnessValid(t, d.order)
      ensures o.Returned? ==> fresh(o.value) && o.value.d == d && o.value.t == t
      ensures o.Threw? ==> o.error == InvalidArgument
    {
      if !SoundnessValid(t, d.order) {
        return Threw(InvalidArgument);
      }
      var x := new Verifier(d, t);
      return Returned(x);
    }

    method SetChallenge(challenge: seq<Byte>)
      modifies this
      ensures e == challenge
    {
      e := challenge;
    }

    /** The decision on the challenge it holds. */
    function Decision(input: CommonInput<G>, a: seq<G>, z: int): Outcome<bool>
      requires e != [] && |a| >= |input.gs|
      reads this
    {
      Decide(d, input, a, DecodeBigInteger(e), z)
    }

    method Verify(input: CommonInput<G>, a: seq<G>, z: int) returns (ok: Outcome<bool>)
      requires e != [] && |a| >= |input.gs|
      modifies this
      ensures ok == old(Decision(input, a, z))
      ensures e == if ok.Returned? then [] else old(e)
    {
      hide DecodeBigInteger;
      if |input.gs| != |input.hs| {
        return Threw(InvalidArgument);
      }
      var n, verified := |input.gs|, true;
      for i := 0 to n
        invariant verified <==> Members(d, input.gs[..i])
      {
        verified := verified && d.isMember(input.gs[i]);
      }
      var eBI := DecodeBigInteger(e);
      for i := 0 to n
        invariant e == old(e) && Members(d, a[..i])
        invariant verified <==> Members(d, input.gs[..n]) && forall k :: 0 <= k < i ==>
          Equation(d, input.gs[k], input.hs[k], a[k], eBI, z)
      {
        var left := d.Exp(input.gs[i], z);
        var hToE := d.Exp(input.hs[i], eBI);
        if !d.isMember(a[i]) {
          return Threw(InvalidArgument);
        }
        verified := verified && left == d.mul(a[i], hToE);
      }
      e := [];
      return Returned(verified);
    }
  }

  /** The verifier's decision is the documented condition. */
  lemma DecisionIsDocumented<G(!new)>(v: Verifier<G>, input: CommonInput<G>, a: seq<G>, z: int)
    requires v.e != [] && |a| == |input.gs|
    ensures v.Decision(input, a, z) == Returned(true) <==>
            Members(v.d, a) && Accepts(v.d, input, a, DecodeBigInteger(v.e), z)
  {
    assert a[..|input.gs|] == a;
  }
}
