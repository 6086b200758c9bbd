/** Oblivious transfer with privacy only: one message each way, both sides checked. */
module ObliviousTransferPrivacyOnly {
  import opened Outcomes
  import opened Congruence
  import opened DlogGroups
  import opened ObliviousTransferRand
  import opened ObliviousTransferMessages
  import opened Challenges
  import opened PedersenCommitment
  import DH = SigmaDHExtended
  import FullSim = ObliviousTransferFullSim
  import ZK = ZeroKnowledge

  datatype Tuple<G> = Tuple(x: G, y: G, z0: G, z1: G)

  /** `(g^alpha, g^beta, g^(alpha*beta), g^gamma)`, the last two ordered by `sigma`. */
  function ReceiverTuple<G>(d: DlogGroup<G>, sigma: nat, alpha: int, beta: int, gamma: int): Outcome<Tuple<G>> {
    if sigma > 1 then Threw(InvalidArgument)
    else
      var gAlpha, gBeta := d.Exp(d.generator, alpha), d.Exp(d.generator, beta);
      var gGamma, gAlphaBeta := d.Exp(d.generator, gamma), d.Exp(d.generator, alpha * beta);
      if sigma == 0 then Returned(Tuple(gAlpha, gBeta, gAlphaBeta, gGamma))
      else Returned(Tuple(gAlpha, gBeta, gGamma, gAlphaBeta))
  }

  /** The sender's check of the received tuple. */
  predicate Admissible<G(==)>(d: DlogGroup<G>, a: Tuple<G>) {
    AllMembers(d, a.x, a.y, a.z0, a.z1) && a.z0 != a.z1
  }

  /** `(w_i, k_i)` with `w_i = x^u_i * g^v_i` and `k_i = z_i^u_i * y^v_i`. */
  function Pad<G>(d: DlogGroup<G>, a: Tuple<G>, z: G, u: int, v: int): (G, G) {
    Rand(d, a.x, z, d.generator, a.y, u, v)
  }

  function SendElements<G(==)>(d: DlogGroup<G>, a: Tuple<G>, x0: G, x1: G, k: FullSim.Coins)
      : Outcome<SenderMsg<G, G>>
  {
    if !Admissible(d, a) then Threw(CheatAttempt)
    else
      var p0, p1 := Pad(d, a, a.z0, k.s0, k.t0), Pad(d, a, a.z1, k.s1, k.t1);
      Returned(SenderMsg(p0.0, d.mul(x0, p0.1), p1.0, d.mul(x1, p1.1)))
  }

  function ReceiveElement<G>(d: DlogGroup<G>, sigma: nat, beta: int, m: SenderMsg<G, G>): Outcome<G> {
    if !AllMembers(d, m.w0, m.w1, m.c0, m.c1) then Threw(CheatAttempt)
    else if sigma == 0 then Returned(d.mul(m.c0, d.Exp(m.w0, d.order - beta)))
    else Returned(d.mul(m.c1, d.Exp(m.w1, d.order - beta)))
  }

  lemma TuplePowers<G(!new)>(d: DlogGroup<G>, alpha: int, beta: int, gamma: int)
    requires ValidGroup(d)
    ensures IsPower(d, d.Exp(d.generator, alpha), alpha) && IsPower(d, d.Exp(d.generator, beta), beta)
    ensures IsPower(d, d.Exp(d.generator, gamma), gamma)
    ensures IsPower(d, d.Exp(d.generator, alpha * beta), alpha * beta)
    ensures d.Exp(d.Exp(d.generator, alpha), beta) == d.Exp(d.generator, alpha * beta)
  {
    GeneratorExp(d, alpha);
    GeneratorExp(d, beta);
    GeneratorExp(d, gamma);
    GeneratorExp(d, alpha * beta);
    PowerExp(d, d.Exp(d.generator, alpha), alpha, beta);
    CongRefl(alpha * beta, d.order);
    PowersEqual(d, d.Exp(d.Exp(d.generator, alpha), beta), alpha * beta, d.Exp(d.generator, alpha * beta),
                alpha * beta);
  }

  /** The exponents of the tuple: `alpha * beta` stands in the chosen place and `gamma` in the other. */
  lemma HonestTuple<G(!new)>(d: DlogGroup<G>, sigma: nat, alpha: int, beta: int, gamma: int)
    requires ValidGroup(d)
    ensures sigma > 1 ==> ReceiverTuple(d, sigma, alpha, beta, gamma) == Threw(InvalidArgument)
    ensures sigma <= 1 ==>
      var a := ReceiverTuple(d, sigma, alpha, beta, gamma).value;
      && IsPower(d, a.x, alpha) && IsPower(d, a.y, beta)
      && IsPower(d, if sigma == 0 then a.z0 else a.z1, alpha * beta)
      && IsPower(d, if sigma == 0 then a.z1 else a.z0, gamma)
  {
    TuplePowers(d, alpha, beta, gamma);
  }

  /** The sender accepts an honest tuple exactly when `gamma` differs from `alpha * beta` modulo the order. */
  lemma HonestAdmissible<G(!new)>(d: DlogGroup<G>, sigma: nat, alpha: int, beta: int, gamma: int)
    requires ValidGroup(d) && sigma <= 1
    ensures Admissible(d, ReceiverTuple(d, sigma, alpha, beta, gamma).value) <==> !Cong(gamma, alpha * beta, d.order)
  {
    TuplePowers(d, alpha, beta, gamma);
    PowersEqual(d, d.Exp(d.generator, gamma), gamma, d.Exp(d.generator, alpha * beta), alpha * beta);
  }

  lemma HonestChosen<G(!new)>(d: DlogGroup<G>, sigma: nat, alpha: int, beta: int, gamma: int)
    requires ValidGroup(d) && sigma <= 1
    ensures var a := ReceiverTuple(d, sigma, alpha, beta, gamma).value;
            Chosen(d, a.x, if sigma == 0 then a.z0 else a.z1, d.generator, a.y, beta)
  {
    TuplePowers(d, alpha, beta, gamma);
  }

  /** A whole transfer, for all inputs and coins: the chosen input, or a refusal when `gamma = alpha * beta`. */
  lemma Transfer<G(!new)>(d: DlogGroup<G>, sigma: nat, alpha: int, beta: int, gamma: int, x0: G, x1: G,
                          k: FullSim.Coins)
    requires ValidGroup(d) && sigma <= 1 && d.isMember(x0) && d.isMember(x1)
    ensures var a := ReceiverTuple(d, sigma, alpha, beta, gamma).value;
            var m := SendElements(d, a, x0, x1, k);
            if Cong(gamma, alpha * beta, d.order) then m == Threw(CheatAttempt)
            else m.Returned? && ReceiveElement(d, sigma, beta, m.value) == Returned(if sigma == 0 then x0 else x1)
  {
    hide Cong, ValidGroup, Rand;
    LogGenerator(d);
    var a := ReceiverTuple(d, sigma, alpha, beta, gamma).value;
    HonestAdmissible(d, sigma, alpha, beta, gamma);
    if Admissible(d, a) {
      HonestChosen(d, sigma, alpha, beta, gamma);
      FullSim.BranchMembers(d, a.x, a.z0, d.generator, a.y, k.s0, k.t0, x0);
      FullSim.BranchMembers(d, a.x, a.z1, d.generator, a.y, k.s1, k.t1, x1);
      if sigma == 0 {
        FullSim.BranchDelivers(d, a.x, a.z0, d.generator, a.y, beta, k.s0, k.t0, x0);
      } else {
        FullSim.BranchDelivers(d, a.x, a.z1, d.generator, a.y, beta, k.s1, k.t1, x1);
      }
    }
  }

  // ---------- byte arrays ----------

  function SendBytes<G(==, !new)>(d: DlogGroup<G>, kdf: FullSim.Kdf<G>, a: Tuple<G>, x0: Bytes, x1: Bytes,
                                  k: FullSim.Coins)
      : Outcome<SenderMsg<G, Bytes>>
    requires FullSim.ValidKdf(kdf)
  {
    if !Admissible(d, a) then Threw(CheatAttempt)
    else if |x0| != |x1| then Threw(InvalidArgument)
    else
      var p0, p1 := Pad(d, a, a.z0, k.s0, k.t0), Pad(d, a, a.z1, k.s1, k.t1);
      Returned(SenderMsg(p0.0, FullSim.Xor(kdf.derive(p0.1, |x0|), x0), p1.0, FullSim.Xor(kdf.derive(p1.1, |x0|), x1)))
  }

  function ReceiveBytes<G(!new)>(d: DlogGroup<G>, kdf: FullSim.Kdf<G>, sigma: nat, beta: int,
                                 m: SenderMsg<G, Bytes>): Outcome<Bytes>
    requires FullSim.ValidKdf(kdf)
  {
    if !(d.isMember(m.w0) && d.isMember(m.w1)) || |m.c0| != |m.c1| then Threw(CheatAttempt)
    else if sigma == 0 then Returned(FullSim.Xor(m.c0, kdf.derive(d.Exp(m.w0, beta), |m.c0|)))
    else Returned(FullSim.Xor(m.c1, kdf.derive(d.Exp(m.w1, beta), |m.c0|)))
  }

  /** The receiver's side, from the text that arrives. */
  function ReceiveRow<G(!new)>(d: DlogGroup<G>, codec: Codec<G>, kdf: FullSim.Kdf<G>, sigma: nat, beta: int,
                               row: string): Outcome<Bytes>
    requires FullSim.ValidKdf(kdf)
  {
    var m :- ReadBytes(codec, row);
    ReceiveBytes(d, kdf, sigma, beta, m)
  }

  /** Both receivers against any sender: a message with an element outside the group, or arrays of different lengths, is
      a cheat; from any other the receiver takes the one input that its branch masks. */
  lemma ReceiverTakes<G(!new)>(d: DlogGroup<G>, sigma: nat, beta: int, m: SenderMsg<G, G>, x: G)
    requires ValidGroup(d) && d.isMember(x)
    ensures !AllMembers(d, m.w0, m.w1, m.c0, m.c1) ==> ReceiveElement(d, sigma, beta, m) == Threw(CheatAttempt)
    ensures AllMembers(d, m.w0, m.w1, m.c0, m.c1) ==>
      var w, c := if sigma == 0 then m.w0 else m.w1, if sigma == 0 then m.c0 else m.c1;
      && ReceiveElement(d, sigma, beta, m).Returned? && d.isMember(ReceiveElement(d, sigma, beta, m).value)
      && (ReceiveElement(d, sigma, beta, m) == Returned(x) <==> d.mul(x, d.Exp(w, beta)) == c)
  {
    hide ValidGroup;
    if AllMembers(d, m.w0, m.w1, m.c0, m.c1) {
      FullSim.UnmaskIff(d, m.w0, m.c0, beta, x);
      FullSim.UnmaskIff(d, m.w1, m.c1, beta, x);
    }
  }

  lemma ReceiverTakesBytes<G(!new)>(d: DlogGroup<G>, kdf: FullSim.Kdf<G>, sigma: nat, beta: int,
                                    m: SenderMsg<G, Bytes>, x: Bytes)
    requires FullSim.ValidKdf(kdf)
    ensures !(d.isMember(m.w0) && d.isMember(m.w1)) || |m.c0| != |m.c1| ==>
      ReceiveBytes(d, kdf, sigma, beta, m) == Threw(CheatAttempt)
    ensures d.isMember(m.w0) && d.isMember(m.w1) && |m.c0| == |m.c1| ==>
      var w, c := if sigma == 0 then m.w0 else m.w1, if sigma == 0 then m.c0 else m.c1;
      && ReceiveBytes(d, kdf, sigma, beta, m).Returned?
      && (ReceiveBytes(d, kdf, sigma, beta, m) == Returned(x) <==>
          |x| == |c| && FullSim.Xor(kdf.derive(d.Exp(w, beta), |c|), x) == c)
  {
    if |m.c0| == |m.c1| {
      FullSim.UnmaskBytesIff(kdf.derive(d.Exp(m.w0, beta), |m.c0|), m.c0, x);
      FullSim.UnmaskBytesIff(kdf.derive(d.Exp(m.w1, beta), |m.c0|), m.c1, x);
    }
  }

  /** One branch, unmasked by the receiver that chose it. */
  lemma BranchUnmasks<G(!new)>(d: DlogGroup<G>, kdf: FullSim.Kdf<G>, a: Tuple<G>, z: G, beta: int, u: int, v: int,
                               x: Bytes)
    requires ValidGroup(d) && FullSim.ValidKdf(kdf) && AllMembers(d, a.x, z, d.generator, a.y)
    ensures var p := Pad(d, a, z, u, v);
            && d.isMember(p.0)
            && (Chosen(d, a.x, z, d.generator, a.y, beta) ==>
                  FullSim.Xor(FullSim.Xor(kdf.derive(p.1, |x|), x), kdf.derive(d.Exp(p.0, beta), |x|)) == x)
  {
    var p := Pad(d, a, z, u, v);
    FullSim.PadMembers(d, a.x, z, d.generator, a.y, u, v);
    FullSim.XorTwice(kdf.derive(p.1, |x|), x);
    if Chosen(d, a.x, z, d.generator, a.y, beta) {
      ChosenRevealed(d, a.x, z, d.generator, a.y, beta, u, v);
    }
  }

  /** A whole transfer of byte arrays: refused when `gamma = alpha * beta` or the lengths differ, and otherwise
      delivered exactly when both masked inputs survive the text. */
  lemma TransferBytes<G(!new)>(d: DlogGroup<G>, codec: Codec<G>, kdf: FullSim.Kdf<G>, sigma: nat, alpha: int, beta: int,
                               gamma: int, x0: Bytes, x1: Bytes, k: FullSim.Coins)
    requires ValidGroup(d) && ValidCodec(d, codec) && FullSim.ValidKdf(kdf) && sigma <= 1
    ensures var a := ReceiverTuple(d, sigma, alpha, beta, gamma).value;
            var m := SendBytes(d, kdf, a, x0, x1, k);
            && (Cong(gamma, alpha * beta, d.order) ==> m == Threw(CheatAttempt))
            && (!Cong(gamma, alpha * beta, d.order) && |x0| != |x1| ==> m == Threw(InvalidArgument))
            && (!Cong(gamma, alpha * beta, d.order) && |x0| == |x1| ==> m.Returned?)
            && (!Cong(gamma, alpha * beta, d.order) && |x0| == |x1| ==>
                  (ReceiveRow(d, codec, kdf, sigma, beta, PrintBytes(codec, m.value)) ==
                   Returned(if sigma == 0 then x0 else x1) <==>
                   Printable(m.value.c0) && Printable(m.value.c1)))
  {
    hide Cong, ValidGroup, ValidCodec, ReadBytes, PrintBytes, Printable, Pad;
    LogGenerator(d);
    var a := ReceiverTuple(d, sigma, alpha, beta, gamma).value;
    HonestAdmissible(d, sigma, alpha, beta, gamma);
    if Admissible(d, a) && |x0| == |x1| {
      HonestChosen(d, sigma, alpha, beta, gamma);
      BranchUnmasks(d, kdf, a, a.z0, beta, k.s0, k.t0, x0);
      BranchUnmasks(d, kdf, a, a.z1, beta, k.s1, k.t1, x1);
      BytesRoundTrip(d, codec, SendBytes(d, kdf, a, x0, x1, k).value);
    }
  }

  // ---------- sender privacy ----------

  /** Every tuple the sender accepts leaves at least one of the two inputs perfectly hidden. */
  lemma SomeBranchHidden<G(!new)>(d: DlogGroup<G>, a: Tuple<G>)
    requires ValidGroup(d) && Admissible(d, a)
    ensures Hides(d, a.x, a.z0, d.generator, a.y) || Hides(d, a.x, a.z1, d.generator, a.y)
  {
    HidesIffNotChosen(d, a.x, a.z0, d.generator, a.y);
    HidesIffNotChosen(d, a.x, a.z1, d.generator, a.y);
    if r, r' :| Chosen(d, a.x, a.z0, d.generator, a.y, r) && Chosen(d, a.x, a.z1, d.generator, a.y, r') {
      SameExponentSamePower(d, a.x, r, r');
    }
  }

  /** Against any receiver: a tuple is refused, or leaves an input hidden. */
  lemma AnyTuple<G(!new)>(d: DlogGroup<G>, kdf: FullSim.Kdf<G>, a: Tuple<G>, x0: G, x1: G, b0: Bytes, b1: Bytes,
                          k: FullSim.Coins)
    requires ValidGroup(d) && FullSim.ValidKdf(kdf)
    ensures SendElements(d, a, x0, x1, k).Returned? || SendBytes(d, kdf, a, b0, b1, k).Returned? ==>
            Hides(d, a.x, a.z0, d.generator, a.y) || Hides(d, a.x, a.z1, d.generator, a.y)
    ensures SendElements(d, a, x0, x1, k).Threw? ==> SendElements(d, a, x0, x1, k).error == CheatAttempt
  {
    hide ValidGroup, Hides, Pad, FullSim.Xor;
    if Admissible(d, a) {
      SomeBranchHidden(d, a);
    }
  }

  /** So the message of one branch is uniform on `G x G`, whatever its input. */
  lemma SomeBranchUniform<G(!new)>(d: DlogGroup<G>, a: Tuple<G>)
    requires ValidGroup(d) && Admissible(d, a)
    ensures FullSim.Uniform(d, a.x, a.z0, d.generator, a.y) || FullSim.Uniform(d, a.x, a.z1, d.generator, a.y)
  {
    SomeBranchHidden(d, a);
    FullSim.IdentityMember(d);
    if Hides(d, a.x, a.z0, d.generator, a.y) {
      FullSim.HiddenIsUniform(d, a.x, a.z0, d.generator, a.y);
    } else {
      FullSim.HiddenIsUniform(d, a.x, a.z1, d.generator, a.y);
    }
  }

  /** With a branch hidden, the same message could have carried any other input there, under other coins. */
  lemma OtherInput<G(!new)>(d: DlogGroup<G>, a: Tuple<G>, first: bool, x0: G, x1: G, x: G, k: FullSim.Coins)
      returns (k': FullSim.Coins)
    requires ValidGroup(d) && Admissible(d, a) && d.isMember(x0) && d.isMember(x1) && d.isMember(x)
    requires Hides(d, a.x, if first then a.z0 else a.z1, d.generator, a.y)
    ensures SendElements(d, a, if first then x else x0, if first then x1 else x, k') == SendElements(d, a, x0, x1, k)
  {
    hide ValidGroup, Rand, Hides;
    LogGenerator(d);
    if first {
      var s, t := FullSim.OtherBranchInput(d, a.x, a.z0, d.generator, a.y, k.s0, k.t0, x0, x);
      k' := k.(s0 := s, t0 := t);
    } else {
      var s, t := FullSim.OtherBranchInput(d, a.x, a.z1, d.generator, a.y, k.s1, k.t1, x1, x);
      k' := k.(s1 := s, t1 := t);
    }
  }

  /** The same for byte arrays, when some member `v` is derived to the mask that the other input needs. */
  lemma OtherBytes<G(!new)>(d: DlogGroup<G>, kdf: FullSim.Kdf<G>, a: Tuple<G>, first: bool, x0: Bytes, x1: Bytes,
                            x: Bytes, k: FullSim.Coins, v: G) returns (k': FullSim.Coins)
    requires ValidGroup(d) && FullSim.ValidKdf(kdf) && Admissible(d, a) && |x0| == |x1| == |x| && d.isMember(v)
    requires Hides(d, a.x, if first then a.z0 else a.z1, d.generator, a.y)
    requires var m := SendBytes(d, kdf, a, x0, x1, k).value;
             kdf.derive(v, |x|) == FullSim.Xor(if first then m.c0 else m.c1, x)
    ensures SendBytes(d, kdf, a, if first then x else x0, if first then x1 else x, k') ==
            SendBytes(d, kdf, a, x0, x1, k)
  {
    hide ValidGroup, Rand, Hides;
    LogGenerator(d);
    var m := SendBytes(d, kdf, a, x0, x1, k).value;
    if first {
      var s, t := FullSim.PadReaches(d, a.x, a.z0, d.generator, a.y, k.s0, k.t0, v);
      k' := k.(s0 := s, t0 := t);
      FullSim.MaskSwap(kdf, v, x, m.c0);
    } else {
      var s, t := FullSim.PadReaches(d, a.x, a.z1, d.generator, a.y, k.s1, k.t1, v);
      k' := k.(s1 := s, t1 := t);
      FullSim.MaskSwap(kdf, v, x, m.c1);
    }
  }

  lemma SameExponentSamePower<G(!new)>(d: DlogGroup<G>, x: G, r: int, r': int)
    requires ValidGroup(d) && d.isMember(x) && d.Exp(d.generator, r) == d.Exp(d.generator, r')
    ensures d.Exp(x, r) == d.Exp(x, r')
  {
    GeneratorExp(d, r);
    GeneratorExp(d, r');
    PowersEqual(d, d.Exp(d.generator, r), r, d.Exp(d.generator, r'), r');
    MemberIsPower(d, x);
    PowerExp(d, x, Log(d, x), r);
    PowerExp(d, x, Log(d, x), r');
    CongScale(r, r', Log(d, x), d.order);
    PowersEqual(d, d.Exp(x, r), Log(d, x) * r, d.Exp(x, r'), Log(d, x) * r');
  }

  // ---------- the one-sided simulation ----------

  /** With the exponent of `x` known, a branch is hidden exactly when its `z` is not the corresponding power of `y`. */
  lemma HiddenIff<G(!new)>(d: DlogGroup<G>, a: Tuple<G>, z: G, alpha: int)
    requires ValidGroup(d) && AllMembers(d, a.x, a.y, z, z) && a.x == d.Exp(d.generator, alpha)
    ensures Hides(d, a.x, z, d.generator, a.y) <==> z != d.Exp(a.y, alpha)
  {
    hide ValidGroup, Hides;
    LogGenerator(d);
    HidesIffNotChosen(d, a.x, z, d.generator, a.y);
    var b := Log(d, a.y);
    MemberIsPower(d, a.y);
    GeneratorExp(d, b);
    CongRefl(b, d.order);
    PowersEqual(d, a.y, b, d.Exp(d.generator, b), b);
    if z == d.Exp(a.y, alpha) {
      PowersCommute(d, alpha, b);
      assert Chosen(d, a.x, z, d.generator, a.y, b);
    } else {
      forall r ensures !Chosen(d, a.x, z, d.generator, a.y, r) {
        PowersCommute(d, alpha, r);
      }
    }
  }

  lemma PowersCommute<G(!new)>(d: DlogGroup<G>, i: int, j: int)
    requires ValidGroup(d)
    ensures d.Exp(d.Exp(d.generator, i), j) == d.Exp(d.Exp(d.generator, j), i)
  {
    GeneratorExp(d, i);
    GeneratorExp(d, j);
    PowerExp(d, d.Exp(d.generator, i), i, j);
    PowerExp(d, d.Exp(d.generator, j), j, i);
    assert i * j == j * i;
    CongRefl(i * j, d.order);
    PowersEqual(d, d.Exp(d.Exp(d.generator, i), j), i * j, d.Exp(d.Exp(d.generator, j), i), j * i);
  }

  /** What the proof adds: two accepted answers give the exponent of `x`, and with it which branches the receiver can
      open, at most one for an admissible tuple. */
  lemma ProofDecides<G(!new)>(d: DlogGroup<G>, a: Tuple<G>, first: seq<G>, e: int, z: int, e': int, z': int)
      returns (alpha: int)
    requires ValidGroup(d) && Admissible(d, a) && DH.Members(d, first)
    requires DH.Accepts(d, DH.CommonInput([d.generator], [a.x]), first, e, z)
    requires DH.Accepts(d, DH.CommonInput([d.generator], [a.x]), first, e', z')
    requires e != e' && 0 - d.order < e - e' < d.order
    ensures a.x == d.Exp(d.generator, alpha)
    ensures Hides(d, a.x, a.z0, d.generator, a.y) <==> a.z0 != d.Exp(a.y, alpha)
    ensures Hides(d, a.x, a.z1, d.generator, a.y) <==> a.z1 != d.Exp(a.y, alpha)
  {
    hide ValidGroup, Hides;
    var input := DH.CommonInput([d.generator], [a.x]);
    alpha := DH.Extractor(d, input, first, e, z, e', z');
    assert DH.Related(d, input, alpha);
    assert input.hs[0] == d.Exp(input.gs[0], alpha);
    HiddenIff(d, a, a.z0, alpha);
    HiddenIff(d, a, a.z1, alpha);
  }

  /** The sender of the one-sided protocol: the verdict on the proof for `x`, then the checks of the tuple. */
  function OneSidedElements<G(==)>(d: DlogGroup<G>, a: Tuple<G>, verdict: Outcome<bool>, x0: G, x1: G,
                                   k: FullSim.Coins): Outcome<SenderMsg<G, G>>
  {
    var accepted :- verdict;
    if !accepted then Threw(CheatAttempt) else SendElements(d, a, x0, x1, k)
  }

  function OneSidedBytes<G(==, !new)>(d: DlogGroup<G>, kdf: FullSim.Kdf<G>, a: Tuple<G>, verdict: Outcome<bool>,
                                      x0: Bytes, x1: Bytes, k: FullSim.Coins): Outcome<SenderMsg<G, Bytes>>
    requires FullSim.ValidKdf(kdf)
  {
    var accepted :- verdict;
    if !accepted then Threw(CheatAttempt) else SendBytes(d, kdf, a, x0, x1, k)
  }

  /** The verdict on a proof for `x` by any receiver with commitment key `h`. */
  function VerdictOn<G(==)>(d: DlogGroup<G>, h: G, x: G, first: G, challenge: seq<Byte>, reply: FullSim.Reply)
      : Outcome<bool>
    requires challenge != []
  {
    var input := DH.CommonInput([d.generator], [x]);
    ZK.Verdict(d, h, reply.trapdoor, DH.Decide(d, input, [first], DecodeBigInteger(challenge), reply.z))
  }

  /** For each first message and challenge one answer modulo the order is accepted, and no other. */
  lemma OneAnswer<G(!new)>(d: DlogGroup<G>, h: G, x: G, first: G, challenge: seq<Byte>, reply: FullSim.Reply)
    requires ValidGroup(d) && d.isMember(x) && challenge != []
    ensures VerdictOn(d, h, x, first, challenge, reply) ==
            if !Validate(d, h, reply.trapdoor) then Returned(false)
            else if !d.isMember(first) then Threw(InvalidArgument)
            else Returned(Cong(reply.z, Log(d, first) + Log(d, x) * DecodeBigInteger(challenge), d.order))
  {
    hide Cong, ValidGroup, DecodeBigInteger, DH.Equation, Validate;
    LogGenerator(d);
    var input, e := DH.CommonInput([d.generator], [x]), DecodeBigInteger(challenge);
    DecideOne(d, x, first, e, reply.z);
    if d.isMember(first) {
      DH.EquationInExponents(d, d.generator, x, first, e, reply.z);
      UnitFactor(d.order, Log(d, d.generator), reply.z, Log(d, first) + Log(d, x) * e);
    }
  }

  lemma DecideOne<G(!new)>(d: DlogGroup<G>, x: G, first: G, e: int, z: int)
    requires d.isMember(d.generator)
    ensures DH.Decide(d, DH.CommonInput([d.generator], [x]), [first], e, z) ==
            if d.isMember(first) then Returned(DH.Equation(d, d.generator, x, first, e, z)) else Threw(InvalidArgument)
  {
    hide DH.Equation;
    var input := DH.CommonInput([d.generator], [x]);
    assert input.gs[0] == d.generator && input.hs[0] == x && [first][..1] == [first] && [first][0] == first;
  }

  lemma UnitFactor(q: int, l: int, z: int, k: int)
    requires Cong(l, 1, q)
    ensures Cong(l * z, k, q) <==> Cong(z, k, q)
  {
    hide Cong;
    CongScale(l, 1, z, q);
    CongSym(l * z, z, q);
    if Cong(l * z, k, q) { CongTrans(z, l * z, k, q); }
    if Cong(z, k, q) { CongTrans(l * z, z, k, q); }
  }

  /** The one-sided sender against any receiver: its message goes out exactly when the trapdoor and the one right answer
      were shown, the tuple is admissible, and the inputs have one length. */
  lemma OneSidedSendsIff<G(!new)>(d: DlogGroup<G>, kdf: FullSim.Kdf<G>, h: G, a: Tuple<G>, first: G,
                                  challenge: seq<Byte>, reply: FullSim.Reply, x0: Bytes, x1: Bytes, k: FullSim.Coins)
    requires ValidGroup(d) && FullSim.ValidKdf(kdf) && challenge != []
    ensures OneSidedBytes(d, kdf, a, VerdictOn(d, h, a.x, first, challenge, reply), x0, x1, k).Returned? <==>
            && Admissible(d, a) && Validate(d, h, reply.trapdoor) && d.isMember(first) && |x0| == |x1|
            && Cong(reply.z, Log(d, first) + Log(d, a.x) * DecodeBigInteger(challenge), d.order)
  {
    hide Cong, ValidGroup, FullSim.ValidKdf, DecodeBigInteger, Validate, VerdictOn, Pad;
    if Admissible(d, a) {
      OneAnswer(d, h, a.x, first, challenge, reply);
    }
  }

  /** The same for group elements. */
  lemma OneSidedSendsElementsIff<G(!new)>(d: DlogGroup<G>, h: G, a: Tuple<G>, first: G, challenge: seq<Byte>,
                                          reply: FullSim.Reply, x0: G, x1: G, k: FullSim.Coins)
    requires ValidGroup(d) && challenge != []
    ensures OneSidedElements(d, a, VerdictOn(d, h, a.x, first, challenge, reply), x0, x1, k).Returned? <==>
            && Admissible(d, a) && Validate(d, h, reply.trapdoor) && d.isMember(first)
            && Cong(reply.z, Log(d, first) + Log(d, a.x) * DecodeBigInteger(challenge), d.order)
  {
    hide Cong, ValidGroup, DecodeBigInteger, Validate, VerdictOn, Pad;
    if Admissible(d, a) {
      OneAnswer(d, h, a.x, first, challenge, reply);
    }
  }

  /** An honest run: the tuple, the proof for `x`, then the transfer of byte arrays of the privacy-only protocol. */
  method OneSided<G(==, !new)>(d: DlogGroup<G>, codec: Codec<G>, kdf: FullSim.Kdf<G>, soundness: nat,
                               c: FullSim.PreprocessCoins, beta: int, gamma: int, sigma: nat,
                               x0: Bytes, x1: Bytes, k: FullSim.Coins)
      returns (x: Outcome<Bytes>)
    requires ValidGroup(d) && ValidCodec(d, codec) && FullSim.ValidKdf(kdf) && DH.SoundnessValid(soundness, d.order)
    requires FullSim.ValidCoins(d.order, soundness, c) && sigma <= 1
    ensures !FullSim.ChallengeKept(c.challenge) || Cong(gamma, c.alpha0 * beta, d.order) || |x0| != |x1| ==> x.Threw?
    ensures FullSim.ChallengeKept(c.challenge) && !Cong(gamma, c.alpha0 * beta, d.order) && |x0| == |x1| ==>
      var m := SendBytes(d, kdf, ReceiverTuple(d, sigma, c.alpha0, beta, gamma).value, x0, x1, k);
      m.Returned? && (x == Returned(if sigma == 0 then x0 else x1) <==> Printable(m.value.c0) && Printable(m.value.c1))
  {
    hide Cong, ValidGroup, ValidCodec, ReceiveRow, PrintBytes, Printable, SendBytes;
    var tuple := ReceiverTuple(d, sigma, c.alpha0, beta, gamma).value;
    var input := DH.CommonInput([d.generator], [tuple.x]);
    LogGenerator(d);
    TransferBytes(d, codec, kdf, sigma, c.alpha0, beta, gamma, x0, x1, k);
    assert DH.Related(d, input, c.alpha0);
    var verdict := ZK.HonestRun(d, soundness, input, c.alpha0, c.trapdoor, c.sample, c.challenge, c.r, c.id);
    var m :- OneSidedBytes(d, kdf, tuple, verdict, x0, x1, k);
    x := ReceiveRow(d, codec, kdf, sigma, beta, PrintBytes(codec, m));
  }
}
