/** Oblivious transfer with full simulation: preprocessing with a proof, then any number of transfers. */
module ObliviousTransferFullSim {
  import opened Outcomes
  import opened Congruence
  import opened DlogGroups
  import opened ObliviousTransferRand
  import opened ObliviousTransferMessages
  import opened Challenges
  import opened IntegerEncoding
  import opened PedersenCommitment
  import DH = SigmaDHExtended
  import ZK = ZeroKnowledge

  /** The values fixed by the preprocess phase. */
  datatype Preprocess<G> = Preprocess(g0: G, g1: G, h0: G, h1: G)

  predicate MembersOf<G>(d: DlogGroup<G>, pre: Preprocess<G>) {
    AllMembers(d, pre.g0, pre.g1, pre.h0, pre.h1)
  }

  // ---------- preprocess ----------

  function ReceiverPreprocess<G>(d: DlogGroup<G>, y: int, alpha0: int): Preprocess<G> {
    var g1 := d.Exp(d.generator, y);
    Preprocess(d.generator, g1, d.Exp(d.generator, alpha0), d.Exp(g1, alpha0 + 1))
  }

  /** The common input `(g0, g1, h0, h1/g1)` of the proof. */
  function Statement<G>(d: DlogGroup<G>, pre: Preprocess<G>): DH.CommonInput<G> {
    DH.CommonInput([pre.g0, pre.g1], [pre.h0, d.mul(pre.h1, d.inv(pre.g1))])
  }

  /** `h0 = g0^alpha` and `h1 = g1^(alpha + 1)`: the exponents of the two pairs differ. */
  predicate Separated<G(==)>(d: DlogGroup<G>, pre: Preprocess<G>, alpha: int) {
    pre.h0 == d.Exp(pre.g0, alpha) && pre.h1 == d.Exp(pre.g1, alpha + 1)
  }

  lemma HonestPreprocess<G(!new)>(d: DlogGroup<G>, y: int, alpha0: int)
    requires ValidGroup(d)
    ensures MembersOf(d, ReceiverPreprocess(d, y, alpha0))
    ensures Separated(d, ReceiverPreprocess(d, y, alpha0), alpha0)
    ensures var pre := ReceiverPreprocess(d, y, alpha0);
            && pre.g0 == d.generator && IsPower(d, pre.g1, y) && IsPower(d, pre.h0, alpha0)
            && IsPower(d, pre.h1, y * (alpha0 + 1))
  {
    GeneratorExp(d, y);
    GeneratorExp(d, alpha0);
    PowerExp(d, d.Exp(d.generator, y), y, alpha0 + 1);
    LogExp(d, d.generator, y);
    LogExp(d, d.generator, alpha0);
    LogExp(d, d.Exp(d.generator, y), alpha0 + 1);
  }

  /** The proven statement says exactly that the pairs are separated. */
  lemma StatementMeansSeparated<G(!new)>(d: DlogGroup<G>, pre: Preprocess<G>, alpha: int)
    requires ValidGroup(d) && MembersOf(d, pre)
    ensures DH.Related(d, Statement(d, pre), alpha) <==> Separated(d, pre, alpha)
  {
    QuotientPower(d, pre.g1, pre.h1, alpha);
    var input := Statement(d, pre);
    assert DH.Related(d, input, alpha) <==>
      input.hs[0] == d.Exp(input.gs[0], alpha) && input.hs[1] == d.Exp(input.gs[1], alpha);
  }

  lemma QuotientPower<G(!new)>(d: DlogGroup<G>, g: G, h: G, alpha: int)
    requires ValidGroup(d) && d.isMember(g) && d.isMember(h)
    ensures d.isMember(d.mul(h, d.inv(g)))
    ensures d.mul(h, d.inv(g)) == d.Exp(g, alpha) <==> h == d.Exp(g, alpha + 1)
  {
    var q, l, m := d.order, Log(d, g), Log(d, h);
    MemberIsPower(d, g);
    MemberIsPower(d, h);
    PowerInv(d, g, l);
    PowerMul(d, h, m, d.inv(g), -l);
    PowerExp(d, g, l, alpha);
    PowerExp(d, g, l, alpha + 1);
    PowersEqual(d, d.mul(h, d.inv(g)), m + -l, d.Exp(g, alpha), l * alpha);
    PowersEqual(d, h, m, d.Exp(g, alpha + 1), l * (alpha + 1));
    MoveTerm(q, m, l, alpha);
  }

  lemma MoveTerm(q: int, m: int, l: int, alpha: int)
    ensures Cong(m + -l, l * alpha, q) <==> Cong(m, l * (alpha + 1), q)
  {
    assert l * (alpha + 1) == l * alpha + l;
    CongRefl(l, q);
    if Cong(m + -l, l * alpha, q) { CongAdd(m + -l, l * alpha, l, l, q); }
    if Cong(m, l * (alpha + 1), q) { CongSub(m, l * alpha + l, l, l, q); }
  }

  /** `preProcess` of the sender: membership of what was received, then the verdict on the proof. */
  function SenderPreprocess<G>(d: DlogGroup<G>, g1: G, h0: G, h1: G, verdict: Outcome<bool>): Outcome<Preprocess<G>> {
    if !(d.isMember(g1) && d.isMember(h0) && d.isMember(h1)) then Threw(InvalidArgument)
    else
      var accepted :- verdict;
      if !accepted then Threw(CheatAttempt) else Returned(Preprocess(d.generator, g1, h0, h1))
  }

  /** What a receiver sends once it knows the challenge: its answer, and the trapdoor of its commitment key. */
  datatype Reply = Reply(z: int, trapdoor: int)

  /** The sender's preprocess against any receiver: the values received, the commitment key `h`, the first message, the
      challenge the verifier holds, and the reply to it. */
  function SenderAgainst<G(==)>(d: DlogGroup<G>, h: G, g1: G, h0: G, h1: G, a: seq<G>, challenge: seq<Byte>,
                                reply: Reply): Outcome<Preprocess<G>>
    requires |a| >= 2 && challenge != []
  {
    var input := Statement(d, Preprocess(d.generator, g1, h0, h1));
    var decision := DH.Decide(d, input, a, DecodeBigInteger(challenge), reply.z);
    SenderPreprocess(d, g1, h0, h1, ZK.Verdict(d, h, reply.trapdoor, decision))
  }

  /** An honest proof convinces the sender, whatever the coins and the challenge. */
  lemma HonestProofAccepted<G(!new)>(d: DlogGroup<G>, y: int, alpha0: int, r: int, e: int)
    requires ValidGroup(d)
    ensures var pre := ReceiverPreprocess(d, y, alpha0);
            DH.Accepts(d, Statement(d, pre), DH.FirstMsg(d, [pre.g0, pre.g1], r), e, DH.Answer(d.order, r, alpha0, e))
  {
    var pre := ReceiverPreprocess(d, y, alpha0);
    HonestPreprocess(d, y, alpha0);
    StatementMeansSeparated(d, pre, alpha0);
    DH.Completeness(d, Statement(d, pre), r, alpha0, e);
  }

  /** Two accepted answers to one first message: the values received are separated. */
  lemma ProofSeparates<G(!new)>(d: DlogGroup<G>, pre: Preprocess<G>, a: seq<G>, e: int, z: int, e': int, z': int)
      returns (alpha: int)
    requires ValidGroup(d) && MembersOf(d, pre) && DH.Members(d, a)
    requires DH.Accepts(d, Statement(d, pre), a, e, z) && DH.Accepts(d, Statement(d, pre), a, e', z')
    requires e != e' && 0 - d.order < e - e' < d.order
    ensures Separated(d, pre, alpha)
  {
    QuotientPower(d, pre.g1, pre.h1, 0);
    alpha := DH.Extractor(d, Statement(d, pre), a, e, z, e', z');
    StatementMeansSeparated(d, pre, alpha);
  }

  /** The same with the verifier object, which holds the challenge. */
  method PreprocessAgainst<G(==, !new)>(d: DlogGroup<G>, verifier: DH.Verifier<G>, h: G, g1: G, h0: G, h1: G, a: seq<G>,
                                        reply: Reply) returns (o: Outcome<Preprocess<G>>)
    requires verifier.d == d && verifier.e != [] && |a| >= 2
    modifies verifier
    ensures o == SenderAgainst(d, h, g1, h0, h1, a, old(verifier.e), reply)
  {
    hide DH.Decide, Validate, DecodeBigInteger;
    if !(d.isMember(g1) && d.isMember(h0) && d.isMember(h1)) {
      return Threw(InvalidArgument);
    }
    var input := Statement(d, Preprocess(d.generator, g1, h0, h1));
    var verdict := ZK.Conclude(verifier, h, reply.trapdoor, input, a, reply.z);
    o := SenderPreprocess(d, g1, h0, h1, verdict);
  }

  /** A verifier that returns has seen members in the first message, and every equation. */
  lemma DecideAccepts<G(!new)>(d: DlogGroup<G>, input: DH.CommonInput<G>, a: seq<G>, e: int, z: int)
    requires |a| >= |input.gs|
    ensures DH.Decide(d, input, a, e, z) == Returned(true) <==>
            DH.Members(d, a[..|input.gs|]) && DH.Accepts(d, input, a[..|input.gs|], e, z)
    ensures |input.gs| == |input.hs| ==>
      (DH.Decide(d, input, a, e, z).Threw? <==> !DH.Members(d, a[..|input.gs|]))
    ensures DH.Decide(d, input, a, e, z).Threw? ==> DH.Decide(d, input, a, e, z).error == InvalidArgument
  {
  }

  /** Against any receiver: two challenges that both make the preprocess return, with one first message, show that the
      values received are members and separated. */
  lemma SenderSafe<G(!new)>(d: DlogGroup<G>, t: nat, h: G, g1: G, h0: G, h1: G, a: seq<G>,
                            b: seq<Byte>, reply: Reply, b': seq<Byte>, reply': Reply) returns (alpha: int)
    requires ValidGroup(d) && DH.SoundnessValid(t, d.order) && |a| >= 2
    requires |b| == |b'| == t / 8 && b != [] && b != b'
    requires SenderAgainst(d, h, g1, h0, h1, a, b, reply).Returned?
    requires SenderAgainst(d, h, g1, h0, h1, a, b', reply').Returned?
    ensures var pre := Preprocess(d.generator, g1, h0, h1);
            && SenderAgainst(d, h, g1, h0, h1, a, b, reply) == Returned(pre)
            && MembersOf(d, pre) && Separated(d, pre, alpha)
  {
    hide ValidGroup, DecodeBigInteger, DH.Decide, DH.Accepts, DH.Members, Separated, Statement, DH.SoundnessValid;
    var pre := Preprocess(d.generator, g1, h0, h1);
    var input := Statement(d, pre);
    StatementShape(d, pre);
    IdentityMember(d);
    var e, e' := DecodeBigInteger(b), DecodeBigInteger(b');
    DecideAccepts(d, input, a, e, reply.z);
    DecideAccepts(d, input, a, e', reply'.z);
    ChallengesDiffer(d, t, b, b');
    alpha := ProofSeparates(d, pre, a[..2], e, reply.z, e', reply'.z);
  }

  lemma StatementShape<G>(d: DlogGroup<G>, pre: Preprocess<G>)
    ensures |Statement(d, pre).gs| == 2 && |Statement(d, pre).hs| == 2
  {
  }

  lemma ChallengesDiffer<G(!new)>(d: DlogGroup<G>, t: nat, b: seq<Byte>, b': seq<Byte>)
    requires DH.SoundnessValid(t, d.order) && |b| == |b'| == t / 8 && b != [] && b != b'
    ensures DecodeBigInteger(b) != DecodeBigInteger(b')
    ensures 0 - d.order < DecodeBigInteger(b) - DecodeBigInteger(b') < d.order
  {
    hide DecodeBigInteger, Pow;
    DecodeInjective(b, b');
    ByteChallenges(t / 8, t);
  }

  /** A receiver whose values no exponent separates: whatever its first message, key and way of answering, at most one
      challenge of `t/8` bytes lets the preprocess return; every other one makes it throw. */
  lemma CheaterCaught<G(!new)>(d: DlogGroup<G>, t: nat, h: G, g1: G, h0: G, h1: G, a: seq<G>,
                               reply: seq<Byte> -> Reply) returns (lucky: seq<Byte>)
    requires ValidGroup(d) && DH.SoundnessValid(t, d.order) && t >= 8 && |a| >= 2
    requires d.isMember(g1) && d.isMember(h0) && d.isMember(h1)
    requires forall alpha :: !Separated(d, Preprocess(d.generator, g1, h0, h1), alpha)
    ensures forall b: seq<Byte> :: |b| == t / 8 && b != lucky ==>
      SenderAgainst(d, h, g1, h0, h1, a, b, reply(b)) ==
      Threw(if Validate(d, h, reply(b).trapdoor) && !DH.Members(d, a[..2]) then InvalidArgument else CheatAttempt)
  {
    hide ValidGroup, DecodeBigInteger, DH.SoundnessValid, SenderAgainst, Separated, Validate, DH.Members;
    lucky := [];
    if b0: seq<Byte> :| |b0| == t / 8 && SenderAgainst(d, h, g1, h0, h1, a, b0, reply(b0)).Returned? {
      lucky := b0;
    }
    forall b: seq<Byte> | |b| == t / 8 && b != lucky
      ensures SenderAgainst(d, h, g1, h0, h1, a, b, reply(b)) ==
        Threw(if Validate(d, h, reply(b).trapdoor) && !DH.Members(d, a[..2]) then InvalidArgument else CheatAttempt)
    {
      if SenderAgainst(d, h, g1, h0, h1, a, b, reply(b)).Returned? {
        var alpha := SenderSafe(d, t, h, g1, h0, h1, a, lucky, reply(lucky), b, reply(b));
      }
      SenderErrors(d, h, g1, h0, h1, a, b, reply(b));
    }
  }

  lemma SenderErrors<G(!new)>(d: DlogGroup<G>, h: G, g1: G, h0: G, h1: G, a: seq<G>, b: seq<Byte>, reply: Reply)
    requires |a| >= 2 && b != [] && d.isMember(g1) && d.isMember(h0) && d.isMember(h1)
    ensures var o := SenderAgainst(d, h, g1, h0, h1, a, b, reply);
            o.Threw? ==> o.error == if Validate(d, h, reply.trapdoor) && !DH.Members(d, a[..2]) then InvalidArgument
                                    else CheatAttempt
  {
    hide DecodeBigInteger, DH.Decide, DH.Members, DH.Accepts, Statement, Validate;
    var pre := Preprocess(d.generator, g1, h0, h1);
    StatementShape(d, pre);
    DecideAccepts(d, Statement(d, pre), a, DecodeBigInteger(b), reply.z);
  }

  // ---------- transfer ----------

  /** `(g, h) = (g_sigma^r, h_sigma^r)`. */
  function ReceiverTuple<G>(d: DlogGroup<G>, pre: Preprocess<G>, sigma: nat, r: int): Outcome<(G, G)> {
    if sigma > 1 then Threw(InvalidArgument)
    else if sigma == 0 then Returned((d.Exp(pre.g0, r), d.Exp(pre.h0, r)))
    else Returned((d.Exp(pre.g1, r), d.Exp(pre.h1, r)))
  }

  /** The coins of the two calls of RAND. */
  datatype Coins = Coins(s0: int, t0: int, s1: int, t1: int)

  function Pads<G>(d: DlogGroup<G>, pre: Preprocess<G>, g: G, h: G, k: Coins): ((G, G), (G, G)) {
    (Rand(d, pre.g0, g, pre.h0, h, k.s0, k.t0), Rand(d, pre.g1, g, pre.h1, h, k.s1, k.t1))
  }

  function SendElements<G>(d: DlogGroup<G>, pre: Preprocess<G>, g: G, h: G, x0: G, x1: G, k: Coins)
      : Outcome<SenderMsg<G, G>>
  {
    if !(d.isMember(g) && d.isMember(h)) then Threw(InvalidArgument)
    else
      var (p0, p1) := Pads(d, pre, g, h, k);
      Returned(SenderMsg(p0.0, d.mul(x0, p0.1), p1.0, d.mul(x1, p1.1)))
  }

  function ReceiveElement<G>(d: DlogGroup<G>, sigma: nat, r: int, m: SenderMsg<G, G>): Outcome<G> {
    if !AllMembers(d, m.w0, m.w1, m.c0, m.c1) then Threw(InvalidArgument)
    else
      var minusR := d.order - r;
      if sigma == 0 then Returned(d.mul(m.c0, d.Exp(m.w0, minusR)))
      else Returned(d.mul(m.c1, d.Exp(m.w1, minusR)))
  }

  lemma RemovePad<G(!new)>(d: DlogGroup<G>, x: G, u: G, r: int)
    requires ValidGroup(d) && d.isMember(x) && d.isMember(u)
    ensures d.mul(d.mul(x, d.Exp(u, r)), d.Exp(u, d.order - r)) == x
  {
    hide *;
    var q, l, m := d.order, Log(d, u), Log(d, x);
    MemberIsPower(d, u);
    MemberIsPower(d, x);
    PowerExp(d, u, l, r);
    PowerExp(d, u, l, q - r);
    PowerMul(d, x, m, d.Exp(u, r), l * r);
    PowerMul(d, d.mul(x, d.Exp(u, r)), m + l * r, d.Exp(u, q - r), l * (q - r));
    FullTurn(q, m, l, r);
    PowersEqual(d, d.mul(d.mul(x, d.Exp(u, r)), d.Exp(u, q - r)), m + l * r + l * (q - r), x, m);
  }

  /** What is left of `c` without the pad `w^r` is the one member that the pad takes to `c`. */
  lemma UnmaskIff<G(!new)>(d: DlogGroup<G>, w: G, c: G, r: int, x: G)
    requires ValidGroup(d) && d.isMember(w) && d.isMember(c) && d.isMember(x)
    ensures d.isMember(d.mul(c, d.Exp(w, d.order - r)))
    ensures d.mul(c, d.Exp(w, d.order - r)) == x <==> d.mul(x, d.Exp(w, r)) == c
  {
    hide ValidGroup;
    LogExp(d, w, d.order - r);
    LogMul(d, c, d.Exp(w, d.order - r));
    RemovePad(d, c, w, d.order - r);
    RemovePad(d, x, w, r);
  }

  /** The receiver against any sender: messages with an element outside the group are refused, and from any other the
      receiver takes the one `x` that its branch masks. */
  lemma ReceiverTakes<G(!new)>(d: DlogGroup<G>, sigma: nat, r: int, m: SenderMsg<G, G>, x: G)
    requires ValidGroup(d) && d.isMember(x)
    ensures !AllMembers(d, m.w0, m.w1, m.c0, m.c1) ==> ReceiveElement(d, sigma, r, m) == Threw(InvalidArgument)
    ensures AllMembers(d, m.w0, m.w1, m.c0, m.c1) ==>
      var w, c := if sigma == 0 then m.w0 else m.w1, if sigma == 0 then m.c0 else m.c1;
      && ReceiveElement(d, sigma, r, m).Returned? && d.isMember(ReceiveElement(d, sigma, r, m).value)
      && (ReceiveElement(d, sigma, r, m) == Returned(x) <==> d.mul(x, d.Exp(w, r)) == c)
  {
    hide ValidGroup;
    if AllMembers(d, m.w0, m.w1, m.c0, m.c1) {
      UnmaskIff(d, m.w0, m.c0, r, x);
      UnmaskIff(d, m.w1, m.c1, r, x);
    }
  }

  lemma FullTurn(q: int, m: int, l: int, r: int)
    ensures Cong(m + l * r + l * (q - r), m, q)
  {
    assert l * (q - r) == l * q - l * r;
    CongFromQuotient(m + l * r + l * (q - r), m, q, l);
  }

  lemma PadMembers<G(!new)>(d: DlogGroup<G>, w: G, x: G, y: G, z: G, s: int, t: int)
    requires ValidGroup(d) && AllMembers(d, w, x, y, z)
    ensures var p := Rand(d, w, x, y, z, s, t); d.isMember(p.0) && d.isMember(p.1)
  {
    LogExp(d, w, s);
    LogExp(d, y, t);
    LogMul(d, d.Exp(w, s), d.Exp(y, t));
    LogExp(d, x, s);
    LogExp(d, z, t);
    LogMul(d, d.Exp(x, s), d.Exp(z, t));
  }

  /** The receiver's tuple is a chosen pair for its own branch. */
  lemma TupleChosen<G(!new)>(d: DlogGroup<G>, pre: Preprocess<G>, sigma: nat, r: int)
    requires ValidGroup(d) && MembersOf(d, pre) && sigma <= 1
    ensures var t := ReceiverTuple(d, pre, sigma, r).value;
            && d.isMember(t.0) && d.isMember(t.1)
            && (sigma == 0 ==> Chosen(d, pre.g0, t.0, pre.h0, t.1, r))
            && (sigma == 1 ==> Chosen(d, pre.g1, t.0, pre.h1, t.1, r))
  {
    LogExp(d, pre.g0, r);
    LogExp(d, pre.h0, r);
    LogExp(d, pre.g1, r);
    LogExp(d, pre.h1, r);
  }

  /** Every transfer of group elements delivers `x_sigma`: for all inputs, all coins of both
      parties, and whatever the preprocessed values are. */
  lemma TransferElements<G(!new)>(d: DlogGroup<G>, pre: Preprocess<G>, sigma: nat, r: int, x0: G, x1: G, k: Coins)
    requires ValidGroup(d) && MembersOf(d, pre) && sigma <= 1 && d.isMember(x0) && d.isMember(x1)
    ensures var t := ReceiverTuple(d, pre, sigma, r).value;
            var m := SendElements(d, pre, t.0, t.1, x0, x1, k);
            m.Returned? && ReceiveElement(d, sigma, r, m.value) == Returned(if sigma == 0 then x0 else x1)
  {
    var t := ReceiverTuple(d, pre, sigma, r).value;
    TupleChosen(d, pre, sigma, r);
    BranchMembers(d, pre.g0, t.0, pre.h0, t.1, k.s0, k.t0, x0);
    BranchMembers(d, pre.g1, t.0, pre.h1, t.1, k.s1, k.t1, x1);
    if sigma == 0 {
      BranchDelivers(d, pre.g0, t.0, pre.h0, t.1, r, k.s0, k.t0, x0);
    } else {
      BranchDelivers(d, pre.g1, t.0, pre.h1, t.1, r, k.s1, k.t1, x1);
    }
  }

  lemma BranchMembers<G(!new)>(d: DlogGroup<G>, w: G, g: G, y: G, h: G, s: int, t: int, x: G)
    requires ValidGroup(d) && AllMembers(d, w, g, y, h) && d.isMember(x)
    ensures var p := Rand(d, w, g, y, h, s, t); d.isMember(p.0) && d.isMember(d.mul(x, p.1))
  {
    PadMembers(d, w, g, y, h, s, t);
    LogMul(d, x, Rand(d, w, g, y, h, s, t).1);
  }

  lemma BranchDelivers<G(!new)>(d: DlogGroup<G>, w: G, g: G, y: G, h: G, r: int, s: int, t: int, x: G)
    requires ValidGroup(d) && AllMembers(d, w, g, y, h) && Chosen(d, w, g, y, h, r) && d.isMember(x)
    ensures var p := Rand(d, w, g, y, h, s, t); d.mul(d.mul(x, p.1), d.Exp(p.0, d.order - r)) == x
  {
    ChosenRevealed(d, w, g, y, h, r, s, t);
    RemovePad(d, x, Rand(d, w, g, y, h, s, t).0, r);
  }

  // ---------- byte arrays ----------

  function Xor(a: Bytes, b: Bytes): Bytes
    requires |a| == |b|
  {
    seq(|a|, i requires 0 <= i < |a| => a[i] ^ b[i])
  }

  lemma XorTwice(a: Bytes, b: Bytes)
    requires |a| == |b|
    ensures Xor(Xor(a, b), a) == b && Xor(a, Xor(a, b)) == b
  {
    forall i | 0 <= i < |a| ensures Xor(Xor(a, b), a)[i] == b[i] && Xor(a, Xor(a, b))[i] == b[i] {
      XorByteTwice(a[i], b[i]);
    }
  }

  lemma XorByteTwice(a: bv8, b: bv8)
    ensures (a ^ b) ^ a == b && a ^ (a ^ b) == b
  {
  }

  /** The loop that xors a derived key with an input, in the key's own buffer. */
  method XorInPlace(key: array<bv8>, x: Bytes)
    requires |x| == key.Length
    modifies key
    ensures key[..] == Xor(old(key[..]), x)
  {
    for i := 0 to key.Length
      invariant forall j :: 0 <= j < i ==> key[j] == old(key[j]) ^ x[j]
      invariant forall j :: i <= j < key.Length ==> key[j] == old(key[j])
    {
      key[i] := key[i] ^ x[i];
    }
  }

  /** The key derivation of a group element, to a given length. */
  datatype Kdf<!G> = Kdf(derive: (G, nat) -> Bytes)

  ghost predicate ValidKdf<G(!new)>(kdf: Kdf<G>) {
    forall v, n :: |kdf.derive(v, n)| == n
  }

  function SendBytes<G(!new)>(d: DlogGroup<G>, kdf: Kdf<G>, pre: Preprocess<G>, g: G, h: G, x0: Bytes, x1: Bytes,
                              k: Coins)
      : Outcome<SenderMsg<G, Bytes>>
    requires ValidKdf(kdf)
  {
    if !(d.isMember(g) && d.isMember(h)) || |x0| != |x1| then Threw(InvalidArgument)
    else
      var (p0, p1) := Pads(d, pre, g, h, k);
      Returned(SenderMsg(p0.0, Xor(kdf.derive(p0.1, |x0|), x0), p1.0, Xor(kdf.derive(p1.1, |x0|), x1)))
  }

  function ReceiveBytes<G(!new)>(d: DlogGroup<G>, kdf: Kdf<G>, sigma: nat, r: int,
                                 m: SenderMsg<G, Bytes>): Outcome<Bytes>
    requires ValidKdf(kdf)
  {
    if !(d.isMember(m.w0) && d.isMember(m.w1)) then Threw(InvalidArgument)
    else if |m.c0| != |m.c1| then Threw(CheatAttempt)
    else if sigma == 0 then Returned(Xor(m.c0, kdf.derive(d.Exp(m.w0, r), |m.c0|)))
    else Returned(Xor(m.c1, kdf.derive(d.Exp(m.w1, r), |m.c0|)))
  }

  /** The same for byte arrays: arrays of different lengths are a cheat, and from any other message the receiver takes
      the one array that its branch masks. */
  lemma ReceiverTakesBytes<G(!new)>(d: DlogGroup<G>, kdf: Kdf<G>, sigma: nat, r: int, m: SenderMsg<G, Bytes>, x: Bytes)
    requires ValidKdf(kdf)
    ensures !(d.isMember(m.w0) && d.isMember(m.w1)) ==>
      ReceiveBytes(d, kdf, sigma, r, m) == Threw(InvalidArgument)
    ensures d.isMember(m.w0) && d.isMember(m.w1) && |m.c0| != |m.c1| ==>
      ReceiveBytes(d, kdf, sigma, r, m) == Threw(CheatAttempt)
    ensures d.isMember(m.w0) && d.isMember(m.w1) && |m.c0| == |m.c1| ==>
      var w, c := if sigma == 0 then m.w0 else m.w1, if sigma == 0 then m.c0 else m.c1;
      && ReceiveBytes(d, kdf, sigma, r, m).Returned?
      && (ReceiveBytes(d, kdf, sigma, r, m) == Returned(x) <==>
          |x| == |c| && Xor(kdf.derive(d.Exp(w, r), |c|), x) == c)
  {
    if |m.c0| == |m.c1| {
      UnmaskBytesIff(kdf.derive(d.Exp(m.w0, r), |m.c0|), m.c0, x);
      UnmaskBytesIff(kdf.derive(d.Exp(m.w1, r), |m.c0|), m.c1, x);
    }
  }

  lemma UnmaskBytesIff(key: Bytes, c: Bytes, x: Bytes)
    requires |key| == |c|
    ensures Xor(c, key) == x <==> |x| == |c| && Xor(key, x) == c
  {
    XorCommutes(c, key);
    XorTwice(key, c);
    if |x| == |c| { XorTwice(key, x); }
  }

  lemma XorCommutes(a: Bytes, b: Bytes)
    requires |a| == |b|
    ensures Xor(a, b) == Xor(b, a)
  {
    forall i | 0 <= i < |a| ensures Xor(a, b)[i] == Xor(b, a)[i] {
      ByteCommutes(a[i], b[i]);
    }
  }

  /** On the message itself: byte arrays are refused exactly when the lengths differ, and otherwise the receiver
      computes `x_sigma`. */
  lemma BytesComputed<G(!new)>(d: DlogGroup<G>, kdf: Kdf<G>, pre: Preprocess<G>, sigma: nat, r: int,
                               x0: Bytes, x1: Bytes, k: Coins)
    requires ValidGroup(d) && ValidKdf(kdf) && MembersOf(d, pre) && sigma <= 1
    ensures var t := ReceiverTuple(d, pre, sigma, r).value;
            var m := SendBytes(d, kdf, pre, t.0, t.1, x0, x1, k);
            && (m.Returned? <==> |x0| == |x1|)
            && (m.Returned? ==>
                  && d.isMember(m.value.w0) && d.isMember(m.value.w1) && |m.value.c0| == |m.value.c1| == |x0|
                  && ReceiveBytes(d, kdf, sigma, r, m.value) == Returned(if sigma == 0 then x0 else x1))
  {
    var t := ReceiverTuple(d, pre, sigma, r).value;
    TupleChosen(d, pre, sigma, r);
    if |x0| == |x1| {
      PadMembers(d, pre.g0, t.0, pre.h0, t.1, k.s0, k.t0);
      PadMembers(d, pre.g1, t.0, pre.h1, t.1, k.s1, k.t1);
      var (p0, p1) := Pads(d, pre, t.0, t.1, k);
      XorTwice(kdf.derive(p0.1, |x0|), x0);
      XorTwice(kdf.derive(p1.1, |x0|), x1);
      if sigma == 0 {
        ChosenRevealed(d, pre.g0, t.0, pre.h0, t.1, r, k.s0, k.t0);
      } else {
        ChosenRevealed(d, pre.g1, t.0, pre.h1, t.1, r, k.s1, k.t1);
      }
    }
  }

  /** The receiver's side, from the text that arrives. */
  function ReceiveRow<G(!new)>(d: DlogGroup<G>, codec: Codec<G>, kdf: Kdf<G>, sigma: nat, r: int,
                               row: string): Outcome<Bytes>
    requires ValidKdf(kdf)
  {
    var m :- ReadBytes(codec, row);
    ReceiveBytes(d, kdf, sigma, r, m)
  }

  /** Every transfer of byte arrays of one length delivers `x_sigma` exactly when both masked inputs survive the text
      they are sent in; arrays of different lengths are refused. */
  lemma TransferBytes<G(!new)>(d: DlogGroup<G>, codec: Codec<G>, kdf: Kdf<G>, pre: Preprocess<G>, sigma: nat,
                               r: int, x0: Bytes, x1: Bytes, k: Coins)
    requires ValidGroup(d) && ValidCodec(d, codec) && ValidKdf(kdf) && MembersOf(d, pre) && sigma <= 1
    ensures var t := ReceiverTuple(d, pre, sigma, r).value;
            var m := SendBytes(d, kdf, pre, t.0, t.1, x0, x1, k);
            && (|x0| != |x1| ==> m == Threw(InvalidArgument))
            && (|x0| == |x1| ==> m.Returned?)
            && (|x0| == |x1| ==>
                  (ReceiveRow(d, codec, kdf, sigma, r, PrintBytes(codec, m.value)) ==
                   Returned(if sigma == 0 then x0 else x1) <==>
                   Printable(m.value.c0) && Printable(m.value.c1)))
  {
    hide ValidGroup, ValidCodec, ValidKdf, ReadBytes, PrintBytes, Printable;
    var t := ReceiverTuple(d, pre, sigma, r).value;
    BytesComputed(d, kdf, pre, sigma, r, x0, x1, k);
    if |x0| == |x1| {
      var m := SendBytes(d, kdf, pre, t.0, t.1, x0, x1, k).value;
      BytesRoundTrip(d, codec, m);
    }
  }

  /** Empty inputs are never delivered. */
  lemma EmptyLost<G(!new)>(d: DlogGroup<G>, codec: Codec<G>, kdf: Kdf<G>, pre: Preprocess<G>, sigma: nat,
                           r: int, k: Coins)
    requires ValidGroup(d) && ValidCodec(d, codec) && ValidKdf(kdf) && MembersOf(d, pre) && sigma <= 1
    ensures var t := ReceiverTuple(d, pre, sigma, r).value;
            var m := SendBytes(d, kdf, pre, t.0, t.1, [], [], k);
            m.Returned? && ReceiveRow(d, codec, kdf, sigma, r, PrintBytes(codec, m.value)) != Returned([])
  {
    hide ValidGroup, ValidCodec, ReceiveRow, PrintBytes;
    var t := ReceiverTuple(d, pre, sigma, r).value;
    TransferBytes(d, codec, kdf, pre, sigma, r, [], [], k);
    PrintableIff(SendBytes(d, kdf, pre, t.0, t.1, [], [], k).value.c0);
  }

  /** For every length, and all coins and keys, there are inputs that are not delivered: those whose mask hits the
      separator. */
  lemma SeparatorLost<G(!new)>(d: DlogGroup<G>, codec: Codec<G>, kdf: Kdf<G>, pre: Preprocess<G>, sigma: nat,
                               r: int, x1: Bytes, k: Coins) returns (x0: Bytes)
    requires ValidGroup(d) && ValidCodec(d, codec) && ValidKdf(kdf) && MembersOf(d, pre) && sigma <= 1 && x1 != []
    ensures |x0| == |x1|
    ensures var t := ReceiverTuple(d, pre, sigma, r).value;
            var m := SendBytes(d, kdf, pre, t.0, t.1, x0, x1, k);
            m.Returned? &&
            ReceiveRow(d, codec, kdf, sigma, r, PrintBytes(codec, m.value)) != Returned(if sigma == 0 then x0 else x1)
  {
    hide ValidGroup, ValidCodec, ReceiveRow, PrintBytes, Rand;
    var t := ReceiverTuple(d, pre, sigma, r).value;
    var pad := kdf.derive(Pads(d, pre, t.0, t.1, k).0.1, |x1|);
    var separators: Bytes := seq(|x1|, _ => 0x3A);
    x0 := Xor(pad, separators);
    XorTwice(pad, separators);
    TransferBytes(d, codec, kdf, pre, sigma, r, x0, x1, k);
    assert separators[0] == 0x3A;
    PrintableIff(separators);
  }

  // ---------- a whole session ----------

  /** One transfer, in either mode. */
  datatype Transfer<G> =
    | Elements(sigma: nat, r: int, e0: G, e1: G, coins: Coins)
    | ByteArrays(sigma: nat, r: int, b0: Bytes, b1: Bytes, coins: Coins)

  datatype Output<G> = Element(x: G) | Array(bytes: Bytes)

  predicate ValidTransfer<G>(d: DlogGroup<G>, t: Transfer<G>) {
    t.sigma <= 1 && (t.Elements? ==> d.isMember(t.e0) && d.isMember(t.e1))
  }

  function ChosenInput<G>(t: Transfer<G>): Output<G> {
    match t
    case Elements(sigma, _, e0, e1, _) => Element(if sigma == 0 then e0 else e1)
    case ByteArrays(sigma, _, b0, b1, _) => Array(if sigma == 0 then b0 else b1)
  }

  /** The messages of one transfer: the receiver's pair, the sender's text, the receiver's output. */
  function RunTransfer<G(!new)>(d: DlogGroup<G>, codec: Codec<G>, kdf: Kdf<G>, pre: Preprocess<G>,
                                t: Transfer<G>): Outcome<Output<G>>
    requires ValidKdf(kdf)
  {
    var pair :- ReceiverTuple(d, pre, t.sigma, t.r);
    if t.Elements? then
      var reply :- SendElements(d, pre, pair.0, pair.1, t.e0, t.e1, t.coins);
      var m :- ReadElements(codec, PrintElements(codec, reply));
      var x :- ReceiveElement(d, t.sigma, t.r, m);
      Returned(Element(x))
    else
      var reply :- SendBytes(d, kdf, pre, pair.0, pair.1, t.b0, t.b1, t.coins);
      var x :- ReceiveRow(d, codec, kdf, t.sigma, t.r, PrintBytes(codec, reply));
      Returned(Array(x))
  }

  /** Both masked inputs of a transfer survive the text; group elements always do. */
  predicate Survives<G(!new)>(d: DlogGroup<G>, kdf: Kdf<G>, pre: Preprocess<G>, t: Transfer<G>)
    requires ValidKdf(kdf)
  {
    t.ByteArrays? ==>
      var pair := ReceiverTuple(d, pre, t.sigma, t.r);
      pair.Returned? &&
      var m := SendBytes(d, kdf, pre, pair.value.0, pair.value.1, t.b0, t.b1, t.coins);
      m.Returned? && Printable(m.value.c0) && Printable(m.value.c1)
  }

  /** A transfer in either mode delivers the chosen input exactly when the masked inputs survive the text. */
  lemma TransferDelivers<G(!new)>(d: DlogGroup<G>, codec: Codec<G>, kdf: Kdf<G>, pre: Preprocess<G>, t: Transfer<G>)
    requires ValidGroup(d) && ValidCodec(d, codec) && ValidKdf(kdf) && MembersOf(d, pre) && ValidTransfer(d, t)
    ensures RunTransfer(d, codec, kdf, pre, t) == Returned(ChosenInput(t)) <==> Survives(d, kdf, pre, t)
  {
    hide ValidGroup, ValidCodec, ValidKdf, Printable, PrintBytes, ReceiveRow, ReadElements, PrintElements, Rand;
    match t
    case Elements(sigma, r, e0, e1, k) =>
      TransferElements(d, pre, sigma, r, e0, e1, k);
      var pair := ReceiverTuple(d, pre, sigma, r).value;
      ElementsRoundTrip(d, codec, SendElements(d, pre, pair.0, pair.1, e0, e1, k).value);
    case ByteArrays(sigma, r, b0, b1, k) =>
      TransferBytes(d, codec, kdf, pre, sigma, r, b0, b1, k);
  }

  /** The coins of the preprocess phase and of its proof. */
  datatype PreprocessCoins = PreprocessCoins(
    y: nat, alpha0: nat, trapdoor: nat, sample: nat, challenge: seq<Byte>, r: nat, id: int)

  predicate ValidCoins(q: nat, t: nat, c: PreprocessCoins) {
    && c.y < q && c.alpha0 < q && c.trapdoor < q && c.sample < q && c.r < q
    && c.challenge != [] && |c.challenge| == t / 8
  }

  /** The committed challenge is opened to as many bytes as it had. */
  predicate ChallengeKept(challenge: seq<Byte>)
    requires challenge != []
  {
    Needs(ZK.Magnitude(DecodeBigInteger(challenge)), |challenge|)
  }

  /** Preprocess once, with the proof run between its objects, then transfer as often as asked, in both modes. The
      session starts exactly when the challenge is kept; each transfer then delivers the chosen input exactly when
      its masked inputs survive the text. */
  method Session<G(==, !new)>(d: DlogGroup<G>, codec: Codec<G>, kdf: Kdf<G>, soundness: nat, c: PreprocessCoins,
                              transfers: seq<Transfer<G>>)
      returns (outputs: Outcome<seq<Outcome<Output<G>>>>)
    requires ValidGroup(d) && ValidCodec(d, codec) && ValidKdf(kdf) && DH.SoundnessValid(soundness, d.order)
    requires ValidCoins(d.order, soundness, c)
    requires forall i :: 0 <= i < |transfers| ==> ValidTransfer(d, transfers[i])
    ensures outputs.Returned? <==> ChallengeKept(c.challenge)
    ensures outputs.Returned? ==> |outputs.value| == |transfers|
    ensures outputs.Returned? ==> forall i :: 0 <= i < |transfers| ==>
      (outputs.value[i] == Returned(ChosenInput(transfers[i])) <==>
       Survives(d, kdf, ReceiverPreprocess(d, c.y, c.alpha0), transfers[i]))
  {
    hide ValidGroup, ValidCodec, ValidKdf, RunTransfer, Survives;
    var sent := ReceiverPreprocess(d, c.y, c.alpha0);
    HonestPreprocess(d, c.y, c.alpha0);
    StatementMeansSeparated(d, sent, c.alpha0);
    var verdict := ZK.HonestRun(d, soundness, Statement(d, sent), c.alpha0, c.trapdoor, c.sample, c.challenge, c.r,
                                c.id);
    var pre :- SenderPreprocess(d, sent.g1, sent.h0, sent.h1, verdict);
    var xs := [];
    for i := 0 to |transfers|
      invariant |xs| == i
      invariant forall j :: 0 <= j < i ==>
        (xs[j] == Returned(ChosenInput(transfers[j])) <==> Survives(d, kdf, sent, transfers[j]))
    {
      TransferDelivers(d, codec, kdf, pre, transfers[i]);
      xs := xs + [RunTransfer(d, codec, kdf, pre, transfers[i])];
    }
    return Returned(xs);
  }

  // ---------- what the sender's message hides ----------

  /** A pair chosen for both branches of separated values is the pair of identities. */
  lemma BothChosen<G(!new)>(d: DlogGroup<G>, pre: Preprocess<G>, alpha: int, g: G, h: G, r: int, r': int)
    requires ValidGroup(d) && MembersOf(d, pre) && Separated(d, pre, alpha) && d.isMember(g) && d.isMember(h)
    requires Chosen(d, pre.g0, g, pre.h0, h, r) && Chosen(d, pre.g1, g, pre.h1, h, r')
    ensures g == d.identity && h == d.identity
  {
    var a, b := Log(d, pre.g0), Log(d, pre.g1);
    MemberIsPower(d, pre.g0);
    MemberIsPower(d, pre.g1);
    ChosenExponents(d, pre.g0, g, pre.h0, h, a, alpha, r);
    ChosenExponents(d, pre.g1, g, pre.h1, h, b, alpha + 1, r');
    PowersEqual(d, g, a * r, g, b * r');
    PowersEqual(d, h, a * r * alpha, h, b * r' * (alpha + 1));
    ZeroExponent(d.order, a * r, b * r', alpha);
    IdentityPower(d);
    PowersEqual(d, g, a * r, d.identity, 0);
    CongScale(a * r, 0, alpha, d.order);
    PowersEqual(d, h, a * r * alpha, d.identity, 0);
  }

  lemma ChosenExponents<G(!new)>(d: DlogGroup<G>, w: G, g: G, y: G, h: G, a: int, alpha: int, r: int)
    requires ValidGroup(d) && IsPower(d, w, a) && y == d.Exp(w, alpha) && Chosen(d, w, g, y, h, r)
    ensures IsPower(d, g, a * r) && IsPower(d, h, a * r * alpha)
  {
    PowerExp(d, w, a, r);
    PowerExp(d, w, a, alpha);
    PowerExp(d, y, a * alpha, r);
    assert a * alpha * r == a * r * alpha by { MulAssoc(a, alpha, r); MulAssoc(a, r, alpha); }
  }

  lemma ZeroExponent(q: int, c: int, c': int, alpha: int)
    requires Cong(c, c', q) && Cong(c * alpha, c' * (alpha + 1), q)
    ensures Cong(c, 0, q)
  {
    CongSym(c, c', q);
    CongScale(c', c, alpha + 1, q);
    CongTrans(c * alpha, c' * (alpha + 1), c * (alpha + 1), q);
    assert c * (alpha + 1) - c * alpha == c;
    CongRefl(c * alpha, q);
    CongSub(c * alpha, c * (alpha + 1), c * alpha, c * alpha, q);
    CongSym(0, c, q);
  }

  /** Once the values are separated, every tuple leaves at least one branch perfectly hidden, except
      the pair of identities, for which neither is. */
  lemma SomeBranchHidden<G(!new)>(d: DlogGroup<G>, pre: Preprocess<G>, alpha: int, g: G, h: G)
    requires ValidGroup(d) && MembersOf(d, pre) && Separated(d, pre, alpha) && d.isMember(g) && d.isMember(h)
    ensures Hides(d, pre.g0, g, pre.h0, h) || Hides(d, pre.g1, g, pre.h1, h) <==>
            !(g == d.identity && h == d.identity)
  {
    HidesIffNotChosen(d, pre.g0, g, pre.h0, h);
    HidesIffNotChosen(d, pre.g1, g, pre.h1, h);
    if g == d.identity && h == d.identity {
      assert Chosen(d, pre.g0, g, pre.h0, h, 0);
      assert Chosen(d, pre.g1, g, pre.h1, h, 0);
    } else if !Hides(d, pre.g0, g, pre.h0, h) && !Hides(d, pre.g1, g, pre.h1, h) {
      var r :| Chosen(d, pre.g0, g, pre.h0, h, r);
      var r' :| Chosen(d, pre.g1, g, pre.h1, h, r');
      BothChosen(d, pre, alpha, g, h, r, r');
    }
  }

  /** Against any receiver: a pair that is not of members is refused, and any other leaves a branch hidden, unless it is
      the pair of identities. */
  lemma AnyPair<G(!new)>(d: DlogGroup<G>, kdf: Kdf<G>, pre: Preprocess<G>, alpha: int, g: G, h: G, x0: G, x1: G,
                         b0: Bytes, b1: Bytes, k: Coins)
    requires ValidGroup(d) && ValidKdf(kdf) && MembersOf(d, pre) && Separated(d, pre, alpha)
    ensures SendElements(d, pre, g, h, x0, x1, k).Returned? || SendBytes(d, kdf, pre, g, h, b0, b1, k).Returned? ==>
            (Hides(d, pre.g0, g, pre.h0, h) || Hides(d, pre.g1, g, pre.h1, h) <==>
             !(g == d.identity && h == d.identity))
  {
    hide ValidGroup, Hides, Separated, Pads, Xor;
    if d.isMember(g) && d.isMember(h) {
      SomeBranchHidden(d, pre, alpha, g, h);
    }
  }

  /** A hidden branch: with the same `u` every member is the pad, for some coins. */
  lemma PadReaches<G(!new)>(d: DlogGroup<G>, w: G, x: G, y: G, z: G, s: int, t: int, v: G) returns (s': int, t': int)
    requires ValidGroup(d) && AllMembers(d, w, x, y, z) && Hides(d, w, x, y, z) && d.isMember(v)
    ensures Rand(d, w, x, y, z, s', t') == (Rand(d, w, x, y, z, s, t).0, v)
  {
    hide ValidGroup, Rand;
    var u := Rand(d, w, x, y, z, s, t).1;
    PadMembers(d, w, x, y, z, s, t);
    Laws(d, u, u, u);
    var m := d.mul(d.inv(u), v);
    Laws(d, d.inv(u), v, v);
    Laws(d, u, d.inv(u), v);
    Laws(d, v, v, v);
    var ds, dt :| Shifts(d, w, x, y, z, m, ds, dt);
    s', t' := s + ds, t + dt;
    assert ShiftAt(d, w, x, y, z, m, ds, dt, s, t);
  }

  /** So the pair of a hidden branch could have carried any other input. */
  lemma OtherBranchInput<G(!new)>(d: DlogGroup<G>, w: G, g: G, y: G, h: G, s: int, t: int, x: G, x': G)
      returns (s': int, t': int)
    requires ValidGroup(d) && AllMembers(d, w, g, y, h) && Hides(d, w, g, y, h) && d.isMember(x) && d.isMember(x')
    ensures Branch(d, w, g, y, h, x', s', t') == Branch(d, w, g, y, h, x, s, t)
  {
    hide ValidGroup, Rand, Hides;
    var u := Rand(d, w, g, y, h, s, t).1;
    PadMembers(d, w, g, y, h, s, t);
    var c := d.mul(x, u);
    Laws(d, x, u, u);
    Laws(d, x', x', x');
    Laws(d, c, d.inv(x'), c);
    var v := d.mul(c, d.inv(x'));
    s', t' := PadReaches(d, w, g, y, h, s, t, v);
    MaskIff(d, x', v, c);
  }

  /** What hiding means for the message: with the first branch hidden, the same message could have
      carried any other first input, under shifted coins. */
  lemma OtherFirstInput<G(!new)>(d: DlogGroup<G>, pre: Preprocess<G>, g: G, h: G, x0: G, x0': G, x1: G, k: Coins)
      returns (k': Coins)
    requires ValidGroup(d) && MembersOf(d, pre) && d.isMember(g) && d.isMember(h)
    requires d.isMember(x0) && d.isMember(x0') && Hides(d, pre.g0, g, pre.h0, h)
    ensures SendElements(d, pre, g, h, x0', x1, k') == SendElements(d, pre, g, h, x0, x1, k)
  {
    hide ValidGroup, Rand, Hides;
    var s', t' := OtherBranchInput(d, pre.g0, g, pre.h0, h, k.s0, k.t0, x0, x0');
    k' := k.(s0 := s', t0 := t');
  }

  /** With the first branch hidden, the same message of byte arrays could have carried any other first input of that
      length for which the derivation has a key: some member is derived to the mask that it needs. */
  lemma OtherFirstBytes<G(!new)>(d: DlogGroup<G>, kdf: Kdf<G>, pre: Preprocess<G>, g: G, h: G, x0: Bytes, x0': Bytes,
                                 x1: Bytes, k: Coins, v: G) returns (k': Coins)
    requires ValidGroup(d) && ValidKdf(kdf) && MembersOf(d, pre) && d.isMember(g) && d.isMember(h) && d.isMember(v)
    requires |x0| == |x0'| == |x1| && Hides(d, pre.g0, g, pre.h0, h)
    requires kdf.derive(v, |x0|) == Xor(SendBytes(d, kdf, pre, g, h, x0, x1, k).value.c0, x0')
    ensures SendBytes(d, kdf, pre, g, h, x0', x1, k') == SendBytes(d, kdf, pre, g, h, x0, x1, k)
  {
    hide ValidGroup, Rand, Hides;
    var s', t' := PadReaches(d, pre.g0, g, pre.h0, h, k.s0, k.t0, v);
    k' := k.(s0 := s', t0 := t');
    MaskSwap(kdf, v, x0', SendBytes(d, kdf, pre, g, h, x0, x1, k).value.c0);
  }

  lemma MaskSwap<G(!new)>(kdf: Kdf<G>, v: G, x: Bytes, c: Bytes)
    requires ValidKdf(kdf) && |c| == |x| && kdf.derive(v, |x|) == Xor(c, x)
    ensures Xor(kdf.derive(v, |x|), x) == c
  {
    forall i | 0 <= i < |x| ensures Xor(Xor(c, x), x)[i] == c[i] {
      XorByteTwice(x[i], c[i]);
      ByteCommutes(c[i], x[i]);
    }
  }

  lemma ByteCommutes(a: bv8, b: bv8)
    ensures a ^ b == b ^ a && (a ^ b) ^ b == a
  {
  }

  /** The same message and preprocessed values with the two branches exchanged. */
  function SwapMsg<G, X>(m: SenderMsg<G, X>): SenderMsg<G, X> {
    SenderMsg(m.w1, m.c1, m.w0, m.c0)
  }

  function SwapPre<G>(pre: Preprocess<G>): Preprocess<G> {
    Preprocess(pre.g1, pre.g0, pre.h1, pre.h0)
  }

  function SwapCoins(k: Coins): Coins {
    Coins(k.s1, k.t1, k.s0, k.t0)
  }

  lemma SendSwapped<G>(d: DlogGroup<G>, pre: Preprocess<G>, g: G, h: G, x0: G, x1: G, k: Coins)
    requires d.isMember(g) && d.isMember(h)
    ensures SendElements(d, pre, g, h, x0, x1, k).Returned?
    ensures SendElements(d, SwapPre(pre), g, h, x1, x0, SwapCoins(k)) ==
            Returned(SwapMsg(SendElements(d, pre, g, h, x0, x1, k).value))
  {
  }

  lemma SendBytesSwapped<G(!new)>(d: DlogGroup<G>, kdf: Kdf<G>, pre: Preprocess<G>, g: G, h: G, x0: Bytes, x1: Bytes,
                                  k: Coins)
    requires ValidKdf(kdf) && d.isMember(g) && d.isMember(h) && |x0| == |x1|
    ensures SendBytes(d, kdf, pre, g, h, x0, x1, k).Returned?
    ensures SendBytes(d, kdf, SwapPre(pre), g, h, x1, x0, SwapCoins(k)) ==
            Returned(SwapMsg(SendBytes(d, kdf, pre, g, h, x0, x1, k).value))
  {
    hide Rand, Xor;
  }

  lemma OtherSecondBytes<G(!new)>(d: DlogGroup<G>, kdf: Kdf<G>, pre: Preprocess<G>, g: G, h: G, x0: Bytes, x1: Bytes,
                                  x1': Bytes, k: Coins, v: G) returns (k': Coins)
    requires ValidGroup(d) && ValidKdf(kdf) && MembersOf(d, pre) && d.isMember(g) && d.isMember(h) && d.isMember(v)
    requires |x0| == |x1| == |x1'| && Hides(d, pre.g1, g, pre.h1, h)
    requires kdf.derive(v, |x1|) == Xor(SendBytes(d, kdf, pre, g, h, x0, x1, k).value.c1, x1')
    ensures SendBytes(d, kdf, pre, g, h, x0, x1', k') == SendBytes(d, kdf, pre, g, h, x0, x1, k)
  {
    hide ValidGroup, SendBytes, Hides, Xor;
    SendBytesSwapped(d, kdf, pre, g, h, x0, x1, k);
    var swapped := OtherFirstBytes(d, kdf, SwapPre(pre), g, h, x1, x1', x0, SwapCoins(k), v);
    k' := SwapCoins(swapped);
    SendBytesSwapped(d, kdf, pre, g, h, x0, x1', k');
  }

  /** And with the second branch hidden, any other second input. */
  lemma OtherSecondInput<G(!new)>(d: DlogGroup<G>, pre: Preprocess<G>, g: G, h: G, x0: G, x1: G, x1': G, k: Coins)
      returns (k': Coins)
    requires ValidGroup(d) && MembersOf(d, pre) && d.isMember(g) && d.isMember(h)
    requires d.isMember(x1) && d.isMember(x1') && Hides(d, pre.g1, g, pre.h1, h)
    ensures SendElements(d, pre, g, h, x0, x1', k') == SendElements(d, pre, g, h, x0, x1, k)
  {
    hide ValidGroup, SendElements, Hides;
    var swapped := OtherFirstInput(d, SwapPre(pre), g, h, x1, x1', x0, SwapCoins(k));
    k' := SwapCoins(swapped);
    SendSwapped(d, pre, g, h, x0, x1, k);
    SendSwapped(d, pre, g, h, x0, x1', k');
  }

  // ---------- the distribution of a hidden branch ----------

  /** The pair `(w_i, c_i)` that one branch sends for the input `x`. */
  function Branch<G>(d: DlogGroup<G>, w: G, g: G, y: G, h: G, x: G, s: int, t: int): (G, G) {
    var p := Rand(d, w, g, y, h, s, t);
    (p.0, d.mul(x, p.1))
  }

  /** Exactly one pair of coins in `[0, q)` sends `(u, c)`. */
  ghost predicate SentOnce<G(!new)>(d: DlogGroup<G>, w: G, g: G, y: G, h: G, x: G, u: G, c: G) {
    exists s: nat, t: nat :: SentBy(d, w, g, y, h, x, u, c, s, t) &&
      forall s': nat, t': nat :: SentBy(d, w, g, y, h, x, u, c, s', t') ==> s' == s && t' == t
  }

  predicate SentBy<G(==)>(d: DlogGroup<G>, w: G, g: G, y: G, h: G, x: G, u: G, c: G, s: nat, t: nat) {
    s < d.order && t < d.order && Branch(d, w, g, y, h, x, s, t) == (u, c)
  }

  /** Whatever the input, the branch sends every pair of members from exactly one pair of coins. */
  ghost predicate Uniform<G(!new)>(d: DlogGroup<G>, w: G, g: G, y: G, h: G) {
    forall x, u, c :: d.isMember(x) && d.isMember(u) && d.isMember(c) ==> SentOnce(d, w, g, y, h, x, u, c)
  }

  lemma MaskIff<G(!new)>(d: DlogGroup<G>, x: G, v: G, c: G)
    requires ValidGroup(d) && d.isMember(x) && d.isMember(v) && d.isMember(c)
    ensures d.isMember(d.mul(c, d.inv(x)))
    ensures d.mul(x, v) == c <==> v == d.mul(c, d.inv(x))
  {
    var q, l: int, m: int, n: int := d.order, Log(d, x), Log(d, v), Log(d, c);
    MemberIsPower(d, x);
    MemberIsPower(d, v);
    MemberIsPower(d, c);
    PowerMul(d, x, l, v, m);
    PowerInv(d, x, l);
    PowerMul(d, c, n, d.inv(x), -l);
    PowersEqual(d, d.mul(x, v), l + m, c, n);
    PowersEqual(d, v, m, d.mul(c, d.inv(x)), n + -l);
    CongRefl(l, q);
    if Cong(l + m, n, q) { CongSub(l + m, n, l, l, q); }
    if Cong(m, n + -l, q) { CongAdd(m, n + -l, l, l, q); }
  }

  lemma HiddenIsUniform<G(!new)>(d: DlogGroup<G>, w: G, g: G, y: G, h: G)
    requires ValidGroup(d) && AllMembers(d, w, g, y, h) && Hides(d, w, g, y, h) && !(w == d.identity && y == d.identity)
    ensures Uniform(d, w, g, y, h)
  {
    hide ValidGroup, Hides, Rand;
    HidesIffNotChosen(d, w, g, y, h);
    forall x, u, c | d.isMember(x) && d.isMember(u) && d.isMember(c) ensures SentOnce(d, w, g, y, h, x, u, c) {
      Laws(d, x, x, x);
      Laws(d, c, d.inv(x), c);
      var s, t := RandBijective(d, w, g, y, h, u, d.mul(c, d.inv(x)));
      forall s': nat, t': nat
        ensures SentBy(d, w, g, y, h, x, u, c, s', t') <==>
                s' < d.order && t' < d.order && Rand(d, w, g, y, h, s', t') == (u, d.mul(c, d.inv(x)))
      {
        PadMembers(d, w, g, y, h, s', t');
        MaskIff(d, x, Rand(d, w, g, y, h, s', t').1, c);
      }
      assert SentBy(d, w, g, y, h, x, u, c, s, t);
    }
  }

  /** Sender privacy of the whole transfer: for separated values with bases that are not the identity, every pair but
      the identities leaves one branch whose message is uniform on `G x G`, whatever its input. */
  lemma SomeBranchUniform<G(!new)>(d: DlogGroup<G>, pre: Preprocess<G>, alpha: int, g: G, h: G)
    requires ValidGroup(d) && MembersOf(d, pre) && Separated(d, pre, alpha) && d.isMember(g) && d.isMember(h)
    requires pre.g0 != d.identity && pre.g1 != d.identity
    ensures Uniform(d, pre.g0, g, pre.h0, h) || Uniform(d, pre.g1, g, pre.h1, h) <==>
            !(g == d.identity && h == d.identity)
  {
    SomeBranchHidden(d, pre, alpha, g, h);
    if Hides(d, pre.g0, g, pre.h0, h) {
      HiddenIsUniform(d, pre.g0, g, pre.h0, h);
    } else if Hides(d, pre.g1, g, pre.h1, h) {
      HiddenIsUniform(d, pre.g1, g, pre.h1, h);
    } else {
      ChosenNotUniform(d, pre.g0, g, pre.h0, h);
      ChosenNotUniform(d, pre.g1, g, pre.h1, h);
    }
  }

  /** A branch that is not hidden sends only one `c` for each `u`, so it is not uniform. */
  lemma ChosenNotUniform<G(!new)>(d: DlogGroup<G>, w: G, g: G, y: G, h: G)
    requires ValidGroup(d) && AllMembers(d, w, g, y, h) && !Hides(d, w, g, y, h)
    ensures !Uniform(d, w, g, y, h)
  {
    HidesIffNotChosen(d, w, g, y, h);
    var r :| Chosen(d, w, g, y, h, r);
    var e, x := d.identity, d.generator;
    hide Hides, Rand;
    IdentityMember(d);
    if Uniform(d, w, g, y, h) {
      assert SentOnce(d, w, g, y, h, e, e, x);
      var s: nat, t: nat :| SentBy(d, w, g, y, h, e, e, x, s, t);
      ChosenRevealed(d, w, g, y, h, r, s, t);
      OneToAny(d, r);
      var v := Rand(d, w, g, y, h, s, t).1;
      hide ValidGroup;
      Laws(d, v, v, v);
    }
  }

  lemma IdentityMember<G(!new)>(d: DlogGroup<G>)
    requires ValidGroup(d)
    ensures d.isMember(d.identity) && d.isMember(d.generator) && d.generator != d.identity
  {
  }

  lemma OneToAny<G(!new)>(d: DlogGroup<G>, r: int)
    requires ValidGroup(d)
    ensures d.Exp(d.identity, r) == d.identity
  {
    IdentityPower(d);
    PowerExp(d, d.identity, 0, r);
    CongRefl(0, d.order);
    PowersEqual(d, d.Exp(d.identity, r), 0 * r, d.identity, 0);
  }
}
