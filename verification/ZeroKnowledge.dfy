/** The proof of knowledge built from the extended Diffie-Hellman protocol and Pedersen commitments: the verifier
    commits to its challenge before it sees the first message (src/interactive_mid_protocols/ZeroKnowledge.cpp). */
module ZeroKnowledge {
  import opened Outcomes
  import opened Congruence
  import opened Challenges
  import opened IntegerEncoding
  import opened DlogGroups
  import opened PedersenCommitment
  import opened CommitmentProtocol
  import DH = SigmaDHExtended

  function Magnitude(e: int): nat {
    if e < 0 then -e else e
  }

  /** The verifier makes its challenge positive, in the same number of bytes. */
  method PositiveChallenge(bytes: seq<Byte>) returns (bs: seq<Byte>)
    requires bytes != []
    ensures |bs| == |bytes|
    ensures var e, k := Magnitude(DecodeBigInteger(bytes)), |bytes|;
            DecodeBigInteger(bs) == if Fits(e, k) then e else e - Pow(256, k)
  {
    hide Pow, DecodeBigInteger, Encoded;
    var e := DecodeBigInteger(bytes);
    DecodeRange(bytes);
    bs := bytes;
    if e < 0 {
      var buffer: array<Byte> := new Byte[|bytes|](i requires 0 <= i < |bytes| => bytes[i]);
      ghost var before := buffer[..];
      EncodeBigInteger(-e, buffer);
      bs := buffer[..];
      EncodeDecode(-e, before);
      if !Fits(-e, |bytes|) {
        TopBitIsSign(-e, before);
      }
    }
  }

  /** A magnitude of a `k`-byte challenge is below the order, under the soundness check. */
  lemma ChallengeInRange(t: nat, q: nat, bytes: seq<Byte>)
    requires DH.SoundnessValid(t, q) && bytes != [] && |bytes| == t / 8
    ensures Pow(256, |bytes|) < q && 2 * Magnitude(DecodeBigInteger(bytes)) <= Pow(256, |bytes|)
  {
    ByteChallenges(t / 8, t);
    DecodeRange(bytes);
  }

  /** Committer and receiver with the same parameters over one channel that is empty. */
  ghost predicate Paired<G(!new)>(committer: Committer<G>, receiver: Receiver<G>)
    reads committer, receiver, committer.channel
  {
    && committer.d == receiver.d && committer.h == receiver.h && committer.channel == receiver.channel
    && committer.channel.queue == []
  }

  method CommitPhase<G(==, !new)>(committer: Committer<G>, receiver: Receiver<G>, value: int, r: int, id: int)
      returns (o: Outcome<int>)
    requires Paired(committer, receiver)
    modifies committer, receiver, committer.channel
    ensures Paired(committer, receiver)
    ensures match Generate(committer.d, committer.h, value, r)
            case Threw(_) => o == Threw(InvalidArgument)
            case Returned(c) =>
              && o == Returned(id)
              && id in committer.commitmentMap && committer.commitmentMap[id] == PhaseValues(value, r, c)
              && id in receiver.commitmentMap && receiver.commitmentMap[id] == c
  {
    hide Generate;
    var _ :- committer.Commit(value, r, id, false);
    var received := receiver.ReceiveCommitment();
    return Returned(received);
  }

  method OpenPhase<G(==, !new)>(committer: Committer<G>, receiver: Receiver<G>, id: int)
      returns (shown: Outcome<Option<int>>)
    requires Paired(committer, receiver) && id in committer.commitmentMap && id in receiver.commitmentMap
    modifies committer.channel
    ensures Paired(committer, receiver)
    ensures shown == VerifyDecommitment(committer.d, committer.h, receiver.commitmentMap[id],
                                        committer.commitmentMap[id].x, committer.commitmentMap[id].r)
  {
    hide VerifyDecommitment;
    var _ := committer.Decommit(id, false);
    shown := receiver.ReceiveDecommitment(id);
  }

  /** The prover's answer to whatever was opened: it refuses what the commitment receiver rejects, and a challenge that
      does not need exactly `t/8` bytes. */
  method Respond<G>(prover: DH.Prover<G>, shown: Outcome<Option<int>>) returns (z: Outcome<int>)
    requires prover.d.order > 0
    modifies prover
    ensures shown.Threw? ==> z == Threw(shown.error)
    ensures shown.Returned? && shown.value.None? ==> z == Threw(CheatAttempt)
    ensures shown.Returned? && shown.value.Some? ==>
      z == if Needs(shown.value.value, prover.t / 8)
           then Returned(DH.Answer(prover.d.order, old(prover.r), old(prover.w), shown.value.value))
           else Threw(CheatAttempt)
  {
    hide Needs, DecodeBigInteger;
    var value :- shown;
    if value.None? {
      return Threw(CheatAttempt);
    }
    var openedBytes := MinimalBytes(value.value);
    SameLengthIff(value.value, prover.t / 8, |openedBytes|);
    z := prover.ComputeSecondMsg(openedBytes);
  }

  /** What the verifier concludes from the trapdoor it is shown and from the sigma protocol. */
  function Verdict<G(==)>(d: DlogGroup<G>, h: G, trapdoor: int, decision: Outcome<bool>): Outcome<bool> {
    if Validate(d, h, trapdoor) then decision else Returned(false)
  }

  method Conclude<G(==)>(verifier: DH.Verifier<G>, h: G, trapdoor: int, input: DH.CommonInput<G>, a: seq<G>, z: int)
      returns (ok: Outcome<bool>)
    requires verifier.e != [] && |a| >= |input.gs|
    modifies verifier
    ensures ok == Verdict(verifier.d, h, trapdoor, old(verifier.Decision(input, a, z)))
  {
    hide DH.Decide;
    if !Validate(verifier.d, h, trapdoor) {
      return Returned(false);
    }
    ok := verifier.Verify(input, a, z);
  }

  /** An honest run: commitment to the challenge, first message, opening, answer and trapdoor. It is accepted
      exactly when the magnitude of the challenge needs all of its `t/8` bytes. A shorter one is opened to fewer
      bytes, which the prover refuses; the one that does not fit stays negative and cannot be committed to. */
  method HonestRun<G(==, !new)>(d: DlogGroup<G>, t: nat, input: DH.CommonInput<G>, w: int, trapdoor: nat, sample: nat,
                                bytes: seq<Byte>, r: nat, id: int) returns (ok: Outcome<bool>)
    requires ValidGroup(d) && DH.SoundnessValid(t, d.order) && DH.Members(d, input.gs) && DH.Related(d, input, w)
    requires |bytes| == t / 8 && bytes != [] && sample < d.order && r < d.order
    ensures var e, k := Magnitude(DecodeBigInteger(bytes)), |bytes|;
            ok == if Needs(e, k) then Returned(true)
                  else if Fits(e, k) then Threw(CheatAttempt) else Threw(InvalidArgument)
  {
    hide ValidGroup, Needs, Fits, Pow, DecodeBigInteger, VerifyDecommitment, Generate, Commitment, DH.Members,
      DH.Related;
    ghost var e, k := Magnitude(DecodeBigInteger(bytes)), |bytes|;
    ChallengeInRange(t, d.order, bytes);
    var channel := new Channel<G>();
    var h := d.Exp(d.generator, trapdoor);
    GeneratorExp(d, trapdoor);
    var committer := new Committer<G>(d, h, channel);
    var receiver := new Receiver<G>(d, h, channel);
    var prover := new DH.Prover<G>(d, t);
    var verifier := new DH.Verifier<G>(d, t);
    var challenge := PositiveChallenge(bytes);
    verifier.SetChallenge(challenge);
    var value := DecodeBigInteger(challenge);
    NeedsAndFits(e, k);
    CommittedValue(d, e, k, value, h, r);
    var received :- CommitPhase(committer, receiver, value, r, id);
    var a := prover.ComputeFirstMsg(input, w, sample);
    var shown := OpenPhase(committer, receiver, received);
    var z :- Respond(prover, shown);
    Accepted(verifier, input, sample, w);
    ok := Conclude(verifier, h, trapdoor, input, a.value, z);
  }

  /** For instance the zero challenge of two or more bytes is refused. */
  lemma ZeroIsShort(k: nat)
    requires k >= 2
    ensures !Needs(0, k) && Fits(0, k)
  {
    assert Pow(256, k) > 0 && Pow(256, k - 1) > 0;
  }

  lemma NeedsAndFits(e: int, k: nat)
    ensures Needs(e, k) ==> Fits(e, k)
  {
  }

  /** What is committed to is the magnitude when it fits, and negative, so refused, when it does not. */
  lemma CommittedValue<G(!new)>(d: DlogGroup<G>, e: nat, k: nat, value: int, h: G, r: nat)
    requires ValidGroup(d) && d.isMember(h) && r < d.order
    requires Pow(256, k) < d.order && 2 * e <= Pow(256, k)
    requires value == if Fits(e, k) then e else e - Pow(256, k)
    ensures if Fits(e, k) then value == e && Opens(d, h, Commitment(d, h, value, r), value, r)
            else Generate(d, h, value, r) == Threw(InvalidArgument)
    ensures Fits(e, k) ==> Generate(d, h, value, r) == Returned(Commitment(d, h, value, r))
  {
    if Fits(e, k) {
      HonestOpens(d, h, value, r);
    }
  }

  lemma SameLengthIff(e: int, k: nat, j: nat)
    requires Needs(e, j)
    ensures j == k <==> Needs(e, k)
  {
    if Needs(e, k) {
      NeedsOne(e, j, k);
    }
  }

  /** The verifier accepts the honest messages for the challenge it holds. */
  lemma Accepted<G(!new)>(v: DH.Verifier<G>, input: DH.CommonInput<G>, sample: int, w: int)
    requires ValidGroup(v.d) && DH.Members(v.d, input.gs) && DH.Related(v.d, input, w) && v.e != []
    ensures v.Decision(input, DH.FirstMsg(v.d, input.gs, sample),
                       DH.Answer(v.d.order, sample, w, DecodeBigInteger(v.e))) == Returned(true)
  {
    var e := DecodeBigInteger(v.e);
    DH.FirstMembers(v.d, input.gs, sample);
    DH.Completeness(v.d, input, sample, w, e);
    DH.DecisionIsDocumented(v, input, DH.FirstMsg(v.d, input.gs, sample), DH.Answer(v.d.order, sample, w, e));
  }
}
