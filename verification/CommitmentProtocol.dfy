/** Committer, receiver and FIFO channel of the Pedersen commitment, over every interleaving of their steps. */
module CommitmentProtocol {
  import opened Outcomes
  import opened Congruence
  import opened DlogGroups
  import opened PedersenCommitment

  /** What the committer keeps for an id. */
  datatype PhaseValues<G> = PhaseValues(x: int, r: int, c: G)

  datatype Message<G> =
    | CommitmentMsg(id: int, c: G)
    | DecommitmentMsg(x: int, r: int)

  class Channel<G> {
    var queue: seq<Message<G>>

    constructor ()
      ensures queue == []
    {
      queue := [];
    }

    /** Appends the message, unless the write throws. */
    method Write(m: Message<G>, fails: bool) returns (o: Outcome<()>)
      modifies this
      ensures fails ==> o == Threw(IllegalState) && queue == old(queue)
      ensures !fails ==> o == Returned(()) && queue == old(queue) + [m]
    {
      if fails {
        return Threw(IllegalState);
      }
      queue := queue + [m];
      return Returned(());
    }

    method Read() returns (m: Message<G>)
      requires queue != []
      modifies this
      ensures m == old(queue[0]) && queue == old(queue[1..])
    {
      m := queue[0];
      queue := queue[1..];
    }
  }

  class Committer<G> {
    const d: DlogGroup<G>
    const h: G
    const channel: Channel<G>
    var commitmentMap: map<int, PhaseValues<G>>

    constructor (d: DlogGroup<G>, h: G, channel: Channel<G>)
      ensures this.d == d && this.h == h && this.channel == channel && commitmentMap == map[]
    {
      this.d, this.h, this.channel := d, h, channel;
      commitmentMap := map[];
    }

    /** Stores before it sends, and removes the id again when the write throws. */
    method Commit(x: int, r: int, id: int, fails: bool) returns (o: Outcome<()>)
      modifies this, channel
      ensures Generate(d, h, x, r).Threw? ==>
        o == Threw(InvalidArgument) && commitmentMap == old(commitmentMap) && channel.queue == old(channel.queue)
      ensures Generate(d, h, x, r).Returned? && fails ==>
        o == Returned(()) && commitmentMap == old(commitmentMap) - {id} && channel.queue == old(channel.queue)
      ensures Generate(d, h, x, r).Returned? && !fails ==>
        && o == Returned(())
        && commitmentMap == old(commitmentMap)[id := PhaseValues(x, r, Generate(d, h, x, r).value)]
        && channel.queue == old(channel.queue) + [CommitmentMsg(id, Generate(d, h, x, r).value)]
    {
      var c :- Generate(d, h, x, r);
      commitmentMap := commitmentMap[id := PhaseValues(x, r, c)];
      var sent := channel.Write(CommitmentMsg(id, c), fails);
      if sent.Threw? {
        commitmentMap := commitmentMap - {id};
      }
      return Returned(());
    }

    /** Sends the stored opening; a write that throws is not caught. */
    method Decommit(id: int, fails: bool) returns (o: Outcome<()>)
      requires id in commitmentMap
      modifies channel
      ensures fails ==> o == Threw(IllegalState) && channel.queue == old(channel.queue)
      ensures !fails ==> o == Returned(())
      ensures !fails ==>
        channel.queue == old(channel.queue) + [DecommitmentMsg(commitmentMap[id].x, commitmentMap[id].r)]
    {
      o := channel.Write(DecommitmentMsg(commitmentMap[id].x, commitmentMap[id].r), fails);
    }
  }

  class Receiver<G(==, !new)> {
    const d: DlogGroup<G>
    const h: G
    const channel: Channel<G>
    var commitmentMap: map<int, G>

    constructor (d: DlogGroup<G>, h: G, channel: Channel<G>)
      ensures this.d == d && this.h == h && this.channel == channel && commitmentMap == map[]
    {
      this.d, this.h, this.channel := d, h, channel;
      commitmentMap := map[];
    }

    method ReceiveCommitment() returns (id: int)
      requires channel.queue != [] && channel.queue[0].CommitmentMsg?
      modifies this, channel
      ensures id == old(channel.queue[0].id) && channel.queue == old(channel.queue[1..])
      ensures commitmentMap == old(commitmentMap)[id := old(channel.queue[0].c)]
    {
      var m := channel.Read();
      commitmentMap := commitmentMap[m.id := m.c];
      return m.id;
    }

    method ReceiveDecommitment(id: int) returns (o: Outcome<Option<int>>)
      requires channel.queue != [] && channel.queue[0].DecommitmentMsg? && id in commitmentMap
      modifies channel
      ensures channel.queue == old(channel.queue[1..])
      ensures o == VerifyDecommitment(d, h, commitmentMap[id], old(channel.queue[0].x), old(channel.queue[0].r))
      ensures ValidGroup(d) && d.isMember(h) && d.isMember(commitmentMap[id]) ==>
        var x, r := old(channel.queue[0].x), old(channel.queue[0].r);
        o == Returned(if Matches(d, h, commitmentMap[id], x, r) then Some(x) else None)
    {
      hide ValidGroup, VerifyDecommitment, Matches;
      var m := channel.Read();
      if ValidGroup(d) && d.isMember(h) {
        DecommitmentLaw(d, h, commitmentMap[id], m.x, m.r);
      }
      return VerifyDecommitment(d, h, commitmentMap[id], m.x, m.r);
    }
  }

  // ---------- the whole system ----------

  /** An opening that is shown for an id. */
  datatype Claim = Claim(id: int, x: int, r: int)

  /** One step of an interleaving. Ids are unique among the commitments that were sent. A committer may pretend: show
      any opening for a commitment it sent, in place of the one it stored. */
  datatype Event =
    | Commit(x: int, r: int, id: int, fails: bool)
    | Decommit(id: int)
    | Pretend(claim: Claim)
    | Deliver

  datatype State<G> = State(
    sent: map<int, PhaseValues<G>>, received: map<int, G>, queue: seq<Message<G>>,
    expected: seq<Claim>, results: seq<(Claim, Outcome<Option<int>>)>)

  predicate Enabled<G>(s: State<G>, e: Event) {
    match e
    case Commit(_, _, id, _) => id !in s.sent
    case Decommit(id) => id in s.sent
    case Pretend(claim) => claim.id in s.sent
    case Deliver =>
      s.queue != [] && (s.queue[0].DecommitmentMsg? ==> s.expected != [] && s.expected[0].id in s.received)
  }

  /** The opening that was stored for an id. */
  function StoredClaim<G>(sent: map<int, PhaseValues<G>>, id: int): Claim
    requires id in sent
  {
    Claim(id, sent[id].x, sent[id].r)
  }

  function Show<G>(s: State<G>, claim: Claim): State<G> {
    s.(queue := s.queue + [DecommitmentMsg(claim.x, claim.r)], expected := s.expected + [claim])
  }

  function Next<G(==)>(d: DlogGroup<G>, h: G, s: State<G>, e: Event): State<G>
    requires Enabled(s, e)
  {
    match e
    case Commit(x, r, id, fails) =>
      var c := Generate(d, h, x, r);
      if c.Threw? || fails then s
      else s.(sent := s.sent[id := PhaseValues(x, r, c.value)], queue := s.queue + [CommitmentMsg(id, c.value)])
    case Decommit(id) => Show(s, StoredClaim(s.sent, id))
    case Pretend(claim) => Show(s, claim)
    case Deliver =>
      match s.queue[0]
      case CommitmentMsg(id, c) => s.(received := s.received[id := c], queue := s.queue[1..])
      case DecommitmentMsg(x, r) =>
        var claim := s.expected[0];
        s.(queue := s.queue[1..], expected := s.expected[1..],
           results := s.results + [(claim, VerifyDecommitment(d, h, s.received[claim.id], x, r))])
  }

  /** The channel, read from its head: new ids with the stored commitments, the openings that were shown for ids already
      delivered, in order, and in the end both maps hold the same commitments. */
  ghost predicate InFlight<G>(received: map<int, G>, queue: seq<Message<G>>, expected: seq<Claim>,
                              sent: map<int, PhaseValues<G>>)
    decreases queue
  {
    if queue == [] then
      && expected == []
      && received.Keys == sent.Keys && forall id :: id in sent ==> received[id] == sent[id].c
    else
      match queue[0]
      case CommitmentMsg(id, c) =>
        && id in sent && c == sent[id].c && id !in received
        && InFlight(received[id := c], queue[1..], expected, sent)
      case DecommitmentMsg(x, r) =>
        && expected != [] && expected[0].id in received && expected[0].id in sent
        && x == expected[0].x && r == expected[0].r
        && InFlight(received, queue[1..], expected[1..], sent)
  }

  ghost predicate Stored<G>(d: DlogGroup<G>, h: G, sent: map<int, PhaseValues<G>>) {
    forall id :: id in sent ==> Generate(d, h, sent[id].x, sent[id].r) == Returned(sent[id].c)
  }

  /** The answer is the value of an opening that matches the commitment under its id, and a rejection otherwise. */
  ghost predicate Judged<G(!new)>(d: DlogGroup<G>, h: G, sent: map<int, PhaseValues<G>>, claim: Claim,
                                  answer: Outcome<Option<int>>)
    requires ValidGroup(d) && d.isMember(h)
  {
    && claim.id in sent && d.isMember(sent[claim.id].c)
    && answer == Returned(if Matches(d, h, sent[claim.id].c, claim.x, claim.r) then Some(claim.x) else None)
  }

  ghost predicate AllJudged<G(!new)>(d: DlogGroup<G>, h: G, sent: map<int, PhaseValues<G>>,
                                     results: seq<(Claim, Outcome<Option<int>>)>)
    requires ValidGroup(d) && d.isMember(h)
  {
    forall i :: 0 <= i < |results| ==> Judged(d, h, sent, results[i].0, results[i].1)
  }

  ghost predicate Invariant<G(!new)>(d: DlogGroup<G>, h: G, s: State<G>)
    requires ValidGroup(d) && d.isMember(h)
  {
    && InFlight(s.received, s.queue, s.expected, s.sent)
    && Stored(d, h, s.sent)
    && AllJudged(d, h, s.sent, s.results)
  }

  /** What is delivered agrees with what was stored, at every moment. */
  lemma {:induction false} ReceivedAgrees<G>(received: map<int, G>, queue: seq<Message<G>>, expected: seq<Claim>,
                                             sent: map<int, PhaseValues<G>>, id: int)
    requires InFlight(received, queue, expected, sent) && id in received
    ensures id in sent && received[id] == sent[id].c
    decreases queue
  {
    if queue == [] {
    } else {
      match queue[0]
      case CommitmentMsg(j, c) => ReceivedAgrees(received[j := c], queue[1..], expected, sent, id);
      case DecommitmentMsg(_, _) => ReceivedAgrees(received, queue[1..], expected[1..], sent, id);
    }
  }

  lemma {:induction false} AppendCommitment<G>(received: map<int, G>, queue: seq<Message<G>>, expected: seq<Claim>,
                                               sent: map<int, PhaseValues<G>>, id: int, p: PhaseValues<G>)
    requires InFlight(received, queue, expected, sent) && id !in sent
    ensures InFlight(received, queue + [CommitmentMsg(id, p.c)], expected, sent[id := p])
    decreases queue
  {
    var longer := queue + [CommitmentMsg(id, p.c)];
    if queue == [] {
      assert longer[1..] == [];
      assert received[id := p.c].Keys == sent[id := p].Keys;
      assert InFlight(received[id := p.c], [], expected, sent[id := p]);
    } else {
      assert longer[1..] == queue[1..] + [CommitmentMsg(id, p.c)];
      match queue[0]
      case CommitmentMsg(j, c) => AppendCommitment(received[j := c], queue[1..], expected, sent, id, p);
      case DecommitmentMsg(_, _) => AppendCommitment(received, queue[1..], expected[1..], sent, id, p);
    }
  }

  lemma {:induction false} AppendClaim<G>(received: map<int, G>, queue: seq<Message<G>>, expected: seq<Claim>,
                                          sent: map<int, PhaseValues<G>>, claim: Claim)
    requires InFlight(received, queue, expected, sent) && claim.id in sent
    ensures InFlight(received, queue + [DecommitmentMsg(claim.x, claim.r)], expected + [claim], sent)
    decreases queue
  {
    var longer := queue + [DecommitmentMsg(claim.x, claim.r)];
    if queue == [] {
      assert longer[1..] == [] && (expected + [claim])[1..] == [];
    } else {
      assert longer[1..] == queue[1..] + [DecommitmentMsg(claim.x, claim.r)];
      match queue[0]
      case CommitmentMsg(j, c) => AppendClaim(received[j := c], queue[1..], expected, sent, claim);
      case DecommitmentMsg(_, _) =>
        assert (expected + [claim])[1..] == expected[1..] + [claim];
        AppendClaim(received, queue[1..], expected[1..], sent, claim);
    }
  }

  /** A delivered opening is judged against the commitment that was stored under its id. */
  lemma ClaimJudged<G(!new)>(d: DlogGroup<G>, h: G, s: State<G>)
    requires ValidGroup(d) && d.isMember(h) && Invariant(d, h, s)
    requires s.queue != [] && s.queue[0].DecommitmentMsg?
    ensures s.expected != [] && s.expected[0].id in s.received
    ensures var claim, m := s.expected[0], s.queue[0];
            Judged(d, h, s.sent, claim, VerifyDecommitment(d, h, s.received[claim.id], m.x, m.r))
  {
    hide ValidGroup, VerifyDecommitment, Matches, Generate;
    var claim := s.expected[0];
    ReceivedAgrees(s.received, s.queue, s.expected, s.sent, claim.id);
    HonestOpens(d, h, s.sent[claim.id].x, s.sent[claim.id].r);
    DecommitmentLaw(d, h, s.sent[claim.id].c, claim.x, claim.r);
  }

  /** Every step keeps the invariant; in particular each delivered opening is judged rightly. */
  lemma StepKeepsInvariant<G(!new)>(d: DlogGroup<G>, h: G, s: State<G>, e: Event)
    requires ValidGroup(d) && d.isMember(h) && Invariant(d, h, s) && Enabled(s, e)
    ensures Invariant(d, h, Next(d, h, s, e))
    ensures forall id :: id in s.sent ==> id in Next(d, h, s, e).sent && Next(d, h, s, e).sent[id] == s.sent[id]
  {
    hide ValidGroup, VerifyDecommitment, Matches, Generate;
    match e
    case Commit(x, r, id, fails) =>
      var c := Generate(d, h, x, r);
      if c.Returned? && !fails {
        AppendCommitment(s.received, s.queue, s.expected, s.sent, id, PhaseValues(x, r, c.value));
      }
    case Decommit(id) => AppendClaim(s.received, s.queue, s.expected, s.sent, StoredClaim(s.sent, id));
    case Pretend(claim) => AppendClaim(s.received, s.queue, s.expected, s.sent, claim);
    case Deliver =>
      if s.queue[0].DecommitmentMsg? {
        ClaimJudged(d, h, s);
      }
  }

  ghost predicate Runnable<G>(d: DlogGroup<G>, h: G, s: State<G>, events: seq<Event>)
    decreases events
  {
    events == [] || (Enabled(s, events[0]) && Runnable(d, h, Next(d, h, s, events[0]), events[1..]))
  }

  ghost function Run<G>(d: DlogGroup<G>, h: G, s: State<G>, events: seq<Event>): State<G>
    requires Runnable(d, h, s, events)
    decreases events
  {
    if events == [] then s else Run(d, h, Next(d, h, s, events[0]), events[1..])
  }

  /** After every run the maps and the channel agree, every opening delivered so far was judged against the commitment
      first sent under its id. */
  lemma {:induction false} RunKeepsInvariant<G(!new)>(d: DlogGroup<G>, h: G, s: State<G>, events: seq<Event>)
    requires ValidGroup(d) && d.isMember(h) && Invariant(d, h, s) && Runnable(d, h, s, events)
    ensures Invariant(d, h, Run(d, h, s, events))
    ensures forall id :: id in s.sent ==> id in Run(d, h, s, events).sent && Run(d, h, s, events).sent[id] == s.sent[id]
    decreases events
  {
    hide ValidGroup, Invariant, Next;
    if events == [] {
    } else {
      StepKeepsInvariant(d, h, s, events[0]);
      RunKeepsInvariant(d, h, Next(d, h, s, events[0]), events[1..]);
    }
  }

  /** The opening that was stored is accepted. */
  lemma StoredIsAccepted<G(!new)>(d: DlogGroup<G>, h: G, sent: map<int, PhaseValues<G>>, id: int,
                                  answer: Outcome<Option<int>>)
    requires ValidGroup(d) && d.isMember(h) && Stored(d, h, sent) && id in sent
    requires Judged(d, h, sent, StoredClaim(sent, id), answer)
    ensures answer == Returned(Some(sent[id].x))
  {
    hide ValidGroup, VerifyDecommitment, Matches, Generate;
    HonestOpens(d, h, sent[id].x, sent[id].r);
    DecommitmentLaw(d, h, sent[id].c, sent[id].x, sent[id].r);
  }

  /** Binding over whole runs: if a run accepts two different values under one id, whatever was shown, then what was
      shown gives the trapdoor, unless the values are zero and the order. */
  lemma RunBinds<G(!new)>(d: DlogGroup<G>, h: G, s: State<G>, i: nat, j: nat, v: int, v': int) returns (trapdoor: nat)
    requires ValidGroup(d) && d.isMember(h) && Invariant(d, h, s) && i < |s.results| && j < |s.results|
    requires s.results[i].0.id == s.results[j].0.id
    requires s.results[i].1 == Returned(Some(v)) && s.results[j].1 == Returned(Some(v'))
    requires v != v' && !(v == 0 && v' == d.order) && !(v == d.order && v' == 0)
    ensures trapdoor < d.order && Validate(d, h, trapdoor)
    ensures Cong((v - v') * trapdoor, s.results[j].0.r - s.results[i].0.r, d.order)
  {
    hide ValidGroup, VerifyDecommitment, Matches, Validate, Cong;
    var a, b := s.results[i].0, s.results[j].0;
    assert Judged(d, h, s.sent, a, s.results[i].1) && Judged(d, h, s.sent, b, s.results[j].1);
    var c := s.sent[a.id].c;
    DecommitmentLaw(d, h, c, a.x, a.r);
    DecommitmentLaw(d, h, c, b.x, b.r);
    trapdoor := ExtractTrapdoor(d, h, c, a.x, a.r, b.x, b.r, v, v');
  }

  function Deliveries(n: nat): (events: seq<Event>)
    ensures |events| == n && forall i :: 0 <= i < n ==> events[i] == Deliver
  {
    seq(n, _ => Deliver)
  }

  /** From position `n` on the results are the judgements of the expected openings, in order. */
  ghost predicate Answered<G(!new)>(d: DlogGroup<G>, h: G, sent: map<int, PhaseValues<G>>,
                                    results: seq<(Claim, Outcome<Option<int>>)>, n: nat, expected: seq<Claim>)
    requires ValidGroup(d) && d.isMember(h)
  {
    && |results| == n + |expected|
    && forall i :: 0 <= i < |expected| ==>
         results[n + i].0 == expected[i] && Judged(d, h, sent, expected[i], results[n + i].1)
  }

  /** A run never gets stuck: from every state it reaches, deliveries alone empty the channel. Then both maps hold the
      same commitments, and the pending openings have been judged in the order they were shown. */
  lemma {:induction false} Drains<G(!new)>(d: DlogGroup<G>, h: G, s: State<G>)
    requires ValidGroup(d) && d.isMember(h) && Invariant(d, h, s)
    ensures Runnable(d, h, s, Deliveries(|s.queue|))
    ensures var t := Run(d, h, s, Deliveries(|s.queue|));
            && t.queue == [] && t.expected == [] && t.sent == s.sent
            && t.received.Keys == s.sent.Keys && (forall id :: id in s.sent ==> t.received[id] == s.sent[id].c)
            && Answered(d, h, s.sent, t.results, |s.results|, s.expected) && t.results[..|s.results|] == s.results
    decreases |s.queue|
  {
    hide ValidGroup, VerifyDecommitment, Judged;
    if s.queue == [] {
      assert s.results[..|s.results|] == s.results;
    } else {
      StepKeepsInvariant(d, h, s, Deliver);
      var next := Next(d, h, s, Deliver);
      Drains(d, h, next);
      assert Deliveries(|s.queue|)[1..] == Deliveries(|next.queue|);
      DrainedResults(d, h, s, next, Run(d, h, next, Deliveries(|next.queue|)));
    }
  }

  lemma DrainedResults<G(!new)>(d: DlogGroup<G>, h: G, s: State<G>, next: State<G>, t: State<G>)
    requires ValidGroup(d) && d.isMember(h) && Invariant(d, h, s) && s.queue != []
    requires Enabled(s, Deliver) && next == Next(d, h, s, Deliver) && Invariant(d, h, next)
    requires Answered(d, h, s.sent, t.results, |next.results|, next.expected)
    requires t.results[..|next.results|] == next.results
    ensures Answered(d, h, s.sent, t.results, |s.results|, s.expected) && t.results[..|s.results|] == s.results
  {
    hide ValidGroup, VerifyDecommitment, Judged, InFlight, Stored;
    if s.queue[0].DecommitmentMsg? {
      var n := |s.results|;
      assert next.results == s.results + [next.results[n]];
      assert t.results[n] == t.results[..n + 1][n] == next.results[n];
      assert t.results[..n] == t.results[..n + 1][..n];
      assert Judged(d, h, s.sent, next.results[n].0, next.results[n].1);
      forall i | 0 <= i < |s.expected|
        ensures t.results[n + i].0 == s.expected[i] && Judged(d, h, s.sent, s.expected[i], t.results[n + i].1)
      {
        if i > 0 {
          assert next.expected[i - 1] == s.expected[i];
          assert t.results[|next.results| + (i - 1)] == t.results[n + i];
        }
      }
    }
  }

  ghost function Start<G>(): State<G> {
    State(map[], map[], [], [], [])
  }

  lemma StartInvariant<G(!new)>(d: DlogGroup<G>, h: G)
    requires ValidGroup(d) && d.isMember(h)
    ensures Invariant(d, h, Start())
  {
  }

  /** The objects, driven by any runnable list of events, follow the specification step by step. Every opening is
      answered with its value when it matches the commitment under its id, and rejected otherwise; a stored one is
      accepted. */
  method Execute<G(!new, ==)>(d: DlogGroup<G>, h: G, events: seq<Event>)
      returns (results: seq<(Claim, Outcome<Option<int>>)>, sent: map<int, PhaseValues<G>>)
    requires ValidGroup(d) && d.isMember(h)
    requires Runnable(d, h, Start(), events)
    ensures results == Run(d, h, Start(), events).results
    ensures sent == Run(d, h, Start(), events).sent
    ensures forall i :: 0 <= i < |results| ==>
      results[i].0.id in sent && Judged(d, h, sent, results[i].0, results[i].1)
    ensures forall i :: 0 <= i < |results| && results[i].0 == StoredClaim(sent, results[i].0.id) ==>
      results[i].1 == Returned(Some(results[i].0.x))
  {
    hide ValidGroup, Generate, VerifyDecommitment, Judged, Matches, InFlight, Stored;
    StartInvariant(d, h);
    var channel := new Channel<G>();
    var committer := new Committer(d, h, channel);
    var receiver := new Receiver(d, h, channel);
    var expected: seq<Claim> := [];
    results := [];
    ghost var s := Start<G>();
    for i := 0 to |events|
      invariant s == State(committer.commitmentMap, receiver.commitmentMap, channel.queue, expected, results)
      invariant Invariant(d, h, s)
      invariant Runnable(d, h, s, events[i..])
      invariant Run(d, h, s, events[i..]) == Run(d, h, Start(), events)
    {
      assert events[i..][0] == events[i] && events[i..][1..] == events[i + 1..];
      StepKeepsInvariant(d, h, s, events[i]);
      s := Next(d, h, s, events[i]);
      match events[i]
      case Commit(x, r, id, fails) =>
        var _ := committer.Commit(x, r, id, fails);
      case Decommit(id) =>
        var _ := committer.Decommit(id, false);
        expected := expected + [StoredClaim(committer.commitmentMap, id)];
      case Pretend(claim) =>
        var _ := channel.Write(DecommitmentMsg(claim.x, claim.r), false);
        expected := expected + [claim];
      case Deliver =>
        if channel.queue[0].CommitmentMsg? {
          var _ := receiver.ReceiveCommitment();
        } else {
          var claim := expected[0];
          var o := receiver.ReceiveDecommitment(claim.id);
          expected := expected[1..];
          results := results + [(claim, o)];
        }
    }
    sent := committer.commitmentMap;
    AcceptStored(d, h, sent, results);
  }

  lemma AcceptStored<G(!new)>(d: DlogGroup<G>, h: G, sent: map<int, PhaseValues<G>>,
                              results: seq<(Claim, Outcome<Option<int>>)>)
    requires ValidGroup(d) && d.isMember(h) && Stored(d, h, sent) && AllJudged(d, h, sent, results)
    ensures forall i :: 0 <= i < |results| ==> results[i].0.id in sent
    ensures forall i :: 0 <= i < |results| && results[i].0 == StoredClaim(sent, results[i].0.id) ==>
      results[i].1 == Returned(Some(results[i].0.x))
  {
    hide ValidGroup, Generate, Matches;
    forall i | 0 <= i < |results| && results[i].0.id in sent && results[i].0 == StoredClaim(sent, results[i].0.id)
      ensures results[i].1 == Returned(Some(results[i].0.x))
    {
      StoredIsAccepted(d, h, sent, results[i].0.id, results[i].1);
    }
  }
}
