/** Conjunctions of sigma protocols under one challenge, nested to any depth. */
module SigmaAnd {
  import opened Outcomes

  /** One underlying protocol: its relation, its messages, its decision and its simulator. The guards say for which
      challenges, coins of the prover and answers of the simulator it makes its promises. */
  datatype Sigma<!X, !W, !R, !A, !Z> = Sigma(
    wellFormed: X -> bool,
    related: (X, W) -> bool,
    challenges: int -> bool,
    coins: (X, R) -> bool,
    answers: (X, Z) -> bool,
    first: (X, W, R) -> A,
    second: (X, W, R, int) -> Z,
    accepts: (X, A, int, Z) -> bool,
    simulate: (X, int, Z) -> A,
    apart: (X, int, int) -> bool)

  ghost predicate CompleteAt<X, W, R, A, Z>(s: Sigma<X, W, R, A, Z>, x: X, w: W, r: R, e: int) {
    s.wellFormed(x) && s.related(x, w) && s.challenges(e) && s.coins(x, r) ==>
      s.accepts(x, s.first(x, w, r), e, s.second(x, w, r, e))
  }

  ghost predicate SoundAt<X, W(!new), R, A, Z>(s: Sigma<X, W, R, A, Z>, x: X, a: A, e: int, z: Z, e': int, z': Z) {
    s.wellFormed(x) && s.apart(x, e, e') && s.accepts(x, a, e, z) && s.accepts(x, a, e', z') ==>
      exists w :: s.related(x, w)
  }

  ghost predicate SimulatesAt<X, W, R, A, Z>(s: Sigma<X, W, R, A, Z>, x: X, e: int, z: Z) {
    s.wellFormed(x) && s.challenges(e) && s.answers(x, z) ==> s.accepts(x, s.simulate(x, e, z), e, z)
  }

  /** Complete, specially sound and simulatable. */
  ghost predicate Lawful<X(!new), W(!new), R(!new), A(!new), Z(!new)>(s: Sigma<X, W, R, A, Z>) {
    && (forall x, w, r, e :: CompleteAt(s, x, w, r, e))
    && (forall x, a, e, z, e', z' :: SoundAt(s, x, a, e, z, e', z'))
    && (forall x, e, z :: SimulatesAt(s, x, e, z))
  }

  datatype Protocol<!X, !W, !R, !A, !Z> =
    | Base(sigma: Sigma<X, W, R, A, Z>)
    | And(parts: seq<Protocol<X, W, R, A, Z>>)

  /** Inputs and messages, nested as the protocols are. */
  datatype Tree<T> = One(value: T) | Many(parts: seq<Tree<T>>)

  ghost predicate AllLawful<X(!new), W(!new), R(!new), A(!new), Z(!new)>(p: Protocol<X, W, R, A, Z>) {
    match p
    case Base(s) => Lawful(s)
    case And(parts) => forall i :: 0 <= i < |parts| ==> AllLawful(parts[i])
  }

  predicate Shape<X, W, R, A, Z, T>(p: Protocol<X, W, R, A, Z>, t: Tree<T>) {
    match p
    case Base(_) => t.One?
    case And(parts) =>
      t.Many? && |t.parts| == |parts| && forall i :: 0 <= i < |parts| ==> Shape(parts[i], t.parts[i])
  }

  /** An input of the right kinds; its numbers of parts may be wrong. */
  predicate Kind<X, W, R, A, Z, T>(p: Protocol<X, W, R, A, Z>, t: Tree<T>) {
    p.And? ==> t.Many? && forall i :: 0 <= i < |p.parts| && i < |t.parts| ==> Kind(p.parts[i], t.parts[i])
  }

  // ---------- the operations ----------

  function First<X, W, R, A, Z>(p: Protocol<X, W, R, A, Z>, x: Tree<X>, w: Tree<W>, r: Tree<R>): Tree<A>
    requires Shape(p, x) && Shape(p, w) && Shape(p, r)
    decreases p
  {
    match p
    case Base(s) => One(s.first(x.value, w.value, r.value))
    case And(parts) =>
      Many(seq(|parts|, i requires 0 <= i < |parts| => First(parts[i], x.parts[i], w.parts[i], r.parts[i])))
  }

  function Second<X, W, R, A, Z>(p: Protocol<X, W, R, A, Z>, x: Tree<X>, w: Tree<W>, r: Tree<R>, e: int): Tree<Z>
    requires Shape(p, x) && Shape(p, w) && Shape(p, r)
    decreases p
  {
    match p
    case Base(s) => One(s.second(x.value, w.value, r.value, e))
    case And(parts) =>
      Many(seq(|parts|, i requires 0 <= i < |parts| => Second(parts[i], x.parts[i], w.parts[i], r.parts[i], e)))
  }

  function Simulate<X, W, R, A, Z>(p: Protocol<X, W, R, A, Z>, x: Tree<X>, e: int, z: Tree<Z>): Tree<A>
    requires Shape(p, x) && Shape(p, z)
    decreases p
  {
    match p
    case Base(s) => One(s.simulate(x.value, e, z.value))
    case And(parts) =>
      Many(seq(|parts|, i requires 0 <= i < |parts| => Simulate(parts[i], x.parts[i], e, z.parts[i])))
  }

  /** `verify`: parts are checked in order until one fails or throws. */
  function Verify<X, W, R, A, Z>(p: Protocol<X, W, R, A, Z>, x: Tree<X>, a: Tree<A>, e: int, z: Tree<Z>): Outcome<bool>
    requires Kind(p, x) && Shape(p, a) && Shape(p, z)
    decreases p, 1, 0
  {
    match p
    case Base(s) =>
      if x.Many? then Threw(InvalidArgument) else Returned(s.accepts(x.value, a.value, e, z.value))
    case And(parts) =>
      if |x.parts| != |parts| then Threw(InvalidArgument) else VerifyFrom(p, x, a, e, z, 0)
  }

  function VerifyFrom<X, W, R, A, Z>(p: Protocol<X, W, R, A, Z>, x: Tree<X>, a: Tree<A>, e: int, z: Tree<Z>, i: nat)
      : Outcome<bool>
    requires Kind(p, x) && Shape(p, a) && Shape(p, z)
    requires p.And? && |x.parts| == |p.parts| && i <= |p.parts|
    decreases p, 0, |p.parts| - i
  {
    if i == |p.parts| then Returned(true) else
      var ok :- Verify(p.parts[i], x.parts[i], a.parts[i], e, z.parts[i]);
      if ok then VerifyFrom(p, x, a, e, z, i + 1) else Returned(false)
  }

  // ---------- what they mean ----------

  /** Every leaf accepts its own part of the messages, under the common challenge. */
  ghost predicate Accepted<X, W, R, A, Z>(p: Protocol<X, W, R, A, Z>, x: Tree<X>, a: Tree<A>, e: int, z: Tree<Z>)
    requires Shape(p, x) && Shape(p, a) && Shape(p, z)
  {
    match p
    case Base(s) => s.accepts(x.value, a.value, e, z.value)
    case And(parts) =>
      forall i :: 0 <= i < |parts| ==> Accepted(parts[i], x.parts[i], a.parts[i], e, z.parts[i])
  }

  ghost predicate Related<X, W, R, A, Z>(p: Protocol<X, W, R, A, Z>, x: Tree<X>, w: Tree<W>)
    requires Shape(p, x) && Shape(p, w)
  {
    match p
    case Base(s) => s.related(x.value, w.value)
    case And(parts) => forall i :: 0 <= i < |parts| ==> Related(parts[i], x.parts[i], w.parts[i])
  }

  ghost predicate WellFormed<X, W, R, A, Z>(p: Protocol<X, W, R, A, Z>, x: Tree<X>)
    requires Shape(p, x)
  {
    match p
    case Base(s) => s.wellFormed(x.value)
    case And(parts) => forall i :: 0 <= i < |parts| ==> WellFormed(parts[i], x.parts[i])
  }

  ghost predicate Apart<X, W, R, A, Z>(p: Protocol<X, W, R, A, Z>, x: Tree<X>, e: int, e': int)
    requires Shape(p, x)
  {
    match p
    case Base(s) => s.apart(x.value, e, e')
    case And(parts) => forall i :: 0 <= i < |parts| ==> Apart(parts[i], x.parts[i], e, e')
  }

  /** The one challenge is admitted by every leaf. */
  ghost predicate Challenge<X, W, R, A, Z>(p: Protocol<X, W, R, A, Z>, e: int) {
    match p
    case Base(s) => s.challenges(e)
    case And(parts) => forall i :: 0 <= i < |parts| ==> Challenge(parts[i], e)
  }

  ghost predicate GoodCoins<X, W, R, A, Z>(p: Protocol<X, W, R, A, Z>, x: Tree<X>, r: Tree<R>)
    requires Shape(p, x) && Shape(p, r)
  {
    match p
    case Base(s) => s.coins(x.value, r.value)
    case And(parts) => forall i :: 0 <= i < |parts| ==> GoodCoins(parts[i], x.parts[i], r.parts[i])
  }

  ghost predicate GoodAnswers<X, W, R, A, Z>(p: Protocol<X, W, R, A, Z>, x: Tree<X>, z: Tree<Z>)
    requires Shape(p, x) && Shape(p, z)
  {
    match p
    case Base(s) => s.answers(x.value, z.value)
    case And(parts) => forall i :: 0 <= i < |parts| ==> GoodAnswers(parts[i], x.parts[i], z.parts[i])
  }

  lemma {:induction false} ShapeIsKind<X, W, R, A, Z, T>(p: Protocol<X, W, R, A, Z>, t: Tree<T>)
    requires Shape(p, t)
    ensures Kind(p, t)
    decreases p
  {
    if p.Base? {
    } else {
      forall i | 0 <= i < |p.parts| ensures Kind(p.parts[i], t.parts[i]) {
        ShapeIsKind(p.parts[i], t.parts[i]);
      }
    }
  }

  /** On inputs of the right shape `verify` returns, and returns true exactly when every leaf accepts. */
  lemma {:induction false} VerifyDecides<X, W, R, A, Z>(
      p: Protocol<X, W, R, A, Z>, x: Tree<X>, a: Tree<A>, e: int, z: Tree<Z>)
    requires Shape(p, x) && Shape(p, a) && Shape(p, z)
    ensures Kind(p, x) && Verify(p, x, a, e, z) == Returned(Accepted(p, x, a, e, z))
    decreases p, 1, 0
  {
    ShapeIsKind(p, x);
    if p.And? {
      VerifyFromDecides(p, x, a, e, z, 0);
    }
  }

  lemma {:induction false} VerifyFromDecides<X, W, R, A, Z>(
      p: Protocol<X, W, R, A, Z>, x: Tree<X>, a: Tree<A>, e: int, z: Tree<Z>, i: nat)
    requires Shape(p, x) && Shape(p, a) && Shape(p, z) && Kind(p, x)
    requires p.And? && i <= |p.parts|
    ensures VerifyFrom(p, x, a, e, z, i) == Returned(
      forall j :: i <= j < |p.parts| ==> Accepted(p.parts[j], x.parts[j], a.parts[j], e, z.parts[j]))
    decreases p, 0, |p.parts| - i
  {
    if i == |p.parts| {
    } else {
      VerifyDecides(p.parts[i], x.parts[i], a.parts[i], e, z.parts[i]);
      VerifyFromDecides(p, x, a, e, z, i + 1);
    }
  }

  lemma {:induction false} TrueMeansShape<X, W, R, A, Z>(
      p: Protocol<X, W, R, A, Z>, x: Tree<X>, a: Tree<A>, e: int, z: Tree<Z>)
    requires Kind(p, x) && Shape(p, a) && Shape(p, z)
    ensures Verify(p, x, a, e, z) == Returned(true) ==> Shape(p, x)
    decreases p, 1, 0
  {
    if p.And? && |x.parts| == |p.parts| {
      TrueFromMeansShape(p, x, a, e, z, 0);
    }
  }

  lemma {:induction false} TrueFromMeansShape<X, W, R, A, Z>(
      p: Protocol<X, W, R, A, Z>, x: Tree<X>, a: Tree<A>, e: int, z: Tree<Z>, i: nat)
    requires Kind(p, x) && Shape(p, a) && Shape(p, z)
    requires p.And? && |x.parts| == |p.parts| && i <= |p.parts|
    ensures VerifyFrom(p, x, a, e, z, i) == Returned(true) ==>
      forall j :: i <= j < |p.parts| ==> Shape(p.parts[j], x.parts[j])
    decreases p, 0, |p.parts| - i
  {
    if i == |p.parts| {
    } else {
      TrueMeansShape(p.parts[i], x.parts[i], a.parts[i], e, z.parts[i]);
      TrueFromMeansShape(p, x, a, e, z, i + 1);
    }
  }

  /** Acceptance, for inputs of any shape: the right numbers of inputs everywhere, and every leaf accepts. */
  lemma VerifyTrueIff<X, W, R, A, Z>(p: Protocol<X, W, R, A, Z>, x: Tree<X>, a: Tree<A>, e: int, z: Tree<Z>)
    requires Kind(p, x) && Shape(p, a) && Shape(p, z)
    ensures Verify(p, x, a, e, z) == Returned(true) <==> Shape(p, x) && Accepted(p, x, a, e, z)
  {
    TrueMeansShape(p, x, a, e, z);
    if Shape(p, x) {
      VerifyDecides(p, x, a, e, z);
    }
  }

  /** What is returned otherwise: an input with a wrong number of parts is an error, and with the right number the
      answer is that of the first part that does not accept, whether it rejects or is in error itself. */
  lemma FirstFailure<X, W, R, A, Z>(p: Protocol<X, W, R, A, Z>, x: Tree<X>, a: Tree<A>, e: int, z: Tree<Z>, i: nat)
    requires Kind(p, x) && Shape(p, a) && Shape(p, z)
    ensures p.Base? && x.Many? ==> Verify(p, x, a, e, z) == Threw(InvalidArgument)
    ensures p.And? && |x.parts| != |p.parts| ==> Verify(p, x, a, e, z) == Threw(InvalidArgument)
    ensures p.And? && |x.parts| == |p.parts| && i < |p.parts| && AcceptedBefore(p, x, a, e, z, i) &&
            Verify(p.parts[i], x.parts[i], a.parts[i], e, z.parts[i]) != Returned(true) ==>
      Verify(p, x, a, e, z) == Verify(p.parts[i], x.parts[i], a.parts[i], e, z.parts[i])
  {
    if p.And? && |x.parts| == |p.parts| && i < |p.parts| && AcceptedBefore(p, x, a, e, z, i) {
      SkipAccepted(p, x, a, e, z, 0, i);
    }
  }

  ghost predicate AcceptedBefore<X, W, R, A, Z>(p: Protocol<X, W, R, A, Z>, x: Tree<X>, a: Tree<A>, e: int, z: Tree<Z>,
                                                i: nat)
    requires Kind(p, x) && Shape(p, a) && Shape(p, z) && p.And? && |x.parts| == |p.parts| && i <= |p.parts|
  {
    forall j :: 0 <= j < i ==> Verify(p.parts[j], x.parts[j], a.parts[j], e, z.parts[j]) == Returned(true)
  }

  lemma {:induction false} SkipAccepted<X, W, R, A, Z>(
      p: Protocol<X, W, R, A, Z>, x: Tree<X>, a: Tree<A>, e: int, z: Tree<Z>, k: nat, i: nat)
    requires Kind(p, x) && Shape(p, a) && Shape(p, z) && p.And? && |x.parts| == |p.parts| && k <= i <= |p.parts|
    requires AcceptedBefore(p, x, a, e, z, i)
    ensures VerifyFrom(p, x, a, e, z, k) == VerifyFrom(p, x, a, e, z, i)
    decreases i - k
  {
    if k == i {
    } else {
      SkipAccepted(p, x, a, e, z, k + 1, i);
    }
  }

  // ---------- the three laws pass from the leaves to the conjunction ----------

  lemma {:induction false} Shapes<X, W, R, A, Z>(p: Protocol<X, W, R, A, Z>, x: Tree<X>, w: Tree<W>, r: Tree<R>, e: int)
    requires Shape(p, x) && Shape(p, w) && Shape(p, r)
    ensures Shape(p, First(p, x, w, r)) && Shape(p, Second(p, x, w, r, e))
    decreases p
  {
    if p.Base? {
    } else {
      forall i | 0 <= i < |p.parts|
        ensures Shape(p.parts[i], First(p, x, w, r).parts[i]) && Shape(p.parts[i], Second(p, x, w, r, e).parts[i])
      {
        Shapes(p.parts[i], x.parts[i], w.parts[i], r.parts[i], e);
      }
    }
  }

  lemma {:induction false} HonestAccepted<X(!new), W(!new), R(!new), A(!new), Z(!new)>(
      p: Protocol<X, W, R, A, Z>, x: Tree<X>, w: Tree<W>, r: Tree<R>, e: int)
    requires AllLawful(p) && Shape(p, x) && Shape(p, w) && Shape(p, r)
    requires WellFormed(p, x) && Related(p, x, w) && Challenge(p, e) && GoodCoins(p, x, r)
    ensures Shape(p, First(p, x, w, r)) && Shape(p, Second(p, x, w, r, e))
    ensures Accepted(p, x, First(p, x, w, r), e, Second(p, x, w, r, e))
    decreases p
  {
    Shapes(p, x, w, r, e);
    match p
    case Base(s) => assert CompleteAt(s, x.value, w.value, r.value, e);
    case And(parts) =>
      forall i | 0 <= i < |parts|
        ensures Accepted(parts[i], x.parts[i], First(p, x, w, r).parts[i], e, Second(p, x, w, r, e).parts[i])
      {
        HonestAccepted(parts[i], x.parts[i], w.parts[i], r.parts[i], e);
      }
  }

  /** Completeness of every nested conjunction of complete protocols, for coins the leaves admit. */
  lemma Completeness<X(!new), W(!new), R(!new), A(!new), Z(!new)>(
      p: Protocol<X, W, R, A, Z>, x: Tree<X>, w: Tree<W>, r: Tree<R>, e: int)
    requires AllLawful(p) && Shape(p, x) && Shape(p, w) && Shape(p, r)
    requires WellFormed(p, x) && Related(p, x, w) && Challenge(p, e) && GoodCoins(p, x, r)
    ensures var a, z := First(p, x, w, r), Second(p, x, w, r, e);
            Kind(p, x) && Shape(p, a) && Shape(p, z) && Verify(p, x, a, e, z) == Returned(true)
  {
    HonestAccepted(p, x, w, r, e);
    VerifyDecides(p, x, First(p, x, w, r), e, Second(p, x, w, r, e));
  }

  /** Special soundness: two accepted answers to one first message give witnesses for all leaves. */
  lemma {:induction false} Extractor<X(!new), W(!new), R(!new), A(!new), Z(!new)>(
      p: Protocol<X, W, R, A, Z>, x: Tree<X>, a: Tree<A>, e: int, z: Tree<Z>, e': int, z': Tree<Z>)
      returns (w: Tree<W>)
    requires AllLawful(p) && Shape(p, x) && Shape(p, a) && Shape(p, z) && Shape(p, z')
    requires WellFormed(p, x) && Apart(p, x, e, e')
    requires Accepted(p, x, a, e, z) && Accepted(p, x, a, e', z')
    ensures Shape(p, w) && Related(p, x, w)
    decreases p
  {
    match p
    case Base(s) =>
      assert SoundAt(s, x.value, a.value, e, z.value, e', z'.value);
      var v :| s.related(x.value, v);
      w := One(v);
    case And(parts) =>
      var ws: seq<Tree<W>> := [];
      while |ws| < |parts|
        invariant |ws| <= |parts|
        invariant forall i :: 0 <= i < |ws| ==> Shape(parts[i], ws[i]) && Related(parts[i], x.parts[i], ws[i])
      {
        var i := |ws|;
        var v := Extractor(parts[i], x.parts[i], a.parts[i], e, z.parts[i], e', z'.parts[i]);
        ws := ws + [v];
      }
      w := Many(ws);
  }

  /** Simulated transcripts are accepted for every challenge and every choice of answers the leaves admit. */
  lemma {:induction false} SimulationAccepted<X(!new), W(!new), R(!new), A(!new), Z(!new)>(
      p: Protocol<X, W, R, A, Z>, x: Tree<X>, e: int, z: Tree<Z>)
    requires AllLawful(p) && Shape(p, x) && Shape(p, z)
    requires WellFormed(p, x) && Challenge(p, e) && GoodAnswers(p, x, z)
    ensures Shape(p, Simulate(p, x, e, z)) && Accepted(p, x, Simulate(p, x, e, z), e, z)
    decreases p
  {
    match p
    case Base(s) => assert SimulatesAt(s, x.value, e, z.value);
    case And(parts) =>
      forall i | 0 <= i < |parts|
        ensures Shape(parts[i], Simulate(p, x, e, z).parts[i])
        ensures Accepted(parts[i], x.parts[i], Simulate(p, x, e, z).parts[i], e, z.parts[i])
      {
        SimulationAccepted(parts[i], x.parts[i], e, z.parts[i]);
      }
  }
}
