/** Conjunctions of extended Diffie-Hellman proofs: the laws at the leaves, and the verifier object. */
module SigmaAndDH {
  import opened Outcomes
  import opened Challenges
  import opened DlogGroups
  import opened DH = SigmaDHExtended
  import And = SigmaAnd

  type Leaf<!G> = And.Sigma<CommonInput<G>, int, int, seq<G>, int>

  ghost predicate Statement<G(!new)>(d: DlogGroup<G>, x: CommonInput<G>) {
    |x.gs| == |x.hs| && Members(d, x.gs) && Members(d, x.hs)
  }

  /** The extended Diffie-Hellman protocol as a leaf; challenges less than the order apart suffice. */
  ghost function AsLeaf<G(!new)>(d: DlogGroup<G>): Leaf<G>
    requires d.order > 0
  {
    And.Sigma(
      x => Statement(d, x),
      (x, w) => DH.Related(d, x, w),
      (e: int) => true,
      (x: CommonInput<G>, r: int) => true,
      (x: CommonInput<G>, z: int) => true,
      (x: CommonInput<G>, w: int, r: int) => FirstMsg(d, x.gs, r),
      (x: CommonInput<G>, w: int, r: int, e: int) => Answer(d.order, r, w, e),
      (x, a, e, z) => Members(d, a) && Accepts(d, x, a, e, z),
      (x: CommonInput<G>, e: int, z: int) => if |x.gs| == |x.hs| then SimulatedFirst(d, x, e, z) else [],
      (x: CommonInput<G>, e: int, e': int) => e != e' && 0 - d.order < e - e' < d.order)
  }

  /** The leaf is complete, specially sound and simulatable, so every conjunction built from it is. */
  lemma LeafLawful<G(!new)>(d: DlogGroup<G>)
    requires ValidGroup(d)
    ensures And.Lawful(AsLeaf(d))
  {
    var s := AsLeaf(d);
    forall x, w, r, e ensures And.CompleteAt(s, x, w, r, e) {
      if Statement(d, x) && DH.Related(d, x, w) {
        FirstMembers(d, x.gs, r);
        DH.Completeness(d, x, r, w, e);
      }
    }
    forall x, a, e, z, e', z' ensures And.SoundAt(s, x, a, e, z, e', z') {
      if Statement(d, x) && s.apart(x, e, e') && s.accepts(x, a, e, z) && s.accepts(x, a, e', z') {
        var w := DH.Extractor(d, x, a, e, z, e', z');
        assert s.related(x, w);
      }
    }
    forall x, e, z ensures And.SimulatesAt(s, x, e, z) {
      if Statement(d, x) {
        DH.SimulationAccepted(d, x, e, z);
      }
    }
  }

  /** The verifier of a conjunction: one challenge handed to all, parts checked until one fails. */
  class Verifier<G(==)> {
    const verifiers: seq<DH.Verifier<G>>
    const t: nat
    var e: seq<Byte>

    constructor (verifiers: seq<DH.Verifier<G>>, t: nat)
      ensures this.verifiers == verifiers && this.t == t && e == []
    {
      this.verifiers, this.t := verifiers, t;
      e := [];
    }

    /** The throwing constructor: every part has the same soundness parameter. */
    static method Create(verifiers: seq<DH.Verifier<G>>, t: nat) returns (o: Outcome<Verifier<G>>)
      ensures o.Returned? <==> forall i :: 0 <= i < |verifiers| ==> verifiers[i].t == t
      ensures o.Returned? ==> fresh(o.value) && o.value.verifiers == verifiers && o.value.t == t
      ensures o.Threw? ==> o.error == InvalidArgument
    {
      for i := 0 to |verifiers|
        invariant forall j :: 0 <= j < i ==> verifiers[j].t == t
      {
        if verifiers[i].t != t {
          return Threw(InvalidArgument);
        }
      }
      var x := new Verifier(verifiers, t);
      return Returned(x);
    }

    ghost predicate Distinct()
    {
      forall i, j :: 0 <= i < j < |verifiers| ==> verifiers[i] != verifiers[j]
    }

    method SetChallenge(challenge: seq<Byte>)
      modifies this, verifiers
      ensures e == challenge
      ensures forall i :: 0 <= i < |verifiers| ==> verifiers[i].e == challenge
    {
      e := challenge;
      for i := 0 to |verifiers|
        invariant e == challenge
        invariant forall j :: 0 <= j < i ==> verifiers[j].e == challenge
      {
        verifiers[i].SetChallenge(challenge);
      }
    }

    /** Outcome of the parts from the i-th on, left to right. */
    ghost function Decision(inputs: seq<CommonInput<G>>, a: seq<seq<G>>, z: seq<int>, i: nat): Outcome<bool>
      requires i <= |verifiers| == |inputs| <= |a| && |inputs| <= |z|
      requires forall k :: 0 <= k < |inputs| ==> |a[k]| >= |inputs[k].gs| && verifiers[k].e != []
      reads verifiers
      decreases |verifiers| - i
    {
      if i == |verifiers| then Returned(true) else
        match verifiers[i].Decision(inputs[i], a[i], z[i])
        case Threw(error) => Threw(error)
        case Returned(ok) => if ok then Decision(inputs, a, z, i + 1) else Returned(false)
    }

    /** Parts after the first failure are not consulted and keep their challenge. */
    method Verify(inputs: seq<CommonInput<G>>, a: seq<seq<G>>, z: seq<int>) returns (ok: Outcome<bool>, used: nat)
      requires Distinct() && |inputs| <= |a| && |inputs| <= |z|
      requires forall k :: 0 <= k < |inputs| ==> |a[k]| >= |inputs[k].gs|
      requires forall k :: 0 <= k < |verifiers| ==> verifiers[k].e != []
      modifies verifiers
      ensures |inputs| != |verifiers| ==> ok == Threw(InvalidArgument) && used == 0
      ensures |inputs| == |verifiers| ==> ok == old(Decision(inputs, a, z, 0))
      ensures used <= |verifiers| && (ok == Returned(true) ==> used == |verifiers|)
      ensures forall k :: used <= k < |verifiers| ==> verifiers[k].e == old(verifiers[k].e)
      ensures ok.Returned? ==> forall k :: 0 <= k < used ==> verifiers[k].e == []
    {
      used := 0;
      if |inputs| != |verifiers| {
        return Threw(InvalidArgument), 0;
      }
      var verified := true;
      for i := 0 to |verifiers|
        invariant used <= i && (verified ==> used == i)
        invariant forall k :: 0 <= k < used ==> verifiers[k].e == []
        invariant forall k :: used <= k < |verifiers| ==> verifiers[k].e == old(verifiers[k].e)
        invariant old(Decision(inputs, a, z, 0)) == if verified then old(Decision(inputs, a, z, i)) else Returned(false)
      {
        if verified {
          var part := verifiers[i].Verify(inputs[i], a[i], z[i]);
          if part.Threw? {
            return Threw(part.error), used;
          }
          used := used + 1;
          verified := part.value;
        }
      }
      return Returned(verified), used;
    }
  }

  /** The conjunction accepts exactly when every part meets the documented condition. */
  lemma {:induction false} DecisionTrueIff<G(!new)>(
      v: Verifier<G>, inputs: seq<CommonInput<G>>, a: seq<seq<G>>, z: seq<int>, i: nat)
    requires i <= |v.verifiers| == |inputs| == |a| && |inputs| == |z|
    requires forall k :: 0 <= k < |inputs| ==> |a[k]| == |inputs[k].gs| && v.verifiers[k].e != []
    ensures v.Decision(inputs, a, z, i) == Returned(true) <==>
            forall k :: i <= k < |inputs| ==>
              Members(v.verifiers[k].d, a[k])
              && Accepts(v.verifiers[k].d, inputs[k], a[k], DecodeBigInteger(v.verifiers[k].e), z[k])
    decreases |inputs| - i
  {
    if i == |inputs| {
    } else {
      DecisionIsDocumented(v.verifiers[i], inputs[i], a[i], z[i]);
      DecisionTrueIff(v, inputs, a, z, i + 1);
    }
  }
}
