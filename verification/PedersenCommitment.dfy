/** Pedersen commitments `c = g^r * h^x`: openings, extraction of the trapdoor and equivocation. */
module PedersenCommitment {
  import opened Outcomes
  import opened Congruence
  import opened Coprimality
  import opened DlogGroups

  datatype Option<T> = None | Some(value: T)

  function Commitment<G>(d: DlogGroup<G>, h: G, x: int, r: int): G {
    d.mul(d.Exp(d.generator, r), d.Exp(h, x))
  }

  /** The range check of the code; it admits the order itself. */
  predicate InRange(q: nat, x: int) {
    0 <= x <= q
  }

  /** `generateCommitmentMsg`, the part that computes. */
  function Generate<G>(d: DlogGroup<G>, h: G, x: int, r: int): Outcome<G> {
    if InRange(d.order, x) && InRange(d.order, r) then Returned(Commitment(d, h, x, r)) else Threw(InvalidArgument)
  }

  /** `verifyDecommitment`: the value, or nothing when it is rejected. */
  function VerifyDecommitment<G(==)>(d: DlogGroup<G>, h: G, c: G, x: int, r: int): Outcome<Option<int>> {
    if !InRange(d.order, x) then Returned(None)
    else if !d.isMember(c) then Threw(InvalidArgument)
    else if c == Commitment(d, h, x, r) then Returned(Some(x))
    else Returned(None)
  }

  /** `validate` of the trapdoor committer. */
  predicate Validate<G(==)>(d: DlogGroup<G>, h: G, trapdoor: int) {
    d.Exp(d.generator, trapdoor) == h
  }

  ghost predicate Opens<G>(d: DlogGroup<G>, h: G, c: G, x: int, r: int) {
    VerifyDecommitment(d, h, c, x, r) == Returned(Some(x))
  }

  lemma CommitmentPower<G(!new)>(d: DlogGroup<G>, h: G, a: int, x: int, r: int)
    requires ValidGroup(d) && IsPower(d, h, a)
    ensures IsPower(d, Commitment(d, h, x, r), r + a * x)
  {
    GeneratorExp(d, r);
    PowerExp(d, h, a, x);
    PowerMul(d, d.Exp(d.generator, r), r, d.Exp(h, x), a * x);
  }

  /** A commitment is made exactly for a value and randomness in the admitted range, and then has the exponent of
      both. */
  lemma GenerateLaw<G(!new)>(d: DlogGroup<G>, h: G, a: int, x: int, r: int)
    requires ValidGroup(d) && IsPower(d, h, a)
    ensures Generate(d, h, x, r).Returned? <==> 0 <= x <= d.order && 0 <= r <= d.order
    ensures Generate(d, h, x, r).Threw? ==> Generate(d, h, x, r).error == InvalidArgument
    ensures Generate(d, h, x, r).Returned? ==> IsPower(d, Generate(d, h, x, r).value, r + a * x)
  {
    CommitmentPower(d, h, a, x, r);
  }

  /** Two openings agree exactly when their exponents do. */
  lemma SameCommitment<G(!new)>(d: DlogGroup<G>, h: G, a: int, x: int, r: int, x': int, r': int)
    requires ValidGroup(d) && IsPower(d, h, a)
    ensures Commitment(d, h, x, r) == Commitment(d, h, x', r') <==> Cong(r + a * x, r' + a * x', d.order)
  {
    CommitmentPower(d, h, a, x, r);
    CommitmentPower(d, h, a, x', r');
    PowersEqual(d, Commitment(d, h, x, r), r + a * x, Commitment(d, h, x', r'), r' + a * x');
  }

  /** `(x, r)` is an opening of `c` with key `h`: in exponents, and with the range the code admits. */
  ghost predicate Matches<G(!new)>(d: DlogGroup<G>, h: G, c: G, x: int, r: int)
    requires ValidGroup(d) && d.isMember(h) && d.isMember(c)
  {
    0 <= x <= d.order && Cong(Log(d, c), r + Log(d, h) * x, d.order)
  }

  /** The receiver accepts an opening that matches, with its value, and rejects every other; a commitment that is no
      member is refused for every value in the range. */
  lemma DecommitmentLaw<G(!new)>(d: DlogGroup<G>, h: G, c: G, x: int, r: int)
    requires ValidGroup(d) && d.isMember(h)
    ensures d.isMember(c) ==>
      VerifyDecommitment(d, h, c, x, r) == Returned(if Matches(d, h, c, x, r) then Some(x) else None)
    ensures !d.isMember(c) ==>
      VerifyDecommitment(d, h, c, x, r) == if 0 <= x <= d.order then Threw(InvalidArgument) else Returned(None)
  {
    hide Cong, ValidGroup, Commitment;
    if d.isMember(c) {
      MemberIsPower(d, h);
      MemberIsPower(d, c);
      CommitmentPower(d, h, Log(d, h), x, r);
      PowersEqual(d, c, Log(d, c), Commitment(d, h, x, r), r + Log(d, h) * x);
    }
  }

  /** What the committer generates opens to what was committed. */
  lemma HonestOpens<G(!new)>(d: DlogGroup<G>, h: G, x: int, r: int)
    requires ValidGroup(d) && d.isMember(h) && Generate(d, h, x, r).Returned?
    ensures d.isMember(Generate(d, h, x, r).value) && Opens(d, h, Generate(d, h, x, r).value, x, r)
  {
    MemberIsPower(d, h);
    CommitmentPower(d, h, Log(d, h), x, r);
  }

  // ---------- extraction ----------

  /** In the accepted range only zero and the order are different but congruent. */
  lemma CongruentInRange(q: nat, x: int, x': int)
    requires q > 0 && InRange(q, x) && InRange(q, x') && x != x'
    ensures Cong(x, x', q) <==> (x == 0 && x' == q) || (x == q && x' == 0)
  {
    if Cong(x, x', q) {
      var k := CongQuotient(x, x', q);
      if k == 0 || k == 1 || k == -1 {
      } else {
        FarMultiple(k, q);
      }
    }
    CongFromQuotient(q, 0, q, 1);
    CongFromQuotient(0, q, q, -1);
  }

  lemma FarMultiple(k: int, q: nat)
    requires q > 0 && (k > 1 || k < -1)
    ensures k * q > q || k * q < 0 - q
  {
    if k > 1 { MulAtLeast(k - 1, q); assert (k - 1) * q == k * q - q; }
    else { MulAtLeast(k + 1, q); assert (k + 1) * q == k * q + q; }
  }

  lemma ExtractExponent(q: nat, a: int, x: int, r: int, x': int, r': int) returns (trapdoor: nat)
    requires IsPrime(q) && !Cong(x, x', q) && Cong(r + a * x, r' + a * x', q)
    ensures trapdoor < q && Cong(trapdoor, a, q)
    ensures Cong((x - x') * trapdoor, r' - r, q)
  {
    NotCongDifference(x, x', q);
    PrimeCoprime(x - x', q);
    var k := InverseExists(x - x', q);
    trapdoor := (k * (r' - r)) % q;
    CongMod(k * (r' - r), q);
    MoveOpenings(q, a, x, r, x', r');
    CongScale((x - x') * a, r' - r, k, q);
    CongSym(k * ((x - x') * a), k * (r' - r), q);
    CongUndo(x - x', k, a, q);
    CongTrans(trapdoor, k * (r' - r), k * ((x - x') * a), q);
    CongTrans(trapdoor, k * ((x - x') * a), a, q);
    CongScale(trapdoor, a, x - x', q);
    CongTrans((x - x') * trapdoor, (x - x') * a, r' - r, q);
  }

  lemma NotCongDifference(x: int, x': int, q: int)
    requires !Cong(x, x', q)
    ensures !Divides(q, x - x')
  {
    if Cong(x - x', 0, q) {
      CongRefl(x', q);
      CongAdd(x - x', 0, x', x', q);
    }
  }

  lemma MoveOpenings(q: int, a: int, x: int, r: int, x': int, r': int)
    requires Cong(r + a * x, r' + a * x', q)
    ensures Cong((x - x') * a, r' - r, q)
  {
    CongRefl(r + a * x', q);
    CongSub(r + a * x, r' + a * x', r + a * x', r + a * x', q);
    assert (x - x') * a == a * x - a * x';
  }

  /** Two different values accepted for one commitment, whatever was shown for them, give a trapdoor that `validate`
      accepts, computed from what was shown alone, unless the two values are zero and the order. */
  lemma ExtractTrapdoor<G(!new)>(d: DlogGroup<G>, h: G, c: G, x: int, r: int, x': int, r': int, v: int, v': int)
      returns (trapdoor: nat)
    requires ValidGroup(d) && d.isMember(h)
    requires VerifyDecommitment(d, h, c, x, r) == Returned(Some(v))
    requires VerifyDecommitment(d, h, c, x', r') == Returned(Some(v'))
    requires v != v' && !(v == 0 && v' == d.order) && !(v == d.order && v' == 0)
    ensures trapdoor < d.order && Validate(d, h, trapdoor)
    ensures Cong((v - v') * trapdoor, r' - r, d.order)
  {
    DecommitmentLaw(d, h, c, x, r);
    DecommitmentLaw(d, h, c, x', r');
    var a := Log(d, h);
    MemberIsPower(d, h);
    SameCommitment(d, h, a, x, r, x', r');
    CongruentInRange(d.order, x, x');
    trapdoor := ExtractExponent(d.order, a, x, r, x', r');
    GeneratorExp(d, trapdoor);
    PowersEqual(d, d.Exp(d.generator, trapdoor), trapdoor, h, a);
  }

  /** The exception is real: a commitment to zero opens to the order with the same randomness. */
  lemma ZeroOpensToOrder<G(!new)>(d: DlogGroup<G>, h: G, c: G, r: int)
    requires ValidGroup(d) && d.isMember(h)
    ensures Opens(d, h, c, 0, r) <==> Opens(d, h, c, d.order, r)
  {
    var a: int, q: int := Log(d, h), d.order;
    MemberIsPower(d, h);
    CongFromQuotient(r + a * 0, r + a * q, q, -a);
    SameCommitment(d, h, a, 0, r, q, r);
  }

  // ---------- equivocation ----------

  /** The randomness that opens a commitment to another value. */
  function Equivocate(q: nat, trapdoor: int, x: int, r: int, x': int): (r': nat)
    requires q > 0
    ensures r' < q
  {
    (r + trapdoor * (x - x')) % q
  }

  lemma EquivocateCong(q: nat, a: int, x: int, r: int, x': int, y: nat)
    requires y < q
    ensures Cong(r + a * x, y + a * x', q) <==> y == Equivocate(q, a, x, r, x')
  {
    var k := Equivocate(q, a, x, r, x');
    CongMod(r + a * (x - x'), q);
    assert a * (x - x') == a * x - a * x';
    CongRefl(a * x', q);
    CongAdd(r + a * (x - x'), k, a * x', a * x', q);
    if Cong(r + a * x, y + a * x', q) {
      CongSym(r + a * x, k + a * x', q);
      CongTrans(k + a * x', r + a * x, y + a * x', q);
      CongSub(k + a * x', y + a * x', a * x', a * x', q);
      CongSmall(k, y, q);
    }
  }

  /** With the trapdoor every commitment opens to every value, with exactly one randomness in `Z_q`. */
  lemma Equivocation<G(!new)>(d: DlogGroup<G>, h: G, trapdoor: int, c: G, x: int, r: int, x': int, r': nat)
    requires ValidGroup(d) && Validate(d, h, trapdoor) && Opens(d, h, c, x, r)
    requires InRange(d.order, x') && r' < d.order
    ensures Opens(d, h, c, x', r') <==> r' == Equivocate(d.order, trapdoor, x, r, x')
  {
    GeneratorExp(d, trapdoor);
    SameCommitment(d, h, trapdoor, x, r, x', r');
    EquivocateCong(d.order, trapdoor, x, r, x', r');
  }

  /** Hiding: every member is a commitment to every value, whatever the key. */
  lemma PerfectlyHiding<G(!new)>(d: DlogGroup<G>, h: G, c: G, x: int) returns (r: nat)
    requires ValidGroup(d) && d.isMember(h) && d.isMember(c) && InRange(d.order, x)
    ensures r < d.order && Opens(d, h, c, x, r)
    ensures forall y: nat :: y < d.order && Opens(d, h, c, x, y) ==> y == r
  {
    var a := Log(d, h);
    MemberIsPower(d, h);
    GeneratorExp(d, a);
    PowersEqual(d, d.Exp(d.generator, a), a, h, a) by { CongRefl(a, d.order); }
    var k := Log(d, c);
    OpensAtZero(d, h, c);
    r := Equivocate(d.order, a, 0, k, x);
    Equivocation(d, h, a, c, 0, k, x, r);
    forall y: nat | y < d.order && Opens(d, h, c, x, y) ensures y == r {
      Equivocation(d, h, a, c, 0, k, x, y);
    }
  }

  lemma OpensAtZero<G(!new)>(d: DlogGroup<G>, h: G, c: G)
    requires ValidGroup(d) && d.isMember(h) && d.isMember(c)
    ensures Opens(d, h, c, 0, Log(d, c))
  {
    MemberIsPower(d, h);
    MemberIsPower(d, c);
    CommitmentPower(d, h, Log(d, h), 0, Log(d, c));
    CongRefl(Log(d, c), d.order);
    PowersEqual(d, c, Log(d, c), Commitment(d, h, 0, Log(d, c)), Log(d, c) + Log(d, h) * 0);
  }
}
