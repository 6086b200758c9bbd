/** Groups of prime order, as the library's DlogGroup offers them, and discrete logarithms. */
module DlogGroups {
  import opened Congruence
  import opened Coprimality

  /** The operations of a DlogGroup: order, generator, multiplication, inverse and membership test. */
  datatype DlogGroup<!G> = DlogGroup(
    order: nat, generator: G, identity: G, mul: (G, G) -> G, inv: G -> G, isMember: G -> bool)
  {
    /** Repeated multiplication. */
    function ExpNat(x: G, k: nat): G {
      if k == 0 then identity else mul(x, ExpNat(x, k - 1))
    }

    /** `exponentiate`; a negative exponent means the inverse. */
    function Exp(x: G, k: int): G {
      if k >= 0 then ExpNat(x, k) else ExpNat(inv(x), -k)
    }
  }

  /** The group laws at three members. */
  ghost predicate LawsAt<G>(d: DlogGroup<G>, x: G, y: G, z: G) {
    d.isMember(x) && d.isMember(y) && d.isMember(z) ==>
      && d.isMember(d.mul(x, y)) && d.isMember(d.inv(x))
      && d.mul(x, y) == d.mul(y, x)
      && d.mul(x, d.mul(y, z)) == d.mul(d.mul(x, y), z)
      && d.mul(d.identity, x) == x
      && d.mul(x, d.inv(x)) == d.identity
  }

  /** The generator reaches the member x. */
  ghost predicate Reached<G>(d: DlogGroup<G>, x: G) {
    d.isMember(x) ==> exists k: nat :: d.ExpNat(d.generator, k) == x
  }

  /** What `validateGroup` and `isGenerator` promise: prime order, the group laws, a generator. */
  ghost predicate ValidGroup<G(!new)>(d: DlogGroup<G>) {
    && IsPrime(d.order)
    && d.isMember(d.generator) && d.isMember(d.identity) && d.generator != d.identity
    && (forall x, y, z :: LawsAt(d, x, y, z))
    && d.ExpNat(d.generator, d.order) == d.identity
    && (forall x :: Reached(d, x))
  }

  lemma Laws<G(!new)>(d: DlogGroup<G>, x: G, y: G, z: G)
    requires ValidGroup(d) && d.isMember(x) && d.isMember(y) && d.isMember(z)
    ensures d.isMember(d.mul(x, y)) && d.isMember(d.inv(x))
    ensures d.mul(x, y) == d.mul(y, x)
    ensures d.mul(x, d.mul(y, z)) == d.mul(d.mul(x, y), z)
    ensures d.mul(d.identity, x) == x && d.mul(x, d.identity) == x
    ensures d.mul(x, d.inv(x)) == d.identity
  {
    assert LawsAt(d, x, y, z);
    assert LawsAt(d, x, d.identity, z);
  }

  // ---------- exponentiation ----------

  lemma {:induction false} ExpNatMember<G(!new)>(d: DlogGroup<G>, x: G, k: nat)
    requires ValidGroup(d) && d.isMember(x)
    ensures d.isMember(d.ExpNat(x, k))
    decreases k
  {
    if k == 0 {
    } else {
      ExpNatMember(d, x, k - 1);
      Laws(d, x, d.ExpNat(x, k - 1), x);
    }
  }

  lemma {:induction false} ExpNatAdd<G(!new)>(d: DlogGroup<G>, x: G, a: nat, b: nat)
    requires ValidGroup(d) && d.isMember(x)
    ensures d.ExpNat(x, a + b) == d.mul(d.ExpNat(x, a), d.ExpNat(x, b))
    decreases a
  {
    ExpNatMember(d, x, b);
    if a == 0 {
      Laws(d, d.ExpNat(x, b), x, x);
    } else {
      ExpNatAdd(d, x, a - 1, b);
      ExpNatMember(d, x, a - 1);
      Laws(d, x, d.ExpNat(x, a - 1), d.ExpNat(x, b));
    }
  }

  lemma {:induction false} IdentityExp<G(!new)>(d: DlogGroup<G>, k: nat)
    requires ValidGroup(d)
    ensures d.ExpNat(d.identity, k) == d.identity
    decreases k
  {
    if k == 0 {
    } else {
      IdentityExp(d, k - 1);
      Laws(d, d.identity, d.identity, d.identity);
    }
  }

  lemma {:induction false} ExpNatMul<G(!new)>(d: DlogGroup<G>, x: G, a: nat, b: nat)
    requires ValidGroup(d) && d.isMember(x)
    ensures a * b >= 0 && d.ExpNat(d.ExpNat(x, a), b) == d.ExpNat(x, a * b)
    decreases b
  {
    if b == 0 {
    } else {
      ExpNatMul(d, x, a, b - 1);
      assert a * b == a + a * (b - 1);
      ExpNatAdd(d, x, a, a * (b - 1));
    }
  }

  /** Exponents of the generator matter only modulo the order. */
  lemma GeneratorPeriodic<G(!new)>(d: DlogGroup<G>, k: nat)
    requires ValidGroup(d)
    ensures d.ExpNat(d.generator, k) == d.ExpNat(d.generator, k % d.order)
  {
    var g := d.generator;
    var e, r := DivideBy(k, d.order);
    ExpNatMul(d, g, d.order, e);
    IdentityExp(d, e);
    ExpNatAdd(d, g, d.order * e, r);
    ExpNatMember(d, g, r);
    Laws(d, d.ExpNat(g, r), g, g);
  }

  lemma GeneratorOnce<G(!new)>(d: DlogGroup<G>)
    requires ValidGroup(d)
    ensures d.ExpNat(d.generator, 1) == d.generator
  {
    Laws(d, d.generator, d.generator, d.generator);
    assert d.ExpNat(d.generator, 0) == d.identity;
  }

  lemma UnitExponent<G(!new)>(d: DlogGroup<G>, k: nat)
    requires ValidGroup(d) && Cong(k, 1, d.order)
    ensures d.ExpNat(d.generator, k) == d.generator
  {
    hide Cong, LawsAt, Reached, Divides;
    CongIffMod(k, 1, d.order);
    GeneratorPeriodic(d, k);
    GeneratorOnce(d);
  }

  /** Only multiples of the order send the generator to the identity. */
  lemma GeneratorOrder<G(!new)>(d: DlogGroup<G>, k: nat)
    requires ValidGroup(d) && d.ExpNat(d.generator, k) == d.identity
    ensures Cong(k, 0, d.order)
  {
    if !Divides(d.order, k) {
      PrimeCoprime(k, d.order);
      var u := InverseExists(k, d.order);
      ExpNatMul(d, d.generator, k, u);
      IdentityExp(d, u);
      UnitExponent(d, k * u);
    }
  }

  lemma GeneratorInjective<G(!new)>(d: DlogGroup<G>, a: nat, b: nat)
    requires ValidGroup(d)
    ensures d.ExpNat(d.generator, a) == d.ExpNat(d.generator, b) <==> Cong(a, b, d.order)
  {
    CongIffMod(a, b, d.order);
    GeneratorPeriodic(d, a);
    GeneratorPeriodic(d, b);
    if d.ExpNat(d.generator, a) == d.ExpNat(d.generator, b) {
      if a >= b {
        ExponentDifference(d, a, b);
      } else {
        ExponentDifference(d, b, a);
        CongSym(b, a, d.order);
      }
    }
  }

  lemma ExponentDifference<G(!new)>(d: DlogGroup<G>, a: nat, b: nat)
    requires ValidGroup(d) && a >= b && d.ExpNat(d.generator, a) == d.ExpNat(d.generator, b)
    ensures Cong(a, b, d.order)
  {
    var x, y := d.ExpNat(d.generator, b), d.ExpNat(d.generator, a - b);
    ExpNatMember(d, d.generator, b);
    ExpNatMember(d, d.generator, a - b);
    ExpNatAdd(d, d.generator, b, a - b);
    CancelLeft(d, x, y);
    GeneratorOrder(d, a - b);
    CongRefl(b, d.order);
    CongAdd(a - b, 0, b, b, d.order);
  }

  lemma CancelLeft<G(!new)>(d: DlogGroup<G>, x: G, y: G)
    requires ValidGroup(d) && d.isMember(x) && d.isMember(y) && d.mul(x, y) == x
    ensures y == d.identity
  {
    Laws(d, x, y, y);
    Laws(d, d.inv(x), x, y);
    Laws(d, x, d.inv(x), y);
    Laws(d, y, y, y);
  }

  // ---------- logarithms ----------

  ghost function Log<G(!new)>(d: DlogGroup<G>, x: G): (k: nat)
    requires ValidGroup(d) && d.isMember(x)
    ensures k < d.order && d.ExpNat(d.generator, k) == x
  {
    assert Reached(d, x);
    var k: nat :| d.ExpNat(d.generator, k) == x;
    GeneratorPeriodic(d, k);
    k % d.order
  }

  lemma LogOfPower<G(!new)>(d: DlogGroup<G>, k: nat)
    requires ValidGroup(d)
    ensures d.isMember(d.ExpNat(d.generator, k))
    ensures Cong(Log(d, d.ExpNat(d.generator, k)), k, d.order)
  {
    ExpNatMember(d, d.generator, k);
    GeneratorInjective(d, Log(d, d.ExpNat(d.generator, k)), k);
  }

  /** Members are equal exactly when their logarithms agree modulo the order. */
  lemma EqualIffLog<G(!new)>(d: DlogGroup<G>, x: G, y: G)
    requires ValidGroup(d) && d.isMember(x) && d.isMember(y)
    ensures x == y <==> Cong(Log(d, x), Log(d, y), d.order)
  {
    GeneratorInjective(d, Log(d, x), Log(d, y));
  }

  lemma LogGenerator<G(!new)>(d: DlogGroup<G>)
    requires ValidGroup(d)
    ensures d.isMember(d.generator) && Cong(Log(d, d.generator), 1, d.order)
  {
    GeneratorOnce(d);
    LogOfPower(d, 1);
  }

  lemma LogMul<G(!new)>(d: DlogGroup<G>, x: G, y: G)
    requires ValidGroup(d) && d.isMember(x) && d.isMember(y)
    ensures d.isMember(d.mul(x, y))
    ensures Cong(Log(d, d.mul(x, y)), Log(d, x) + Log(d, y), d.order)
  {
    ExpNatAdd(d, d.generator, Log(d, x), Log(d, y));
    LogOfPower(d, Log(d, x) + Log(d, y));
  }

  lemma LogInv<G(!new)>(d: DlogGroup<G>, x: G)
    requires ValidGroup(d) && d.isMember(x)
    ensures d.isMember(d.inv(x)) && Cong(Log(d, d.inv(x)), 0 - Log(d, x), d.order)
  {
    Laws(d, x, x, x);
    LogMul(d, x, d.inv(x));
    var a, b, q := Log(d, x), Log(d, d.inv(x)), d.order;
    assert d.ExpNat(d.generator, 0) == d.identity;
    LogOfPower(d, 0);
    CongSym(Log(d, d.identity), a + b, q);
    CongTrans(a + b, Log(d, d.identity), 0, q);
    CongRefl(a, q);
    CongSub(a + b, 0, a, a, q);
  }

  lemma LogExpNat<G(!new)>(d: DlogGroup<G>, x: G, k: nat)
    requires ValidGroup(d) && d.isMember(x)
    ensures d.isMember(d.ExpNat(x, k)) && Cong(Log(d, d.ExpNat(x, k)), Log(d, x) * k, d.order)
  {
    ExpNatMul(d, d.generator, Log(d, x), k);
    LogOfPower(d, Log(d, x) * k);
  }

  lemma LogExp<G(!new)>(d: DlogGroup<G>, x: G, k: int)
    requires ValidGroup(d) && d.isMember(x)
    ensures d.isMember(d.Exp(x, k)) && Cong(Log(d, d.Exp(x, k)), Log(d, x) * k, d.order)
  {
    hide Cong, ValidGroup;
    if k >= 0 {
      LogExpNat(d, x, k);
    } else {
      LogInv(d, x);
      LogExpNat(d, d.inv(x), -k);
      var a, b, q := Log(d, x), Log(d, d.inv(x)), d.order;
      CongScale(b, 0 - a, -k, q);
      TwoNegations(a, k);
      CongTrans(Log(d, d.Exp(x, k)), b * (-k), a * k, q);
    }
  }

  lemma TwoNegations(a: int, k: int)
    ensures (0 - a) * (-k) == a * k
  {
  }

  // ---------- members by their exponents ----------

  /** `x` is the generator raised to `k`, for any integer `k`. */
  ghost predicate IsPower<G(!new)>(d: DlogGroup<G>, x: G, k: int)
    requires ValidGroup(d)
  {
    d.isMember(x) && Cong(Log(d, x), k, d.order)
  }

  lemma MemberIsPower<G(!new)>(d: DlogGroup<G>, x: G)
    requires ValidGroup(d) && d.isMember(x)
    ensures IsPower(d, x, Log(d, x))
  {
    CongRefl(Log(d, x), d.order);
  }

  lemma PowerCong<G(!new)>(d: DlogGroup<G>, x: G, a: int, b: int)
    requires ValidGroup(d) && IsPower(d, x, a) && Cong(a, b, d.order)
    ensures IsPower(d, x, b)
  {
    CongTrans(Log(d, x), a, b, d.order);
  }

  lemma PowerMul<G(!new)>(d: DlogGroup<G>, x: G, a: int, y: G, b: int)
    requires ValidGroup(d) && IsPower(d, x, a) && IsPower(d, y, b)
    ensures IsPower(d, d.mul(x, y), a + b)
  {
    LogMul(d, x, y);
    CongAdd(Log(d, x), a, Log(d, y), b, d.order);
    CongTrans(Log(d, d.mul(x, y)), Log(d, x) + Log(d, y), a + b, d.order);
  }

  lemma PowerExp<G(!new)>(d: DlogGroup<G>, x: G, a: int, k: int)
    requires ValidGroup(d) && IsPower(d, x, a)
    ensures IsPower(d, d.Exp(x, k), a * k)
  {
    LogExp(d, x, k);
    CongScale(Log(d, x), a, k, d.order);
    CongTrans(Log(d, d.Exp(x, k)), Log(d, x) * k, a * k, d.order);
  }

  lemma PowerInv<G(!new)>(d: DlogGroup<G>, x: G, a: int)
    requires ValidGroup(d) && IsPower(d, x, a)
    ensures IsPower(d, d.inv(x), -a)
  {
    LogInv(d, x);
    CongRefl(0, d.order);
    CongSub(0, 0, Log(d, x), a, d.order);
    CongTrans(Log(d, d.inv(x)), 0 - Log(d, x), -a, d.order);
  }

  /** Powers of the generator are equal exactly when their exponents agree modulo the order. */
  lemma PowersEqual<G(!new)>(d: DlogGroup<G>, x: G, a: int, y: G, b: int)
    requires ValidGroup(d) && IsPower(d, x, a) && IsPower(d, y, b)
    ensures x == y <==> Cong(a, b, d.order)
  {
    var q := d.order;
    EqualIffLog(d, x, y);
    CongSym(Log(d, x), a, q);
    CongSym(Log(d, y), b, q);
    if x == y { CongTrans(a, Log(d, x), b, q); }
    if Cong(a, b, q) {
      CongTrans(Log(d, x), a, b, q);
      CongTrans(Log(d, x), b, Log(d, y), q);
    }
  }

  lemma GeneratorExp<G(!new)>(d: DlogGroup<G>, k: int)
    requires ValidGroup(d)
    ensures IsPower(d, d.generator, 1) && IsPower(d, d.Exp(d.generator, k), k)
  {
    LogGenerator(d);
    PowerExp(d, d.generator, 1, k);
  }
}
