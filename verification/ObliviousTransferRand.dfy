/** The randomizer RAND of the oblivious transfers, and what its output reveals. */
module ObliviousTransferRand {
  import opened Congruence
  import opened Coprimality
  import opened DlogGroups

  /** `u = w^s * y^t` and `v = x^s * z^t`. */
  function Rand<G>(d: DlogGroup<G>, w: G, x: G, y: G, z: G, s: int, t: int): (G, G) {
    (d.mul(d.Exp(w, s), d.Exp(y, t)), d.mul(d.Exp(x, s), d.Exp(z, t)))
  }

  predicate AllMembers<G>(d: DlogGroup<G>, w: G, x: G, y: G, z: G) {
    d.isMember(w) && d.isMember(x) && d.isMember(y) && d.isMember(z)
  }

  lemma CombinedPower<G(!new)>(d: DlogGroup<G>, x: G, a: int, y: G, b: int, s: int, t: int)
    requires ValidGroup(d) && IsPower(d, x, a) && IsPower(d, y, b)
    ensures IsPower(d, d.mul(d.Exp(x, s), d.Exp(y, t)), a * s + b * t)
  {
    PowerExp(d, x, a, s);
    PowerExp(d, y, b, t);
    PowerMul(d, d.Exp(x, s), a * s, d.Exp(y, t), b * t);
  }

  /** `(x, z)` is the `r`-th power of `(w, y)`. */
  predicate Chosen<G(==)>(d: DlogGroup<G>, w: G, x: G, y: G, z: G, r: int) {
    x == d.Exp(w, r) && z == d.Exp(y, r)
  }

  /** On a chosen pair the second component is the `r`-th power of the first, whatever the coins. */
  lemma ChosenRevealed<G(!new)>(d: DlogGroup<G>, w: G, x: G, y: G, z: G, r: int, s: int, t: int)
    requires ValidGroup(d) && AllMembers(d, w, x, y, z) && Chosen(d, w, x, y, z, r)
    ensures var p := Rand(d, w, x, y, z, s, t);
            d.isMember(p.0) && d.isMember(p.1) && p.1 == d.Exp(p.0, r)
  {
    hide Cong, ValidGroup;
    var p, a, b := Rand(d, w, x, y, z, s, t), Log(d, w), Log(d, y);
    MemberIsPower(d, w);
    MemberIsPower(d, y);
    PowerExp(d, w, a, r);
    PowerExp(d, y, b, r);
    CombinedPower(d, w, a, y, b, s, t);
    CombinedPower(d, x, a * r, z, b * r, s, t);
    PowerExp(d, p.0, a * s + b * t, r);
    ExponentsAgree(a, b, r, s, t);
    CongRefl((a * r) * s + (b * r) * t, d.order);
    PowersEqual(d, p.1, (a * r) * s + (b * r) * t, d.Exp(p.0, r), (a * s + b * t) * r);
  }

  lemma ExponentsAgree(a: int, b: int, r: int, s: int, t: int)
    ensures (a * r) * s + (b * r) * t == (a * s + b * t) * r
  {
    assert (a * r) * s == (a * s) * r by { MulAssoc(a, r, s); MulAssoc(a, s, r); }
    assert (b * r) * t == (b * t) * r by { MulAssoc(b, r, t); MulAssoc(b, t, r); }
  }

  // ---------- hiding ----------

  ghost predicate ShiftAt<G>(d: DlogGroup<G>, w: G, x: G, y: G, z: G, m: G, ds: int, dt: int, s: int, t: int) {
    var p, p' := Rand(d, w, x, y, z, s, t), Rand(d, w, x, y, z, s + ds, t + dt);
    p'.0 == p.0 && p'.1 == d.mul(p.1, m)
  }

  /** Moving the coins by `(ds, dt)` keeps every `u` and multiplies every `v` by `m`. */
  ghost predicate Shifts<G>(d: DlogGroup<G>, w: G, x: G, y: G, z: G, m: G, ds: int, dt: int) {
    forall s, t :: ShiftAt(d, w, x, y, z, m, ds, dt, s, t)
  }

  /** Given `u`, every value of `v` is equally likely: each factor `m` comes from a shift of the coins. */
  ghost predicate Hides<G(!new)>(d: DlogGroup<G>, w: G, x: G, y: G, z: G) {
    forall m :: d.isMember(m) ==> exists ds, dt :: Shifts(d, w, x, y, z, m, ds, dt)
  }

  /** A shift is a solution of two linear equations between the exponents. */
  lemma ShiftFromExponents<G(!new)>(d: DlogGroup<G>, w: G, x: G, y: G, z: G, m: G, ds: int, dt: int)
    requires ValidGroup(d) && AllMembers(d, w, x, y, z) && d.isMember(m)
    requires Cong(Log(d, w) * ds + Log(d, y) * dt, 0, d.order)
    requires Cong(Log(d, x) * ds + Log(d, z) * dt, Log(d, m), d.order)
    ensures Shifts(d, w, x, y, z, m, ds, dt)
  {
    forall s, t ensures ShiftAt(d, w, x, y, z, m, ds, dt, s, t) {
      var p := Rand(d, w, x, y, z, s, t);
      ShiftedProduct(d, w, y, d.identity, 0, ds, dt, s, t) by { IdentityPower(d); }
      MemberIsPower(d, m);
      ShiftedProduct(d, x, z, m, Log(d, m), ds, dt, s, t);
      LogExp(d, w, s);
      LogExp(d, y, t);
      LogMul(d, d.Exp(w, s), d.Exp(y, t));
      Laws(d, p.0, p.0, p.0);
    }
  }

  lemma IdentityPower<G(!new)>(d: DlogGroup<G>)
    requires ValidGroup(d)
    ensures IsPower(d, d.identity, 0)
  {
    GeneratorExp(d, 0);
    assert d.Exp(d.generator, 0) == d.identity;
  }

  lemma ShiftedProduct<G(!new)>(d: DlogGroup<G>, x: G, z: G, m: G, k: int, ds: int, dt: int, s: int, t: int)
    requires ValidGroup(d) && d.isMember(x) && d.isMember(z) && IsPower(d, m, k)
    requires Cong(Log(d, x) * ds + Log(d, z) * dt, k, d.order)
    ensures d.mul(d.Exp(x, s + ds), d.Exp(z, t + dt)) == d.mul(d.mul(d.Exp(x, s), d.Exp(z, t)), m)
  {
    hide *;
    var a, b := Log(d, x), Log(d, z);
    MemberIsPower(d, x);
    MemberIsPower(d, z);
    CombinedPower(d, x, a, z, b, s, t);
    CombinedPower(d, x, a, z, b, s + ds, t + dt);
    PowerMul(d, d.mul(d.Exp(x, s), d.Exp(z, t)), a * s + b * t, m, k);
    ShiftExponent(d.order, a, b, s, t, ds, dt, k);
    PowersEqual(d, d.mul(d.Exp(x, s + ds), d.Exp(z, t + dt)), a * (s + ds) + b * (t + dt),
                d.mul(d.mul(d.Exp(x, s), d.Exp(z, t)), m), a * s + b * t + k);
  }

  lemma ShiftExponent(q: int, a: int, b: int, s: int, t: int, ds: int, dt: int, k: int)
    requires Cong(a * ds + b * dt, k, q)
    ensures Cong(a * (s + ds) + b * (t + dt), a * s + b * t + k, q)
  {
    assert a * (s + ds) == a * s + a * ds && b * (t + dt) == b * t + b * dt;
    CongRefl(a * s + b * t, q);
    CongAdd(a * s + b * t, a * s + b * t, a * ds + b * dt, k, q);
  }

  // ---------- linear algebra modulo a prime ----------

  lemma DivideInField(q: nat, c: int, m: int) returns (k: int)
    requires IsPrime(q) && !Cong(c, 0, q)
    ensures Cong(c * k, m, q)
  {
    PrimeCoprime(c, q);
    var i := InverseExists(c, q);
    k := i * m;
    CongScale(c * i, 1, m, q);
    MulAssoc(c, i, m);
  }

  /** The row `(c, f)` is not a multiple of the row `(a, b)`. */
  ghost predicate Independent(q: nat, a: int, b: int, c: int, f: int) {
    !Cong(a * f - b * c, 0, q) || (Cong(a, 0, q) && Cong(b, 0, q) && (!Cong(c, 0, q) || !Cong(f, 0, q)))
  }

  /** Independent rows allow any second value with a zero first value. */
  lemma SolveShift(q: nat, a: int, b: int, c: int, f: int, m: int) returns (ds: int, dt: int)
    requires IsPrime(q) && Independent(q, a, b, c, f)
    ensures Cong(a * ds + b * dt, 0, q) && Cong(c * ds + f * dt, m, q)
  {
    hide Cong, IsPrime;
    if !Cong(a * f - b * c, 0, q) {
      var k := DivideInField(q, a * f - b * c, m);
      ds, dt := -b * k, a * k;
      Determinant(a, b, c, f, k);
      CongRefl(0, q);
    } else {
      if !Cong(c, 0, q) {
        var k := DivideInField(q, c, m);
        ds, dt := k, 0;
        OnlyOne(c, f, k);
      } else {
        var k := DivideInField(q, f, m);
        ds, dt := 0, k;
        OnlyOne(f, c, k);
      }
      CongScale(a, 0, ds, q);
      CongScale(b, 0, dt, q);
      CongAdd(a * ds, 0, b * dt, 0, q);
    }
  }

  lemma OnlyOne(c: int, f: int, k: int)
    ensures c * k + f * 0 == c * k && f * 0 + c * k == c * k
  {
  }

  lemma Determinant(a: int, b: int, c: int, f: int, k: int)
    ensures a * (-b * k) + b * (a * k) == 0
    ensures c * (-b * k) + f * (a * k) == (a * f - b * c) * k
  {
    assert a * (-b * k) == (a * (-b)) * k by { MulAssoc(a, -b, k); }
    assert b * (a * k) == (b * a) * k by { MulAssoc(b, a, k); }
    assert c * (-b * k) == (c * (-b)) * k by { MulAssoc(c, -b, k); }
    assert f * (a * k) == (f * a) * k by { MulAssoc(f, a, k); }
    assert a * (-b) == -(b * a) && c * (-b) == -(b * c) && f * a == a * f;
    assert (-(b * a)) * k == -((b * a) * k);
    assert (a * f - b * c) * k == (a * f) * k - (b * c) * k;
    assert (-(b * c)) * k == -((b * c) * k);
  }

  /** Otherwise the second row is a multiple of the first. */
  lemma Proportional(q: nat, a: int, b: int, c: int, f: int) returns (r: int)
    requires IsPrime(q) && !Independent(q, a, b, c, f)
    ensures Cong(a * r, c, q) && Cong(b * r, f, q)
  {
    if !Cong(a, 0, q) {
      r := DivideInField(q, a, c);
      PrimeCoprime(a, q);
      SameRatio(q, a, b, c, f, r);
    } else if !Cong(b, 0, q) {
      r := DivideInField(q, b, f);
      PrimeCoprime(b, q);
      CongNegate(a * f - b * c, q);
      SameRatio(q, b, a, f, c, r);
    } else {
      r := 0;
      CongSym(c, 0, q);
      CongSym(f, 0, q);
    }
  }

  lemma CongNegate(x: int, q: int)
    requires Cong(x, 0, q)
    ensures Cong(-x, 0, q)
  {
    CongRefl(0, q);
    CongSub(0, 0, x, 0, q);
  }

  lemma SameRatio(q: nat, a: int, b: int, c: int, f: int, r: int)
    requires q > 0 && Coprime(a, q) && Cong(a * r, c, q) && Cong(a * f - b * c, 0, q)
    ensures Cong(b * r, f, q)
  {
    CongScale(a * r, c, b, q);
    assert b * (a * r) == a * (b * r) by { MulAssoc(a, b, r); MulAssoc(b, a, r); }
    CongRefl(b * c, q);
    CongAdd(a * f - b * c, 0, b * c, b * c, q);
    CongSym(a * f, b * c, q);
    CongTrans(a * (b * r), b * c, a * f, q);
    CongCancel(a, b * r, f, q);
  }

  // ---------- the dichotomy ----------

  lemma NotHiddenWhenChosen<G(!new)>(d: DlogGroup<G>, w: G, x: G, y: G, z: G, r: int)
    requires ValidGroup(d) && AllMembers(d, w, x, y, z) && Chosen(d, w, x, y, z, r)
    ensures !Hides(d, w, x, y, z)
  {
    if Hides(d, w, x, y, z) {
      var g := d.generator;
      var ds, dt :| Shifts(d, w, x, y, z, g, ds, dt);
      assert ShiftAt(d, w, x, y, z, g, ds, dt, 0, 0);
      ChosenRevealed(d, w, x, y, z, r, 0, 0);
      ChosenRevealed(d, w, x, y, z, r, ds, dt);
      CancelLeft(d, Rand(d, w, x, y, z, 0, 0).1, g);
    }
  }

  lemma ShiftWhenNotChosen<G(!new)>(d: DlogGroup<G>, w: G, x: G, y: G, z: G, m: G) returns (ds: int, dt: int)
    requires ValidGroup(d) && AllMembers(d, w, x, y, z) && d.isMember(m)
    requires forall r :: !Chosen(d, w, x, y, z, r)
    ensures Shifts(d, w, x, y, z, m, ds, dt)
  {
    IndependentUnlessChosen(d, w, x, y, z);
    ds, dt := SolveShift(d.order, Log(d, w), Log(d, y), Log(d, x), Log(d, z), Log(d, m));
    ShiftFromExponents(d, w, x, y, z, m, ds, dt);
  }

  lemma IndependentUnlessChosen<G(!new)>(d: DlogGroup<G>, w: G, x: G, y: G, z: G)
    requires ValidGroup(d) && AllMembers(d, w, x, y, z)
    ensures Independent(d.order, Log(d, w), Log(d, y), Log(d, x), Log(d, z))
            || exists r :: Chosen(d, w, x, y, z, r)
  {
    if !Independent(d.order, Log(d, w), Log(d, y), Log(d, x), Log(d, z)) {
      var r := Proportional(d.order, Log(d, w), Log(d, y), Log(d, x), Log(d, z));
      ProportionalIsChosen(d, w, x, y, z, r);
    }
  }

  lemma ProportionalIsChosen<G(!new)>(d: DlogGroup<G>, w: G, x: G, y: G, z: G, r: int)
    requires ValidGroup(d) && AllMembers(d, w, x, y, z)
    requires Cong(Log(d, w) * r, Log(d, x), d.order) && Cong(Log(d, y) * r, Log(d, z), d.order)
    ensures Chosen(d, w, x, y, z, r)
  {
    PowerFromLog(d, w, x, r);
    PowerFromLog(d, y, z, r);
  }

  lemma PowerFromLog<G(!new)>(d: DlogGroup<G>, w: G, x: G, r: int)
    requires ValidGroup(d) && d.isMember(w) && d.isMember(x) && Cong(Log(d, w) * r, Log(d, x), d.order)
    ensures x == d.Exp(w, r)
  {
    MemberIsPower(d, w);
    MemberIsPower(d, x);
    PowerExp(d, w, Log(d, w), r);
    PowersEqual(d, d.Exp(w, r), Log(d, w) * r, x, Log(d, x));
  }

  /** RAND either reveals `v` as a power of `u`, on chosen pairs, or hides it perfectly, on all others. */
  lemma HidesIffNotChosen<G(!new)>(d: DlogGroup<G>, w: G, x: G, y: G, z: G)
    requires ValidGroup(d) && AllMembers(d, w, x, y, z)
    ensures Hides(d, w, x, y, z) <==> forall r :: !Chosen(d, w, x, y, z, r)
  {
    if r :| Chosen(d, w, x, y, z, r) {
      NotHiddenWhenChosen(d, w, x, y, z, r);
    } else {
      forall m | d.isMember(m) ensures exists ds, dt :: Shifts(d, w, x, y, z, m, ds, dt) {
        var ds, dt := ShiftWhenNotChosen(d, w, x, y, z, m);
      }
    }
  }

  // ---------- the bijection ----------

  lemma CramerIdentity(a: int, b: int, c: int, f: int, x: int, y: int)
    ensures a * (f * x - b * y) + b * (a * y - c * x) == (a * f - b * c) * x
    ensures c * (f * x - b * y) + f * (a * y - c * x) == (a * f - b * c) * y
  {
    FourProducts(a, f, b, x, y);
    FourProducts(b, a, c, y, x);
    FourProducts(c, f, b, x, y);
    FourProducts(f, a, c, y, x);
    Determinants(a, f, b, c, x, y);
  }

  lemma CramerBack(a: int, b: int, c: int, f: int, x: int, y: int)
    ensures f * (a * x + b * y) - b * (c * x + f * y) == (a * f - b * c) * x
    ensures a * (c * x + f * y) - c * (a * x + b * y) == (a * f - b * c) * y
  {
    FourProducts(f, a, b, x, y);
    FourProducts(b, c, f, x, y);
    FourProducts(a, c, f, x, y);
    FourProducts(c, a, b, x, y);
    Determinants(a, f, b, c, x, y);
  }

  lemma Determinants(a: int, f: int, b: int, c: int, x: int, y: int)
    ensures (a * f - b * c) * x == (a * f) * x - (b * c) * x
    ensures (a * f - b * c) * y == (a * f) * y - (b * c) * y
    ensures a * f == f * a && a * b == b * a && b * c == c * b && c * f == f * c && a * c == c * a && b * f == f * b
  {
  }

  lemma FourProducts(a: int, f: int, b: int, x: int, y: int)
    ensures a * (f * x - b * y) == (a * f) * x - (a * b) * y
    ensures a * (f * x + b * y) == (a * f) * x + (a * b) * y
  {
    MulAssoc(a, f, x);
    MulAssoc(a, b, y);
    assert a * (f * x - b * y) == a * (f * x) - a * (b * y);
    assert a * (f * x + b * y) == a * (f * x) + a * (b * y);
  }

  lemma ReduceCoins(q: nat, a: int, b: int, s: int, t: int)
    requires q > 0
    ensures Cong(a * (s % q) + b * (t % q), a * s + b * t, q)
  {
    CongMod(s, q);
    CongMod(t, q);
    CongScale(s % q, s, a, q);
    CongScale(t % q, t, b, q);
    CongAdd(a * (s % q), a * s, b * (t % q), b * t, q);
  }

  lemma ScaleOut(q: int, a: int, b: int, x: int, y: int, det: int, k: int, u: int)
    requires a * x + b * y == det * u && Cong(det * k, 1, q)
    ensures Cong(a * (x * k) + b * (y * k), u, q)
  {
    hide Cong;
    ScaleProducts(a, x, b, y, k);
    RotateProduct(det, u, k);
    CongScale(det * k, 1, u, q);
  }

  lemma ScaleProducts(a: int, x: int, b: int, y: int, k: int)
    ensures a * (x * k) + b * (y * k) == (a * x + b * y) * k
  {
    MulAssoc(a, x, k);
    MulAssoc(b, y, k);
    CollectThree(a * x, b * y, 0, k);
  }

  lemma RotateProduct(det: int, u: int, k: int)
    ensures (det * u) * k == (det * k) * u
  {
    MulAssoc(det, u, k);
    MulAssoc(det, k, u);
    assert u * k == k * u;
  }

  lemma SolveCoins(q: nat, a: int, b: int, c: int, f: int, u: int, v: int) returns (s: nat, t: nat)
    requires IsPrime(q) && !Cong(a * f - b * c, 0, q)
    ensures s < q && t < q && Cong(a * s + b * t, u, q) && Cong(c * s + f * t, v, q)
  {
    var det := a * f - b * c;
    PrimeCoprime(det, q);
    var k := InverseExists(det, q);
    var x, y := f * u - b * v, a * v - c * u;
    CramerIdentity(a, b, c, f, u, v);
    ScaleOut(q, a, b, x, y, det, k, u);
    ScaleOut(q, c, f, x, y, det, k, v);
    s, t := (x * k) % q, (y * k) % q;
    ReduceCoins(q, a, b, x * k, y * k);
    ReduceCoins(q, c, f, x * k, y * k);
    CongTrans(a * s + b * t, a * (x * k) + b * (y * k), u, q);
    CongTrans(c * s + f * t, c * (x * k) + f * (y * k), v, q);
  }

  lemma KernelTrivial(q: nat, a: int, b: int, c: int, f: int, x: int, y: int)
    requires IsPrime(q) && !Cong(a * f - b * c, 0, q)
    requires Cong(a * x + b * y, 0, q) && Cong(c * x + f * y, 0, q)
    ensures Cong(x, 0, q) && Cong(y, 0, q)
  {
    var det, m, n := a * f - b * c, a * x + b * y, c * x + f * y;
    PrimeCoprime(det, q);
    CramerBack(a, b, c, f, x, y);
    hide *;
    KernelCoordinate(q, det, x, f, m, b, n);
    KernelCoordinate(q, det, y, a, n, c, m);
  }

  lemma KernelCoordinate(q: nat, det: int, x: int, f: int, m: int, b: int, n: int)
    requires q > 0 && Coprime(det, q) && f * m - b * n == det * x && Cong(m, 0, q) && Cong(n, 0, q)
    ensures Cong(x, 0, q)
  {
    hide *;
    CongScale(m, 0, f, q);
    CongScale(n, 0, b, q);
    CongSub(f * m, 0, b * n, 0, q);
    EuclidLemma(det, x, q);
  }

  lemma CoinsUnique(q: nat, a: int, b: int, c: int, f: int, s: nat, t: nat, s': nat, t': nat)
    requires IsPrime(q) && !Cong(a * f - b * c, 0, q) && s < q && t < q && s' < q && t' < q
    requires Cong(a * s + b * t, a * s' + b * t', q) && Cong(c * s + f * t, c * s' + f * t', q)
    ensures s == s' && t == t'
  {
    DifferenceVanishes(q, a, b, s, t, s', t');
    DifferenceVanishes(q, c, f, s, t, s', t');
    KernelTrivial(q, a, b, c, f, s - s', t - t');
    EqualFromDifference(q, s, s');
    EqualFromDifference(q, t, t');
  }

  lemma DifferenceVanishes(q: int, a: int, b: int, s: int, t: int, s': int, t': int)
    requires Cong(a * s + b * t, a * s' + b * t', q)
    ensures Cong(a * (s - s') + b * (t - t'), 0, q)
  {
    var m := a * s' + b * t';
    CongRefl(m, q);
    CongSub(a * s + b * t, m, m, m, q);
    assert a * (s - s') == a * s - a * s' && b * (t - t') == b * t - b * t';
  }

  lemma EqualFromDifference(q: nat, s: nat, s': nat)
    requires s < q && s' < q && Cong(s - s', 0, q)
    ensures s == s'
  {
    CongRefl(s', q);
    CongAdd(s - s', 0, s', s', q);
    CongSmall(s, s', q);
  }

  /** On a pair that is not chosen, and unless `w` and `y` are both the identity, the coins
      `(s, t)` in `[0, q)` correspond one to one to the outputs `(u, v)` in `G x G`. */
  lemma RandBijective<G(!new)>(d: DlogGroup<G>, w: G, x: G, y: G, z: G, u: G, v: G) returns (s: nat, t: nat)
    requires ValidGroup(d) && AllMembers(d, w, x, y, z) && d.isMember(u) && d.isMember(v)
    requires !(w == d.identity && y == d.identity) && forall r :: !Chosen(d, w, x, y, z, r)
    ensures s < d.order && t < d.order && Rand(d, w, x, y, z, s, t) == (u, v)
    ensures forall s': nat, t': nat :: s' < d.order && t' < d.order && Rand(d, w, x, y, z, s', t') == (u, v) ==>
              s' == s && t' == t
  {
    var a, b, c, f, q := Log(d, w), Log(d, y), Log(d, x), Log(d, z), d.order;
    DeterminantNonZero(d, w, x, y, z);
    s, t := SolveCoins(q, a, b, c, f, Log(d, u), Log(d, v));
    OutputIff(d, w, y, u, s, t);
    OutputIff(d, x, z, v, s, t);
    forall s': nat, t': nat | s' < q && t' < q && Rand(d, w, x, y, z, s', t') == (u, v) ensures s' == s && t' == t {
      OutputIff(d, w, y, u, s', t');
      OutputIff(d, x, z, v, s', t');
      CongSym(a * s + b * t, Log(d, u), q);
      CongSym(c * s + f * t, Log(d, v), q);
      CongTrans(a * s' + b * t', Log(d, u), a * s + b * t, q);
      CongTrans(c * s' + f * t', Log(d, v), c * s + f * t, q);
      CoinsUnique(q, a, b, c, f, s', t', s, t);
    }
  }

  lemma OutputIff<G(!new)>(d: DlogGroup<G>, w: G, y: G, u: G, s: int, t: int)
    requires ValidGroup(d) && d.isMember(w) && d.isMember(y) && d.isMember(u)
    ensures d.mul(d.Exp(w, s), d.Exp(y, t)) == u <==> Cong(Log(d, w) * s + Log(d, y) * t, Log(d, u), d.order)
  {
    MemberIsPower(d, w);
    MemberIsPower(d, y);
    MemberIsPower(d, u);
    CombinedPower(d, w, Log(d, w), y, Log(d, y), s, t);
    PowersEqual(d, d.mul(d.Exp(w, s), d.Exp(y, t)), Log(d, w) * s + Log(d, y) * t, u, Log(d, u));
  }

  lemma DeterminantNonZero<G(!new)>(d: DlogGroup<G>, w: G, x: G, y: G, z: G)
    requires ValidGroup(d) && AllMembers(d, w, x, y, z)
    requires !(w == d.identity && y == d.identity) && forall r :: !Chosen(d, w, x, y, z, r)
    ensures !Cong(Log(d, w) * Log(d, z) - Log(d, y) * Log(d, x), 0, d.order)
  {
    IndependentUnlessChosen(d, w, x, y, z);
    IdentityPower(d);
    MemberIsPower(d, w);
    MemberIsPower(d, y);
    PowersEqual(d, w, Log(d, w), d.identity, 0);
    PowersEqual(d, y, Log(d, y), d.identity, 0);
  }
}
