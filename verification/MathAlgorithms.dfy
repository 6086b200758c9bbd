/** src/infra/MathAlgorithms.cpp: modular inverse, Chinese remainders, square roots. */
module MathAlgorithms {
  import opened Outcomes
  import opened Congruence
  import opened Coprimality
  import opened FermatEuler

  // ---------- modInverse ----------

  /** The coefficients alternate in sign and weigh up to the modulus. */
  ghost predicate Balanced(a: int, m: int, x0: int, x1: int, m0: int) {
    || (x0 <= 0 <= x1 && m * x1 - a * x0 == m0)
    || (x1 <= 0 <= x0 && a * x0 - m * x1 == m0)
  }

  lemma BalancedStep(a: int, m: int, x0: int, x1: int, m0: int, q: int, r: int)
    requires Balanced(a, m, x0, x1, m0)
    requires m > 0 && q >= 0 && r >= 0 && a == m * q + r
    ensures Balanced(m, r, x1 - q * x0, x0, m0)
  {
    calc {
      m * (x1 - q * x0) - r * x0;
      m * x1 - m * (q * x0) - r * x0;
      { assert m * (q * x0) == (m * q) * x0; }
      m * x1 - (m * q + r) * x0;
      m * x1 - a * x0;
    }
    assert (m * q + r) * x0 == m * q * x0 + r * x0;
    if x0 <= 0 { assert q * x0 <= 0; } else { assert q * x0 >= 0; }
  }

  /** While `a` is at least two, the next coefficient is below the modulus. */
  lemma BalancedBound(a: int, m: int, x0: int, x1: int, m0: int)
    requires Balanced(a, m, x0, x1, m0) && a >= 2 && m >= 0 && m0 > 0
    ensures -m0 < x0 < m0
  {
    if x0 <= 0 <= x1 {
      assert m * x1 >= 0;
      assert a * (-x0) >= 2 * (-x0);
      assert a * (-x0) == -(a * x0);
    } else {
      assert m * (-x1) >= 0;
      assert m * (-x1) == -(m * x1);
      assert a * x0 >= 2 * x0;
    }
  }

  /** What every iteration of the extended Euclid loop keeps. */
  ghost predicate EuclidState(a0: int, m0: nat, a: int, m: nat, x0: int, x1: int)
    requires a0 > 1
  {
    && a >= 1 && Gcd(a, m) == Gcd(a0, m0) && Balanced(a, m, x0, x1, m0)
    && Cong(a, a0 * x1, m0) && Cong(m, a0 * x0, m0)
    && (m0 > 1 ==> 0 < x1 + m0 && x1 < m0)
  }

  lemma EuclidStep(a0: int, m0: nat, a: int, m: nat, x0: int, x1: int, q: int, r: nat)
    requires a0 > 1 && EuclidState(a0, m0, a, m, x0, x1) && a > 1 && m > 0
    requires a == m * q + r && q >= 0 && Gcd(m, r) == Gcd(a, m)
    ensures EuclidState(a0, m0, m, r, x1 - q * x0, x0)
  {
    BalancedStep(a, m, x0, x1, m0, q, r);
    if m0 > 1 {
      BalancedBound(a, m, x0, x1, m0);
    }
    InverseStep(a0, m0, a, m, x0, x1, q, r);
  }

  lemma InverseStep(a0: int, m0: int, a: int, m: int, x0: int, x1: int, q: int, r: int)
    requires a == m * q + r
    requires Cong(a, a0 * x1, m0) && Cong(m, a0 * x0, m0)
    ensures Cong(r, a0 * (x1 - q * x0), m0)
  {
    CongScale(m, a0 * x0, q, m0);
    CongSub(a, a0 * x1, m * q, (a0 * x0) * q, m0);
    assert a0 * (x1 - q * x0) == a0 * x1 - (a0 * x0) * q;
  }

  /** The coefficient, brought into `[0, m0)`, is the inverse. */
  lemma InverseAtExit(a0: int, m0: int, x1: int, x: int)
    requires m0 > 1 && Cong(1, a0 * x1, m0) && -m0 < x1 < m0
    requires x == if x1 < 0 then x1 + m0 else x1
    ensures 1 <= x < m0 && Cong(a0 * x, 1, m0)
  {
    CongSym(1, a0 * x1, m0);
    if x1 < 0 {
      assert a0 * (x1 + m0) == a0 * x1 + a0 * m0;
      CongFromQuotient(a0 * x, a0 * x1, m0, a0);
      CongTrans(a0 * x, a0 * x1, 1, m0);
    }
    if x == 0 {
      assert a0 * x == 0;
      CongSmall(0, 1, m0);
    }
  }

  lemma EuclidStart(a0: int, m0: nat)
    requires a0 > 1
    ensures EuclidState(a0, m0, a0, m0, 0, 1)
  {
    CongRefl(a0, m0);
    CongFromQuotient(m0, 0, m0, 1);
  }

  /** `modInverse` divides by zero exactly when `a > 1` shares a factor with `m != 1`;
      it answers 1 whenever `a <= 1` or `m == 1`, and otherwise the inverse in `[1, m)`. */
  method ModInverse(a0: int, m0: nat) returns (r: Outcome<int>)
    ensures r.Threw? <==> a0 > 1 && m0 != 1 && Gcd(a0, m0) != 1
    ensures r.Threw? ==> r.error == DivisionByZero
    ensures a0 <= 1 || m0 == 1 ==> r == Returned(1)
    ensures r.Returned? && a0 >= 1 && m0 > 1 ==> 1 <= r.value < m0 && Cong(a0 * r.value, 1, m0)
  {
    hide Cong, EuclidState, Gcd;
    if m0 == 1 {
      return Returned(1);
    }
    var a, x0, x1 := a0, 0, 1;
    var m: nat := m0;
    if a0 > 1 { EuclidStart(a0, m0); }
    while a > 1
      invariant a0 <= 1 ==> a == a0 && x1 == 1
      invariant a0 > 1 ==> EuclidState(a0, m0, a, m, x0, x1)
      decreases m, a
    {
      if m == 0 {
        ZeroModulus(a0, m0, a, x0, x1);
        return Threw(DivisionByZero);
      }
      var q, rem := a / m, a % m;
      EuclidLoop(a0, m0, a, m, x0, x1);
      a, m := m, rem;
      x0, x1 := x1 - q * x0, x0;
    }
    if a0 > 1 {
      EuclidExit(a0, m0, a, m, x0, x1);
    } else {
      CongRefl(1, m0);
    }
    if x1 < 0 {
      x1 := x1 + m0;
    }
    return Returned(x1);
  }

  lemma EuclidLoop(a0: int, m0: nat, a: int, m: nat, x0: int, x1: int)
    requires a0 > 1 && EuclidState(a0, m0, a, m, x0, x1) && a > 1 && m > 0
    ensures EuclidState(a0, m0, m, a % m, x1 - (a / m) * x0, x0)
  {
    hide Cong, EuclidState, Gcd;
    GcdStep(a, m);
    EuclidStep(a0, m0, a, m, x0, x1, a / m, a % m);
  }

  lemma {:induction false} GcdStep(a: nat, m: nat)
    requires m > 0
    ensures Gcd(m, a % m) == Gcd(a, m) && a == m * (a / m) + a % m && a / m >= 0
  {
    GcdUnfolds(a, m);
    hide Gcd;
    var d, r := DivideBy(a, m);
  }

  lemma {:induction false} GcdUnfolds(a: nat, m: nat)
    requires m > 0
    ensures Gcd(m, a % m) == Gcd(a, m)
  {
  }

  lemma ZeroModulus(a0: int, m0: nat, a: int, x0: int, x1: int)
    requires a0 > 1 && EuclidState(a0, m0, a, 0, x0, x1) && a > 1
    ensures Gcd(a0, m0) != 1
  {
    hide Cong, Balanced;
    assert Gcd(a, 0) == a;
  }

  lemma EuclidExit(a0: int, m0: nat, a: int, m: nat, x0: int, x1: int)
    requires a0 > 1 && EuclidState(a0, m0, a, m, x0, x1) && a <= 1
    ensures Gcd(a0, m0) == 1
    ensures m0 > 1 ==> var x := if x1 < 0 then x1 + m0 else x1; 1 <= x < m0 && Cong(a0 * x, 1, m0)
  {
    hide Cong, Balanced, Gcd;
    GcdOne(m);
    if m0 > 1 {
      InverseAtExit(a0, m0, x1, if x1 < 0 then x1 + m0 else x1);
    }
  }

  lemma GcdOne(m: nat)
    ensures Gcd(1, m) == 1
  {
    var u, v := GcdProperties(1, m);
    DivisorOfOne(Gcd(1, m));
  }

  // ---------- chineseRemainderTheorem ----------

  /** Remainder as the library's `%` computes it: truncated toward zero. */
  function TruncatedRemainder(a: int, m: int): int
    requires m > 0
  {
    if a >= 0 then a % m else -((-a) % m)
  }

  lemma TruncatedRemainderCong(a: int, m: int)
    requires m > 0
    ensures Cong(TruncatedRemainder(a, m), a, m)
    ensures -m < TruncatedRemainder(a, m) < m
    ensures a >= 0 ==> TruncatedRemainder(a, m) >= 0
  {
    CongMod(a, m);
    CongMod(-a, m);
    CongRefl(0, m);
    CongSub(0, 0, (-a) % m, -a, m);
  }

  function ProductOf(s: seq<int>): int {
    if s == [] then 1 else ProductOf(s[..|s| - 1]) * s[|s| - 1]
  }

  predicate AllPositive(s: seq<int>) {
    forall i :: 0 <= i < |s| ==> s[i] > 0
  }

  ghost predicate PairwiseCoprime(s: seq<int>) {
    forall i, j :: 0 <= i < j < |s| ==> Coprime(s[i], s[j])
  }

  ghost function Others(s: seq<int>, i: nat): seq<int>
    requires i < |s|
  {
    s[..i] + s[i + 1..]
  }

  lemma {:induction false} ProductPositive(s: seq<int>)
    requires AllPositive(s)
    ensures ProductOf(s) > 0
  {
    if s == [] {
    } else {
      ProductPositive(s[..|s| - 1]);
    }
  }

  lemma MulExchangeRight(r: int, x: int, y: int)
    ensures (r * x) * y == (r * y) * x
  {
  }

  /** Any one factor can be taken out of the product. */
  lemma {:induction false} ProductSplit(s: seq<int>, i: nat)
    requires i < |s|
    ensures ProductOf(s) == ProductOf(Others(s, i)) * s[i]
    decreases |s|
  {
    var k := |s| - 1;
    ProductLast(s);
    if i == k {
      assert Others(s, i) == s[..k];
    } else {
      var t := s[..k];
      ProductSplit(t, i);
      assert Others(s, i) == Others(t, i) + [s[k]];
      assert Others(s, i)[..|s| - 2] == Others(t, i);
      ProductLast(Others(s, i));
      hide ProductOf, Others;
      MulExchangeRight(ProductOf(Others(t, i)), s[i], s[k]);
    }
  }

  lemma ProductLast(s: seq<int>)
    requires s != []
    ensures ProductOf(s) == ProductOf(s[..|s| - 1]) * s[|s| - 1]
  {
  }

  lemma CoprimeProductIff(a: int, b: int, m: int)
    ensures Coprime(a * b, m) <==> Coprime(a, m) && Coprime(b, m)
  {
    hide Coprime;
    if Coprime(a * b, m) {
      CoprimeFactor(a, b, m);
    }
    if Coprime(a, m) && Coprime(b, m) {
      CoprimeMul(a, b, m);
    }
  }

  lemma {:induction false} ProductCoprimeIff(s: seq<int>, m: int)
    ensures Coprime(ProductOf(s), m) <==> forall i :: 0 <= i < |s| ==> Coprime(s[i], m)
    decreases |s|
  {
    if s == [] {
      CoprimeOne(m);
    } else {
      hide Coprime;
      var k := |s| - 1;
      ProductCoprimeIff(s[..k], m);
      CoprimeProductIff(ProductOf(s[..k]), s[k], m);
    }
  }

  /** Each modulus is coprime to the product of the others exactly when all are pairwise coprime. */
  lemma PairwiseCoprimeIff(s: seq<int>)
    ensures PairwiseCoprime(s) <==>
      forall i :: 0 <= i < |s| ==> Coprime(ProductOf(Others(s, i)), s[i])
  {
    if PairwiseCoprime(s) {
      forall i | 0 <= i < |s| ensures Coprime(ProductOf(Others(s, i)), s[i]) {
        forall j | 0 <= j < |Others(s, i)| ensures Coprime(Others(s, i)[j], s[i]) {
          if j >= i { CoprimeSym(s[i], s[j + 1]); }
        }
        ProductCoprimeIff(Others(s, i), s[i]);
      }
    }
    if forall i :: 0 <= i < |s| ==> Coprime(ProductOf(Others(s, i)), s[i]) {
      forall i, j | 0 <= i < j < |s| ensures Coprime(s[i], s[j]) {
        ProductCoprimeIff(Others(s, j), s[j]);
        assert Others(s, j)[i] == s[i];
      }
    }
  }

  lemma ExactQuotient(p: int, b: int, a: int)
    requires a > 0 && p == b * a
    ensures p / a == b
  {
    assert (p / a - b) * a == a * (p / a) - b * a;
    SmallMultiple(p / a - b, a);
  }

  lemma MultipleScaled(r: int, m: int, x: int, c: int)
    ensures Cong((r * m) * x * c, 0, m)
  {
    assert (r * m) * x * c == (r * x * c) * m;
    CongFromQuotient((r * m) * x * c, 0, m, r * x * c);
  }

  /** The summand for index `k` is `c` modulo `s[k]` and zero modulo every other modulus. */
  lemma SummandResidues(s: seq<int>, k: nat, x: int, c: int)
    requires AllPositive(s) && k < |s|
    requires s[k] == 1 || Cong(ProductOf(Others(s, k)) * x, 1, s[k])
    ensures Cong(ProductOf(Others(s, k)) * x * c, c, s[k])
    ensures forall i :: 0 <= i < |s| && i != k ==> Cong(ProductOf(Others(s, k)) * x * c, 0, s[i])
  {
    var b := ProductOf(Others(s, k));
    if s[k] == 1 {
      CongFromQuotient(b * x * c, c, 1, b * x * c - c);
    } else {
      CongScale(b * x, 1, c, s[k]);
    }
    forall i | 0 <= i < |s| && i != k ensures Cong(b * x * c, 0, s[i]) {
      var j := if i < k then i else i - 1;
      assert Others(s, k)[j] == s[i];
      ProductSplit(Others(s, k), j);
      MultipleScaled(ProductOf(Others(Others(s, k), j)), s[i], x, c);
    }
  }

  lemma AddSummand(sum: int, tmp: int, cs: seq<int>, s: seq<int>, k: nat)
    requires AllPositive(s) && k < |s| <= |cs|
    requires forall i :: 0 <= i < k ==> Cong(sum, cs[i], s[i])
    requires forall i :: k <= i < |s| ==> Cong(sum, 0, s[i])
    requires Cong(tmp, cs[k], s[k])
    requires forall i :: 0 <= i < |s| && i != k ==> Cong(tmp, 0, s[i])
    ensures forall i :: 0 <= i < k + 1 ==> Cong(sum + tmp, cs[i], s[i])
    ensures forall i :: k + 1 <= i < |s| ==> Cong(sum + tmp, 0, s[i])
  {
    forall i | 0 <= i < |s|
      ensures Cong(sum + tmp, if i <= k then cs[i] else 0, s[i])
    {
      CongAdd(sum, if i < k then cs[i] else 0, tmp, if i == k then cs[i] else 0, s[i]);
    }
  }

  /** The summand of one index: `b * b_ * c` with `b` the product of the other moduli. */
  method CrtSummand(c: int, moduli: seq<int>, all: int, i: nat) returns (r: Outcome<int>)
    requires AllPositive(moduli) && i < |moduli| && all == ProductOf(moduli)
    ensures r.Returned? <==> Coprime(ProductOf(Others(moduli, i)), moduli[i])
    ensures r.Threw? ==> r.error == DivisionByZero
    ensures r.Returned? ==> Cong(r.value, c, moduli[i]) && (c >= 0 ==> r.value >= 0)
    ensures r.Returned? ==> forall j :: 0 <= j < |moduli| && j != i ==> Cong(r.value, 0, moduli[j])
  {
    var a := moduli[i];
    var b := all / a;
    ProductSplit(moduli, i);
    ExactQuotient(all, ProductOf(Others(moduli, i)), a);
    ProductPositive(Others(moduli, i));
    GcdDecidesCoprime(b, a);
    CoprimeOne(b);
    CoprimeOne(a);
    var inverse :- ModInverse(b, a);
    SummandResidues(moduli, i, inverse, c);
    NonNegativeProduct(b, inverse, c);
    return Returned(b * inverse * c);
  }

  lemma NonNegativeProduct(b: int, x: int, c: int)
    requires b >= 0 && x >= 0
    ensures c >= 0 ==> b * x * c >= 0
  {
  }

  lemma RemainderMeetsCongruences(sum: int, cs: seq<int>, s: seq<int>)
    requires AllPositive(s) && |s| <= |cs| && ProductOf(s) > 0
    requires forall i :: 0 <= i < |s| ==> Cong(sum, cs[i], s[i])
    ensures forall i :: 0 <= i < |s| ==> Cong(TruncatedRemainder(sum, ProductOf(s)), cs[i], s[i])
  {
    hide Cong, TruncatedRemainder, ProductOf;
    var x := TruncatedRemainder(sum, ProductOf(s));
    TruncatedRemainderCong(sum, ProductOf(s));
    forall i | 0 <= i < |s| ensures Cong(x, cs[i], s[i]) {
      FactorOfProduct(x, sum, s, i);
      CongTrans(x, sum, cs[i], s[i]);
    }
  }

  lemma FactorOfProduct(x: int, y: int, s: seq<int>, i: nat)
    requires i < |s| && Cong(x, y, ProductOf(s))
    ensures Cong(x, y, s[i])
  {
    hide Cong, ProductOf;
    ProductSplit(s, i);
    var f := ProductOf(Others(s, i));
    assert f * s[i] == s[i] * f;
    CongFactor(x, y, s[i], f);
  }

  /** `chineseRemainderTheorem` succeeds exactly on pairwise coprime moduli, and then
      meets every congruence within the range of the product of the moduli. */
  method ChineseRemainderTheorem(congruences: seq<int>, moduli: seq<int>) returns (r: Outcome<int>)
    requires AllPositive(moduli) && |moduli| <= |congruences|
    ensures r.Returned? <==> PairwiseCoprime(moduli)
    ensures r.Threw? ==> r.error == DivisionByZero
    ensures r.Returned? ==> forall i :: 0 <= i < |moduli| ==> Cong(r.value, congruences[i], moduli[i])
    ensures r.Returned? ==> -ProductOf(moduli) < r.value < ProductOf(moduli)
    ensures r.Returned? && (forall i :: 0 <= i < |moduli| ==> congruences[i] >= 0) ==> r.value >= 0
  {
    hide Cong, Coprime, TruncatedRemainder;
    var all := ProductOfAll(moduli);
    ProductPositive(moduli);
    PairwiseCoprimeIff(moduli);
    var sum :- CrtSum(congruences, moduli, all);
    TruncatedRemainderCong(sum, all);
    RemainderMeetsCongruences(sum, congruences, moduli);
    return Returned(TruncatedRemainder(sum, all));
  }

  method ProductOfAll(moduli: seq<int>) returns (all: int)
    ensures all == ProductOf(moduli)
  {
    all := 1;
    for i := 0 to |moduli|
      invariant all == ProductOf(moduli[..i])
    {
      assert moduli[..i + 1][..i] == moduli[..i];
      all := all * moduli[i];
    }
    assert moduli[..|moduli|] == moduli;
  }

  method CrtSum(congruences: seq<int>, moduli: seq<int>, all: int) returns (r: Outcome<int>)
    requires AllPositive(moduli) && |moduli| <= |congruences| && all == ProductOf(moduli)
    ensures r.Returned? <==> forall j :: 0 <= j < |moduli| ==> Coprime(ProductOf(Others(moduli, j)), moduli[j])
    ensures r.Threw? ==> r.error == DivisionByZero
    ensures r.Returned? ==> forall j :: 0 <= j < |moduli| ==> Cong(r.value, congruences[j], moduli[j])
    ensures r.Returned? && (forall j :: 0 <= j < |moduli| ==> congruences[j] >= 0) ==> r.value >= 0
  {
    hide Cong, Coprime, ProductOf, Others;
    var sum := 0;
    forall j | 0 <= j < |moduli| ensures Cong(0, 0, moduli[j]) { CongRefl(0, moduli[j]); }
    for i := 0 to |moduli|
      invariant forall j :: 0 <= j < i ==> Cong(sum, congruences[j], moduli[j])
      invariant forall j :: i <= j < |moduli| ==> Cong(sum, 0, moduli[j])
      invariant forall j :: 0 <= j < i ==> Coprime(ProductOf(Others(moduli, j)), moduli[j])
      invariant (forall j :: 0 <= j < |moduli| ==> congruences[j] >= 0) ==> sum >= 0
    {
      var tmp :- CrtSummand(congruences[i], moduli, all, i);
      AddSummand(sum, tmp, congruences, moduli, i);
      sum := sum + tmp;
    }
    return Returned(sum);
  }

  /** The answer is unique modulo the product of the moduli. */
  lemma {:induction false} ChineseRemainderUnique(x: int, y: int, moduli: seq<int>)
    requires AllPositive(moduli) && PairwiseCoprime(moduli)
    requires forall i :: 0 <= i < |moduli| ==> Cong(x, y, moduli[i])
    ensures ProductOf(moduli) > 0 && Cong(x, y, ProductOf(moduli))
    decreases |moduli|
  {
    if moduli == [] {
      CongFromQuotient(x, y, 1, x - y);
    } else {
      var k := |moduli| - 1;
      ChineseRemainderUnique(x, y, moduli[..k]);
      ProductCoprimeIff(moduli[..k], moduli[k]);
      CongCombine(x, y, ProductOf(moduli[..k]), moduli[k]);
    }
  }

  // ---------- sqrtModP_3_4 ----------

  datatype SquareRootResults = SquareRootResults(root1: int, root2: int)

  /** Square roots modulo a prime that is 3 modulo 4; the prime itself is not checked. */
  function SqrtModP34(z: int, p: int): Outcome<SquareRootResults>
    requires p > 0
  {
    if p % 4 != 3 then Threw(InvalidArgument) else
      var x := PowMod(z, (p + 1) / 4, p);
      Returned(SquareRootResults(x, (-x + p) % p))
  }

  ghost predicate IsSquare(z: int, p: int) {
    exists y: int :: Cong(y * y, z, p)
  }

  lemma NegatedRoot(p: int, x: int)
    requires p > 0
    ensures var x' := (-x + p) % p;
            Cong(x + x', 0, p) && Cong(x' * x', x * x, p)
  {
    hide Cong;
    var x' := (-x + p) % p;
    CongMod(-x + p, p);
    CongFromQuotient(-x + p, -x, p, 1);
    CongTrans(x', -x + p, -x, p);
    CongMul(x', -x, x', -x, p);
    TwoSigns(x);
    CongRefl(x, p);
    CongAdd(x, x, x', -x, p);
  }

  lemma TwoSigns(x: int)
    ensures (-x) * (-x) == x * x
  {
  }

  lemma SquareIntro(y: int, z: int, p: int)
    requires Cong(y * y, z, p)
    ensures IsSquare(z, p)
  {
  }

  lemma SquareRoot(z: int, p: int) returns (y: int)
    requires IsSquare(z, p)
    ensures Cong(y * y, z, p)
  {
    y :| Cong(y * y, z, p);
  }

  lemma Quarter(p: int)
    requires IsPrime(p) && p % 4 == 3
    ensures p > 0 && (p + 1) / 4 >= 0 && (p - 1) / 2 >= 0
    ensures 2 * ((p + 1) / 4) == (p - 1) / 2 + 1 && p == 2 * ((p - 1) / 2) + 1
  {
    hide Divides;
  }

  /** For every `z` both answers square to `z` or both to `-z`; they square to `z`
      exactly when `z` is a square modulo `p`. */
  lemma SqrtModP34Correct(z: int, p: int)
    requires IsPrime(p) && p % 4 == 3
    ensures var r := SqrtModP34(z, p).value;
      && 0 <= r.root1 < p && 0 <= r.root2 < p && Cong(r.root1 + r.root2, 0, p)
      && (Cong(r.root1 * r.root1, z, p) || Cong(r.root1 * r.root1, -z, p))
      && (Cong(r.root1 * r.root1, z, p) <==> IsSquare(z, p))
      && (Cong(r.root2 * r.root2, z, p) <==> IsSquare(z, p))
  {
    hide Cong, PowMod, IsSquare, IsPrime;
    Quarter(p);
    var e, h := (p + 1) / 4, (p - 1) / 2;
    var x, x' := PowMod(z, e, p), (-PowMod(z, e, p) + p) % p;
    NegatedRoot(p, x);
    RootSquaredPower(z, p, x, e, h);
    RootSquared(z, p, x, h);
    if IsSquare(z, p) {
      var y := SquareRoot(z, p);
      SquareOfResidue(z, p, x, h, y);
      CongTrans(x' * x', x * x, z, p);
    } else {
      if Cong(x * x, z, p) { SquareIntro(x, z, p); }
      if Cong(x' * x', z, p) { SquareIntro(x', z, p); }
    }
  }

  /** A square that is not divisible by `p` has Legendre symbol one. */
  lemma ResiduePower(u: int, w: int, p: int, h: nat)
    requires IsPrime(p) && p == 2 * h + 1 && Cong(w * w, u, p) && !Divides(p, u)
    ensures Cong(Pow(u, h), 1, p)
  {
    hide Cong, IsPrime, Pow;
    CongSym(w * w, u, p);
    if Divides(p, w) {
      ZeroSquare(u, w, p);
    } else {
      PrimeCoprime(w, p);
      Fermat(w, p);
      PowCong(u, w * w, h, p);
      PowMul(w, w, h);
      PowAdd(w, h, h);
      CongTrans(Pow(u, h), Pow(w, p - 1), 1, p);
    }
  }

  lemma ZeroSquare(u: int, w: int, p: int)
    requires Cong(u, w * w, p) && Divides(p, w)
    ensures Divides(p, u)
  {
    hide Cong;
    CongMul(w, 0, w, 0, p);
    CongTrans(u, w * w, 0, p);
  }

  /** Of a number and its negative at most one is a square modulo a prime that is 3 modulo 4, unless it is zero. */
  lemma NotBothSquares(u: int, v: int, p: int)
    requires IsPrime(p) && p % 4 == 3 && Cong(u + v, 0, p) && IsSquare(u, p) && IsSquare(v, p)
    ensures Divides(p, u)
  {
    hide Cong, IsSquare, IsPrime, Pow;
    if !Divides(p, u) {
      Quarter(p);
      var h := (p - 1) / 2;
      Negated(u, v, p);
      var x := SquareRoot(u, p);
      var y := SquareRoot(v, p);
      ResiduePower(u, x, p, h);
      ResiduePower(v, y, p, h);
      OddHalf(p);
      MinusOneOdd((p - 3) / 4);
      PowMul(-1, u, h);
      PowCong(v, -1 * u, h, p);
      CongScale(Pow(u, h), 1, -1, p);
      TwoSignsMeet(Pow(v, h), -1 * Pow(u, h), p);
    }
  }

  lemma OddHalf(p: int)
    requires p % 4 == 3 && p > 0
    ensures (p - 1) / 2 == 2 * ((p - 3) / 4) + 1 && (p - 3) / 4 >= 0
  {
  }

  lemma Negated(u: int, v: int, p: int)
    requires Cong(u + v, 0, p) && !Divides(p, u)
    ensures Cong(v, -1 * u, p) && !Divides(p, v)
  {
    hide Cong;
    CongRefl(u, p);
    CongSub(u + v, 0, u, u, p);
    if Divides(p, v) {
      CongSub(u + v, 0, v, 0, p);
    }
  }

  lemma TwoSignsMeet(a: int, b: int, p: int)
    requires p > 2 && Cong(a, 1, p) && Cong(a, b, p)
    ensures !Cong(b, -1, p)
  {
    hide Cong;
    if Cong(b, -1, p) {
      CongSym(a, 1, p);
      CongTrans(1, a, b, p);
      CongTrans(1, b, -1, p);
      var k := CongQuotient(1, -1, p);
      MulAtLeast(k, p);
    }
  }

  /** The first root of a square is itself a square, and the second is not, unless `z` is divisible by `p`. */
  lemma FirstRootIsSquare(z: int, p: int)
    requires IsPrime(p) && p % 4 == 3 && IsSquare(z, p)
    ensures var r := SqrtModP34(z, p).value;
            IsSquare(r.root1, p) && (IsSquare(r.root2, p) <==> Divides(p, z))
  {
    hide Cong, PowMod, IsSquare, IsPrime, Pow;
    Quarter(p);
    var e := (p + 1) / 4;
    var r := SqrtModP34(z, p).value;
    SqrtModP34Correct(z, p);
    var y := SquareRoot(z, p);
    PowModCong(z, e, p);
    CongSym(y * y, z, p);
    PowCong(z, y * y, e, p);
    PowMul(y, y, e);
    CongTrans(r.root1, Pow(z, e), Pow(y, e) * Pow(y, e), p);
    CongSym(r.root1, Pow(y, e) * Pow(y, e), p);
    SquareIntro(Pow(y, e), r.root1, p);
    if IsSquare(r.root2, p) {
      NotBothSquares(r.root1, r.root2, p);
      CongSym(r.root1 * r.root1, z, p);
      ZeroSquare(z, r.root1, p);
    }
    if Divides(p, z) {
      ZeroRoot(z, r.root1, r.root2, p);
    }
  }

  lemma ZeroRoot(z: int, x: int, x': int, p: int)
    requires IsPrime(p) && Divides(p, z) && Cong(x' * x', z, p)
    ensures IsSquare(x', p)
  {
    hide Cong, IsSquare, IsPrime;
    CongTrans(x' * x', z, 0, p);
    if Divides(p, x') {
    } else {
      PrimeCoprime(x', p);
      CongCancelZero(x', p);
    }
    CongSym(x', 0, p);
    SquareIntro(0, x', p);
  }

  lemma CongCancelZero(x: int, p: int)
    requires IsPrime(p) && Coprime(x, p) && Cong(x * x, 0, p)
    ensures Cong(x, 0, p)
  {
    hide Cong, Coprime;
    assert x * 0 == 0;
    CongCancel(x, x, 0, p);
  }

  lemma RootSquared(z: int, p: int, x: int, h: nat)
    requires IsPrime(p) && p == 2 * h + 1 && Cong(x * x, Pow(z, h) * z, p)
    ensures Cong(x * x, z, p) || Cong(x * x, -z, p)
  {
    if Divides(p, z) {
      CongZeroTimes(x * x, Pow(z, h), z, p);
    } else {
      PrimeCoprime(z, p);
      HalfPower(z, p, h);
      CongUnitTimes(x * x, Pow(z, h), z, p);
    }
  }

  lemma RootSquaredPower(z: int, p: int, x: int, e: nat, h: nat)
    requires p > 0 && x == PowMod(z, e, p) && e + e == h + 1
    ensures Cong(x * x, Pow(z, h) * z, p)
  {
    PowModCong(z, e, p);
    CongMul(x, Pow(z, e), x, Pow(z, e), p);
    PowAdd(z, e, e);
    PowAdd(z, h, 1);
    PowOne(z);
  }

  lemma CongZeroTimes(s: int, h: int, z: int, p: int)
    requires Cong(s, h * z, p) && Cong(z, 0, p)
    ensures Cong(s, z, p)
  {
    CongScale(z, 0, h, p);
    CongTrans(s, h * z, 0, p);
    CongSym(z, 0, p);
    CongTrans(s, 0, z, p);
  }

  lemma CongUnitTimes(s: int, h: int, z: int, p: int)
    requires Cong(s, h * z, p)
    ensures Cong(h, 1, p) ==> Cong(s, z, p)
    ensures Cong(h, -1, p) ==> Cong(s, -z, p)
  {
    if Cong(h, 1, p) {
      CongScale(h, 1, z, p);
      CongTrans(s, h * z, z, p);
    }
    if Cong(h, -1, p) {
      CongScale(h, -1, z, p);
      CongTrans(s, h * z, -z, p);
    }
  }

  /** A unit to the power `(p-1)/2` is one or minus one. */
  lemma HalfPower(z: int, p: int, h: nat)
    requires IsPrime(p) && p == 2 * h + 1 && Coprime(z, p)
    ensures Cong(Pow(z, h), 1, p) || Cong(Pow(z, h), -1, p)
  {
    Fermat(z, p);
    PowAdd(z, h, h);
    SquareRootOfOne(Pow(z, h), p);
  }

  lemma SquareRootOfOne(h: int, p: int)
    requires IsPrime(p) && Cong(h * h, 1, p)
    ensures Cong(h, 1, p) || Cong(h, -1, p)
  {
    CongRefl(1, p);
    CongSub(h * h, 1, 1, 1, p);
    assert (h - 1) * (h + 1) == h * h - 1;
    if Divides(p, h - 1) {
      CongAdd(h - 1, 0, 1, 1, p);
    } else {
      PrimeCoprime(h - 1, p);
      EuclidLemma(h - 1, h + 1, p);
      CongSub(h + 1, 0, 1, 1, p);
    }
  }

  lemma SquareOfResidue(z: int, p: int, x: int, h: nat, y: int)
    requires IsPrime(p) && p == 2 * h + 1 && Cong(x * x, Pow(z, h) * z, p)
    requires Cong(y * y, z, p)
    ensures Cong(x * x, z, p)
  {
    CongSym(y * y, z, p);
    if Divides(p, y) {
      CongMul(y, 0, y, 0, p);
      CongTrans(z, y * y, 0, p);
      CongZeroTimes(x * x, Pow(z, h), z, p);
    } else {
      PrimeCoprime(y, p);
      Fermat(y, p);
      PowCong(z, y * y, h, p);
      PowMul(y, y, h);
      PowAdd(y, h, h);
      CongTrans(Pow(z, h), Pow(y, p - 1), 1, p);
      CongUnitTimes(x * x, Pow(z, h), z, p);
    }
  }
}
