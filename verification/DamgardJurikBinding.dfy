/** A Damgard-Jurik ciphertext determines its plaintext, for every length parameter. */
module DamgardJurikBinding {
  import opened Congruence
  import opened Coprimality
  import opened FermatEuler
  import opened DamgardJurik
  import opened DamgardJurikExtraction
  import Product = SigmaDJProduct

  /** `1 + b + ... + b^(e-1)`. */
  ghost function PowerSum(b: int, e: nat): int {
    Geometric(b, 1, e)
  }

  lemma PowerSumStep(b: int, e: nat)
    requires e > 0
    ensures PowerSum(b, e) == b * PowerSum(b, e - 1) + 1
  {
    OnePow(e - 1);
  }

  lemma ScaleSum(b: int, w: int, g: int, h: int)
    ensures b * (w * g + h) == (b * w) * g + b * h
  {
    assert b * (w * g + h) == b * (w * g) + b * h;
    MulAssoc(b, w, g);
  }

  lemma {:induction false} PowerSumAdd(b: int, i: nat, k: nat)
    ensures PowerSum(b, i + k) == Pow(b, i) * PowerSum(b, k) + PowerSum(b, i)
    decreases i
  {
    if i == 0 {
    } else {
      hide PowerSum;
      PowerSumAdd(b, i - 1, k);
      PowerSumStep(b, i + k);
      PowerSumStep(b, i);
      ScaleSum(b, Pow(b, i - 1), PowerSum(b, k), PowerSum(b, i - 1));
      assert Pow(b, i) == b * Pow(b, i - 1);
    }
  }

  lemma {:induction false} PowerSumMul(b: int, n: nat, y: nat)
    ensures n * y >= 0 && PowerSum(b, n * y) == PowerSum(b, n) * PowerSum(Pow(b, n), y)
    decreases y
  {
    if y == 0 {
    } else {
      PowerSumMul(b, n, y - 1);
      assert n * y == n + n * (y - 1);
      PowerSumAdd(b, n, n * (y - 1));
      PowerSumStep(Pow(b, n), y);
      FactorSum(Pow(b, n), PowerSum(b, n), PowerSum(Pow(b, n), y - 1));
    }
  }

  lemma FactorSum(w: int, g: int, h: int)
    ensures w * (g * h) + g == g * (w * h + 1)
  {
    assert w * (g * h) == g * (w * h);
  }

  /** `e(e-1)/2`. */
  function Triangle(e: nat): nat {
    if e == 0 then 0 else Triangle(e - 1) + (e - 1)
  }

  lemma {:induction false} TriangleDouble(e: nat)
    ensures 2 * Triangle(e) == e * (e - 1)
  {
    if e == 0 {
    } else {
      TriangleDouble(e - 1);
      assert e * (e - 1) == (e - 1) * (e - 2) + 2 * (e - 1);
    }
  }

  /** Up to second order in `m`, the sum over the base `1+m` is `e + m*e(e-1)/2`. */
  lemma {:induction false} PowerSumSecondOrder(m: int, e: nat)
    ensures Cong(PowerSum(1 + m, e), e + m * Triangle(e), m * m)
    decreases e
  {
    if e == 0 {
      CongRefl(0, m * m);
    } else {
      PowerSumSecondOrder(m, e - 1);
      PowerSumStep(1 + m, e);
      SecondOrderStep(m, e, PowerSum(1 + m, e - 1), Triangle(e - 1));
    }
  }

  lemma SecondOrderProduct(m: int, f: int, t: int, k: int)
    ensures (1 + m) * (f + m * t + k * (m * m)) == f + m * (t + f) + (t + (1 + m) * k) * (m * m)
  {
    var x, y := m * t, k * (m * m);
    assert (1 + m) * (f + x + y) == f + x + m * f + m * x + (1 + m) * y;
    MulAssoc(m, m, t);
    assert m * x == t * (m * m);
    MulAssoc(1 + m, k, m * m);
    assert m * (t + f) == x + m * f;
    assert (t + (1 + m) * k) * (m * m) == t * (m * m) + ((1 + m) * k) * (m * m);
  }

  lemma SecondOrderStep(m: int, e: int, g: int, t: int)
    requires Cong(g, (e - 1) + m * t, m * m)
    ensures Cong((1 + m) * g + 1, e + m * (t + (e - 1)), m * m)
  {
    hide Cong;
    var k := CongQuotient(g, (e - 1) + m * t, m * m);
    SecondOrderProduct(m, e - 1, t, k);
    CongFromQuotient((1 + m) * g + 1, e + m * (t + (e - 1)), m * m, t + (1 + m) * k);
  }

  /** For odd `n` dividing `m`, the sum of `n` powers of `1+m` is `n` modulo `n^2`. */
  lemma PowerSumOfN(m: int, n: nat)
    requires n % 2 == 1 && Cong(m, 0, n)
    ensures Cong(PowerSum(1 + m, n), n, n * n)
  {
    PowerSumSecondOrder(m, n);
    var k := CongQuotient(m, 0, n);
    var h := (n - 1) / 2;
    TriangleDouble(n);
    assert Triangle(n) == n * h by { assert 2 * (n * h) == n * (2 * h); }
    assert m * m == (n * n) * (k * k) by { MulSwap(k, n, k, n); }
    CongFactor(PowerSum(1 + m, n), n + m * Triangle(n), n * n, k * k);
    MulSwap(k, n, h, n);
    assert m * Triangle(n) == (k * h) * (n * n);
    CongFromQuotient(n + m * Triangle(n), n, n * n, k * h);
    CongTrans(PowerSum(1 + m, n), n + m * Triangle(n), n, n * n);
  }

  /** So it is `n` times a unit. */
  lemma PowerSumUnit(m: int, n: nat) returns (u: int)
    requires n % 2 == 1 && Cong(m, 0, n)
    ensures PowerSum(1 + m, n) == n * u && Coprime(u, n)
  {
    PowerSumOfN(m, n);
    var k := CongQuotient(PowerSum(1 + m, n), n, n * n);
    u := 1 + k * n;
    assert n + k * (n * n) == n * (1 + k * n);
    assert u * 1 + n * (-k) == 1;
    CoprimeIntro(u, n, 1, -k);
  }

  lemma CancelFactor(n: int, a: int, m: int)
    requires n != 0 && Cong(n * a, 0, n * m)
    ensures Cong(a, 0, m)
  {
    var k := CongQuotient(n * a, 0, n * m);
    assert n * a == n * (k * m);
    assert a == k * m;
    CongFromQuotient(a, 0, m, k);
  }

  /** `n^j` divides the sum of `y` powers only if it divides `y`. */
  lemma {:induction false} PowerSumValuation(m: int, n: nat, j: nat, y: nat)
    requires n % 2 == 1 && Cong(m, 0, n) && Cong(PowerSum(1 + m, y), 0, Pow(n, j))
    ensures Cong(y, 0, Pow(n, j))
    decreases j
  {
    hide Cong, Pow, PowerSum;
    if j == 0 {
      PowUnfolds(n, 0);
      CongFromQuotient(y, 0, 1, y);
    } else {
      var w := Pow(n, j - 1);
      PowUnfolds(n, j - 1);
      CongFactor(PowerSum(1 + m, y), 0, n, w);
      SumModN(m, n, y);
      var y' := CongQuotient(y, 0, n);
      if y' < 0 { MulAtLeast(y', n); }
      ValuationStep(m, n, j, y');
      var m' := Pow(1 + m, n) - 1;
      BaseStays(m, n);
      PowerSumValuation(m', n, j - 1, y');
      var k := CongQuotient(y', 0, w);
      ValuationEnd(k, w, n);
      CongFromQuotient(y, 0, Pow(n, j), k);
    }
  }

  lemma ValuationEnd(k: int, w: int, n: int)
    ensures (k * w) * n == k * (n * w)
  {
    MulAssoc(k, w, n);
  }

  /** Modulo `n` the sum of `y` powers of `1+m` is `y`. */
  lemma SumModN(m: int, n: nat, y: nat)
    requires Cong(m, 0, n) && Cong(PowerSum(1 + m, y), 0, n)
    ensures Cong(y, 0, n)
  {
    if y == 0 {
      CongRefl(0, n);
    } else {
      CongRefl(1, n);
      CongAdd(1, 1, m, 0, n);
      GeometricCong(1 + m, 1, y, n);
      OnePow(y - 1);
      CongSym(PowerSum(1 + m, y), y, n);
      CongTrans(y, PowerSum(1 + m, y), 0, n);
    }
  }

  lemma BaseStays(m: int, n: nat)
    requires Cong(m, 0, n)
    ensures Cong(Pow(1 + m, n) - 1, 0, n)
  {
    CongRefl(1, n);
    CongAdd(1, 1, m, 0, n);
    PowCong(1 + m, 1, n, n);
    OnePow(n);
    CongSub(Pow(1 + m, n), 1, 1, 1, n);
  }

  lemma ValuationStep(m: int, n: nat, j: nat, y': nat)
    requires n % 2 == 1 && j > 0 && Cong(m, 0, n) && y' * n >= 0
    requires Cong(PowerSum(1 + m, y' * n), 0, Pow(n, j))
    ensures Cong(PowerSum(1 + (Pow(1 + m, n) - 1), y'), 0, Pow(n, j - 1))
  {
    assert Pow(n, j) == n * Pow(n, j - 1);
    hide Cong, Pow, PowerSum, Coprime;
    PowerSumMul(1 + m, n, y');
    var u := PowerSumUnit(m, n);
    var g, w := PowerSum(Pow(1 + m, n), y'), Pow(n, j - 1);
    assert y' * n == n * y';
    MulAssoc(n, u, g);
    CancelFactor(n, u * g, w);
    CoprimePowRight(u, n, j - 1);
    EuclidLemma(u, g, w);
  }

  /** `1+n` has order exactly `N = n^s` modulo `n^(s+1)`, for odd `n`. */
  lemma OrderExact(n: nat, s: nat, x: nat)
    requires n % 2 == 1
    ensures Cong(Pow(1 + n, x), 1, Pow(n, s + 1)) <==> Cong(x, 0, Pow(n, s))
  {
    if Cong(x, 0, Pow(n, s)) {
      OrderOfBase(n, s);
      PowPeriodic(1 + n, x, 0, Pow(n, s), Pow(n, s + 1));
    }
    if Cong(Pow(1 + n, x), 1, Pow(n, s + 1)) {
      DifferenceOfPowers(1 + n, 1, x);
      OnePow(x);
      var g := PowerSum(1 + n, x);
      CongRefl(1, Pow(n, s + 1));
      CongSub(Pow(1 + n, x), 1, 1, 1, Pow(n, s + 1));
      CancelFactor(n, g, Pow(n, s));
      CongFromQuotient(n, 0, n, 1);
      PowerSumValuation(n, n, s, x);
    }
  }

  /** A modulus of two distinct odd primes on which decryption exponents exist. */
  ghost predicate RsaKey(n: nat, p: nat, q: nat) {
    && IsPrime(p) && IsPrime(q) && p != q && p % 2 == 1 && q % 2 == 1 && n == p * q
    && Coprime((p - 1) * (q - 1), n)
  }

  lemma OddProduct(i: int, j: int)
    ensures (2 * i + 1) * (2 * j + 1) == 2 * (2 * (i * j) + i + j) + 1
  {
    assert (2 * i + 1) * (2 * j + 1) == (2 * i) * (2 * j) + 2 * i + 2 * j + 1;
    assert (2 * i) * (2 * j) == 2 * (2 * (i * j));
  }

  lemma OddTimesOdd(p: nat, q: nat)
    requires p % 2 == 1 && q % 2 == 1
    ensures (p * q) % 2 == 1
  {
    var i, j := p / 2, q / 2;
    OddProduct(i, j);
    OddValue(p * q, 2 * (i * j) + i + j);
  }

  lemma OddValue(n: int, v: int)
    requires n == 2 * v + 1
    ensures n % 2 == 1
  {
  }

  lemma KeyMeans(n: nat, p: nat, q: nat)
    requires RsaKey(n, p, q)
    ensures p >= 2 && q >= 2 && p % 2 == 1 && q % 2 == 1 && n == p * q
  {
    hide Coprime;
  }

  lemma KeyFacts(n: nat, p: nat, q: nat)
    requires RsaKey(n, p, q)
    ensures n > 1 && n % 2 == 1 && (p - 1) * (q - 1) > 0
  {
    hide *;
    KeyMeans(n, p, q);
    OddTimesOdd(p, q);
    MulAtLeast(q, p);
    MulAtLeast(q - 1, p - 1);
  }

  /** Raising a ciphertext to a multiple of the order of its randomness leaves a power of `1+n`. */
  lemma RandomnessRemoved(n: nat, s: nat, c: int, x: nat, r: int, t: nat)
    requires n > 0 && Opens(n, s, c, x, r) && Cong(Pow(r, t), 1, n)
    ensures x * t >= 0 && Cong(Pow(c, t), Pow(1 + n, x * t), Pow(n, s + 1))
  {
    var m := Pow(n, s + 1);
    PowCong(c, Enc(n, s, x, r), t, m);
    EncPow(n, s, x, r, t);
    CongRefl(x * t, Pow(n, s));
    EncCong(n, s, x * t, Pow(r, t), x * t, 1);
    OnePow(Pow(n, s));
    CongTrans(Pow(c, t), Enc(n, s, x * t, Pow(r, t)), Pow(1 + n, x * t), m);
  }

  /** A ciphertext has at most one plaintext modulo `N`. */
  lemma PlaintextUnique(n: nat, p: nat, q: nat, s: nat, c: int, x: nat, r: int, x': nat, r': int)
    requires RsaKey(n, p, q) && Opens(n, s, c, x, r) && Opens(n, s, c, x', r')
    ensures Cong(x, x', Pow(n, s))
  {
    KeyFacts(n, p, q);
    var t: nat := (p - 1) * (q - 1);
    assert Coprime(t, n);
    hide *;
    RandomnessVanishes(n, p, q, s, c, x, r, t);
    RandomnessVanishes(n, p, q, s, c, x', r', t);
    var m := Pow(n, s + 1);
    CongSym(Pow(c, t), Pow(1 + n, x * t), m);
    CongTrans(Pow(1 + n, x * t), Pow(c, t), Pow(1 + n, x' * t), m);
    CongSym(Pow(1 + n, x * t), Pow(1 + n, x' * t), m);
    if x >= x' {
      ExponentsAgree(n, s, x, x', t);
    } else {
      ExponentsAgree(n, s, x', x, t);
      CongSym(x', x, Pow(n, s));
    }
  }

  lemma RandomnessVanishes(n: nat, p: nat, q: nat, s: nat, c: int, x: nat, r: int, t: nat)
    requires RsaKey(n, p, q) && n > 0 && Opens(n, s, c, x, r) && t == (p - 1) * (q - 1)
    ensures x * t >= 0 && Cong(Pow(c, t), Pow(1 + n, x * t), Pow(n, s + 1))
  {
    assert IsPrime(p) && IsPrime(q) && p != q && n == p * q && Coprime(r, n);
    PrimesBelow(p, q);
    hide *;
    assert (p - 1) * (q - 1) == (q - 1) * (p - 1);
    EulerTwoPrimes(r, p, q, t, q - 1, p - 1);
    RandomnessRemoved(n, s, c, x, r, t);
  }

  lemma PrimesBelow(p: nat, q: nat)
    requires IsPrime(p) && IsPrime(q)
    ensures p >= 2 && q >= 2
  {
  }

  lemma ExponentsAgree(n: nat, s: nat, x: nat, x': nat, t: nat)
    requires n % 2 == 1 && x >= x' && Coprime(t, n) && x * t >= 0 && x' * t >= 0
    requires Cong(Pow(1 + n, x * t), Pow(1 + n, x' * t), Pow(n, s + 1))
    ensures Cong(x, x', Pow(n, s))
  {
    var m, d: nat := Pow(n, s + 1), (x - x') * t;
    assert x * t == x' * t + d;
    PowAdd(1 + n, x' * t, d);
    BaseCoprime(n);
    CoprimePow(1 + n, x' * t, n);
    CoprimePowRight(Pow(1 + n, x' * t), n, s + 1);
    CongCancel(Pow(1 + n, x' * t), Pow(1 + n, d), 1, m);
    OrderExact(n, s, d);
    CoprimePowRight(t, n, s);
    assert d == t * (x - x');
    EuclidLemma(t, x - x', Pow(n, s));
    CongRefl(x', Pow(n, s));
    CongAdd(x - x', 0, x', x', Pow(n, s));
  }

  /** Product soundness: after two accepting transcripts on one first message with challenges whose
      difference is coprime to `n`, any plaintexts of the three ciphertexts satisfy x3 = x1*x2 mod N. */
  lemma ProductSoundness(s: nat, c: Product.CommonInput, p: nat, q: nat, a: Product.FirstMsg,
                         e: nat, z: Product.SecondMsg, e': nat, z': Product.SecondMsg,
                         x1: nat, r1: int, x2: nat, r2: int, x3: nat, r3: int)
    requires RsaKey(c.n, p, q) && e > e' && Coprime(e - e', c.n)
    requires Product.Documented(s, c, a, e, z) && Product.Documented(s, c, a, e', z')
    requires Opens(c.n, s, c.c1, x1, r1) && Opens(c.n, s, c.c2, x2, r2) && Opens(c.n, s, c.c3, x3, r3)
    ensures Cong(x3, x1 * x2, Pow(c.n, s))
  {
    KeyFacts(c.n, p, q);
    var N := Pow(c.n, s);
    var y1, t1, r := Product.Extractor(s, c, a, e, z, e', z');
    PlaintextUnique(c.n, p, q, s, c.c1, y1, t1, x1, r1);
    var t3 := Product.ProductOpening(c.n, s, c.c2, c.c3, y1, r, x2, r2);
    PlaintextUnique(c.n, p, q, s, c.c3, x3, r3, x2 * y1, t3);
    CongScale(y1, x1, x2, N);
    CongTrans(x3, x2 * y1, x2 * x1, N);
    assert x2 * x1 == x1 * x2;
  }
}
