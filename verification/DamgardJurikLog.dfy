/** The nested passes of decryption in src/mid_layer/DamgardJurikEnc.cpp: the code's discrete logarithm to the
    base `1+n`, what its truncating divisions lose, and when it is the plaintext. */
module DamgardJurikLog {
  import opened Congruence
  import opened Coprimality
  import opened FermatEuler
  import opened MathAlgorithms

  // ---------- the passes ----------

  /** Division as the library's `/` computes it: truncated toward zero. */
  function TruncatedQuotient(a: int, m: int): int
    requires m > 0
  {
    if a >= 0 then a / m else -((-a) / m)
  }

  /** `t1` after the remaining passes `k..j` of the inner loop. */
  function InnerPasses(n: nat, j: nat, k: nat, x: int, t1: int, t2: int): int
    requires n > 0 && k >= 1
    decreases j + 1 - k
  {
    if k > j then t1 else
      var t2' := TruncatedRemainder(t2 * (x - 1), Pow(n, j));
      var temp := TruncatedQuotient(t2' * Pow(n, k - 1), Factorial(k));
      InnerPasses(n, j, k + 1, x - 1, TruncatedRemainder(t1 - temp, Pow(n, j)), t2')
  }

  /** `x` after `j` passes of the outer loop: the code's discrete logarithm of `a` to the base `1+n`. */
  function OuterPasses(n: nat, j: nat, a: nat): int
    requires n > 0
  {
    if j == 0 then 0 else
      var x := OuterPasses(n, j - 1, a);
      InnerPasses(n, j, 2, x, TruncatedQuotient(a % Pow(n, j + 1) - 1, n), x)
  }

  // ---------- what the divisions lose ----------

  /** `j! / k!`. */
  function Ratio(j: nat, k: nat): (r: nat)
    ensures r > 0
  {
    if j <= k then 1 else j * Ratio(j - 1, k)
  }

  /** The remainders dropped by the divisions in passes `k..j`, each weighted by `j!/k!`. */
  function InnerLoss(n: nat, j: nat, k: nat, x: int, t2: int): int
    requires n > 0 && k >= 1
    decreases j + 1 - k
  {
    if k > j then 0 else
      var t2' := TruncatedRemainder(t2 * (x - 1), Pow(n, j));
      Ratio(j, k) * TruncatedRemainder(t2' * Pow(n, k - 1), Factorial(k)) + InnerLoss(n, j, k + 1, x - 1, t2')
  }

  /** What the `j`-th pass of the outer loop loses, started from the result `x` of the pass before. */
  function Loss(n: nat, j: nat, x: int): int
    requires n > 0
  {
    InnerLoss(n, j, 2, x, x)
  }

  lemma {:induction false} RatioFactorial(j: nat, k: nat)
    requires k <= j
    ensures Ratio(j, k) * Factorial(k) == Factorial(j)
    decreases j
  {
    if j == k {
    } else {
      RatioFactorial(j - 1, k);
      MulAssoc(j, Ratio(j - 1, k), Factorial(k));
    }
  }

  // ---------- binomial coefficients ----------

  function Binomial(x: nat, k: nat): nat {
    if k == 0 then 1 else if x == 0 then 0 else Binomial(x - 1, k) + Binomial(x - 1, k - 1)
  }

  /** `y * (y-1) * ... * (y-k+1)`. */
  function Falling(y: int, k: nat): int {
    if k == 0 then 1 else Falling(y, k - 1) * (y - k + 1)
  }

  lemma {:induction false} FallingPascal(y: int, k: nat)
    requires k > 0
    ensures Falling(y + 1, k) == Falling(y, k) + k * Falling(y, k - 1)
    decreases k
  {
    if k == 1 {
      assert Falling(y, 0) == 1 && Falling(y + 1, 0) == 1;
    } else {
      FallingPascal(y, k - 1);
      FallingStep(Falling(y, k - 2), y, k);
    }
  }

  lemma FallingStep(f: int, y: int, k: int)
    ensures (f * (y - k + 2) + (k - 1) * f) * (y - k + 2) == f * (y - k + 2) * (y - k + 1) + k * (f * (y - k + 2))
  {
    var u := f * (y - k + 2);
    assert (k - 1) * f * (y - k + 2) == (k - 1) * u by { MulAssoc(k - 1, f, y - k + 2); }
    assert (u + (k - 1) * f) * (y - k + 2) == u * (y - k + 2) + (k - 1) * f * (y - k + 2);
    assert u * (y - k + 2) == u * (y - k + 1) + u;
  }

  lemma {:induction false} FallingZero(k: nat)
    requires k > 0
    ensures Falling(0, k) == 0
  {
    if k == 1 {
      assert Falling(0, 0) == 1;
    } else {
      FallingZero(k - 1);
    }
  }

  lemma FactorialsUnfold(x: nat, k: nat)
    ensures Factorial(0) == 1 && Binomial(x, 0) == 1 && Falling(x, 0) == 1
    ensures k > 0 ==> Factorial(k) == k * Factorial(k - 1) && Binomial(0, k) == 0
    ensures k > 0 && x > 0 ==> Binomial(x, k) == Binomial(x - 1, k) + Binomial(x - 1, k - 1)
  {
  }

  lemma PascalProduct(k: int, f: int, b: int, c: int)
    ensures (k * f) * (b + c) == (k * f) * b + k * (f * c)
  {
    MulAssoc(k, f, c);
  }

  /** `k!` times the binomial coefficient is the falling factorial. */
  lemma {:induction false} FallingBinomial(x: nat, k: nat)
    ensures Factorial(k) * Binomial(x, k) == Falling(x, k)
    decreases x, k
  {
    hide Factorial, Binomial, Falling;
    FactorialsUnfold(x, k);
    if k == 0 || x == 0 {
      if k > 0 { FallingZero(k); }
    } else {
      FallingBinomial(x - 1, k);
      FallingBinomial(x - 1, k - 1);
      FallingPascal(x - 1, k);
      PascalProduct(k, Factorial(k - 1), Binomial(x - 1, k), Binomial(x - 1, k - 1));
    }
  }

  lemma {:induction false} FallingCong(y: int, z: int, k: nat, m: int)
    requires Cong(y, z, m)
    ensures Cong(Falling(y, k), Falling(z, k), m)
    decreases k
  {
    if k == 0 {
      CongRefl(1, m);
    } else {
      FallingCong(y, z, k - 1, m);
      CongRefl(k - 1, m);
      CongSub(y, z, k - 1, k - 1, m);
      CongMul(Falling(y, k - 1), Falling(z, k - 1), y - k + 1, z - k + 1, m);
    }
  }

  // ---------- the truncated binomial theorem ----------

  /** The terms of `(1+n)^x` up to order `j`. */
  function Expansion(n: int, x: nat, j: nat): int {
    if j == 0 then 1 else Expansion(n, x, j - 1) + Binomial(x, j) * Pow(n, j)
  }

  lemma {:induction false} ExpansionPascal(n: int, x: nat, j: nat)
    requires j > 0
    ensures Expansion(n, x + 1, j) == Expansion(n, x, j) + n * Expansion(n, x, j - 1)
    decreases j
  {
    PascalTerm(n, Binomial(x, j), Binomial(x, j - 1), Pow(n, j - 1));
    if j == 1 {
      assert Expansion(n, x, 0) == 1 && Expansion(n, x + 1, 0) == 1;
    } else {
      ExpansionPascal(n, x, j - 1);
      assert n * (Expansion(n, x, j - 2) + Binomial(x, j - 1) * Pow(n, j - 1))
          == n * Expansion(n, x, j - 2) + n * (Binomial(x, j - 1) * Pow(n, j - 1));
    }
  }

  lemma PascalTerm(n: int, b: int, c: int, w: int)
    ensures (b + c) * (n * w) == b * (n * w) + n * (c * w)
  {
    assert (b + c) * (n * w) == b * (n * w) + c * (n * w);
    MulAssoc(c, n, w);
    MulAssoc(n, c, w);
  }

  lemma TopTerm(n: int, e: int, b: int, w: int)
    ensures (1 + n) * (e + b * w) == e + b * w + n * e + b * (n * w)
  {
    PascalTerm(n, 0, b, w);
    assert (1 + n) * (e + b * w) == e + b * w + n * (e + b * w);
    assert n * (e + b * w) == n * e + n * (b * w);
  }

  lemma {:induction false} TruncatedBinomial(n: int, x: nat, j: nat)
    ensures Cong(Pow(1 + n, x), Expansion(n, x, j), Pow(n, j + 1))
    decreases x
  {
    hide Cong;
    var m := Pow(n, j + 1);
    if x == 0 {
      ExpansionOfZero(n, j);
      CongRefl(1, m);
    } else {
      TruncatedBinomial(n, x - 1, j);
      CongScale(Pow(1 + n, x - 1), Expansion(n, x - 1, j), 1 + n, m);
      if j == 0 {
        PowOne(n);
        CongFromQuotient(1 + n, 1, m, 1);
      } else {
        ExpansionPascal(n, x - 1, j);
        TopTerm(n, Expansion(n, x - 1, j - 1), Binomial(x - 1, j), Pow(n, j));
        CongFromQuotient((1 + n) * Expansion(n, x - 1, j), Expansion(n, x, j), m, Binomial(x - 1, j));
      }
      CongTrans(Pow(1 + n, x), (1 + n) * Expansion(n, x - 1, j), Expansion(n, x, j), m);
    }
  }

  lemma {:induction false} ExpansionOfZero(n: int, j: nat)
    ensures Expansion(n, 0, j) == 1
  {
    if j == 0 {
    } else {
      ExpansionOfZero(n, j - 1);
    }
  }

  /** The terms `k..j` of `((1+n)^x - 1) / n`. */
  function Tail(n: int, x: nat, k: nat, j: nat): int
    requires k >= 1
    decreases j + 1 - k
  {
    if k > j then 0 else Binomial(x, k) * Pow(n, k - 1) + Tail(n, x, k + 1, j)
  }

  lemma {:induction false} ExpansionTail(n: int, x: nat, k: nat, j: nat)
    requires 1 <= k <= j + 1
    ensures Expansion(n, x, j) == Expansion(n, x, k - 1) + n * Tail(n, x, k, j)
    decreases j + 1 - k
  {
    hide Binomial, Pow;
    if k == j + 1 {
    } else {
      ExpansionTail(n, x, k + 1, j);
      PowUnfolds(n, k - 1);
      TailStep(n, Binomial(x, k), Pow(n, k - 1), Tail(n, x, k + 1, j));
    }
  }

  lemma TailStep(n: int, b: int, w: int, tail: int)
    ensures n * (b * w + tail) == b * (n * w) + n * tail
  {
    MulAssoc(b, n, w);
    MulAssoc(n, b, w);
    assert n * (b * w + tail) == n * (b * w) + n * tail;
  }

  lemma {:induction false} BinomialOne(x: nat)
    ensures Binomial(x, 1) == x
  {
    if x == 0 {
    } else {
      BinomialOne(x - 1);
    }
  }

  // ---------- the start of a pass ----------

  lemma SpreadFactor(n: int, z: int, k: int, m: int)
    ensures n * (z + k * m) == n * z + k * (n * m)
  {
    assert n * (z + k * m) == n * z + n * (k * m);
    MulAssoc(n, k, m);
    MulAssoc(k, n, m);
  }

  lemma ScaledBound(n: nat, m: nat, z: nat)
    requires n > 1 && z < m
    ensures 0 <= n * z && 1 + n * z < n * m
  {
    assert n * m == n * z + n * (m - z);
    MulAtLeast(m - z, n);
  }

  /** If `a = 1 + n*y mod n*m` then `(a mod n*m - 1) / n` is `y mod m`. */
  lemma LogStep(n: nat, m: nat, a: int, y: int)
    requires n > 1 && m > 0 && Cong(a, 1 + n * y, n * m)
    ensures n * m > 0 && TruncatedQuotient(a % (n * m) - 1, n) == y % m
  {
    hide Cong;
    var z := y % m;
    CongMod(y, m);
    var k := CongQuotient(y, z, m);
    SpreadFactor(n, z, k, m);
    CongFromQuotient(1 + n * y, 1 + n * z, n * m, k);
    CongTrans(a, 1 + n * y, 1 + n * z, n * m);
    ScaledBound(n, m, z);
    CongMod(a, n * m);
    CongTrans(a % (n * m), a, 1 + n * z, n * m);
    CongSmall(a % (n * m), 1 + n * z, n * m);
    ExactQuotient(n * z, z, n);
  }

  /** The `j`-th pass starts from `x` plus the terms of higher order, modulo `n^j`. */
  lemma PassStart(n: nat, j: nat, a: int, x: nat)
    requires n > 1 && j >= 1 && Cong(a, Pow(1 + n, x), Pow(n, j + 1))
    ensures TruncatedQuotient(a % Pow(n, j + 1) - 1, n) == (x + Tail(n, x, 2, j)) % Pow(n, j)
  {
    assert Pow(n, j + 1) == n * Pow(n, j);
    hide Cong, Pow, Tail, TruncatedQuotient, Expansion;
    var y := x + Tail(n, x, 2, j);
    TruncatedBinomial(n, x, j);
    CongTrans(a, Pow(1 + n, x), Expansion(n, x, j), Pow(n, j + 1));
    ExpansionHead(n, x, j);
    LogStep(n, Pow(n, j), a, y);
  }

  lemma ExpansionHead(n: int, x: nat, j: nat)
    requires j >= 1
    ensures Expansion(n, x, j) == 1 + n * (x + Tail(n, x, 2, j))
  {
    ExpansionTail(n, x, 2, j);
    BinomialOne(x);
    PowOne(n);
    assert Expansion(n, x, 0) == 1;
    assert n * (x + Tail(n, x, 2, j)) == x * n + n * Tail(n, x, 2, j);
  }

  // ---------- one pass of the outer loop, exactly ----------

  /** The terms a pass subtracts when it starts from `y`, weighted by `j!`. */
  function Subtracted(n: int, y: int, k: nat, j: nat): int
    requires k >= 1
    decreases j + 1 - k
  {
    if k > j then 0 else Ratio(j, k) * (Falling(y, k) * Pow(n, k - 1)) + Subtracted(n, y, k + 1, j)
  }

  /** Starting from the plaintext these are the terms of higher order. */
  lemma {:induction false} SubtractedIsTail(n: int, x: nat, k: nat, j: nat)
    requires k >= 1
    ensures Subtracted(n, x, k, j) == Factorial(j) * Tail(n, x, k, j)
    decreases j + 1 - k
  {
    if k > j {
    } else {
      SubtractedIsTail(n, x, k + 1, j);
      FallingBinomial(x, k);
      RatioFactorial(j, k);
      WeightedTerm(Ratio(j, k), Factorial(k), Binomial(x, k), Pow(n, k - 1), Tail(n, x, k + 1, j));
    }
  }

  lemma WeightedTerm(r: int, f: int, b: int, w: int, t: int)
    ensures r * ((f * b) * w) + (r * f) * t == (r * f) * (b * w + t)
  {
    MulAssoc(f, b, w);
    MulAssoc(r, f, b * w);
    assert (r * f) * (b * w + t) == (r * f) * (b * w) + (r * f) * t;
  }

  /** Only the start modulo `n^(j-1)` matters. */
  lemma {:induction false} SubtractedCong(n: nat, y: int, z: int, k: nat, j: nat)
    requires k >= 2 && j >= 1 && Cong(y, z, Pow(n, j - 1))
    ensures Cong(Subtracted(n, y, k, j), Subtracted(n, z, k, j), Pow(n, j))
    decreases j + 1 - k
  {
    if k > j {
      CongRefl(0, Pow(n, j));
    } else {
      hide Cong;
      SubtractedCong(n, y, z, k + 1, j);
      FallingCong(y, z, k, Pow(n, j - 1));
      PowAdd(n, 1, k - 2);
      PowOne(n);
      TermCong(Falling(y, k), Falling(z, k), n, Pow(n, j - 1), Pow(n, k - 2));
      CongScale(Falling(y, k) * Pow(n, k - 1), Falling(z, k) * Pow(n, k - 1), Ratio(j, k), Pow(n, j));
      CongAdd(Ratio(j, k) * (Falling(y, k) * Pow(n, k - 1)), Ratio(j, k) * (Falling(z, k) * Pow(n, k - 1)),
              Subtracted(n, y, k + 1, j), Subtracted(n, z, k + 1, j), Pow(n, j));
    }
  }

  lemma TermCong(f: int, g: int, n: int, m: int, w: int)
    requires Cong(f, g, m)
    ensures Cong(f * (n * w), g * (n * w), n * m)
  {
    var i := CongQuotient(f, g, m);
    var u := n * w;
    assert (g + i * m) * u == g * u + (i * m) * u;
    MulSwap(i, m, w, n);
    assert (i * m) * (w * n) == (i * w) * (m * n);
    assert w * n == u && m * n == n * m;
    CongFromQuotient(f * u, g * u, n * m, i * w);
  }

  /** A division and the remainder it drops. */
  lemma QuotientAndLoss(v: int, f: int)
    requires f > 0
    ensures f * TruncatedQuotient(v, f) == v - TruncatedRemainder(v, f)
  {
  }

  lemma WeightedQuotient(r: int, f: int, v: int)
    requires f > 0
    ensures (r * f) * TruncatedQuotient(v, f) == r * v - r * TruncatedRemainder(v, f)
  {
    QuotientAndLoss(v, f);
    MulAssoc(r, f, TruncatedQuotient(v, f));
    assert r * (v - TruncatedRemainder(v, f)) == r * v - r * TruncatedRemainder(v, f);
  }

  /** What one pass of the inner loop does to `j! * t1`. */
  lemma InnerStep(m: nat, F: int, r: int, f: int, t1: int, t2: int, fall: int, w: int)
    requires m > 0 && f > 0 && F == r * f && Cong(t2, fall, m)
    ensures Cong(F * TruncatedRemainder(t1 - TruncatedQuotient(t2 * w, f), m),
                 F * t1 - r * (fall * w) + r * TruncatedRemainder(t2 * w, f), m)
  {
    hide Cong, TruncatedQuotient, TruncatedRemainder;
    var v := t2 * w;
    var temp, lost := TruncatedQuotient(v, f), TruncatedRemainder(v, f);
    TruncatedRemainderCong(t1 - temp, m);
    CongScale(TruncatedRemainder(t1 - temp, m), t1 - temp, F, m);
    WeightedQuotient(r, f, v);
    assert F * (t1 - temp) == F * t1 - F * temp;
    CongScale(t2, fall, w, m);
    CongScale(v, fall * w, r, m);
    CongRefl(F * t1 + r * lost, m);
    CongSub(F * t1 + r * lost, F * t1 + r * lost, r * v, r * (fall * w), m);
    CongTrans(F * TruncatedRemainder(t1 - temp, m), F * (t1 - temp), F * t1 - r * (fall * w) + r * lost, m);
  }

  /** What the passes `k..j` of the inner loop do, when the outer pass started from `y`. */
  lemma {:induction false} InnerResult(n: nat, j: nat, k: nat, y: int, t1: int, t2: int)
    requires n > 0 && k >= 2 && Cong(t2, Falling(y, k - 1), Pow(n, j))
    ensures Cong(Factorial(j) * InnerPasses(n, j, k, y - k + 2, t1, t2),
                 Factorial(j) * t1 - Subtracted(n, y, k, j) + InnerLoss(n, j, k, y - k + 2, t2), Pow(n, j))
    decreases j + 1 - k
  {
    var m, F := Pow(n, j), Factorial(j);
    if k > j {
      CongRefl(F * t1, m);
    } else {
      var x, w := y - k + 2, Pow(n, k - 1);
      var t2' := TruncatedRemainder(t2 * (x - 1), m);
      NextFactor(t2, y, k, m);
      var t1' := TruncatedRemainder(t1 - TruncatedQuotient(t2' * w, Factorial(k)), m);
      InnerResult(n, j, k + 1, y, t1', t2');
      RatioFactorial(j, k);
      InnerStep(m, F, Ratio(j, k), Factorial(k), t1, t2', Falling(y, k), w);
      ChainStep(F * InnerPasses(n, j, k, x, t1, t2), F * t1', F * t1,
                Ratio(j, k) * (Falling(y, k) * w), Ratio(j, k) * TruncatedRemainder(t2' * w, Factorial(k)),
                InnerLoss(n, j, k + 1, x - 1, t2') - Subtracted(n, y, k + 1, j), m);
    }
  }

  lemma NextFactor(t2: int, y: int, k: nat, m: nat)
    requires m > 0 && k >= 2 && Cong(t2, Falling(y, k - 1), m)
    ensures Cong(TruncatedRemainder(t2 * (y - k + 1), m), Falling(y, k), m)
  {
    CongScale(t2, Falling(y, k - 1), y - k + 1, m);
    TruncatedRemainderCong(t2 * (y - k + 1), m);
    CongTrans(TruncatedRemainder(t2 * (y - k + 1), m), t2 * (y - k + 1), Falling(y, k), m);
  }

  lemma ChainStep(p: int, u: int, v: int, b: int, l: int, rest: int, m: int)
    requires Cong(p, u + rest, m) && Cong(u, v - b + l, m)
    ensures Cong(p, v - b + l + rest, m)
  {
    CongRefl(rest, m);
    CongAdd(u, v - b + l, rest, rest, m);
    CongTrans(p, u + rest, v - b + l + rest, m);
  }

  lemma PassFrom(n: nat, j: nat, y: int, t1: int, x: nat)
    requires n > 0 && j >= 1 && Cong(t1, x + Tail(n, x, 2, j), Pow(n, j))
    ensures Cong(Factorial(j) * InnerPasses(n, j, 2, y, t1, y),
                 Factorial(j) * x + Subtracted(n, x, 2, j) - Subtracted(n, y, 2, j) + Loss(n, j, y), Pow(n, j))
  {
    assert Falling(y, 1) == y by { assert Falling(y, 0) == 1; }
    hide *;
    SubtractedIsTail(n, x, 2, j);
    CongRefl(y, Pow(n, j));
    InnerResult(n, j, 2, y, t1, y);
    LossOf(n, j, y);
    StartChain(Factorial(j), t1, x, Tail(n, x, 2, j), Factorial(j) * InnerPasses(n, j, 2, y, t1, y),
               Loss(n, j, y) - Subtracted(n, y, 2, j), Pow(n, j));
  }

  lemma StartChain(f: int, t1: int, x: int, tail: int, p: int, rest: int, m: int)
    requires Cong(t1, x + tail, m) && Cong(p, f * t1 + rest, m)
    ensures Cong(p, f * x + f * tail + rest, m)
  {
    CongScale(t1, x + tail, f, m);
    assert f * (x + tail) == f * x + f * tail;
    ChainStep(p, f * t1, f * x, 0, f * tail, rest, m);
  }

  lemma LossOf(n: nat, j: nat, y: int)
    requires n > 0
    ensures Loss(n, j, y) == InnerLoss(n, j, 2, y, y)
  {
  }

  /** One pass of the outer loop from `y`, for `a` a power `x` of `1+n`: `j!` times its error is the difference of
      what it should subtract and what it does, plus what its divisions lose. */
  lemma PassResult(n: nat, j: nat, a: nat, x: nat)
    requires n > 1 && j >= 1 && Cong(a, Pow(1 + n, x), Pow(n, j + 1))
    ensures var y := OuterPasses(n, j - 1, a);
            Cong(Factorial(j) * OuterPasses(n, j, a),
                 Factorial(j) * x + Subtracted(n, x, 2, j) - Subtracted(n, y, 2, j) + Loss(n, j, y), Pow(n, j))
  {
    var y := OuterPasses(n, j - 1, a);
    var t1 := TruncatedQuotient(a % Pow(n, j + 1) - 1, n);
    assert OuterPasses(n, j, a) == InnerPasses(n, j, 2, y, t1, y);
    hide *;
    PassStart(n, j, a, x);
    CongMod(x + Tail(n, x, 2, j), Pow(n, j));
    PassFrom(n, j, y, t1, x);
  }

  // ---------- when the logarithm is the plaintext ----------

  /** The error of a pass that started from a right value comes from its divisions alone. */
  lemma PassFromRight(n: nat, j: nat, a: nat, x: nat)
    requires n > 1 && j >= 1 && Cong(a, Pow(1 + n, x), Pow(n, j + 1))
    requires Cong(OuterPasses(n, j - 1, a), x, Pow(n, j - 1))
    ensures Cong(Factorial(j) * OuterPasses(n, j, a), Factorial(j) * x + Loss(n, j, OuterPasses(n, j - 1, a)),
                 Pow(n, j))
  {
    hide *;
    var y, m, F := OuterPasses(n, j - 1, a), Pow(n, j), Factorial(j);
    PassResult(n, j, a, x);
    SubtractedCong(n, y, x, 2, j);
    CongRefl(F * x + Subtracted(n, x, 2, j) + Loss(n, j, y), m);
    CongSym(Subtracted(n, y, 2, j), Subtracted(n, x, 2, j), m);
    CongSub(F * x + Subtracted(n, x, 2, j) + Loss(n, j, y), F * x + Subtracted(n, x, 2, j) + Loss(n, j, y),
            Subtracted(n, y, 2, j), Subtracted(n, x, 2, j), m);
    CongTrans(F * OuterPasses(n, j, a),
              F * x + Subtracted(n, x, 2, j) - Subtracted(n, y, 2, j) + Loss(n, j, y), F * x + Loss(n, j, y), m);
  }

  lemma FactorialsCoprime(n: int, j: nat, k: nat)
    requires k <= j && Coprime(Factorial(j), n)
    ensures Coprime(Factorial(k), n)
  {
    RatioFactorial(j, k);
    CoprimeFactor(Ratio(j, k), Factorial(k), n);
  }

  /** What the passes `k..j` lose is less than `j!` each. */
  lemma {:induction false} LossBound(n: nat, j: nat, k: nat, x: int, t2: int)
    requires n > 0 && 1 <= k <= j + 1
    ensures -((j + 1 - k) * Factorial(j)) <= InnerLoss(n, j, k, x, t2) <= (j + 1 - k) * Factorial(j)
    decreases j + 1 - k
  {
    if k == j + 1 {
    } else {
      var t2' := TruncatedRemainder(t2 * (x - 1), Pow(n, j));
      LossBound(n, j, k + 1, x - 1, t2');
      var lost := TruncatedRemainder(t2' * Pow(n, k - 1), Factorial(k));
      TruncatedRemainderCong(t2' * Pow(n, k - 1), Factorial(k));
      RatioFactorial(j, k);
      ScaleBound(Ratio(j, k), lost, Factorial(k));
      assert (j + 1 - k) * Factorial(j) == (j - k) * Factorial(j) + Factorial(j);
    }
  }

  lemma ScaleBound(r: nat, v: int, f: int)
    requires -f < v < f
    ensures -(r * f) <= r * v <= r * f
  {
    assert r * (f - v) == r * f - r * v && r * (f + v) == r * f + r * v;
  }

  /** A modulus without factors in common with `j!` exceeds `j`. */
  lemma ModulusExceeds(n: nat, j: nat)
    requires n > 1 && Coprime(Factorial(j), n)
    ensures n > j
  {
    if n <= j {
      RatioFactorial(j, n);
      assert Factorial(n) == n * Factorial(n - 1);
      hide Factorial, Ratio, Coprime;
      MultipleOf(Factorial(j), Ratio(j, n), n, Factorial(n - 1));
      MultipleOf(n, 1, n, 1);
      CoprimeNoCommonDivisor(Factorial(j), n, n);
    }
  }

  lemma MultipleOf(v: int, r: int, n: int, f: int)
    requires v == r * (n * f)
    ensures Divides(n, v)
  {
    assert r * (n * f) == (r * f) * n;
    CongFromQuotient(v, 0, n, r * f);
  }

  lemma {:induction false} FactorialBelowPower(m: nat, j: nat)
    requires 1 <= j <= m
    ensures Factorial(j) <= Pow(m, j - 1)
  {
    if j == 1 {
      assert Factorial(0) == 1;
    } else {
      FactorialBelowPower(m, j - 1);
      WeakProduct(j, Factorial(j - 1), m, Pow(m, j - 2));
    }
  }

  lemma WeakProduct(a: nat, f: int, n: int, p: int)
    requires a <= n && 0 < f <= p
    ensures a * f <= n * p
  {
    assert n * p == a * p + (n - a) * p;
    assert a * p == a * f + a * (p - f);
  }

  /** So a loss that is a multiple of `n^j` is zero. */
  lemma LossVanishes(n: nat, j: nat, y: int)
    requires n > 1 && j >= 1 && Coprime(Factorial(j), n)
    ensures Cong(Loss(n, j, y), 0, Pow(n, j)) <==> Loss(n, j, y) == 0
  {
    ModulusExceeds(n, j);
    FactorialBelowPower(n, j);
    LossBound(n, j, 2, y, y);
    LossOf(n, j, y);
    var l, m := Loss(n, j, y), Pow(n, j);
    hide Loss;
    assert (j - 1) * Factorial(j) < m by {
      assert m == n * Pow(n, j - 1);
      StrictProduct(j - 1, Factorial(j), n, Pow(n, j - 1));
    }
    if Cong(l, 0, m) {
      var i := CongQuotient(l, 0, m);
      SmallMultiple(i, m);
    } else {
      CongRefl(0, m);
    }
  }

  lemma StrictProduct(a: nat, f: int, n: int, p: int)
    requires a < n && 0 < f <= p
    ensures a * f < n * p
  {
    assert n * p == a * p + (n - a) * p;
    assert a * p == a * f + a * (p - f);
    MulAtLeast(n - a, p);
  }

  /** A pass that starts from a right value ends with one exactly when the weighted remainders dropped by its
      divisions cancel. */
  lemma PassRightIff(n: nat, j: nat, a: nat, x: nat)
    requires n > 1 && j >= 1 && Coprime(Factorial(j), n) && Cong(a, Pow(1 + n, x), Pow(n, j + 1))
    requires Cong(OuterPasses(n, j - 1, a), x, Pow(n, j - 1))
    ensures Cong(OuterPasses(n, j, a), x, Pow(n, j)) <==> Loss(n, j, OuterPasses(n, j - 1, a)) == 0
  {
    hide *;
    var z, l, m, F := OuterPasses(n, j, a), Loss(n, j, OuterPasses(n, j - 1, a)), Pow(n, j), Factorial(j);
    PassFromRight(n, j, a, x);
    LossVanishes(n, j, OuterPasses(n, j - 1, a));
    CoprimePowRight(F, n, j);
    ErrorVanishesIff(F, z, x, l, 0, m);
  }

  /** Whatever the passes before did, the last result is right exactly when what this pass loses makes up for the
      difference between the terms it should subtract and those it does. */
  lemma PassIff(n: nat, j: nat, a: nat, x: nat)
    requires n > 1 && j >= 1 && Coprime(Factorial(j), n) && Cong(a, Pow(1 + n, x), Pow(n, j + 1))
    ensures var y := OuterPasses(n, j - 1, a);
            Cong(OuterPasses(n, j, a), x, Pow(n, j)) <==>
            Cong(Subtracted(n, x, 2, j) + Loss(n, j, y), Subtracted(n, y, 2, j), Pow(n, j))
  {
    hide *;
    var y := OuterPasses(n, j - 1, a);
    PassResult(n, j, a, x);
    CoprimePowRight(Factorial(j), n, j);
    ErrorVanishesIff(Factorial(j), OuterPasses(n, j, a), x, Subtracted(n, x, 2, j) + Loss(n, j, y),
                     Subtracted(n, y, 2, j), Pow(n, j));
  }

  lemma ErrorVanishesIff(f: int, z: int, x: int, u: int, v: int, m: int)
    requires m > 0 && Coprime(f, m) && Cong(f * z, f * x + u - v, m)
    ensures Cong(z, x, m) <==> Cong(u, v, m)
  {
    CongRefl(f * x, m);
    CongRefl(v, m);
    if Cong(z, x, m) {
      CongScale(z, x, f, m);
      CongSym(f * z, f * x + u - v, m);
      CongTrans(f * x + u - v, f * z, f * x, m);
      CongSub(f * x + u - v, f * x, f * x, f * x, m);
      CongAdd(u - v, 0, v, v, m);
    }
    if Cong(u, v, m) {
      CongSub(u, v, v, v, m);
      CongAdd(f * x, f * x, u - v, 0, m);
      CongTrans(f * z, f * x + u - v, f * x, m);
      CongCancel(f, z, x, m);
    }
  }

  /** Every pass gives the plaintext modulo its power of `n`. */
  ghost predicate AllPassesRight(n: nat, s: nat, a: nat, x: int)
    requires n > 0
  {
    forall j :: 1 <= j <= s ==> Cong(OuterPasses(n, j, a), x, Pow(n, j))
  }

  /** What the `j`-th pass loses on the way to the logarithm of `a`. */
  function LossAt(n: nat, j: nat, a: nat): int
    requires n > 0 && j >= 1
  {
    Loss(n, j, OuterPasses(n, j - 1, a))
  }

  /** In every pass the weighted remainders dropped by the divisions cancel. */
  predicate NothingLost(n: nat, s: nat, a: nat)
    requires n > 0
  {
    forall j :: 1 <= j <= s ==> LossAt(n, j, a) == 0
  }

  /** The passes compute the logarithm modulo `n, n^2, .., n^s` exactly when nothing is lost, for every `s`. */
  lemma {:induction false} LogRightIff(n: nat, s: nat, a: nat, x: nat)
    requires n > 1 && Coprime(Factorial(s), n) && Cong(a, Pow(1 + n, x), Pow(n, s + 1))
    ensures AllPassesRight(n, s, a, x) <==> NothingLost(n, s, a)
    decreases s
  {
    if s == 0 {
    } else {
      hide Cong, Coprime, LossAt, OuterPasses, Pow, Factorial;
      OneLevelDown(n, s, a, x);
      LogRightIff(n, s - 1, a, x);
      if AllPassesRight(n, s - 1, a, x) {
        LastPass(n, s, a, x);
      }
    }
  }

  lemma OneLevelDown(n: nat, s: nat, a: nat, x: nat)
    requires s >= 1 && Coprime(Factorial(s), n) && Cong(a, Pow(1 + n, x), Pow(n, s + 1))
    ensures Coprime(Factorial(s - 1), n) && Cong(a, Pow(1 + n, x), Pow(n, s))
  {
    FactorialsCoprime(n, s, s - 1);
    assert Pow(n, s + 1) == Pow(n, s) * n;
    CongFactor(a, Pow(1 + n, x), Pow(n, s), n);
  }

  lemma LastPass(n: nat, s: nat, a: nat, x: nat)
    requires n > 1 && s >= 1 && Coprime(Factorial(s), n) && Cong(a, Pow(1 + n, x), Pow(n, s + 1))
    requires AllPassesRight(n, s - 1, a, x)
    ensures Cong(OuterPasses(n, s, a), x, Pow(n, s)) <==> LossAt(n, s, a) == 0
  {
    if s == 1 {
      var y: int := x;
      CongFromQuotient(OuterPasses(n, 0, a), x, 1, -y);
    }
    PassRightIff(n, s, a, x);
  }

  /** Results of the outer loop are below `n^j` in absolute value. */
  lemma PassesRange(n: nat, j: nat, a: nat)
    requires n > 1 && j >= 1
    ensures j >= 2 ==> -Pow(n, j) < OuterPasses(n, j, a) < Pow(n, j)
  {
    if j >= 2 {
      var y := OuterPasses(n, j - 1, a);
      InnerRange(n, j, 2, y, TruncatedQuotient(a % Pow(n, j + 1) - 1, n), y);
    }
  }

  lemma {:induction false} InnerRange(n: nat, j: nat, k: nat, x: int, t1: int, t2: int)
    requires n > 0 && 1 <= k <= j
    ensures -Pow(n, j) < InnerPasses(n, j, k, x, t1, t2) < Pow(n, j)
    decreases j + 1 - k
  {
    var t2' := TruncatedRemainder(t2 * (x - 1), Pow(n, j));
    var t1' := TruncatedRemainder(t1 - TruncatedQuotient(t2' * Pow(n, k - 1), Factorial(k)), Pow(n, j));
    if k == j {
      TruncatedRemainderCong(t1 - TruncatedQuotient(t2' * Pow(n, k - 1), Factorial(k)), Pow(n, j));
      assert InnerPasses(n, j, k + 1, x - 1, t1', t2') == t1';
    } else {
      InnerRange(n, j, k + 1, x - 1, t1', t2');
    }
  }

  // ---------- length parameter one ----------

  /** With length parameter one the loops compute the plaintext. */
  lemma LogAtOne(n: nat, x: nat, a: nat)
    requires n > 1 && Cong(a, Pow(1 + n, x), Pow(n, 2))
    ensures OuterPasses(n, 1, a) == x % n
  {
    PassStart(n, 1, a, x);
    PowOne(n);
    assert OuterPasses(n, 0, a) == 0;
  }

  // ---------- length parameter two ----------

  /** The difference the code forms before its last reduction, at length parameter two. */
  function LastDifference(n: nat, x: nat): int
    requires n > 0
  {
    (x + n * Binomial(x, 2)) % (n * n) - n * Binomial(x % n, 2)
  }

  lemma Pairs(x: nat)
    ensures 2 * Binomial(x, 2) == x * (x - 1)
  {
    FallingBinomial(x, 2);
    assert Factorial(2) == 2 by { assert Factorial(0) == 1 && Factorial(1) == 1; }
    assert Falling(x, 2) == x * (x - 1) by { assert Falling(x, 0) == 1 && Falling(x, 1) == x; }
  }

  lemma PairsCong(n: nat, x: nat, y: nat)
    requires n % 2 == 1 && Cong(x, y, n)
    ensures Cong(Binomial(x, 2), Binomial(y, 2), n)
  {
    Pairs(x);
    Pairs(y);
    CongRefl(1, n);
    CongSub(x, y, 1, 1, n);
    CongMul(x, y, x - 1, y - 1, n);
    CoprimeIntro(2, n, -(n / 2), 1);
    CongCancel(2, Binomial(x, 2), Binomial(y, 2), n);
  }

  lemma LastDifferenceCong(n: nat, x: nat)
    requires n % 2 == 1
    ensures Cong(LastDifference(n, x), x, n * n)
  {
    CongMod(x, n);
    PairsCong(n, x, x % n);
    DifferenceCong(n, x, Binomial(x, 2), Binomial(x % n, 2));
  }

  lemma DifferenceCong(n: nat, x: int, t: int, t0: int)
    requires n > 0 && Cong(t, t0, n)
    ensures n * n > 0 && Cong((x + n * t) % (n * n) - n * t0, x, n * n)
  {
    hide Cong;
    var m, u := n * n, n * t0;
    MulAtLeast(n, n);
    var k := CongQuotient(t, t0, n);
    SpreadFactor(n, t0, k, n);
    CongFromQuotient(x + n * t, x + u, m, k);
    ReducedMinus(x + n * t, x, u, m);
  }

  lemma ReducedMinus(y: int, x: int, u: int, m: int)
    requires m > 0 && Cong(y, x + u, m)
    ensures Cong(y % m - u, x, m)
  {
    CongMod(y, m);
    CongTrans(y % m, y, x + u, m);
    CongRefl(u, m);
    CongSub(y % m, x + u, u, u, m);
  }

  lemma PowsOf(n: nat)
    ensures Pow(n, 1) == n && Pow(n, 2) == n * n && Pow(n, 3) == n * (n * n)
  {
    PowOne(n);
    assert Pow(n, 2) == n * Pow(n, 1);
  }

  lemma LogAtTwo(n: nat, x: nat, a: nat)
    requires n > 1 && n % 2 == 1 && Cong(a, Pow(1 + n, x), Pow(n, 3))
    ensures OuterPasses(n, 2, a) == TruncatedRemainder(LastDifference(n, x), n * n)
  {
    PowsOf(n);
    MulAssoc(n, n, n);
    CongFactor(a, Pow(1 + n, x), n * n, n);
    LogAtOne(n, x, a);
    PassStart(n, 2, a, x);
    assert Tail(n, x, 2, 2) == n * Binomial(x, 2) by { assert Tail(n, x, 3, 2) == 0; }
    InnerPassAtTwo(n, x % n, TruncatedQuotient(a % Pow(n, 3) - 1, n));
  }

  lemma InnerPassAtTwo(n: nat, x0: nat, t1: int)
    requires n > 1 && x0 < n
    ensures InnerPasses(n, 2, 2, x0, t1, x0) == TruncatedRemainder(t1 - n * Binomial(x0, 2), n * n)
  {
    hide Binomial, TruncatedRemainder, TruncatedQuotient, Pow, Factorial;
    PowsOf(n);
    Pairs(x0);
    FactorialTwo();
    SmallSquare(n, x0);
    HalfOfEven(n, x0 * (x0 - 1), Binomial(x0, 2));
  }

  lemma FactorialTwo()
    ensures Factorial(2) == 2
  {
    assert Factorial(0) == 1 && Factorial(1) == 1;
  }

  lemma HalfOfEven(n: nat, t: int, h: nat)
    requires t == 2 * h
    ensures TruncatedQuotient(t * n, 2) == n * h
  {
    assert t * n == 2 * (n * h);
  }

  lemma SmallSquare(n: nat, x0: nat)
    requires x0 < n
    ensures 0 <= x0 * (x0 - 1) < n * n
    ensures TruncatedRemainder(x0 * (x0 - 1), n * n) == x0 * (x0 - 1)
  {
    Pairs(x0);
    SquareBound(n, x0);
    SmallRemainder(x0 * (x0 - 1), n * n);
  }

  lemma SquareBound(n: nat, x0: nat)
    requires x0 < n
    ensures x0 * (x0 - 1) < n * n
  {
    assert n * n == x0 * n + (n - x0) * n;
    assert x0 * n == x0 * (x0 - 1) + x0 * (n - x0 + 1);
  }

  /** With length parameter two the answer is `x` exactly when the last difference is not negative,
      and `x - n^2` otherwise. */
  lemma SignedAnswer(n: nat, x: nat)
    requires n > 1 && n % 2 == 1 && x < n * n
    ensures TruncatedRemainder(LastDifference(n, x), n * n) == if LastDifference(n, x) >= 0 then x else x - n * n
  {
    LastDifferenceCong(n, x);
    if x == 0 {
      assert LastDifference(n, 0) == 0 by { SmallRemainder(0, n); SmallRemainder(0, n * n); }
    }
    SignedRemainder(LastDifference(n, x), x, n * n);
  }

  /** The truncated remainder has the sign of its argument. */
  lemma SignedRemainder(v: int, x: nat, m: int)
    requires 0 <= x < m && Cong(v, x, m) && (v < 0 ==> x > 0)
    ensures TruncatedRemainder(v, m) == if v >= 0 then x else x - m
  {
    var y := TruncatedRemainder(v, m);
    TruncatedRemainderCong(v, m);
    CongTrans(y, v, x, m);
    if v >= 0 {
      CongSmall(y, x, m);
    } else {
      CongFromQuotient(y + m, y, m, 1);
      CongTrans(y + m, y, x, m);
      if y == 0 { CongSmall(y, x, m); }
      CongSmall(y + m, x, m);
    }
  }

  // ---------- length parameter three ----------

  /** What the third pass loses, in closed form: its start is the signed answer of the second pass. */
  function LossAtThree(n: nat, x: nat): int
    requires n > 0
  {
    var x2 := TruncatedRemainder(LastDifference(n, x), n * n);
    var t := TruncatedRemainder(x2 * (x2 - 1), n * (n * n));
    var t' := TruncatedRemainder(t * (x2 - 2), n * (n * n));
    3 * TruncatedRemainder(t * n, 2) + TruncatedRemainder(t' * (n * n), 6)
  }

  lemma LossUnfolds(n: nat, y: int)
    requires n > 0
    ensures var t := TruncatedRemainder(y * (y - 1), n * (n * n));
            var t' := TruncatedRemainder(t * (y - 2), n * (n * n));
            Loss(n, 3, y) == 3 * TruncatedRemainder(t * n, 2) + TruncatedRemainder(t' * (n * n), 6)
  {
    PowsOf(n);
    assert Factorial(2) == 2 && Factorial(3) == 6 by { assert Factorial(0) == 1 && Factorial(1) == 1; }
    assert Ratio(3, 3) == 1 && Ratio(3, 2) == 3;
    hide TruncatedRemainder, Pow, Factorial, Ratio;
    var t := TruncatedRemainder(y * (y - 1), n * (n * n));
    var t' := TruncatedRemainder(t * (y - 2), n * (n * n));
    assert InnerLoss(n, 3, 4, y - 2, t') == 0;
    assert InnerLoss(n, 3, 3, y - 1, t) == TruncatedRemainder(t' * (n * n), 6);
  }

  /** With length parameter three the answer is the plaintext modulo `n^3` exactly when nothing is lost in the
      third pass. */
  lemma LogAtThree(n: nat, x: nat, a: nat)
    requires n > 1 && Coprime(6, n) && Cong(a, Pow(1 + n, x), Pow(n, 4))
    ensures Cong(OuterPasses(n, 3, a), x, Pow(n, 3)) <==> LossAtThree(n, x) == 0
  {
    SecondPassRight(n, x, a);
    assert Factorial(3) == 6 by { assert Factorial(0) == 1 && Factorial(1) == 1 && Factorial(2) == 2; }
    LossUnfolds(n, OuterPasses(n, 2, a));
    hide Cong, Pow, Coprime, OuterPasses, Loss, Factorial, LastDifference, TruncatedRemainder;
    PassRightIff(n, 3, a, x);
  }

  lemma SecondPassRight(n: nat, x: nat, a: nat)
    requires n > 1 && Coprime(6, n) && Cong(a, Pow(1 + n, x), Pow(n, 4))
    ensures OuterPasses(n, 2, a) == TruncatedRemainder(LastDifference(n, x), n * n)
    ensures Cong(OuterPasses(n, 2, a), x, Pow(n, 2))
  {
    CoprimeSixIsOdd(n);
    assert Pow(n, 4) == Pow(n, 3) * n;
    PowsOf(n);
    hide *;
    CongFactor(a, Pow(1 + n, x), Pow(n, 3), n);
    LogAtTwo(n, x, a);
    LastDifferenceCong(n, x);
    TruncatedRemainderCong(LastDifference(n, x), n * n);
    CongTrans(OuterPasses(n, 2, a), LastDifference(n, x), x, n * n);
  }

  lemma CoprimeSixIsOdd(n: nat)
    requires Coprime(6, n)
    ensures n % 2 == 1
  {
    if n % 2 == 0 {
      CongFromQuotient(6, 0, 2, 3);
      CongFromQuotient(n, 0, 2, n / 2);
      CoprimeNoCommonDivisor(6, n, 2);
    }
  }

  // ---------- the answer itself ----------

  /** `y (y-1) .. (y-k+1)`, reduced after every factor with the sign kept: `t2` after pass k. */
  function FallingKept(n: nat, j: nat, y: int, k: nat): int
    requires n > 0
  {
    if k <= 1 then y else TruncatedRemainder(FallingKept(n, j, y, k - 1) * (y - k + 1), Pow(n, j))
  }

  /** What pass k subtracts. */
  function Part(n: nat, j: nat, y: int, k: nat): int
    requires n > 0 && k >= 1
  {
    TruncatedQuotient(FallingKept(n, j, y, k) * Pow(n, k - 1), Factorial(k))
  }

  /** What is left of `t` after passes 2..k, from the value `y` of the outer pass before. */
  function Left(n: nat, j: nat, y: int, t: int, k: nat): int
    requires n > 0
  {
    if k <= 1 then t else TruncatedRemainder(Left(n, j, y, t, k - 1) - Part(n, j, y, k), Pow(n, j))
  }

  lemma {:induction false} InnerForward(n: nat, j: nat, y: int, t: int, k: nat)
    requires n > 0 && j >= 1 && 2 <= k <= j + 1
    ensures InnerPasses(n, j, k, y - k + 2, Left(n, j, y, t, k - 1), FallingKept(n, j, y, k - 1)) == Left(n, j, y, t, j)
    decreases j + 1 - k
  {
    hide TruncatedRemainder, TruncatedQuotient, Pow, Factorial;
    if k == j + 1 {
    } else {
      InnerForward(n, j, y, t, k + 1);
    }
  }

  /** What the outer pass j starts from: the binomial expansion of `((1+n)^x - 1)/n`. */
  function StartOf(n: nat, j: nat, x: nat): int
    requires n > 0
  {
    (x + Tail(n, x, 2, j)) % Pow(n, j)
  }

  /** The code's logarithm of `(1+n)^x`, from `n` and `x` alone. */
  function LogOf(n: nat, s: nat, x: nat): int
    requires n > 0
  {
    if s == 0 then 0 else Left(n, s, LogOf(n, s - 1, x), StartOf(n, s, x), s)
  }

  /** For every modulus and length parameter: the passes return exactly `LogOf`. */
  lemma {:induction false} LogExact(n: nat, s: nat, a: nat, x: nat)
    requires n > 1 && Cong(a, Pow(1 + n, x), Pow(n, s + 1))
    ensures OuterPasses(n, s, a) == LogOf(n, s, x)
    decreases s
  {
    hide Cong, Pow, Left, FallingKept, InnerPasses, Tail, TruncatedQuotient;
    if s == 0 {
    } else {
      CongDown(n, s, a, x);
      LogExact(n, s - 1, a, x);
      PassStart(n, s, a, x);
      var y, t := OuterPasses(n, s - 1, a), StartOf(n, s, x);
      ForwardFromStart(n, s, y, t);
    }
  }

  lemma ForwardFromStart(n: nat, j: nat, y: int, t: int)
    requires n > 0 && j >= 1
    ensures InnerPasses(n, j, 2, y, t, y) == Left(n, j, y, t, j)
  {
    hide TruncatedRemainder, TruncatedQuotient, Pow, Factorial, InnerPasses;
    InnerForward(n, j, y, t, 2);
  }

  lemma CongDown(n: nat, s: nat, a: nat, x: nat)
    requires s >= 1 && Cong(a, Pow(1 + n, x), Pow(n, s + 1))
    ensures Cong(a, Pow(1 + n, x), Pow(n, s))
  {
    hide Cong, Pow;
    PowUnfolds(n, s);
    CongFactor(a, Pow(1 + n, x), Pow(n, s), n);
  }

  /** The last difference of the last pass, before it is reduced. Its sign is the sign of the answer. */
  function LastStep(n: nat, s: nat, x: nat): int
    requires n > 0 && s >= 2
  {
    var y := LogOf(n, s - 1, x);
    Left(n, s, y, StartOf(n, s, x), s - 1) - Part(n, s, y, s)
  }

  lemma LogIsReduced(n: nat, s: nat, x: nat)
    requires n > 0 && s >= 2
    ensures LogOf(n, s, x) == TruncatedRemainder(LastStep(n, s, x), Pow(n, s))
  {
    hide TruncatedRemainder, Part, Pow, StartOf;
  }

  lemma SignKept(v: int, m: int)
    requires m > 0
    ensures var y := TruncatedRemainder(v, m);
            0 - m < y < m && (v >= 0 ==> y >= 0) && (v < 0 ==> y <= 0)
  {
  }

  /** Zero and one come back at every length parameter. */
  lemma {:induction false} ZeroAndOne(n: nat, s: nat, x: nat)
    requires n > 1 && s >= 1 && x <= 1
    ensures LogOf(n, s, x) == x
    decreases s
  {
    hide Left, StartOf;
    StartOfSmall(n, s, x);
    if s == 1 {
      NothingLeft(n, 1, LogOf(n, 0, x), x);
    } else {
      ZeroAndOne(n, s - 1, x);
      PowAbove(n, s);
      LeftOfSmall(n, s, x, s);
    }
  }

  lemma NothingLeft(n: nat, j: nat, y: int, t: int)
    requires n > 0
    ensures Left(n, j, y, t, 1) == t
  {
  }

  lemma PowAbove(n: nat, s: nat)
    requires n > 1 && s >= 1
    ensures Pow(n, s) > 1
  {
    hide Pow;
    PowUnfolds(n, s - 1);
    MulAtLeast(Pow(n, s - 1), n);
  }

  lemma StartOfSmall(n: nat, s: nat, x: nat)
    requires n > 1 && s >= 1 && x <= 1
    ensures StartOf(n, s, x) == x
  {
    hide Pow, Tail;
    TailOfSmall(n, x, 2, s);
    PowAbove(n, s);
    SmallRemainder(x, Pow(n, s));
  }

  lemma {:induction false} TailOfSmall(n: int, x: nat, k: nat, j: nat)
    requires x <= 1 && k >= 2
    ensures Tail(n, x, k, j) == 0
    decreases j + 1 - k
  {
    hide Pow, Binomial;
    if k > j {
    } else {
      BinomialOfSmall(x, k);
      TailOfSmall(n, x, k + 1, j);
    }
  }

  lemma BinomialOfSmall(x: nat, k: nat)
    requires x <= 1 && k >= 2
    ensures Binomial(x, k) == 0
  {
    assert Binomial(0, k) == 0 && Binomial(0, k - 1) == 0;
  }

  lemma {:induction false} FallingOfSmall(n: nat, j: nat, x: nat, k: nat)
    requires n > 0 && x <= 1 && k >= 2
    ensures FallingKept(n, j, x, k) == 0
    decreases k
  {
    hide Pow;
    if k == 2 {
    } else {
      FallingOfSmall(n, j, x, k - 1);
    }
  }

  lemma {:induction false} LeftOfSmall(n: nat, j: nat, x: nat, k: nat)
    requires n > 1 && j >= 1 && x <= 1 && Pow(n, j) > 1
    ensures Left(n, j, x, x, k) == x
    decreases k
  {
    hide Pow, FallingKept, Factorial;
    if k <= 1 {
    } else {
      LeftOfSmall(n, j, x, k - 1);
      FallingOfSmall(n, j, x, k);
      SmallRemainder(x, Pow(n, j));
    }
  }

  /** The last difference at length parameter three, in closed form. */
  function LastDifferenceAtThree(n: nat, x: nat): int
    requires n > 0
  {
    var cube := n * (n * n);
    var x2 := TruncatedRemainder(LastDifference(n, x), n * n);
    var t := TruncatedRemainder(x2 * (x2 - 1), cube);
    var t' := TruncatedRemainder(t * (x2 - 2), cube);
    var start := (x + n * Binomial(x, 2) + (n * n) * Binomial(x, 3)) % cube;
    TruncatedRemainder(start - TruncatedQuotient(t * n, 2), cube) - TruncatedQuotient(t' * (n * n), 6)
  }

  lemma FactorialThree()
    ensures Factorial(3) == 6
  {
    assert Factorial(0) == 1 && Factorial(1) == 1 && Factorial(2) == 2;
  }

  lemma StartAtThree(n: nat, x: nat)
    requires n > 0
    ensures StartOf(n, 3, x) == (x + n * Binomial(x, 2) + (n * n) * Binomial(x, 3)) % (n * (n * n))
  {
    hide Binomial, Pow;
    PowsOf(n);
    assert Tail(n, x, 4, 3) == 0;
    assert Tail(n, x, 3, 3) == Binomial(x, 3) * Pow(n, 2);
    assert Tail(n, x, 2, 3) == Binomial(x, 2) * Pow(n, 1) + Binomial(x, 3) * Pow(n, 2);
  }

  /** The answer at length parameter three, sign included, for every odd modulus. */
  lemma LogAtThreeExact(n: nat, x: nat, a: nat)
    requires n > 1 && n % 2 == 1 && Cong(a, Pow(1 + n, x), Pow(n, 4))
    ensures OuterPasses(n, 3, a) == TruncatedRemainder(LastDifferenceAtThree(n, x), n * (n * n))
  {
    hide *;
    LogExact(n, 3, a, x);
    CongDown(n, 3, a, x);
    LogExact(n, 2, a, x);
    LogAtTwo(n, x, a);
    LogIsReduced(n, 3, x);
    PowsOf(n);
    StepAtThree(n, x, TruncatedRemainder(LastDifference(n, x), n * n));
  }

  lemma StepAtThree(n: nat, x: nat, x2: int)
    requires n > 0 && LogOf(n, 2, x) == x2 && x2 == TruncatedRemainder(LastDifference(n, x), n * n)
    ensures LastStep(n, 3, x) == LastDifferenceAtThree(n, x)
  {
    hide LastDifference, TruncatedRemainder, TruncatedQuotient, Pow, Factorial, StartOf, LogOf;
    PowsOf(n);
    FactorialTwo();
    FactorialThree();
    StartAtThree(n, x);
    assert FallingKept(n, 3, x2, 1) == x2;
    assert Left(n, 3, x2, StartOf(n, 3, x), 1) == StartOf(n, 3, x);
  }
}
