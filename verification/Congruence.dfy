/** Congruence of integers modulo a positive modulus, and powers. */
module Congruence {

  /** The product `k * m`, by repeated addition. */
  ghost function Times(k: int, m: int): int
    decreases if k < 0 then -k else k
  {
    if k == 0 then 0 else if k > 0 then Times(k - 1, m) + m else Times(k + 1, m) - m
  }

  /** `a` and `b` differ by a multiple of `m`. */
  ghost predicate Cong(a: int, b: int, m: int) {
    exists k: int :: Times(k, m) == a - b
  }

  lemma {:induction false} TimesIsMul(k: int, m: int)
    ensures Times(k, m) == k * m
    decreases if k < 0 then -k else k
  {
    if k > 0 {
      TimesIsMul(k - 1, m);
    } else if k < 0 {
      TimesIsMul(k + 1, m);
    }
  }

  lemma CongQuotient(a: int, b: int, m: int) returns (k: int)
    requires Cong(a, b, m)
    ensures a == b + k * m
  {
    k :| Times(k, m) == a - b;
    TimesIsMul(k, m);
  }

  lemma CongFromQuotient(a: int, b: int, m: int, k: int)
    requires a == b + k * m
    ensures Cong(a, b, m)
  {
    TimesIsMul(k, m);
  }

  lemma MulAtLeast(j: int, m: int)
    requires m > 0 && j != 0
    ensures j >= 1 ==> j * m >= m
    ensures j <= -1 ==> j * m <= -m
  {
    assert j * m == (j - 1) * m + m == (j + 1) * m - m;
  }

  /** The only multiple of `m` strictly between `-m` and `m` is zero. */
  lemma SmallMultiple(j: int, m: int)
    requires -m < j * m < m
    ensures j == 0
  {
    if j != 0 {
      MulAtLeast(j, m);
    }
  }

  lemma CongRefl(a: int, m: int)
    ensures Cong(a, a, m)
  {
    CongFromQuotient(a, a, m, 0);
  }

  lemma CongSym(a: int, b: int, m: int)
    requires Cong(a, b, m)
    ensures Cong(b, a, m)
  {
    var k := CongQuotient(a, b, m);
    assert b == a + (-k) * m;
    CongFromQuotient(b, a, m, -k);
  }

  lemma CongTrans(a: int, b: int, c: int, m: int)
    requires Cong(a, b, m) && Cong(b, c, m)
    ensures Cong(a, c, m)
  {
    var k := CongQuotient(a, b, m);
    var l := CongQuotient(b, c, m);
    assert a == c + (k + l) * m;
    CongFromQuotient(a, c, m, k + l);
  }

  lemma CongAdd(a: int, b: int, c: int, d: int, m: int)
    requires Cong(a, b, m) && Cong(c, d, m)
    ensures Cong(a + c, b + d, m)
  {
    var k := CongQuotient(a, b, m);
    var l := CongQuotient(c, d, m);
    assert a + c == b + d + (k + l) * m;
    CongFromQuotient(a + c, b + d, m, k + l);
  }

  lemma CongSub(a: int, b: int, c: int, d: int, m: int)
    requires Cong(a, b, m) && Cong(c, d, m)
    ensures Cong(a - c, b - d, m)
  {
    var k := CongQuotient(a, b, m);
    var l := CongQuotient(c, d, m);
    assert a - c == b - d + (k - l) * m;
    CongFromQuotient(a - c, b - d, m, k - l);
  }

  lemma CongMul(a: int, b: int, c: int, d: int, m: int)
    requires Cong(a, b, m) && Cong(c, d, m)
    ensures Cong(a * c, b * d, m)
  {
    hide Cong;
    var k := CongQuotient(a, b, m);
    var l := CongQuotient(c, d, m);
    var x, y := k * m, l * m;
    ExpandProduct(b, x, d, y);
    MulAssoc(b, l, m);
    MulAssoc(d, k, m);
    MulAssoc(x, l, m);
    assert x * d == d * x;
    CollectThree(b * l, d * k, x * l, m);
    CongFromQuotient(a * c, b * d, m, b * l + d * k + x * l);
  }

  lemma ExpandProduct(b: int, x: int, d: int, y: int)
    ensures (b + x) * (d + y) == b * d + b * y + x * d + x * y
  {
  }

  lemma CollectThree(x: int, y: int, z: int, m: int)
    ensures x * m + y * m + z * m == (x + y + z) * m
  {
  }

  lemma CongScale(a: int, b: int, c: int, m: int)
    requires Cong(a, b, m)
    ensures Cong(c * a, c * b, m) && Cong(a * c, b * c, m)
  {
    CongRefl(c, m);
    CongMul(a, b, c, c, m);
  }

  /** The remainder is congruent to the number. */
  lemma CongMod(a: int, m: int)
    requires m > 0
    ensures Cong(a % m, a, m) && Cong(a, a % m, m)
  {
    CongFromQuotient(a, a % m, m, a / m);
    CongSym(a, a % m, m);
  }

  /** Two remainders that are congruent are equal. */
  lemma CongSmall(a: int, b: int, m: int)
    requires Cong(a, b, m)
    requires 0 <= a < m && 0 <= b < m
    ensures a == b
  {
    var k := CongQuotient(a, b, m);
    SmallMultiple(k, m);
  }

  /** Congruent numbers have equal remainders, and conversely. */
  lemma CongIffMod(a: int, b: int, m: int)
    requires m > 0
    ensures Cong(a, b, m) <==> a % m == b % m
  {
    CongMod(a, m);
    CongMod(b, m);
    if Cong(a, b, m) {
      CongTrans(a % m, a, b, m);
      CongTrans(a % m, b, b % m, m);
      CongSmall(a % m, b % m, m);
    }
    if a % m == b % m {
      CongTrans(a, a % m, b, m);
    }
  }

  lemma SmallRemainder(y: int, m: int)
    requires 0 <= y < m
    ensures y % m == y
  {
    CongMod(y, m);
    CongSmall(y % m, y, m);
  }

  lemma DivisionBounds(x: nat, m: nat)
    requires m > 0
    ensures (x / m) * m <= x < (x / m) * m + m
  {
  }

  lemma QuotientIs(q: nat, m: nat, r: nat)
    requires r < m
    ensures (q * m + r) / m == q
  {
    var d, x := (q * m + r) / m, q * m + r;
    DivisionBounds(x, m);
    assert (q - d) * m == q * m - d * m && (d - q) * m == d * m - q * m;
    if d < q {
      MulAtLeast(q - d, m);
    } else if d > q {
      MulAtLeast(d - q, m);
    }
  }

  lemma HalvedQuotient(u: nat, b: nat, p: nat)
    requires b <= 1 && p > 0
    ensures (2 * u + b) / (2 * p) == u / p
  {
    var q, r := u / p, u % p;
    assert u == q * p + r;
    assert 2 * u + b == q * (2 * p) + (2 * r + b);
    QuotientIs(q, 2 * p, 2 * r + b);
  }

  /** Comparing reduced values decides congruence of what they stand for. */
  lemma ReducedEqualIff(x: int, y: int, a: int, b: int, m: int)
    requires m > 0 && Cong(x, a, m) && Cong(y, b, m)
    ensures x % m == y % m <==> Cong(a, b, m)
  {
    CongIffMod(x, a, m);
    CongIffMod(y, b, m);
    CongIffMod(a, b, m);
  }

  /** A congruence modulo a product holds modulo each factor. */
  lemma CongFactor(a: int, b: int, m: int, f: int)
    requires Cong(a, b, m * f)
    ensures Cong(a, b, m)
  {
    var k := CongQuotient(a, b, m * f);
    assert a == b + (k * f) * m;
    CongFromQuotient(a, b, m, k * f);
  }

  /** Adding back what was subtracted from a residue. */
  lemma ShiftBack(r: int, z: nat, k: int, q: nat)
    requires z < q && Cong(r, z - k, q)
    ensures (r + k) % q == z
  {
    hide Cong;
    CongRefl(k, q);
    CongAdd(r, z - k, k, k, q);
    CongIffMod(r + k, z, q);
  }

  lemma ShiftForward(y: nat, z: int, k: int, q: nat)
    requires y < q && Cong(z, y + k, q)
    ensures (z - k) % q == y
  {
    hide Cong;
    CongRefl(k, q);
    CongSub(z, y + k, k, k, q);
    CongIffMod(z - k, y, q);
  }

  // ---------- powers ----------

  function Pow(b: int, e: nat): (r: int)
    ensures b > 0 ==> r > 0
    ensures b >= 0 ==> r >= 0
    decreases e
  {
    if e == 0 then 1 else b * Pow(b, e - 1)
  }

  lemma PowUnfolds(b: int, e: nat)
    ensures Pow(b, 0) == 1 && Pow(b, e + 1) == b * Pow(b, e)
  {
  }

  lemma PowOne(b: int)
    ensures Pow(b, 1) == b
  {
    assert Pow(b, 0) == 1;
  }

  lemma {:induction false} OnePow(e: nat)
    ensures Pow(1, e) == 1
  {
    if e == 0 {
    } else {
      OnePow(e - 1);
    }
  }

  lemma {:induction false} MinusOneOdd(k: nat)
    ensures Pow(-1, 2 * k + 1) == -1 && Pow(-1, 2 * k) == 1
  {
    if k == 0 {
    } else {
      MinusOneOdd(k - 1);
      assert Pow(-1, 2 * k) == -1 * Pow(-1, 2 * k - 1);
    }
    assert Pow(-1, 2 * k + 1) == -1 * Pow(-1, 2 * k);
  }

  lemma {:induction false} PowAdd(b: int, e: nat, f: nat)
    ensures Pow(b, e + f) == Pow(b, e) * Pow(b, f)
    decreases e
  {
    if e == 0 {
    } else {
      PowAdd(b, e - 1, f);
      MulAssoc(b, Pow(b, e - 1), Pow(b, f));
    }
  }

  lemma MulAssoc(a: int, b: int, c: int)
    ensures a * (b * c) == (a * b) * c
  {
  }

  lemma MulSwap(a: int, b: int, x: int, y: int)
    ensures (a * b) * (x * y) == (a * x) * (b * y)
  {
    assert (a * b) * (x * y) == a * (b * (x * y));
    assert b * (x * y) == x * (b * y);
    assert a * (x * (b * y)) == (a * x) * (b * y);
  }

  lemma {:induction false} PowMul(a: int, b: int, e: nat)
    ensures Pow(a * b, e) == Pow(a, e) * Pow(b, e)
  {
    if e == 0 {
    } else {
      PowMul(a, b, e - 1);
      MulSwap(a, b, Pow(a, e - 1), Pow(b, e - 1));
    }
  }

  lemma {:induction false} PowPow(b: int, e: nat, f: nat)
    ensures e * f >= 0 && Pow(Pow(b, e), f) == Pow(b, e * f)
    decreases f
  {
    if f == 0 {
    } else {
      PowPow(b, e, f - 1);
      assert e * f == e + e * (f - 1);
      PowAdd(b, e, e * (f - 1));
    }
  }

  lemma {:induction false} PowCong(a: int, b: int, e: nat, m: int)
    requires Cong(a, b, m)
    ensures Cong(Pow(a, e), Pow(b, e), m)
    decreases e
  {
    if e == 0 {
      CongRefl(1, m);
    } else {
      PowCong(a, b, e - 1, m);
      CongMul(a, b, Pow(a, e - 1), Pow(b, e - 1), m);
    }
  }

  /** Modular exponentiation as the big-integer library computes it. */
  function PowMod(b: int, e: nat, m: int): (r: int)
    requires m > 0
    ensures 0 <= r < m
  {
    Pow(b, e) % m
  }

  lemma PowModCong(b: int, e: nat, m: int)
    requires m > 0
    ensures Cong(PowMod(b, e, m), Pow(b, e), m)
  {
    CongMod(Pow(b, e), m);
  }

  /** If `b^k` is one, only the exponent modulo `k` matters. */
  lemma PowPeriodic(b: int, e: nat, f: nat, k: nat, m: int)
    requires m > 0 && k > 0
    requires Cong(Pow(b, k), 1, m)
    requires Cong(e, f, k)
    ensures Cong(Pow(b, e), Pow(b, f), m)
  {
    CongIffMod(e, f, k);
    PowReduce(b, e, k, m);
    PowReduce(b, f, k, m);
    CongSym(Pow(b, f), Pow(b, f % k), m);
    CongTrans(Pow(b, e), Pow(b, e % k), Pow(b, f), m);
  }

  lemma PowReduce(b: int, e: nat, k: nat, m: int)
    requires m > 0 && k > 0
    requires Cong(Pow(b, k), 1, m)
    ensures Cong(Pow(b, e), Pow(b, e % k), m)
  {
    var d, r := DivideBy(e, k);
    PowDropPeriods(b, k, d, r, m);
  }

  lemma DivideBy(e: nat, k: nat) returns (d: nat, r: nat)
    requires k > 0
    ensures e == k * d + r && r == e % k && r < k
  {
    d, r := e / k, e % k;
  }

  lemma PowDropPeriods(b: int, k: nat, d: nat, r: nat, m: int)
    requires m > 0
    requires Cong(Pow(b, k), 1, m)
    ensures k * d >= 0 && Cong(Pow(b, k * d + r), Pow(b, r), m)
  {
    PowPow(b, k, d);
    PowAdd(b, k * d, r);
    PowCong(Pow(b, k), 1, d, m);
    OnePow(d);
    CongScale(Pow(b, k * d), 1, Pow(b, r), m);
  }
}
