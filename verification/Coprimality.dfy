/** Greatest common divisors, coprimality in Bezout form, and primes. */
module Coprimality {
  import opened Congruence

  ghost predicate Divides(d: int, a: int) {
    Cong(a, 0, d)
  }

  /** Euclid's algorithm, as the big-integer library's gcd. */
  function Gcd(a: nat, b: nat): (g: nat)
    decreases b
  {
    if b == 0 then a else Gcd(b, a % b)
  }

  ghost predicate Bezout(a: int, b: int, u: int, v: int) {
    a * u + b * v == 1
  }

  ghost predicate Coprime(a: int, b: int) {
    exists u: int, v: int :: Bezout(a, b, u, v)
  }

  lemma CoprimeWitness(a: int, b: int) returns (u: int, v: int)
    requires Coprime(a, b)
    ensures a * u + b * v == 1
  {
    u, v :| Bezout(a, b, u, v);
  }

  lemma CoprimeIntro(a: int, b: int, u: int, v: int)
    requires a * u + b * v == 1
    ensures Coprime(a, b)
  {
    assert Bezout(a, b, u, v);
  }

  /** The gcd divides both numbers and is an integer combination of them. */
  lemma {:induction false} GcdProperties(a: nat, b: nat) returns (u: int, v: int)
    requires a > 0 || b > 0
    ensures Gcd(a, b) > 0
    ensures a * u + b * v == Gcd(a, b)
    ensures Divides(Gcd(a, b), a) && Divides(Gcd(a, b), b)
    decreases b
  {
    if b == 0 {
      u, v := 1, 0;
      CongFromQuotient(a, 0, a, 1);
      CongFromQuotient(0, 0, a, 0);
    } else {
      var d, r := DivideBy(a, b);
      var x, y := GcdProperties(b, r);
      u, v := y, x - d * y;
      BezoutStep(a, b, d, r, x, y);
      var g := Gcd(b, r);
      DividesCombination(g, b, r, d, 1);
    }
  }

  lemma BezoutStep(a: int, b: int, d: int, r: int, x: int, y: int)
    requires a == b * d + r
    ensures a * y + b * (x - d * y) == b * x + r * y
  {
    calc {
      a * y + b * (x - d * y);
      (b * d + r) * y + b * x - b * (d * y);
      { assert b * (d * y) == (b * d) * y; }
      b * x + r * y;
    }
  }

  lemma DividesQuotient(d: int, a: int) returns (k: int)
    requires Divides(d, a)
    ensures a == k * d
  {
    k := CongQuotient(a, 0, d);
  }

  lemma DividesCombination(g: int, a: int, b: int, x: int, y: int)
    requires Divides(g, a) && Divides(g, b)
    ensures Divides(g, a * x + b * y)
  {
    hide Cong;
    var k := DividesQuotient(g, a);
    var l := DividesQuotient(g, b);
    ProductsOfMultiples(k, l, g, x, y);
    CongFromQuotient(a * x + b * y, 0, g, k * x + l * y);
  }

  lemma ProductsOfMultiples(k: int, l: int, g: int, x: int, y: int)
    ensures (k * g) * x + (l * g) * y == (k * x + l * y) * g
  {
    assert (k * g) * x == (k * x) * g;
    assert (l * g) * y == (l * y) * g;
    CollectThree(k * x, l * y, 0, g);
  }

  lemma DivisorOfOne(g: int)
    requires g > 0 && Divides(g, 1)
    ensures g == 1
  {
    var k := DividesQuotient(g, 1);
    if g > 1 {
      MulAtLeast(k, g);
    }
  }

  /** The library test `gcd(a, b) == 1` decides coprimality. */
  lemma GcdDecidesCoprime(a: nat, b: nat)
    requires a > 0 || b > 0
    ensures Gcd(a, b) == 1 <==> Coprime(a, b)
  {
    var u, v := GcdProperties(a, b);
    if Gcd(a, b) == 1 {
      CoprimeIntro(a, b, u, v);
    }
    if Coprime(a, b) {
      var x, y := CoprimeWitness(a, b);
      DividesCombination(Gcd(a, b), a, b, x, y);
      DivisorOfOne(Gcd(a, b));
    }
  }

  lemma CoprimeSym(a: int, b: int)
    requires Coprime(a, b)
    ensures Coprime(b, a)
  {
    var u, v := CoprimeWitness(a, b);
    CoprimeIntro(b, a, v, u);
  }

  lemma CoprimeOne(a: int)
    ensures Coprime(1, a) && Coprime(a, 1)
  {
    CoprimeIntro(1, a, 1, 0);
    CoprimeIntro(a, 1, 0, 1);
  }

  /** A common divisor above one rules coprimality out. */
  lemma CoprimeNoCommonDivisor(a: int, b: int, d: int)
    requires Coprime(a, b) && d > 0 && Divides(d, a) && Divides(d, b)
    ensures d == 1
  {
    var u, v := CoprimeWitness(a, b);
    DividesCombination(d, a, b, u, v);
    DivisorOfOne(d);
  }

  lemma CoprimeMul(a: int, b: int, n: int)
    requires Coprime(a, n) && Coprime(b, n)
    ensures Coprime(a * b, n)
  {
    var u, v := CoprimeWitness(a, n);
    var x, y := CoprimeWitness(b, n);
    BezoutProduct(a, b, n, u, v, x, y);
    CoprimeIntro(a * b, n, u * x, a * u * y + v);
  }

  lemma BezoutProduct(a: int, b: int, n: int, u: int, v: int, x: int, y: int)
    requires a * u + n * v == 1 && b * x + n * y == 1
    ensures (a * b) * (u * x) + n * (a * u * y + v) == 1
  {
    calc {
      (a * b) * (u * x) + n * (a * u * y + v);
      { MulSwap(a, b, u, x); }
      (a * u) * (b * x) + n * (a * u * y) + n * v;
      { assert n * (a * u * y) == (a * u) * (n * y); }
      (a * u) * (b * x) + (a * u) * (n * y) + n * v;
      (a * u) * (b * x + n * y) + n * v;
      1;
    }
  }

  lemma {:induction false} CoprimePow(a: int, e: nat, n: int)
    requires Coprime(a, n)
    ensures Coprime(Pow(a, e), n) && Coprime(n, Pow(a, e))
    decreases e
  {
    if e == 0 {
      CoprimeOne(n);
    } else {
      CoprimePow(a, e - 1, n);
      CoprimeMul(a, Pow(a, e - 1), n);
    }
    CoprimeSym(Pow(a, e), n);
  }

  lemma CoprimePowRight(a: int, n: int, e: nat)
    requires Coprime(a, n)
    ensures Coprime(a, Pow(n, e))
  {
    CoprimeSym(a, n);
    CoprimePow(n, e, a);
  }

  /** A factor of a number coprime to `n` is coprime to `n`. */
  lemma CoprimeFactor(a: int, b: int, n: int)
    requires Coprime(a * b, n)
    ensures Coprime(a, n) && Coprime(b, n)
  {
    hide Coprime;
    var u, v := CoprimeWitness(a * b, n);
    assert (a * b) * u == a * (b * u) == b * (a * u);
    CoprimeIntro(a, n, b * u, v);
    CoprimeIntro(b, n, a * u, v);
  }

  /** Coprimality to `n^e` is coprimality to `n`. */
  lemma CoprimePowIff(a: int, n: int, e: nat)
    requires e > 0
    ensures Coprime(a, Pow(n, e)) <==> Coprime(a, n)
  {
    if Coprime(a, n) {
      CoprimePowRight(a, n, e);
    }
    if Coprime(a, Pow(n, e)) {
      CoprimeSym(a, Pow(n, e));
      CoprimeFactor(n, Pow(n, e - 1), a);
      CoprimeSym(n, a);
    }
  }

  lemma CoprimeCong(a: int, b: int, n: int)
    requires n > 0 && Cong(a, b, n) && Coprime(a, n)
    ensures Coprime(b, n)
  {
    var k := CongQuotient(a, b, n);
    var u, v := CoprimeWitness(a, n);
    assert (b + k * n) * u == b * u + n * (k * u);
    assert b * u + n * (k * u + v) == 1;
    CoprimeIntro(b, n, u, k * u + v);
  }

  /** A product congruent to one makes both factors units. */
  lemma CoprimeFromInverse(a: int, b: int, n: int)
    requires n > 0 && Cong(a * b, 1, n)
    ensures Coprime(a, n) && Coprime(b, n)
  {
    var k := CongQuotient(a * b, 1, n);
    assert a * b + n * (-k) == 1;
    CoprimeIntro(a, n, b, -k);
    CoprimeIntro(b, n, a, -k);
  }

  /** Every unit modulo `n` has an inverse in `[0, n)`. */
  lemma InverseExists(a: int, n: int) returns (b: nat)
    requires n > 0 && Coprime(a, n)
    ensures b < n && Cong(a * b, 1, n) && Coprime(b, n)
  {
    hide Cong, Coprime;
    var u, v := CoprimeWitness(a, n);
    CongFromQuotient(a * u, 1, n, -v);
    b := u % n;
    CongMod(u, n);
    CongScale(b, u, a, n);
    CongTrans(a * b, a * u, 1, n);
    CoprimeFromInverse(a, b, n);
  }

  /** A unit can be cancelled from a congruence. */
  lemma CongCancel(a: int, x: int, y: int, n: int)
    requires n > 0 && Coprime(a, n) && Cong(a * x, a * y, n)
    ensures Cong(x, y, n)
  {
    var b := InverseExists(a, n);
    CongScale(a * x, a * y, b, n);
    CongUndo(a, b, x, n);
    CongUndo(a, b, y, n);
    CongSym(b * (a * x), x, n);
    CongTrans(x, b * (a * x), b * (a * y), n);
    CongTrans(x, b * (a * y), y, n);
  }

  lemma CongUndo(a: int, b: int, x: int, n: int)
    requires Cong(a * b, 1, n)
    ensures Cong(b * (a * x), x, n)
  {
    CongScale(a * b, 1, x, n);
    assert b * (a * x) == (a * b) * x;
  }

  /** If `m` divides `a*b` and is coprime to `a`, it divides `b`. */
  lemma EuclidLemma(a: int, b: int, m: int)
    requires m > 0 && Coprime(a, m) && Cong(a * b, 0, m)
    ensures Cong(b, 0, m)
  {
    assert a * 0 == 0;
    CongCancel(a, b, 0, m);
  }

  /** Congruences modulo coprime moduli combine. */
  lemma CongCombine(a: int, b: int, m: int, n: int)
    requires m > 0 && n > 0 && Coprime(m, n)
    requires Cong(a, b, m) && Cong(a, b, n)
    ensures m * n > 0 && Cong(a, b, m * n)
  {
    hide Cong, Coprime;
    var k := CongQuotient(a, b, m);
    var l := CongQuotient(a, b, n);
    assert m * k == l * n + 0;
    CongFromQuotient(m * k, 0, n, l);
    EuclidLemma(m, k, n);
    var j := CongQuotient(k, 0, n);
    assert (j * n) * m == j * (m * n);
    CongFromQuotient(a, b, m * n, j);
  }

  // ---------- primes ----------

  ghost predicate IsPrime(p: int) {
    p >= 2 && forall d :: 1 < d < p ==> !Divides(d, p)
  }

  lemma DividesIffMod(p: int, a: int)
    requires p > 0
    ensures Divides(p, a) <==> a % p == 0
  {
    CongIffMod(a, 0, p);
  }

  /** A prime is coprime to everything it does not divide. */
  lemma PrimeCoprime(a: int, p: int)
    requires IsPrime(p) && !Divides(p, a)
    ensures Coprime(a, p)
  {
    var r := a % p;
    DividesIffMod(p, a);
    var u, v := GcdProperties(r, p);
    GcdLe(Gcd(r, p), p);
    GcdLe(Gcd(r, p), r);
    CoprimeIntro(r, p, u, v);
    CongMod(a, p);
    CoprimeCong(r, a, p);
  }

  lemma PrimeCoprimeSmall(k: int, p: int)
    requires IsPrime(p) && 0 < k < p
    ensures Coprime(k, p)
  {
    if Divides(p, k) { GcdLe(p, k); }
    PrimeCoprime(k, p);
  }

  /** Below a prime in absolute value everything but zero is a unit. */
  lemma NonZeroIsUnit(x: int, q: nat)
    requires IsPrime(q) && x != 0 && 0 - q < x < q
    ensures Coprime(x, q)
  {
    if Divides(q, x) {
      var k := DividesQuotient(q, x);
      SmallMultiple(k, q);
    }
    PrimeCoprime(x, q);
  }

  lemma GcdLe(g: int, p: int)
    requires g > 0 && p > 0 && Divides(g, p)
    ensures g <= p
  {
    var k := DividesQuotient(g, p);
    assert k != 0;
    MulAtLeast(k, g);
  }
}
