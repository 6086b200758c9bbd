/** Fermat's little theorem, and Euler's theorem for a product of two primes. */
module FermatEuler {
  import opened Congruence
  import opened Coprimality

  lemma NoElements(s: set<int>)
    ensures (forall x :: x !in s) ==> s == {}
  {
    if forall x :: x !in s { assert s == {}; }
  }

  ghost function Pick(s: set<int>): (x: int)
    requires s != {}
    ensures x in s
  {
    NoElements(s);
    var x: int :| x in s; x
  }

  ghost function Product(s: set<int>): int {
    if s == {} then 1 else Pick(s) * Product(s - {Pick(s)})
  }

  lemma {:induction false} ProductRemove(s: set<int>, x: int)
    requires x in s
    ensures Product(s) == x * Product(s - {x})
    decreases s
  {
    var y := Pick(s);
    if y == x {
    } else {
      ProductRemove(s - {y}, x);
      ProductRemove(s - {x}, y);
      assert s - {y} - {x} == s - {x} - {y};
      MulExchange(x, y, Product(s - {x} - {y}));
    }
  }

  lemma MulExchange(x: int, y: int, r: int)
    ensures y * (x * r) == x * (y * r)
  {
  }

  ghost function NonZeroResidues(p: nat): (s: set<int>)
    ensures forall x :: x in s <==> 1 <= x < p
    ensures |s| == if p == 0 then 0 else p - 1
  {
    if p <= 1 then {} else NonZeroResidues(p - 1) + {p - 1}
  }

  ghost function Residue(a: int, x: int, p: int): int
    requires p > 0
  {
    (a * x) % p
  }

  /** The residues of `a`, `2a`, ..., `ka`. */
  ghost function Multiples(a: int, p: nat, k: nat): set<int>
    requires p > 0
  {
    if k == 0 then {} else Multiples(a, p, k - 1) + {Residue(a, k, p)}
  }

  /** Multiplication by a unit is injective on residues. */
  lemma ResidueDistinct(a: int, x: int, y: int, p: int)
    requires p > 0 && Coprime(a, p)
    requires 0 <= x < p && 0 <= y < p && x != y
    ensures Residue(a, x, p) != Residue(a, y, p)
  {
    if (a * x) % p == (a * y) % p {
      CongIffMod(a * x, a * y, p);
      CongCancel(a, x, y, p);
      CongSmall(x, y, p);
    }
  }

  lemma ResidueNonZero(a: int, x: int, p: nat)
    requires p > 0 && Coprime(a, p) && 0 < x < p
    ensures Residue(a, x, p) in NonZeroResidues(p)
  {
    assert a * 0 == 0;
    ResidueDistinct(a, x, 0, p);
  }

  lemma {:induction false} MultiplesDistinct(a: int, p: nat, k: nat)
    requires Coprime(a, p) && k < p
    ensures |Multiples(a, p, k)| == k && Multiples(a, p, k) <= NonZeroResidues(p)
    ensures forall j :: k < j < p ==> Residue(a, j, p) !in Multiples(a, p, k)
    decreases k
  {
    if k == 0 {
    } else {
      MultiplesDistinct(a, p, k - 1);
      ResidueNonZero(a, k, p);
      assert Multiples(a, p, k) == Multiples(a, p, k - 1) + {Residue(a, k, p)};
      hide Residue, NonZeroResidues, Multiples, Coprime;
      forall j | k < j < p ensures Residue(a, j, p) !in Multiples(a, p, k) {
        ResidueDistinct(a, j, k, p);
      }
    }
  }

  function Factorial(k: nat): (f: int)
    ensures f > 0
  {
    if k == 0 then 1 else k * Factorial(k - 1)
  }

  lemma MultiplesProductStep(a: int, p: nat, k: nat)
    requires Coprime(a, p) && 0 < k < p
    ensures Product(Multiples(a, p, k)) == Residue(a, k, p) * Product(Multiples(a, p, k - 1))
  {
    MultiplesDistinct(a, p, k - 1);
    assert Multiples(a, p, k) - {Residue(a, k, p)} == Multiples(a, p, k - 1);
    ProductRemove(Multiples(a, p, k), Residue(a, k, p));
  }

  lemma ResidueCong(a: int, x: int, p: int)
    requires p > 0
    ensures Cong(Residue(a, x, p), a * x, p)
  {
    CongMod(a * x, p);
  }

  lemma {:induction false} MultiplesProduct(a: int, p: nat, k: nat)
    requires Coprime(a, p) && k < p
    ensures Cong(Product(Multiples(a, p, k)), Pow(a, k) * Factorial(k), p)
    decreases k
  {
    if k == 0 {
      CongRefl(1, p);
    } else {
      MultiplesProduct(a, p, k - 1);
      MultiplesProductStep(a, p, k);
      ResidueCong(a, k, p);
      CongMulSwap(Residue(a, k, p), a, k, Product(Multiples(a, p, k - 1)), Pow(a, k - 1), Factorial(k - 1), p);
    }
  }

  lemma CongMulSwap(y: int, a: int, k: int, r: int, e: int, f: int, p: int)
    requires p > 0 && Cong(y, a * k, p) && Cong(r, e * f, p)
    ensures Cong(y * r, (a * e) * (k * f), p)
  {
    CongMul(y, a * k, r, e * f, p);
    MulSwap(a, k, e, f);
  }

  lemma {:induction false} ResiduesProduct(p: nat)
    requires p > 0
    ensures Product(NonZeroResidues(p)) == Factorial(p - 1)
    decreases p
  {
    if p == 1 {
    } else {
      ResiduesProduct(p - 1);
      assert NonZeroResidues(p) - {p - 1} == NonZeroResidues(p - 1);
      ProductRemove(NonZeroResidues(p), p - 1);
    }
  }

  lemma {:induction false} FactorialCoprime(p: int, k: nat)
    requires IsPrime(p) && k < p
    ensures Coprime(Factorial(k), p)
    decreases k
  {
    if k == 0 {
      CoprimeOne(p);
    } else {
      FactorialCoprime(p, k - 1);
      PrimeCoprimeSmall(k, p);
      CoprimeMul(k, Factorial(k - 1), p);
    }
  }

  lemma SubsetOfSameSize<T>(s: set<T>, t: set<T>)
    requires s <= t && |s| == |t|
    ensures s == t
  {
    assert |t - s| == |t| - |s|;
  }

  /** Fermat: `a^(p-1)` is one modulo a prime that does not divide `a`. */
  lemma Fermat(a: int, p: int)
    requires IsPrime(p) && Coprime(a, p)
    ensures Cong(Pow(a, p - 1), 1, p)
  {
    MultiplesDistinct(a, p, p - 1);
    MultiplesProduct(a, p, p - 1);
    SubsetOfSameSize(Multiples(a, p, p - 1), NonZeroResidues(p));
    ResiduesProduct(p);
    FactorialCoprime(p, p - 1);
    CancelProduct(Pow(a, p - 1), Factorial(p - 1), p);
  }

  lemma CancelProduct(e: int, r: int, p: int)
    requires p > 0 && Coprime(r, p) && Cong(r, e * r, p)
    ensures Cong(e, 1, p)
  {
    CongSym(r, e * r, p);
    assert r * e == e * r && r * 1 == r;
    CongCancel(r, e, 1, p);
  }

  /** If `b^k` is one then so is `b` to any multiple of `k`. */
  lemma PowMultiple(b: int, k: nat, d: nat, m: int)
    requires m > 0 && Cong(Pow(b, k), 1, m)
    ensures k * d >= 0 && Cong(Pow(b, k * d), 1, m)
  {
    PowDropPeriods(b, k, d, 0, m);
  }

  lemma DistinctPrimesCoprime(p: int, q: int)
    requires IsPrime(p) && IsPrime(q) && p != q
    ensures Coprime(p, q)
  {
    if Divides(q, p) {
      GcdLe(q, p);
    }
    PrimeCoprime(p, q);
  }

  /** Euler: any common multiple `t` of `p-1` and `q-1` sends units of `p*q` to one. */
  lemma EulerTwoPrimes(a: int, p: int, q: int, t: nat, i: nat, j: nat)
    requires IsPrime(p) && IsPrime(q) && p != q && Coprime(a, p * q)
    requires t == (p - 1) * i == (q - 1) * j
    ensures p * q > 0 && Cong(Pow(a, t), 1, p * q)
  {
    CoprimeSym(a, p * q);
    CoprimeFactor(p, q, a);
    CoprimeSym(p, a);
    CoprimeSym(q, a);
    Fermat(a, p);
    Fermat(a, q);
    PowMultiple(a, p - 1, i, p);
    PowMultiple(a, q - 1, j, q);
    DistinctPrimesCoprime(p, q);
    CongCombine(Pow(a, t), 1, p, q);
  }
}
