/** What the soundness check of the Damgard-Jurik protocols is for: under it, a false statement is accepted for at most
    one challenge per first message. */
module SigmaDJChallenges {
  import opened Congruence
  import opened Coprimality
  import opened Challenges
  import opened DamgardJurikExtraction
  import opened DamgardJurikBinding
  import Zero = SigmaDJEncryptedZero
  import EncValue = SigmaDJEncryptedValue
  import Product = SigmaDJProduct

  /** Neither prime is shorter than a third of the modulus, as for primes of equal length. */
  predicate SimilarFactors(n: nat, p: nat, q: nat) {
    Zero.NumberOfBits(p) > Zero.NumberOfBits(n) / 3 && Zero.NumberOfBits(q) > Zero.NumberOfBits(n) / 3
  }

  lemma PrimeExceeds(t: nat, bits: nat, p: nat)
    requires p > 0 && t < bits && Zero.NumberOfBits(p) > bits
    ensures Pow(2, t) < p
  {
    Zero.BitsBound(p);
    var b := Zero.NumberOfBits(p);
    Zero.PowTwoMonotone(t + 1, b - 1);
    assert Pow(2, t + 1) == 2 * Pow(2, t);
  }

  /** Different challenges of `t/8` bytes differ by a unit. */
  lemma ChallengesApart(n: nat, p: nat, q: nat, t: nat, b: seq<Byte>, b': seq<Byte>)
    requires IsPrime(p) && IsPrime(q) && n == p * q && SimilarFactors(n, p, q) && Zero.SoundnessValid(t, n)
    requires |b| == |b'| == t / 8 && b != [] && b != b'
    ensures DecodeBigInteger(b) != DecodeBigInteger(b') && Coprime(DecodeBigInteger(b) - DecodeBigInteger(b'), n)
  {
    hide Pow, DecodeBigInteger, Coprime, IsPrime;
    var x := DecodeBigInteger(b) - DecodeBigInteger(b');
    DecodeInjective(b, b');
    ByteChallenges(t / 8, t);
    PrimesPositive(p, q);
    PrimeExceeds(t, Zero.NumberOfBits(n) / 3, p);
    PrimeExceeds(t, Zero.NumberOfBits(n) / 3, q);
    NonZeroIsUnit(x, p);
    NonZeroIsUnit(x, q);
    CoprimeSym(x, p);
    CoprimeSym(x, q);
    CoprimeMul(p, q, x);
    CoprimeSym(n, x);
  }

  lemma PrimesPositive(p: nat, q: nat)
    requires IsPrime(p) && IsPrime(q)
    ensures p > 0 && q > 0
  {
  }

  /** Under the check a ciphertext that is no encryption of zero is accepted for at most one challenge. */
  lemma ZeroAtMostOnce(n: nat, p: nat, q: nat, t: nat, s: nat, c: int, a: int,
                       b: seq<Byte>, z: int, b': seq<Byte>, z': int)
    requires IsPrime(p) && IsPrime(q) && n == p * q && n > 0 && SimilarFactors(n, p, q) && Zero.SoundnessValid(t, n)
    requires |b| == |b'| == t / 8 && b != [] && DecodeBigInteger(b) >= 0 && DecodeBigInteger(b') >= 0
    requires Zero.Accepts(n, s, c, a, DecodeBigInteger(b), z) && Zero.Accepts(n, s, c, a, DecodeBigInteger(b'), z')
    ensures b == b' || exists r :: Opens(n, s, c, 0, r)
  {
    if b != b' {
      ChallengesApart(n, p, q, t, b, b');
      var r := Zero.Extractor(n, s, c, a, DecodeBigInteger(b), z, DecodeBigInteger(b'), z');
    }
  }

  /** And one that is no encryption of `x`. */
  lemma ValueAtMostOnce(n: nat, p: nat, q: nat, t: nat, s: nat, c: nat, x: nat, a: int,
                        b: seq<Byte>, z: int, b': seq<Byte>, z': int)
    requires IsPrime(p) && IsPrime(q) && n == p * q && n > 0 && SimilarFactors(n, p, q) && Zero.SoundnessValid(t, n)
    requires |b| == |b'| == t / 8 && b != [] && DecodeBigInteger(b) >= 0 && DecodeBigInteger(b') >= 0
    requires Zero.Accepts(n, s, EncValue.Converted(n, s, c, x), a, DecodeBigInteger(b), z)
    requires Zero.Accepts(n, s, EncValue.Converted(n, s, c, x), a, DecodeBigInteger(b'), z')
    ensures b == b' || exists r :: Opens(n, s, c, x, r)
  {
    if b != b' {
      ChallengesApart(n, p, q, t, b, b');
      var r := EncValue.Extractor(n, s, c, x, a, DecodeBigInteger(b), z, DecodeBigInteger(b'), z');
    }
  }

  /** And three encryptions whose third plaintext is not the product of the others. */
  lemma ProductAtMostOnce(p: nat, q: nat, t: nat, s: nat, c: Product.CommonInput, a: Product.FirstMsg,
                          b: seq<Byte>, z: Product.SecondMsg, b': seq<Byte>, z': Product.SecondMsg,
                          x1: nat, r1: int, x2: nat, r2: int, x3: nat, r3: int)
    requires RsaKey(c.n, p, q) && SimilarFactors(c.n, p, q) && Zero.SoundnessValid(t, c.n)
    requires |b| == |b'| == t / 8 && b != [] && DecodeBigInteger(b) >= 0 && DecodeBigInteger(b') >= 0
    requires Product.Documented(s, c, a, DecodeBigInteger(b), z)
    requires Product.Documented(s, c, a, DecodeBigInteger(b'), z')
    requires Opens(c.n, s, c.c1, x1, r1) && Opens(c.n, s, c.c2, x2, r2) && Opens(c.n, s, c.c3, x3, r3)
    ensures b == b' || Cong(x3, x1 * x2, Pow(c.n, s))
  {
    if b != b' {
      var e, e' := DecodeBigInteger(b), DecodeBigInteger(b');
      ChallengesApart(c.n, p, q, t, b, b');
      hide *;
      if e > e' {
        ProductSoundness(s, c, p, q, a, e, z, e', z', x1, r1, x2, r2, x3, r3);
      } else {
        Zero.CoprimeNegate(e - e', c.n);
        ProductSoundness(s, c, p, q, a, e', z', e, z, x1, r1, x2, r2, x3, r3);
      }
    }
  }
}
