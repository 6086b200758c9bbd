/** Conjunctions of Damgard-Jurik proofs that ciphertexts encrypt zero: the laws at the leaves, which hold for unit
    samples and unit answers. */
module SigmaAndDJ {
  import opened Congruence
  import opened Coprimality
  import opened DamgardJurikExtraction
  import opened Zero = SigmaDJEncryptedZero
  import And = SigmaAnd

  type Leaf = And.Sigma<CommonInput, int, int, int, int>

  ghost predicate Inverts(d: int, k: int, m: int) {
    Cong(d * k, 1, m)
  }

  ghost predicate Invertible(d: int, m: int) {
    exists k :: Inverts(d, k, m)
  }

  /** `z^N / c^e mod N'`. */
  ghost function SimulatedFirst(n: nat, s: nat, c: int, e: nat, z: int): (a: int)
    requires n > 1 && Coprime(c, n)
  {
    var m := Pow(n, s + 1);
    HasInverse(n, s, c, e);
    var k :| Inverts(PowMod(c, e, m), k, m);
    (PowMod(z, Pow(n, s), m) * k) % m
  }

  lemma HasInverse(n: nat, s: nat, c: int, e: nat)
    requires n > 1 && Coprime(c, n)
    ensures Invertible(PowMod(c, e, Pow(n, s + 1)), Pow(n, s + 1))
  {
    var m, d := Pow(n, s + 1), PowMod(c, e, Pow(n, s + 1));
    DenominatorInvertible(n, s, c, e);
    GcdDecidesCoprime(d, m);
    var k := InverseExists(d, m);
    assert Inverts(d, k, m);
  }

  /** The protocol as a leaf; challenges whose difference is prime to `n` suffice. */
  ghost function AsLeaf(s: nat): Leaf {
    And.Sigma(
      (x: CommonInput) => x.n > 1 && Coprime(x.cipher, x.n),
      (x: CommonInput, r: int) => Opens(x.n, s, x.cipher, 0, r),
      (e: int) => e >= 0,
      (x: CommonInput, sample: int) => Coprime(sample, x.n),
      (x: CommonInput, z: int) => Coprime(z, x.n),
      (x: CommonInput, r: int, sample: int) => if x.n > 0 then FirstMsg(x.n, s, sample) else 0,
      (x: CommonInput, r: int, sample: int, e: int) => if x.n > 0 && e >= 0 then SecondMsg(x.n, sample, r, e) else 0,
      (x: CommonInput, a: int, e: int, z: int) => e >= 0 && Accepts(x.n, s, x.cipher, a, e, z),
      (x: CommonInput, e: int, z: int) =>
        if x.n > 1 && Coprime(x.cipher, x.n) && e >= 0 then SimulatedFirst(x.n, s, x.cipher, e, z) else 0,
      (x: CommonInput, e: int, e': int) => e != e' && Coprime(e - e', x.n))
  }

  /** The leaf is complete, specially sound and simulatable, so every conjunction built from it is. */
  lemma LeafLawful(s: nat)
    ensures And.Lawful(AsLeaf(s))
  {
    hide Coprime, Opens, Accepts, Pow;
    var l := AsLeaf(s);
    forall x, r, sample, e ensures And.CompleteAt(l, x, r, sample, e) {
      if l.wellFormed(x) && l.related(x, r) && e >= 0 && Coprime(sample, x.n) {
        Completeness(x.n, s, x.cipher, r, sample, e);
      }
    }
    forall x, a, e, z, e', z' ensures And.SoundAt(l, x, a, e, z, e', z') {
      if l.wellFormed(x) && l.apart(x, e, e') && l.accepts(x, a, e, z) && l.accepts(x, a, e', z') {
        var r := Extractor(x.n, s, x.cipher, a, e, z, e', z');
        assert l.related(x, r);
      }
    }
    forall x, e, z ensures And.SimulatesAt(l, x, e, z) {
      if l.wellFormed(x) && e >= 0 && Coprime(z, x.n) {
        SimulatedIsAccepted(x.n, s, x.cipher, e, z);
      }
    }
  }

  lemma SimulatedIsAccepted(n: nat, s: nat, c: int, e: nat, z: int)
    requires n > 1 && Coprime(c, n) && Coprime(z, n)
    ensures Accepts(n, s, c, SimulatedFirst(n, s, c, e, z), e, z)
  {
    hide Coprime, Accepts, Pow, PowMod;
    var m := Pow(n, s + 1);
    HasInverse(n, s, c, e);
    var k :| Inverts(PowMod(c, e, m), k, m) && SimulatedFirst(n, s, c, e, z) == (PowMod(z, Pow(n, s), m) * k) % m;
    SimulatedAccepts(n, s, c, e, z, k, SimulatedFirst(n, s, c, e, z));
  }
}
