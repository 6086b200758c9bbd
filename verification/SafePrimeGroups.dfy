/** The library's Zp groups: the subgroup of order `q` of the integers modulo a safe prime `p = 2q + 1`. */
module SafePrimeGroups {
  import opened Congruence
  import opened Coprimality
  import opened FermatEuler
  import opened DlogGroups

  /** `validateElement`: positive, not above `p`, and of order dividing `q`. */
  predicate ValidateElement(p: nat, q: nat, x: int)
    requires p > 0
  {
    0 < x && x <= p && PowMod(x, q, p) == 1
  }

  /** The inverse of a member; it is read off the order. */
  function Inverse(p: nat, q: nat, x: int): int
    requires p > 0 && q > 0
  {
    PowMod(x, q - 1, p)
  }

  function MulMod(p: nat, x: int, y: int): int
    requires p > 0
  {
    (x * y) % p
  }

  function SafePrimeGroup(p: nat, q: nat, g: int): DlogGroup<int>
    requires p > 0 && q > 0
  {
    DlogGroup(q, g, 1, (x, y) => MulMod(p, x, y), x => Inverse(p, q, x), x => ValidateElement(p, q, x))
  }

  lemma MemberIffPower(p: nat, q: nat, x: int)
    requires p > 1
    ensures ValidateElement(p, q, x) && q > 0 ==> 1 <= x < p && Cong(Pow(x, q), 1, p)
    ensures 1 <= x < p && Cong(Pow(x, q), 1, p) ==> ValidateElement(p, q, x)
  {
    assert PowMod(x, q, p) == Pow(x, q) % p;
    SmallRemainder(1, p);
    hide Cong, Pow, PowMod;
    CongIffMod(Pow(x, q), 1, p);
    if x == p && q > 0 {
      PrimeIsNoMember(p, q);
    }
  }

  lemma PrimeIsNoMember(p: nat, q: nat)
    requires p > 1 && q > 0
    ensures Pow(p, q) % p == 0
  {
    assert Pow(p, q) == p * Pow(p, q - 1);
    hide Cong, Pow;
    CongFromQuotient(Pow(p, q), 0, p, Pow(p, q - 1));
    CongIffMod(Pow(p, q), 0, p);
    SmallRemainder(0, p);
  }

  ghost predicate SafePrime(p: nat, q: nat) {
    IsPrime(p) && IsPrime(q) && p == 2 * q + 1
  }

  lemma MemberNonZero(p: nat, q: nat, x: int)
    requires p > 1 && q > 0 && 0 <= x < p && Cong(Pow(x, q), 1, p)
    ensures ValidateElement(p, q, x)
  {
    if x == 0 {
      assert Pow(0, q) == 0 * Pow(0, q - 1);
      CongSmall(0, 1, p);
    }
    MemberIffPower(p, q, x);
  }

  lemma MulMember(p: nat, q: nat, x: int, y: int)
    requires p > 1 && q > 0 && ValidateElement(p, q, x) && ValidateElement(p, q, y)
    ensures ValidateElement(p, q, MulMod(p, x, y))
  {
    MemberIffPower(p, q, x);
    MemberIffPower(p, q, y);
    CongMul(Pow(x, q), 1, Pow(y, q), 1, p);
    PowMul(x, y, q);
    CongMod(x * y, p);
    PowCong((x * y) % p, x * y, q, p);
    CongTrans(Pow((x * y) % p, q), Pow(x * y, q), 1, p);
    MemberNonZero(p, q, (x * y) % p);
  }

  lemma PowerMember(p: nat, q: nat, x: int, k: nat)
    requires p > 1 && q > 0 && ValidateElement(p, q, x)
    ensures ValidateElement(p, q, PowMod(x, k, p))
  {
    var y := PowMod(x, k, p);
    MemberIffPower(p, q, x);
    PowModCong(x, k, p);
    PowCong(y, Pow(x, k), q, p);
    PowPow(x, k, q);
    PowPow(x, q, k);
    assert k * q == q * k;
    PowCong(Pow(x, q), 1, k, p);
    OnePow(k);
    CongTrans(Pow(y, q), Pow(Pow(x, q), k), 1, p);
    MemberNonZero(p, q, y);
  }

  /** `getInverse` on a member: the only residue whose product with it is one, and a member. */
  lemma InverseOfMember(p: nat, q: nat, x: int, y: int)
    requires p > 1 && q > 0 && ValidateElement(p, q, x)
    ensures ValidateElement(p, q, Inverse(p, q, x))
    ensures 0 <= y < p ==> (MulMod(p, x, y) == 1 <==> y == Inverse(p, q, x))
  {
    PowerMember(p, q, x, q - 1);
    InverseProduct(p, q, x);
    if 0 <= y < p && MulMod(p, x, y) == 1 {
      InverseUnique(p, x, y, Inverse(p, q, x));
    }
  }

  lemma InverseProduct(p: nat, q: nat, x: int)
    requires p > 1 && q > 0 && ValidateElement(p, q, x)
    ensures MulMod(p, x, Inverse(p, q, x)) == 1
  {
    var i := Inverse(p, q, x);
    MemberIffPower(p, q, x);
    PowModCong(x, q - 1, p);
    ProductIsOne(p, x, i, Pow(x, q - 1));
  }

  lemma ProductIsOne(p: nat, x: int, i: int, y: int)
    requires p > 1 && Cong(i, y, p) && Cong(x * y, 1, p)
    ensures MulMod(p, x, i) == 1
  {
    CongScale(i, y, x, p);
    CongTrans(x * i, x * y, 1, p);
    CongIffMod(x * i, 1, p);
  }

  lemma InverseUnique(p: nat, x: int, y: int, i: int)
    requires p > 1 && 0 <= y < p && 0 <= i < p
    requires MulMod(p, x, i) == 1 && MulMod(p, x, y) == 1
    ensures y == i
  {
    assert (x * i) % p == 1 && (x * y) % p == 1;
    SmallRemainder(1, p);
    hide *;
    CongIffMod(x * i, 1, p);
    CongIffMod(x * y, x * i, p);
    CoprimeFromInverse(x, i, p);
    CongCancel(x, y, i, p);
    CongSmall(y, i, p);
  }

  lemma MulAssociates(p: nat, x: int, y: int, z: int)
    requires p > 0
    ensures MulMod(p, x, MulMod(p, y, z)) == MulMod(p, MulMod(p, x, y), z)
  {
    CongMod(y * z, p);
    CongScale((y * z) % p, y * z, x, p);
    CongMod(x * y, p);
    CongScale((x * y) % p, x * y, z, p);
    MulAssoc(x, y, z);
    CongRefl(x * (y * z), p);
    ReducedEqualIff(x * ((y * z) % p), ((x * y) % p) * z, x * (y * z), (x * y) * z, p);
  }

  lemma MulCommutes(p: nat, x: int, y: int)
    requires p > 0
    ensures MulMod(p, x, y) == MulMod(p, y, x)
  {
    assert x * y == y * x;
  }

  lemma MulOne(p: nat, q: nat, x: int)
    requires p > 1 && q > 0 && ValidateElement(p, q, x)
    ensures MulMod(p, 1, x) == x
  {
    MemberIffPower(p, q, x);
    hide Cong, ValidateElement;
    assert 1 * x == x;
    SmallRemainder(x, p);
  }

  lemma LawsHold(p: nat, q: nat, g: int, x: int, y: int, z: int)
    requires p > 1 && q > 0
    ensures LawsAt(SafePrimeGroup(p, q, g), x, y, z)
  {
    if ValidateElement(p, q, x) && ValidateElement(p, q, y) && ValidateElement(p, q, z) {
      MulMember(p, q, x, y);
      InverseOfMember(p, q, x, Inverse(p, q, x));
      InverseProduct(p, q, x);
      MulCommutes(p, x, y);
      MulAssociates(p, x, y, z);
      MulOne(p, q, x);
    }
  }

  lemma {:induction false} ExpIsPowMod(p: nat, q: nat, g: int, x: int, k: nat)
    requires p > 1 && q > 0
    ensures SafePrimeGroup(p, q, g).ExpNat(x, k) == PowMod(x, k, p)
    decreases k
  {
    if k == 0 {
    } else {
      ExpIsPowMod(p, q, g, x, k - 1);
      hide PowMod, Inverse, ValidateElement;
      PowModStep(p, x, k);
    }
  }

  lemma PowModStep(p: nat, x: int, k: nat)
    requires p > 1 && k > 0
    ensures MulMod(p, x, PowMod(x, k - 1, p)) == PowMod(x, k, p)
  {
    PowModCong(x, k - 1, p);
    assert Pow(x, k) == x * Pow(x, k - 1);
    hide Cong, Pow;
    CongScale(PowMod(x, k - 1, p), Pow(x, k - 1), x, p);
    CongIffMod(x * PowMod(x, k - 1, p), Pow(x, k), p);
  }

  // ---------- the generator reaches every member ----------

  /** The residues in `f` and their negations. */
  ghost function Pairs(p: nat, f: seq<int>): set<int> {
    if f == [] then {} else Pairs(p, f[..|f| - 1]) + {f[|f| - 1], p - f[|f| - 1]}
  }

  /** Nonzero residues, no two equal or opposite. */
  ghost predicate Separate(p: nat, f: seq<int>) {
    && (forall i :: 0 <= i < |f| ==> 1 <= f[i] < p)
    && (forall i, j :: 0 <= i < j < |f| ==> f[i] != f[j] && f[j] != p - f[i])
  }

  lemma {:induction false} PairsMembers(p: nat, f: seq<int>, x: int)
    ensures x in Pairs(p, f) <==> exists j :: 0 <= j < |f| && (x == f[j] || x == p - f[j])
    decreases |f|
  {
    if f == [] {
    } else {
      PairsMembers(p, f[..|f| - 1], x);
      assert x == f[|f| - 1] || x == p - f[|f| - 1] ==> x in Pairs(p, f);
    }
  }

  /** Separate residues and their negations are `2|f|` different nonzero residues. */
  lemma {:induction false} PairsDistinct(p: nat, f: seq<int>)
    requires p % 2 == 1 && Separate(p, f)
    ensures |Pairs(p, f)| == 2 * |f| && Pairs(p, f) <= NonZeroResidues(p)
    decreases |f|
  {
    if f == [] {
    } else {
      var before, a := f[..|f| - 1], f[|f| - 1];
      assert Pairs(p, f) == Pairs(p, before) + {a, p - a};
      PairResidues(p, a);
      NotAmongPairs(p, f);
      hide NonZeroResidues, Pairs;
      PairsDistinct(p, before);
      AddPair(Pairs(p, before), a, p - a);
    }
  }

  lemma NotAmongPairs(p: nat, f: seq<int>)
    requires p % 2 == 1 && Separate(p, f) && f != []
    ensures var before, a := f[..|f| - 1], f[|f| - 1];
            Separate(p, before) && a != p - a && a !in Pairs(p, before) && p - a !in Pairs(p, before)
  {
    hide Pairs;
    var before, a := f[..|f| - 1], f[|f| - 1];
    PairsMembers(p, before, a);
    PairsMembers(p, before, p - a);
  }

  lemma PairResidues(p: nat, a: int)
    requires 1 <= a < p
    ensures {a, p - a} <= NonZeroResidues(p)
  {
  }

  lemma AddPair(s: set<int>, a: int, b: int)
    requires a !in s && b !in s && a != b
    ensures |s + {a, b}| == |s| + 2
  {
    assert s + {a, b} == s + {a} + {b};
  }

  /** With half of the nonzero residues in `f`, every one of them is in `f` or opposite to one in `f`. */
  lemma AllReached(p: nat, f: seq<int>, x: int) returns (j: nat)
    requires p == 2 * |f| + 1 && Separate(p, f) && 1 <= x < p
    ensures j < |f| && (x == f[j] || x == p - f[j])
  {
    PairsDistinct(p, f);
    SubsetOfSameSize(Pairs(p, f), NonZeroResidues(p));
    PairsMembers(p, f, x);
    j :| 0 <= j < |f| && (x == f[j] || x == p - f[j]);
  }

  /** For odd `q` the negation of a member is not a member. */
  lemma NegationNotMember(p: nat, q: nat, x: int)
    requires p > 2 && q % 2 == 1 && ValidateElement(p, q, x)
    ensures !ValidateElement(p, q, p - x)
  {
    if ValidateElement(p, q, p - x) {
      MemberIffPower(p, q, x);
      MemberIffPower(p, q, p - x);
      NegatedPower(p, q, x);
      CongSym(Pow(p - x, q), 1, p);
      CongTrans(1, Pow(p - x, q), -1, p);
      OneNotMinusOne(p);
    }
  }

  lemma OneNotMinusOne(p: nat)
    requires p > 2
    ensures !Cong(1, -1, p)
  {
    if Cong(1, -1, p) {
      var k := CongQuotient(1, -1, p);
      SmallMultiple(k, p);
    }
  }

  lemma NegatedPower(p: nat, q: nat, x: int)
    requires q % 2 == 1 && Cong(Pow(x, q), 1, p)
    ensures Cong(Pow(p - x, q), -1, p)
  {
    CongFromQuotient(p - x, -1 * x, p, 1);
    PowCong(p - x, -1 * x, q, p);
    PowMul(-1, x, q);
    MinusOneOdd(q / 2);
    CongScale(Pow(x, q), 1, -1, p);
    CongTrans(Pow(p - x, q), -1 * Pow(x, q), -1, p);
  }

  lemma PowersDistinct(p: nat, q: nat, g: int, i: nat, j: nat)
    requires p > 1 && IsPrime(q) && ValidateElement(p, q, g) && g != 1
    requires i < j < q
    ensures PowMod(g, i, p) != PowMod(g, j, p)
  {
    if PowMod(g, i, p) == PowMod(g, j, p) {
      MemberIffPower(p, q, g);
      CongIffMod(Pow(g, i), Pow(g, j), p);
      PowAdd(g, i, j - i);
      CoprimeFromPower(p, q, g);
      CoprimePow(g, i, p);
      CongSym(Pow(g, i), Pow(g, j), p);
      CongCancel(Pow(g, i), Pow(g, j - i), 1, p);
      PrimeCoprimeSmall(j - i, q);
      var u := InverseExists(j - i, q);
      PowPow(g, j - i, u);
      PowCong(Pow(g, j - i), 1, u, p);
      OnePow(u);
      PowPeriodic(g, 1, (j - i) * u, q, p) by { CongSym((j - i) * u, 1, q); }
      PowOne(g);
      CongTrans(g, Pow(g, (j - i) * u), 1, p);
      CongSmall(g, 1, p);
    }
  }

  lemma CoprimeFromPower(p: nat, q: nat, g: int)
    requires p > 0 && q > 0 && Cong(Pow(g, q), 1, p)
    ensures Coprime(g, p)
  {
    assert Pow(g, q) == g * Pow(g, q - 1);
    CoprimeFromInverse(g, Pow(g, q - 1), p);
  }

  ghost function Powers(p: nat, q: nat, g: int): seq<int>
    requires p > 0
  {
    seq(q, j requires 0 <= j < q => PowMod(g, j, p))
  }

  lemma PowersApart(p: nat, q: nat, g: int, i: nat, j: nat)
    requires p > 2 && q % 2 == 1 && IsPrime(q) && ValidateElement(p, q, g) && g != 1 && i < j < q
    ensures PowMod(g, i, p) != PowMod(g, j, p) && PowMod(g, j, p) != p - PowMod(g, i, p)
  {
    PowersDistinct(p, q, g, i, j);
    PowerMember(p, q, g, i);
    PowerMember(p, q, g, j);
    NegationNotMember(p, q, PowMod(g, i, p));
  }

  lemma PowerInRange(p: nat, q: nat, g: int, k: nat)
    requires p > 1 && q > 0 && ValidateElement(p, q, g)
    ensures 1 <= PowMod(g, k, p) < p
  {
    PowerMember(p, q, g, k);
    MemberIffPower(p, q, PowMod(g, k, p));
  }

  lemma PowersSeparate(p: nat, q: nat, g: int)
    requires p > 2 && q % 2 == 1 && IsPrime(q) && ValidateElement(p, q, g) && g != 1
    ensures Separate(p, Powers(p, q, g))
  {
    var f := Powers(p, q, g);
    forall i | 0 <= i < q ensures 1 <= f[i] < p { PowerInRange(p, q, g, i); }
    forall i, j | 0 <= i < j < q ensures f[i] != f[j] && f[j] != p - f[i] { PowersApart(p, q, g, i, j); }
  }

  lemma PowersReach(p: nat, q: nat, g: int, x: int)
    requires SafePrime(p, q) && q % 2 == 1
    requires ValidateElement(p, q, g) && g != 1 && ValidateElement(p, q, x)
    ensures exists k: nat :: PowMod(g, k, p) == x
  {
    MemberIffPower(p, q, x);
    PowersSeparate(p, q, g);
    var j := AllReached(p, Powers(p, q, g), x);
    PowerMember(p, q, g, j);
    NegationNotMember(p, q, PowMod(g, j, p));
  }

  /** The only even case is `p = 5`, whose members are 1 and 4. */
  lemma EvenOrder(p: nat, q: nat, x: int)
    requires SafePrime(p, q) && q % 2 == 0 && ValidateElement(p, q, x)
    ensures x == 1 || x == 4
    ensures q == 2 && p == 5
  {
    CongFromQuotient(q, 0, 2, q / 2);
    assert Divides(2, q);
    MemberIffPower(p, q, x);
    CongIffMod(Pow(x, 2), 1, 5);
    assert Pow(x, 2) == x * Pow(x, 1) == x * (x * Pow(x, 0));
  }

  lemma ReachedAll(p: nat, q: nat, g: int, x: int)
    requires SafePrime(p, q) && ValidateElement(p, q, g) && g != 1 && ValidateElement(p, q, x)
    ensures exists k: nat :: PowMod(g, k, p) == x
  {
    if q % 2 == 1 {
      PowersReach(p, q, g, x);
    } else {
      EvenOrder(p, q, x);
      EvenOrder(p, q, g);
      PowOne(g);
      assert PowMod(g, 0, p) == 1;
      assert PowMod(g, 1, p) == 4;
    }
  }

  lemma ReachedByExp(p: nat, q: nat, g: int, x: int)
    requires SafePrime(p, q) && ValidateElement(p, q, g) && g != 1
    ensures Reached(SafePrimeGroup(p, q, g), x)
  {
    if ValidateElement(p, q, x) {
      ReachedAll(p, q, g, x);
      var k: nat :| PowMod(g, k, p) == x;
      ExpIsPowMod(p, q, g, g, k);
    }
  }

  /** A safe-prime group is a group of prime order generated by `g` exactly when `g` passes
      `isGenerator` and is not one; `isGenerator` alone lets one through. */
  lemma SafePrimeGroupValid(p: nat, q: nat, g: int)
    requires SafePrime(p, q)
    ensures ValidGroup(SafePrimeGroup(p, q, g)) <==> ValidateElement(p, q, g) && g != 1
    ensures ValidateElement(p, q, 1)
  {
    OnePow(q);
    if ValidateElement(p, q, g) && g != 1 {
      GroupValid(p, q, g);
    }
  }

  lemma GroupValid(p: nat, q: nat, g: int)
    requires SafePrime(p, q) && ValidateElement(p, q, g) && g != 1
    ensures ValidGroup(SafePrimeGroup(p, q, g))
  {
    var d := SafePrimeGroup(p, q, g);
    GeneratorToOrder(p, q, g);
    forall x, y, z ensures LawsAt(d, x, y, z) { LawsHold(p, q, g, x, y, z); }
    forall x ensures Reached(d, x) { ReachedByExp(p, q, g, x); }
  }

  lemma GeneratorToOrder(p: nat, q: nat, g: int)
    requires p > 1 && q > 0 && ValidateElement(p, q, g)
    ensures SafePrimeGroup(p, q, g).ExpNat(g, q) == 1 && ValidateElement(p, q, 1)
  {
    assert PowMod(g, q, p) == 1;
    hide Pow, PowMod, IsPrime, Inverse, ValidateElement;
    OneIsMember(p, q);
    ExpIsPowMod(p, q, g, g, q);
  }

  lemma OneIsMember(p: nat, q: nat)
    requires p > 1 && q > 0
    ensures ValidateElement(p, q, 1)
  {
    hide Cong, ValidateElement;
    OnePow(q);
    CongRefl(1, p);
    MemberNonZero(p, q, 1);
  }
}
