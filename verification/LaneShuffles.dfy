/** Four-lane vectors and the shuffles that are emulated lane by lane. */
module LaneShuffles {
  datatype Lanes<T> = Lanes(l0: T, l1: T, l2: T, l3: T)
  {
    function At(i: nat): T
      requires i < 4
    {
      if i == 0 then l0 else if i == 1 then l1 else if i == 2 then l2 else l3
    }
  }

  /** Half of a vector. */
  datatype Pair<T> = Pair(p0: T, p1: T)

  function Low<T>(a: Lanes<T>): Pair<T> { Pair(a.l0, a.l1) }

  function High<T>(a: Lanes<T>): Pair<T> { Pair(a.l2, a.l3) }

  function Combine<T>(low: Pair<T>, high: Pair<T>): Lanes<T> { Lanes(low.p0, low.p1, high.p0, high.p1) }

  /** `vrev64`. */
  function Reverse<T>(p: Pair<T>): Pair<T> { Pair(p.p1, p.p0) }

  /** `vdup_lane`. */
  function Duplicate<T>(x: T): Pair<T> { Pair(x, x) }

  /** `vextq(a, a, 3)`: rotate up by one lane. */
  function Rotate<T>(a: Lanes<T>): Lanes<T> { Lanes(a.l3, a.l0, a.l1, a.l2) }

  /** The number `_MM_SHUFFLE(fp3, fp2, fp1, fp0)`. */
  function ShuffleCode(fp3: nat, fp2: nat, fp1: nat, fp0: nat): nat {
    64 * fp3 + 16 * fp2 + 4 * fp1 + fp0
  }

  /** The generic selector: two lanes of each operand, two bits of the code for each. */
  function Select<T>(a: Lanes<T>, b: Lanes<T>, imm: nat): Lanes<T> {
    Lanes(a.At(imm % 4), a.At((imm / 4) % 4), b.At((imm / 16) % 4), b.At((imm / 64) % 4))
  }

  /** `_mm_shuffle_ps`: special cases for seventeen codes, the generic selector for the rest. */
  function ShufflePs<T>(a: Lanes<T>, b: Lanes<T>, imm: nat): Lanes<T> {
    if imm == ShuffleCode(1, 0, 3, 2) then Combine(High(a), Low(b))
    else if imm == ShuffleCode(2, 3, 0, 1) then Combine(Reverse(Low(a)), Reverse(High(b)))
    else if imm == ShuffleCode(0, 3, 2, 1) then Combine(High(Rotate(a)), Low(Rotate(b)))
    else if imm == ShuffleCode(2, 1, 0, 3) then Combine(Low(Rotate(a)), High(Rotate(b)))
    else if imm == ShuffleCode(1, 0, 1, 0) then Combine(Low(a), Low(b))
    else if imm == ShuffleCode(1, 0, 0, 1) then Combine(Reverse(Low(a)), Low(b))
    else if imm == ShuffleCode(0, 1, 0, 1) then Combine(Reverse(Low(a)), Reverse(Low(b)))
    else if imm == ShuffleCode(3, 2, 1, 0) then Combine(Low(a), High(b))
    else if imm == ShuffleCode(0, 0, 1, 1) then Combine(Duplicate(Low(a).p1), Duplicate(Low(b).p0))
    else if imm == ShuffleCode(0, 0, 2, 2) then Combine(Duplicate(High(a).p0), Duplicate(Low(b).p0))
    else if imm == ShuffleCode(2, 2, 0, 0) then Combine(Duplicate(Low(a).p0), Duplicate(High(b).p0))
    else if imm == ShuffleCode(3, 2, 0, 2) then Combine(Duplicate(High(a).p0).(p1 := a.l0), High(b))
    else if imm == ShuffleCode(3, 2, 3, 2) then Combine(High(a), High(b))
    else if imm == ShuffleCode(1, 1, 3, 3) then Combine(Duplicate(High(a).p1), Duplicate(Low(b).p1))
    else if imm == ShuffleCode(2, 0, 1, 0) then Combine(Low(a), Duplicate(Low(b).p0).(p1 := b.l2))
    else if imm == ShuffleCode(2, 0, 0, 1) then Combine(Reverse(Low(a)), Duplicate(Low(b).p0).(p1 := b.l2))
    else if imm == ShuffleCode(2, 0, 3, 2) then Combine(High(a), Duplicate(Low(b).p0).(p1 := b.l2))
    else Select(a, b, imm)
  }

  lemma CodeFields(fp3: nat, fp2: nat, fp1: nat, fp0: nat)
    requires fp3 < 4 && fp2 < 4 && fp1 < 4 && fp0 < 4
    ensures var c := ShuffleCode(fp3, fp2, fp1, fp0);
            c % 4 == fp0 && (c / 4) % 4 == fp1 && (c / 16) % 4 == fp2 && (c / 64) % 4 == fp3
  {
    var c := ShuffleCode(fp3, fp2, fp1, fp0);
    assert c / 4 == 16 * fp3 + 4 * fp2 + fp1;
    assert c / 16 == 4 * fp3 + fp2;
    assert c / 64 == fp3;
  }

  lemma Coded<T>(a: Lanes<T>, b: Lanes<T>, fp3: nat, fp2: nat, fp1: nat, fp0: nat)
    requires fp3 < 4 && fp2 < 4 && fp1 < 4 && fp0 < 4
    ensures Select(a, b, ShuffleCode(fp3, fp2, fp1, fp0)) == Lanes(a.At(fp0), a.At(fp1), b.At(fp2), b.At(fp3))
  {
    CodeFields(fp3, fp2, fp1, fp0);
  }

  /** The special cases change nothing: for every code the shuffle is the generic selector. */
  lemma ShuffleIsSelect<T>(a: Lanes<T>, b: Lanes<T>, imm: nat)
    requires imm < 256
    ensures ShufflePs(a, b, imm) == Select(a, b, imm)
  {
    hide Select;
    Coded(a, b, 1, 0, 3, 2);
    Coded(a, b, 2, 3, 0, 1);
    Coded(a, b, 0, 3, 2, 1);
    Coded(a, b, 2, 1, 0, 3);
    Coded(a, b, 1, 0, 1, 0);
    Coded(a, b, 1, 0, 0, 1);
    Coded(a, b, 0, 1, 0, 1);
    Coded(a, b, 3, 2, 1, 0);
    Coded(a, b, 0, 0, 1, 1);
    Coded(a, b, 0, 0, 2, 2);
    Coded(a, b, 2, 2, 0, 0);
    Coded(a, b, 3, 2, 0, 2);
    Coded(a, b, 3, 2, 3, 2);
    Coded(a, b, 1, 1, 3, 3);
    Coded(a, b, 2, 0, 1, 0);
    Coded(a, b, 2, 0, 0, 1);
    Coded(a, b, 2, 0, 3, 2);
  }

  /** `_mm_shuffle_epi32`, one operand. */
  function ShuffleEpi32<T>(a: Lanes<T>, imm: nat): Lanes<T> {
    Select(a, a, imm)
  }

  /** `_mm_slli_si128(a, 4)`: up by one lane. */
  function ShiftLane<T>(a: Lanes<T>, zero: T): Lanes<T> {
    Lanes(zero, a.l0, a.l1, a.l2)
  }
}
