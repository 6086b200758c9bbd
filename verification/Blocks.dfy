/** 128-bit blocks, lowest bit first, with the operations the garbled circuits use. */
module Blocks {
  import opened Congruence

  type Block = b: seq<bool> | |b| == 128 witness seq(128, _ => false)

  function Zero(): Block {
    seq(128, _ => false)
  }

  function Xor(a: Block, b: Block): Block {
    seq(128, i requires 0 <= i < 128 => a[i] != b[i])
  }

  /** `_mm_slli_epi64(a, 1)`: each 64-bit lane on its own. */
  function ShiftLeft(a: Block): Block {
    seq(128, i requires 0 <= i < 128 => if i % 64 == 0 then false else a[i - 1])
  }

  /** `_mm_srli_epi64(a, 1)`. */
  function ShiftRight(a: Block): Block {
    seq(128, i requires 0 <= i < 128 => if i % 64 == 63 then false else a[i + 1])
  }

  /** The i-th binary digit, counted from the lowest. */
  predicate BinaryDigit(n: nat, i: nat) {
    if i == 0 then n % 2 == 1 else BinaryDigit(n / 2, i - 1)
  }

  lemma {:induction false} DigitIsBit(n: nat, i: nat)
    ensures BinaryDigit(n, i) <==> (n / Pow(2, i)) % 2 == 1
    decreases i
  {
    if i == 0 {
      PowUnfolds(2, 0);
    } else {
      hide Pow;
      DigitIsBit(n / 2, i - 1);
      PowUnfolds(2, i - 1);
      HalvedQuotient(n / 2, n % 2, Pow(2, i - 1));
    }
  }

  /** `_mm_set_epi32(0, 0, 0, n)`. */
  function Tweak(n: nat): Block {
    seq(128, i requires 0 <= i < 128 => i < 32 && BinaryDigit(n, i))
  }

  /** The lowest bit of the first byte. */
  predicate SignalBit(a: Block) {
    a[0]
  }

  /** `|= 1` on the first byte. */
  function SetSignal(a: Block): (r: Block)
    ensures SignalBit(r) && r[1..] == a[1..]
  {
    a[0 := true]
  }

  /** `&= 0` on the first byte. */
  function ClearFirstByte(a: Block): (r: Block)
    ensures !SignalBit(r) && r[8..] == a[8..]
  {
    seq(8, _ => false) + a[8..]
  }

  lemma XorCancels(a: Block, b: Block)
    ensures Xor(Xor(a, b), b) == a && Xor(b, Xor(b, a)) == a && Xor(a, a) == Zero() && Xor(a, Zero()) == a
  {
  }
}
