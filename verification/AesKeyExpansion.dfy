/** The AES key expansions by vector shuffles, against the word recurrence of section 5.2 of FIPS 197. */
module AesKeyExpansion {
  import opened LaneShuffles

  datatype Word = Word(b0: bv8, b1: bv8, b2: bv8, b3: bv8)

  const ZERO_WORD := Word(0, 0, 0, 0)

  /** Addition in the field of 256 elements. */
  function Plus(a: bv8, b: bv8): bv8 {
    a ^ b
  }

  function Xor(a: Word, b: Word): Word {
    Word(Plus(a.b0, b.b0), Plus(a.b1, b.b1), Plus(a.b2, b.b2), Plus(a.b3, b.b3))
  }

  function RotWord(w: Word): Word {
    Word(w.b1, w.b2, w.b3, w.b0)
  }

  function SubWord(sbox: bv8 -> bv8, w: Word): Word {
    Word(sbox(w.b0), sbox(w.b1), sbox(w.b2), sbox(w.b3))
  }

  function RconWord(rc: bv8): Word {
    Word(rc, 0, 0, 0)
  }

  /** Doubling in the field of 256 elements. */
  function XTime(b: bv8): bv8 {
    if b & 0x80 == 0 then b << 1 else (b << 1) ^ 0x1b
  }

  /** The round constant `x^(i-1)`. */
  function Rcon(i: nat): bv8 {
    if i <= 1 then 1 else XTime(Rcon(i - 1))
  }

  // ---------- the recurrence ----------

  /** The word that is mixed into word i, from the word before it. */
  function Temp(sbox: bv8 -> bv8, nk: nat, i: nat, previous: Word): Word
    requires nk > 0
  {
    if i % nk == 0 then Xor(SubWord(sbox, RotWord(previous)), RconWord(Rcon(i / nk)))
    else if nk > 6 && i % nk == 4 then SubWord(sbox, previous)
    else previous
  }

  /** The i-th word of the schedule of a key of nk words. */
  function W(sbox: bv8 -> bv8, nk: nat, key: seq<Word>, i: nat): Word
    requires nk > 0 && |key| == nk
  {
    if i < nk then key[i] else Xor(W(sbox, nk, key, i - nk), Temp(sbox, nk, i, W(sbox, nk, key, i - 1)))
  }

  /** The lanes are the words from i on. */
  ghost predicate Holds(sbox: bv8 -> bv8, nk: nat, key: seq<Word>, i: nat, x: Lanes<Word>)
    requires nk > 0 && |key| == nk
  {
    && x.l0 == W(sbox, nk, key, i) && x.l1 == W(sbox, nk, key, i + 1)
    && x.l2 == W(sbox, nk, key, i + 2) && x.l3 == W(sbox, nk, key, i + 3)
  }

  // ---------- the vector steps ----------

  function XorLanes(a: Lanes<Word>, b: Lanes<Word>): Lanes<Word> {
    Lanes(Xor(a.l0, b.l0), Xor(a.l1, b.l1), Xor(a.l2, b.l2), Xor(a.l3, b.l3))
  }

  /** `_mm_aeskeygenassist_si128`. */
  function KeyGenAssist(sbox: bv8 -> bv8, x: Lanes<Word>, rc: bv8): Lanes<Word> {
    Lanes(SubWord(sbox, x.l1), Xor(RotWord(SubWord(sbox, x.l1)), RconWord(rc)),
          SubWord(sbox, x.l3), Xor(RotWord(SubWord(sbox, x.l3)), RconWord(rc)))
  }

  /** The instruction, byte by byte: the words of lanes 1 and 3 substituted, in place and rotated with the constant. */
  lemma AssistBytes(sbox: bv8 -> bv8, x: Lanes<Word>, rc: bv8)
    ensures var r, p, q := KeyGenAssist(sbox, x, rc), x.l1, x.l3;
            && r.l0 == Word(sbox(p.b0), sbox(p.b1), sbox(p.b2), sbox(p.b3))
            && r.l1 == Word(Plus(sbox(p.b1), rc), sbox(p.b2), sbox(p.b3), sbox(p.b0))
            && r.l2 == Word(sbox(q.b0), sbox(q.b1), sbox(q.b2), sbox(q.b3))
            && r.l3 == Word(Plus(sbox(q.b1), rc), sbox(q.b2), sbox(q.b3), sbox(q.b0))
  {
    hide Plus;
    RotatedSubstitute(sbox, x.l1, rc);
    RotatedSubstitute(sbox, x.l3, rc);
  }

  lemma RotatedSubstitute(sbox: bv8 -> bv8, w: Word, rc: bv8)
    ensures Xor(RotWord(SubWord(sbox, w)), RconWord(rc)) ==
            Word(Plus(sbox(w.b1), rc), sbox(w.b2), sbox(w.b3), sbox(w.b0))
  {
    hide Plus;
    ByteZero(sbox(w.b2));
    ByteZero(sbox(w.b3));
    ByteZero(sbox(w.b0));
  }

  /** EXPAND_ASSIST: v2 from v4, then v1 and v3 in four steps. */
  method ExpandAssist(sbox: bv8 -> bv8, v1: Lanes<Word>, v3: Lanes<Word>, v4: Lanes<Word>, shuff: nat, rc: bv8)
      returns (r1: Lanes<Word>, r3: Lanes<Word>)
    requires shuff < 256 && v3.l0 == ZERO_WORD
    ensures r3.l0 == ZERO_WORD
    ensures r1 == Chain(v1, ShuffleEpi32(KeyGenAssist(sbox, v4, rc), shuff))
  {
    hide Xor, KeyGenAssist;
    var v2 := KeyGenAssist(sbox, v4, rc);
    ShuffleIsSelect(v3, v1, 16);
    CodeFields(0, 1, 0, 0);
    r3 := ShufflePs(v3, v1, 16);
    r1 := XorLanes(v1, r3);
    ShuffleIsSelect(r3, r1, 140);
    CodeFields(2, 0, 3, 0);
    r3 := ShufflePs(r3, r1, 140);
    r1 := XorLanes(r1, r3);
    v2 := ShuffleEpi32(v2, shuff);
    r1 := XorLanes(r1, v2);
    XorZero(v1.l0);
    XorZero(v1.l1);
  }

  /** Each lane is xored with all lanes below it, and with the mixed word. */
  function Chain(x: Lanes<Word>, f: Lanes<Word>): Lanes<Word> {
    Lanes(Xor(x.l0, f.l0), Xor(Xor(x.l1, x.l0), f.l1), Xor(Xor(Xor(x.l2, x.l1), x.l0), f.l2),
          Xor(Xor(Xor(x.l3, x.l0), Xor(x.l2, x.l1)), f.l3))
  }

  lemma ByteZero(b: bv8)
    ensures Plus(b, 0) == b
  {
  }

  lemma XorZero(a: Word)
    ensures Xor(a, ZERO_WORD) == a
  {
    hide Plus;
    ByteZero(a.b0);
    ByteZero(a.b1);
    ByteZero(a.b2);
    ByteZero(a.b3);
  }

  // ---------- from chains to the recurrence ----------

  lemma ByteXor(a: bv8, b: bv8, c: bv8)
    ensures Plus(Plus(b, a), c) == Plus(b, Plus(a, c)) && Plus(a, b) == Plus(b, a)
  {
  }

  lemma XorLaws(a: Word, b: Word, c: Word)
    ensures Xor(Xor(b, a), c) == Xor(b, Xor(a, c)) && Xor(a, b) == Xor(b, a)
  {
    hide Plus;
    ByteXor(a.b0, b.b0, c.b0);
    ByteXor(a.b1, b.b1, c.b1);
    ByteXor(a.b2, b.b2, c.b2);
    ByteXor(a.b3, b.b3, c.b3);
  }

  function ZeroLanes(): (r: Lanes<Word>)
    ensures r.l0 == ZERO_WORD
  {
    Splat(ZERO_WORD)
  }

  function Splat(f: Word): Lanes<Word> {
    Lanes(f, f, f, f)
  }

  /** The lanes of a chain are each the xor of the old lane with the new lane before it. */
  lemma ChainLanes(x: Lanes<Word>, f: Word)
    ensures var y := Chain(x, Splat(f));
            y.l0 == Xor(x.l0, f) && y.l1 == Xor(x.l1, y.l0) && y.l2 == Xor(x.l2, y.l1) && y.l3 == Xor(x.l3, y.l2)
  {
    hide Xor;
    var a, b, c, d := x.l0, x.l1, x.l2, x.l3;
    var af := Xor(a, f);
    XorLaws(a, b, f);
    XorLaws(a, Xor(c, b), f);
    XorLaws(b, c, af);
    ReorderTop(a, Xor(c, b), d, f);
  }

  /** The highest lane collects the others in another order. */
  lemma ReorderTop(a: Word, cb: Word, d: Word, f: Word)
    ensures Xor(Xor(Xor(d, a), cb), f) == Xor(d, Xor(cb, Xor(a, f)))
  {
    hide Xor;
    XorLaws(a, d, cb);
    XorLaws(a, cb, a);
    XorLaws(Xor(cb, a), d, f);
    XorLaws(a, cb, f);
  }

  /** Word i is only the xor of two earlier words. */
  predicate Quiet(nk: nat, i: nat)
    requires nk > 0
  {
    i % nk != 0 && !(nk > 6 && i % nk == 4)
  }

  lemma NextWord(sbox: bv8 -> bv8, nk: nat, key: seq<Word>, i: nat)
    requires nk > 0 && |key| == nk && i >= nk && Quiet(nk, i)
    ensures W(sbox, nk, key, i) == Xor(W(sbox, nk, key, i - nk), W(sbox, nk, key, i - 1))
  {
  }

  /** Four words of the schedule from the four words nk positions before. */
  lemma NextFour(sbox: bv8 -> bv8, nk: nat, key: seq<Word>, i: nat, x: Lanes<Word>, f: Word)
    requires nk > 0 && |key| == nk && i >= nk && Holds(sbox, nk, key, i - nk, x)
    requires f == Temp(sbox, nk, i, W(sbox, nk, key, i - 1))
    requires Quiet(nk, i + 1) && Quiet(nk, i + 2) && Quiet(nk, i + 3)
    ensures Holds(sbox, nk, key, i, Chain(x, Splat(f)))
  {
    hide Chain, Xor, Temp;
    ChainLanes(x, f);
    NextWord(sbox, nk, key, i + 1);
    NextWord(sbox, nk, key, i + 2);
    NextWord(sbox, nk, key, i + 3);
  }

  /** A mixed word at the start of a key length: the third or the first lane of the last words, with the constant. */
  lemma MixedStart(sbox: bv8 -> bv8, nk: nat, i: nat, previous: Word, v4: Lanes<Word>, rc: bv8, shuff: nat)
    requires nk > 0 && i % nk == 0 && rc == Rcon(i / nk)
    requires (shuff == 255 && previous == v4.l3) || (shuff == 85 && previous == v4.l1)
    ensures ShuffleEpi32(KeyGenAssist(sbox, v4, rc), shuff) == Splat(Temp(sbox, nk, i, previous))
  {
    CodeFields(3, 3, 3, 3);
    CodeFields(1, 1, 1, 1);
  }

  /** The extra substitution in the middle of a 256-bit key length: the second lane, without constant. */
  lemma MixedMiddle(sbox: bv8 -> bv8, nk: nat, i: nat, v4: Lanes<Word>, rc: bv8)
    requires nk > 6 && i % nk == 4
    ensures ShuffleEpi32(KeyGenAssist(sbox, v4, rc), 170) == Splat(Temp(sbox, nk, i, v4.l3))
  {
    CodeFields(2, 2, 2, 2);
  }

  lemma RconValues()
    ensures Rcon(1) == 1 && Rcon(2) == 2 && Rcon(3) == 4 && Rcon(4) == 8 && Rcon(5) == 16
    ensures Rcon(6) == 32 && Rcon(7) == 64 && Rcon(8) == 128 && Rcon(9) == 27 && Rcon(10) == 54
  {
    assert Rcon(2) == XTime(Rcon(1));
    assert Rcon(3) == XTime(Rcon(2));
    assert Rcon(4) == XTime(Rcon(3));
    assert Rcon(5) == XTime(Rcon(4));
    assert Rcon(6) == XTime(Rcon(5));
    assert Rcon(7) == XTime(Rcon(6));
    assert Rcon(8) == XTime(Rcon(7));
    assert Rcon(9) == XTime(Rcon(8));
    assert Rcon(10) == XTime(Rcon(9));
  }

  /** The constants written in the code. */
  function RoundConstant(r: nat): bv8
    requires r < 10
  {
    if r == 8 then 27 else if r == 9 then 54
    else if r == 0 then 1 else if r == 1 then 2 else if r == 2 then 4 else if r == 3 then 8
    else if r == 4 then 16 else if r == 5 then 32 else if r == 6 then 64 else 128
  }

  lemma RconIs(r: nat)
    requires r < 10
    ensures RoundConstant(r) == Rcon(r + 1)
  {
    RconValues();
    assert r == 0 || r == 1 || r == 2 || r == 3 || r == 4 || r == 5 || r == 6 || r == 7 || r == 8 || r == 9;
  }

  // ---------- 128-bit keys ----------

  method Step128(sbox: bv8 -> bv8, ghost key: seq<Word>, ghost r: nat, x: Lanes<Word>, v3: Lanes<Word>, rc: bv8)
      returns (y: Lanes<Word>, r3: Lanes<Word>)
    requires |key| == 4 && RoundKey(sbox, 4, key, r, x) && v3.l0 == ZERO_WORD && rc == Rcon(r + 1)
    ensures r3.l0 == ZERO_WORD && RoundKey(sbox, 4, key, r + 1, y)
  {
    hide Chain, KeyGenAssist, W;
    y, r3 := ExpandAssist(sbox, x, v3, x, 255, rc);
    ghost var i := 4 * (r + 1);
    assert i % 4 == 0 && i / 4 == r + 1 && i - 4 == 4 * r;
    MixedStart(sbox, 4, i, x.l3, x, rc, 255);
    NextFour(sbox, 4, key, i, x, Temp(sbox, 4, i, x.l3));
  }

  /** The lanes are the round key r. */
  ghost predicate RoundKey(sbox: bv8 -> bv8, nk: nat, key: seq<Word>, r: nat, x: Lanes<Word>)
    requires nk > 0 && |key| == nk
  {
    Holds(sbox, nk, key, 4 * r, x)
  }

  lemma KeyWord(sbox: bv8 -> bv8, nk: nat, key: seq<Word>, i: nat)
    requires nk > 0 && |key| == nk && i < nk
    ensures W(sbox, nk, key, i) == key[i]
  {
  }

  lemma FirstWords(sbox: bv8 -> bv8, nk: nat, key: seq<Word>, i: nat)
    requires nk > 0 && |key| == nk && i + 3 < nk
    ensures Holds(sbox, nk, key, i, Lanes(key[i], key[i + 1], key[i + 2], key[i + 3]))
  {
    hide W;
    KeyWord(sbox, nk, key, i);
    KeyWord(sbox, nk, key, i + 1);
    KeyWord(sbox, nk, key, i + 2);
    KeyWord(sbox, nk, key, i + 3);
  }

  /** The round keys hold the schedule from its first word on. */
  ghost predicate Scheduled(sbox: bv8 -> bv8, nk: nat, key: seq<Word>, rdKey: seq<Lanes<Word>>, n: nat)
    requires nk > 0 && |key| == nk && n <= |rdKey|
  {
    forall r: nat :: r < n ==> RoundKey(sbox, nk, key, r, rdKey[r])
  }

  // ---------- byte by byte ----------

  /** Section 5.2 of FIPS 197 for one word `w`, from the word `back` that is nk positions before and the word `last`
      just before, one byte at a time. */
  predicate ByteRule(sbox: bv8 -> bv8, nk: nat, i: nat, back: Word, last: Word, w: Word)
    requires nk > 0
  {
    if i % nk == 0 then
      && w.b0 == Plus(Plus(back.b0, sbox(last.b1)), Rcon(i / nk)) && w.b1 == Plus(back.b1, sbox(last.b2))
      && w.b2 == Plus(back.b2, sbox(last.b3)) && w.b3 == Plus(back.b3, sbox(last.b0))
    else if nk > 6 && i % nk == 4 then
      && w.b0 == Plus(back.b0, sbox(last.b0)) && w.b1 == Plus(back.b1, sbox(last.b1))
      && w.b2 == Plus(back.b2, sbox(last.b2)) && w.b3 == Plus(back.b3, sbox(last.b3))
    else
      && w.b0 == Plus(back.b0, last.b0) && w.b1 == Plus(back.b1, last.b1)
      && w.b2 == Plus(back.b2, last.b2) && w.b3 == Plus(back.b3, last.b3)
  }

  /** Word i of an array of round keys. */
  function WordAt(rdKey: seq<Lanes<Word>>, i: nat): Word
    requires i < 4 * |rdKey|
  {
    Lane(rdKey[i / 4], i % 4)
  }

  function Lane(x: Lanes<Word>, k: nat): Word
    requires k < 4
  {
    if k == 0 then x.l0 else if k == 1 then x.l1 else if k == 2 then x.l2 else x.l3
  }

  ghost predicate FollowsAt(sbox: bv8 -> bv8, nk: nat, key: seq<Word>, rdKey: seq<Lanes<Word>>, i: nat)
    requires nk > 0 && |key| == nk && i < 4 * |rdKey|
  {
    if i < nk then WordAt(rdKey, i) == key[i]
    else ByteRule(sbox, nk, i, WordAt(rdKey, i - nk), WordAt(rdKey, i - 1), WordAt(rdKey, i))
  }

  /** The first n round keys start with the key, and every later byte follows the rule. */
  ghost predicate FollowsBytes(sbox: bv8 -> bv8, nk: nat, key: seq<Word>, rdKey: seq<Lanes<Word>>, n: nat)
    requires nk > 0 && |key| == nk && n <= |rdKey|
  {
    forall i: nat :: i < 4 * n ==> FollowsAt(sbox, nk, key, rdKey, i)
  }

  lemma WordRule(sbox: bv8 -> bv8, nk: nat, key: seq<Word>, i: nat)
    requires nk > 0 && |key| == nk && i >= nk
    ensures ByteRule(sbox, nk, i, W(sbox, nk, key, i - nk), W(sbox, nk, key, i - 1), W(sbox, nk, key, i))
  {
    hide *;
    var back, last := W(sbox, nk, key, i - nk), W(sbox, nk, key, i - 1);
    WordUnfolds(sbox, nk, key, i);
    TempIs(sbox, nk, i, last);
    if i % nk == 0 {
      RotatedBytes(sbox, back, last, Rcon(i / nk));
      RuleAtStart(sbox, nk, i, back, last, W(sbox, nk, key, i));
    } else if nk > 6 && i % nk == 4 {
      SubstitutedBytes(sbox, back, last);
      RuleInMiddle(sbox, nk, i, back, last, W(sbox, nk, key, i));
    } else {
      PlainBytes(back, last);
      RuleElsewhere(sbox, nk, i, back, last, W(sbox, nk, key, i));
    }
  }

  lemma TempIs(sbox: bv8 -> bv8, nk: nat, i: nat, last: Word)
    requires nk > 0
    ensures i % nk == 0 ==> Temp(sbox, nk, i, last) == Xor(SubWord(sbox, RotWord(last)), RconWord(Rcon(i / nk)))
    ensures nk > 6 && i % nk == 4 ==> Temp(sbox, nk, i, last) == SubWord(sbox, last)
    ensures i % nk != 0 && !(nk > 6 && i % nk == 4) ==> Temp(sbox, nk, i, last) == last
  {
    hide Xor, SubWord, RotWord, RconWord, Rcon;
  }

  lemma RuleAtStart(sbox: bv8 -> bv8, nk: nat, i: nat, back: Word, last: Word, w: Word)
    requires nk > 0 && i % nk == 0
    requires w == Word(Plus(Plus(back.b0, sbox(last.b1)), Rcon(i / nk)), Plus(back.b1, sbox(last.b2)),
                       Plus(back.b2, sbox(last.b3)), Plus(back.b3, sbox(last.b0)))
    ensures ByteRule(sbox, nk, i, back, last, w)
  {
    hide Rcon, Plus;
  }

  lemma RuleInMiddle(sbox: bv8 -> bv8, nk: nat, i: nat, back: Word, last: Word, w: Word)
    requires nk > 6 && i % nk == 4
    requires w == Word(Plus(back.b0, sbox(last.b0)), Plus(back.b1, sbox(last.b1)), Plus(back.b2, sbox(last.b2)),
                       Plus(back.b3, sbox(last.b3)))
    ensures ByteRule(sbox, nk, i, back, last, w)
  {
    hide Rcon, Plus;
  }

  lemma RuleElsewhere(sbox: bv8 -> bv8, nk: nat, i: nat, back: Word, last: Word, w: Word)
    requires nk > 0 && i % nk != 0 && !(nk > 6 && i % nk == 4)
    requires w == Word(Plus(back.b0, last.b0), Plus(back.b1, last.b1), Plus(back.b2, last.b2), Plus(back.b3, last.b3))
    ensures ByteRule(sbox, nk, i, back, last, w)
  {
    hide Rcon, Plus;
  }

  lemma SubstitutedBytes(sbox: bv8 -> bv8, back: Word, last: Word)
    ensures Xor(back, SubWord(sbox, last)) ==
            Word(Plus(back.b0, sbox(last.b0)), Plus(back.b1, sbox(last.b1)), Plus(back.b2, sbox(last.b2)),
                 Plus(back.b3, sbox(last.b3)))
  {
    hide Plus;
  }

  lemma PlainBytes(back: Word, last: Word)
    ensures Xor(back, last) ==
            Word(Plus(back.b0, last.b0), Plus(back.b1, last.b1), Plus(back.b2, last.b2), Plus(back.b3, last.b3))
  {
    hide Plus;
  }

  lemma WordUnfolds(sbox: bv8 -> bv8, nk: nat, key: seq<Word>, i: nat)
    requires nk > 0 && |key| == nk && i >= nk
    ensures W(sbox, nk, key, i) == Xor(W(sbox, nk, key, i - nk), Temp(sbox, nk, i, W(sbox, nk, key, i - 1)))
  {
    hide Xor, Temp;
  }

  lemma RotatedBytes(sbox: bv8 -> bv8, back: Word, last: Word, rc: bv8)
    ensures Xor(back, Xor(SubWord(sbox, RotWord(last)), RconWord(rc))) ==
            Word(Plus(Plus(back.b0, sbox(last.b1)), rc), Plus(back.b1, sbox(last.b2)), Plus(back.b2, sbox(last.b3)),
                 Plus(back.b3, sbox(last.b0)))
  {
    hide Plus;
    ByteXor(sbox(last.b1), back.b0, rc);
    ByteZero(sbox(last.b2));
    ByteZero(sbox(last.b3));
    ByteZero(sbox(last.b0));
  }

  lemma WordHeld(sbox: bv8 -> bv8, nk: nat, key: seq<Word>, rdKey: seq<Lanes<Word>>, n: nat, i: nat)
    requires nk > 0 && |key| == nk && n <= |rdKey| && i < 4 * n && Scheduled(sbox, nk, key, rdKey, n)
    ensures WordAt(rdKey, i) == W(sbox, nk, key, i)
  {
    hide *;
    QuarterOf(i, n);
    RoundKeyAt(sbox, nk, key, rdKey, n, i / 4);
    LaneHeld(sbox, nk, key, 4 * (i / 4), rdKey[i / 4], i % 4);
    WordAtIs(rdKey, i);
  }

  lemma QuarterOf(i: nat, n: nat)
    requires i < 4 * n
    ensures i / 4 < n && i % 4 < 4 && 4 * (i / 4) + i % 4 == i
  {
  }

  lemma RoundKeyAt(sbox: bv8 -> bv8, nk: nat, key: seq<Word>, rdKey: seq<Lanes<Word>>, n: nat, r: nat)
    requires nk > 0 && |key| == nk && r < n <= |rdKey| && Scheduled(sbox, nk, key, rdKey, n)
    ensures Holds(sbox, nk, key, 4 * r, rdKey[r])
  {
    hide Holds;
    assert RoundKey(sbox, nk, key, r, rdKey[r]);
  }

  lemma LaneHeld(sbox: bv8 -> bv8, nk: nat, key: seq<Word>, j: nat, x: Lanes<Word>, k: nat)
    requires nk > 0 && |key| == nk && k < 4 && Holds(sbox, nk, key, j, x)
    ensures Lane(x, k) == W(sbox, nk, key, j + k)
  {
    hide W;
    if k == 0 {
    } else if k == 1 {
    } else if k == 2 {
    } else {
      assert k == 3;
    }
  }

  lemma WordAtIs(rdKey: seq<Lanes<Word>>, i: nat)
    requires i < 4 * |rdKey|
    ensures WordAt(rdKey, i) == Lane(rdKey[i / 4], i % 4)
  {
  }

  lemma BytesFollow(sbox: bv8 -> bv8, nk: nat, key: seq<Word>, rdKey: seq<Lanes<Word>>, n: nat)
    requires nk > 0 && |key| == nk && n <= |rdKey| && Scheduled(sbox, nk, key, rdKey, n)
    ensures FollowsBytes(sbox, nk, key, rdKey, n)
  {
    hide W, WordAt, Scheduled, ByteRule;
    forall i: nat | i < 4 * n ensures FollowsAt(sbox, nk, key, rdKey, i) {
      WordHeld(sbox, nk, key, rdKey, n, i);
      if i < nk {
        KeyWord(sbox, nk, key, i);
      } else {
        WordHeld(sbox, nk, key, rdKey, n, i - nk);
        WordHeld(sbox, nk, key, rdKey, n, i - 1);
        WordRule(sbox, nk, key, i);
      }
    }
  }

  /** The first new word of the example in appendix A.1 of FIPS 197, for a substitution with the four values it
      needs. */
  lemma ExampleKey(sbox: bv8 -> bv8)
    requires sbox(0xcf) == 0x8a && sbox(0x4f) == 0x84 && sbox(0x3c) == 0xeb && sbox(0x09) == 0x01
    ensures var key := [Word(0x2b, 0x7e, 0x15, 0x16), Word(0x28, 0xae, 0xd2, 0xa6), Word(0xab, 0xf7, 0x15, 0x88),
                        Word(0x09, 0xcf, 0x4f, 0x3c)];
            W(sbox, 4, key, 4) == Word(0xa0, 0xfa, 0xfe, 0x17)
  {
    hide W, Rcon, ByteRule;
    var key := [Word(0x2b, 0x7e, 0x15, 0x16), Word(0x28, 0xae, 0xd2, 0xa6), Word(0xab, 0xf7, 0x15, 0x88),
                Word(0x09, 0xcf, 0x4f, 0x3c)];
    KeyWord(sbox, 4, key, 0);
    KeyWord(sbox, 4, key, 3);
    WordRule(sbox, 4, key, 4);
    RconValues();
    ExampleWord(sbox, W(sbox, 4, key, 4));
  }

  lemma ExampleWord(sbox: bv8 -> bv8, w: Word)
    requires sbox(0xcf) == 0x8a && sbox(0x4f) == 0x84 && sbox(0x3c) == 0xeb && sbox(0x09) == 0x01 && Rcon(1) == 1
    requires ByteRule(sbox, 4, 4, Word(0x2b, 0x7e, 0x15, 0x16), Word(0x09, 0xcf, 0x4f, 0x3c), w)
    ensures w == Word(0xa0, 0xfa, 0xfe, 0x17)
  {
    hide Rcon;
  }

  method Rounds128(sbox: bv8 -> bv8, ghost key: seq<Word>, userKey: Lanes<Word>, rdKey: array<Lanes<Word>>)
    requires rdKey.Length == 15 && |key| == 4 && RoundKey(sbox, 4, key, 0, userKey)
    modifies rdKey
    ensures forall k: nat :: k <= 10 ==> RoundKey(sbox, 4, key, k, rdKey[k])
    ensures forall r :: 11 <= r < 15 ==> rdKey[r] == old(rdKey[r])
  {
    hide *;
    rdKey[0] := userKey;
    var x0, x2 := userKey, ZeroLanes();
    for r := 0 to 10
      invariant x2.l0 == ZERO_WORD && RoundKey(sbox, 4, key, r, x0)
      invariant forall k: nat :: k <= r ==> RoundKey(sbox, 4, key, k, rdKey[k])
      invariant forall k :: 11 <= k < 15 ==> rdKey[k] == old(rdKey[k])
    {
      RconIs(r);
      x0, x2 := Step128(sbox, key, r, x0, x2, RoundConstant(r));
      rdKey[r + 1] := x0;
    }
  }

  /** AES_128_Key_Expansion fills the eleven round keys with the 44 words of the schedule. */
  method Expand128(sbox: bv8 -> bv8, userKey: Lanes<Word>, rdKey: array<Lanes<Word>>)
    requires rdKey.Length == 15
    modifies rdKey
    ensures Scheduled(sbox, 4, [userKey.l0, userKey.l1, userKey.l2, userKey.l3], rdKey[..], 11)
    ensures FollowsBytes(sbox, 4, [userKey.l0, userKey.l1, userKey.l2, userKey.l3], rdKey[..], 11)
    ensures forall r :: 11 <= r < 15 ==> rdKey[r] == old(rdKey[r])
  {
    hide W, FollowsBytes;
    ghost var key := [userKey.l0, userKey.l1, userKey.l2, userKey.l3];
    FirstWords(sbox, 4, key, 0);
    Rounds128(sbox, key, userKey, rdKey);
    BytesFollow(sbox, 4, key, rdKey[..], 11);
  }

  // ---------- 192-bit keys ----------

  /** The first two lanes are words i and i+1; the others are not used. */
  ghost predicate HoldsTwo(sbox: bv8 -> bv8, nk: nat, key: seq<Word>, i: nat, x: Lanes<Word>)
    requires nk > 0 && |key| == nk
  {
    x.l0 == W(sbox, nk, key, i) && x.l1 == W(sbox, nk, key, i + 1)
  }

  /** The two words that follow four new ones. */
  lemma NextTwo(sbox: bv8 -> bv8, key: seq<Word>, i: nat, x3: Lanes<Word>, y0: Lanes<Word>)
    requires |key| == 6 && i >= 6 && i % 6 == 0
    requires HoldsTwo(sbox, 6, key, i - 2, x3) && Holds(sbox, 6, key, i, y0)
    ensures HoldsTwo(sbox, 6, key, i + 4, XorLanes(XorLanes(x3, ShiftLane(x3, ZERO_WORD)), ShuffleEpi32(y0, 255)))
  {
    hide W, Xor, Quiet, ShuffleEpi32;
    LastLane(y0);
    QuietAfter(i);
    NextWord(sbox, 6, key, i + 4);
    NextWord(sbox, 6, key, i + 5);
    LaterLanes(x3.l0, x3.l1, y0.l3);
  }

  lemma QuietAfter(i: nat)
    requires i % 6 == 0
    ensures Quiet(6, i + 4) && Quiet(6, i + 5)
  {
  }

  lemma LastLane(y: Lanes<Word>)
    ensures ShuffleEpi32(y, 255) == Lanes(y.l3, y.l3, y.l3, y.l3)
  {
    CodeFields(3, 3, 3, 3);
  }

  lemma LaterLanes(a: Word, b: Word, t: Word)
    ensures Xor(Xor(a, ZERO_WORD), t) == Xor(a, t) && Xor(Xor(b, a), t) == Xor(b, Xor(a, t))
  {
    XorLaws(a, b, t);
    XorZero(a);
  }

  method Half192(sbox: bv8 -> bv8, ghost key: seq<Word>, ghost i: nat, x0: Lanes<Word>, x2: Lanes<Word>,
                 x3: Lanes<Word>, rc: bv8)
      returns (y0: Lanes<Word>, y2: Lanes<Word>, y3: Lanes<Word>)
    requires |key| == 6 && i >= 6 && i % 6 == 0 && rc == Rcon(i / 6) && x2.l0 == ZERO_WORD
    requires Holds(sbox, 6, key, i - 6, x0) && HoldsTwo(sbox, 6, key, i - 2, x3)
    ensures y2.l0 == ZERO_WORD && Holds(sbox, 6, key, i, y0) && HoldsTwo(sbox, 6, key, i + 4, y3)
  {
    hide Chain, KeyGenAssist, W;
    y0, y2 := ExpandAssist(sbox, x0, x2, x3, 85, rc);
    MixedStart(sbox, 6, i, x3.l1, x3, rc, 85);
    NextFour(sbox, 6, key, i, x0, Temp(sbox, 6, i, x3.l1));
    NextTwo(sbox, key, i, x3, y0);
    y3 := XorLanes(x3, ShiftLane(x3, ZERO_WORD));
    y3 := XorLanes(y3, ShuffleEpi32(y0, 255));
  }

  lemma HalfIndices(s: nat)
    ensures var i := 12 * s + 6;
            i % 6 == 0 && i / 6 == 2 * s + 1 && (i + 6) % 6 == 0 && (i + 6) / 6 == 2 * s + 2
  {
  }

  /** EXPAND192_STEP: three round keys from six words at a time. */
  method Step192(sbox: bv8 -> bv8, ghost key: seq<Word>, s: nat, x0: Lanes<Word>, x2: Lanes<Word>, x3: Lanes<Word>,
                 tmp: Lanes<Word>, c: bv8, c2: bv8, kp: array<Lanes<Word>>)
      returns (y0: Lanes<Word>, y2: Lanes<Word>, y3: Lanes<Word>)
    requires |key| == 6 && x2.l0 == ZERO_WORD && c == Rcon(2 * s + 1) && c2 == Rcon(2 * s + 2) && 3 * s + 3 < kp.Length
    requires RoundKey(sbox, 6, key, 3 * s, x0) && HoldsTwo(sbox, 6, key, 12 * s + 4, x3) && tmp == x3
    modifies kp
    ensures y2.l0 == ZERO_WORD && RoundKey(sbox, 6, key, 3 * (s + 1), y0)
    ensures HoldsTwo(sbox, 6, key, 12 * (s + 1) + 4, y3)
    ensures RoundKey(sbox, 6, key, 3 * s + 1, kp[3 * s + 1]) && RoundKey(sbox, 6, key, 3 * s + 2, kp[3 * s + 2])
    ensures RoundKey(sbox, 6, key, 3 * s + 3, kp[3 * s + 3])
    ensures forall k :: 0 <= k < kp.Length && !(3 * s < k <= 3 * s + 3) ==> kp[k] == old(kp[k])
  {
    hide *;
    ghost var i := 12 * s + 6;
    HalfIndices(s);
    RoundKeyIs(sbox, 6, key, 3 * s, i - 6, x0);
    y0, y2, y3 := Half192(sbox, key, i, x0, x2, x3, c);
    Straddle(sbox, key, i - 2, 3 * s + 1, tmp, y0, y3);
    kp[3 * s + 1] := ShufflePs(tmp, y0, 68);
    kp[3 * s + 2] := ShufflePs(y0, y3, 78);
    y0, y2, y3 := Half192(sbox, key, i + 6, y0, y2, y3, c2);
    RoundKeyIs(sbox, 6, key, 3 * s + 3, i + 6, y0);
    kp[3 * s + 3] := y0;
    assert 3 * (s + 1) == 3 * s + 3 && 12 * (s + 1) + 4 == i + 10;
  }

  lemma RoundKeyIs(sbox: bv8 -> bv8, nk: nat, key: seq<Word>, r: nat, i: nat, x: Lanes<Word>)
    requires nk > 0 && |key| == nk && i == 4 * r
    ensures RoundKey(sbox, nk, key, r, x) <==> Holds(sbox, nk, key, i, x)
  {
  }

  /** Round keys that straddle two groups of six words. */
  lemma Straddle(sbox: bv8 -> bv8, key: seq<Word>, i: nat, r: nat, tmp: Lanes<Word>, x0: Lanes<Word>, x3: Lanes<Word>)
    requires |key| == 6 && i == 4 * r && HoldsTwo(sbox, 6, key, i, tmp) && Holds(sbox, 6, key, i + 2, x0)
    requires HoldsTwo(sbox, 6, key, i + 6, x3)
    ensures RoundKey(sbox, 6, key, r, ShufflePs(tmp, x0, 68)) && RoundKey(sbox, 6, key, r + 1, ShufflePs(x0, x3, 78))
  {
    hide W, ShufflePs;
    CodeFields(1, 0, 1, 0);
    CodeFields(1, 0, 3, 2);
    ShuffleIsSelect(tmp, x0, 68);
    ShuffleIsSelect(x0, x3, 78);
  }

  method Rounds192(sbox: bv8 -> bv8, ghost key: seq<Word>, low: Lanes<Word>, high: Lanes<Word>, kp: array<Lanes<Word>>)
    requires kp.Length == 15 && |key| == 6 && RoundKey(sbox, 6, key, 0, low) && HoldsTwo(sbox, 6, key, 4, high)
    modifies kp
    ensures forall k: nat :: k <= 12 ==> RoundKey(sbox, 6, key, k, kp[k])
    ensures forall r :: 13 <= r < 15 ==> kp[r] == old(kp[r])
  {
    hide *;
    kp[0] := low;
    var x0, x2, x3, tmp := low, ZeroLanes(), high, high;
    for s := 0 to 4
      invariant x2.l0 == ZERO_WORD && RoundKey(sbox, 6, key, 3 * s, x0) && HoldsTwo(sbox, 6, key, 12 * s + 4, x3)
      invariant tmp == x3
      invariant forall k: nat :: k <= 3 * s ==> RoundKey(sbox, 6, key, k, kp[k])
      invariant forall k :: 13 <= k < 15 ==> kp[k] == old(kp[k])
    {
      RconIs(2 * s);
      RconIs(2 * s + 1);
      x0, x2, x3 := Step192(sbox, key, s, x0, x2, x3, tmp, RoundConstant(2 * s), RoundConstant(2 * s + 1), kp);
      tmp := x3;
    }
  }

  /** AES_192_Key_Expansion: thirteen round keys with the 52 words of the schedule, whatever the
      bytes behind the 24 bytes of the key are. */
  method Expand192(sbox: bv8 -> bv8, low: Lanes<Word>, high: Lanes<Word>, kp: array<Lanes<Word>>)
    requires kp.Length == 15
    modifies kp
    ensures Scheduled(sbox, 6, [low.l0, low.l1, low.l2, low.l3, high.l0, high.l1], kp[..], 13)
    ensures FollowsBytes(sbox, 6, [low.l0, low.l1, low.l2, low.l3, high.l0, high.l1], kp[..], 13)
    ensures forall r :: 13 <= r < 15 ==> kp[r] == old(kp[r])
  {
    hide W, FollowsBytes;
    ghost var key := [low.l0, low.l1, low.l2, low.l3, high.l0, high.l1];
    FirstWords(sbox, 6, key, 0);
    KeyWord(sbox, 6, key, 4);
    KeyWord(sbox, 6, key, 5);
    Rounds192(sbox, key, low, high, kp);
    BytesFollow(sbox, 6, key, kp[..], 13);
  }

  // ---------- 256-bit keys ----------

  lemma HoldsLast(sbox: bv8 -> bv8, nk: nat, key: seq<Word>, i: nat, x: Lanes<Word>)
    requires nk > 0 && |key| == nk && i >= 4 && Holds(sbox, nk, key, i - 4, x)
    ensures x.l3 == W(sbox, nk, key, i - 1)
  {
    hide W;
  }

  lemma FirstIndices(k: nat)
    ensures var i := 8 * k + 8;
            i % 8 == 0 && i / 8 == k + 1 && Quiet(8, i + 1) && Quiet(8, i + 2) && Quiet(8, i + 3)
  {
  }

  lemma MiddleIndices(k: nat)
    ensures var i := 8 * k + 12;
            i % 8 == 4 && Quiet(8, i + 1) && Quiet(8, i + 2) && Quiet(8, i + 3)
  {
  }

  method First256(sbox: bv8 -> bv8, ghost key: seq<Word>, ghost k: nat, x0: Lanes<Word>, x2: Lanes<Word>,
                  x3: Lanes<Word>, rc: bv8)
      returns (y0: Lanes<Word>, y2: Lanes<Word>)
    requires |key| == 8 && x2.l0 == ZERO_WORD && rc == Rcon(k + 1)
    requires RoundKey(sbox, 8, key, 2 * k, x0) && RoundKey(sbox, 8, key, 2 * k + 1, x3)
    ensures y2.l0 == ZERO_WORD && RoundKey(sbox, 8, key, 2 * k + 2, y0)
  {
    hide *;
    y0, y2 := ExpandAssist(sbox, x0, x2, x3, 255, rc);
    ghost var i := 8 * k + 8;
    FirstIndices(k);
    RoundKeyIs(sbox, 8, key, 2 * k, i - 8, x0);
    RoundKeyIs(sbox, 8, key, 2 * k + 1, i - 4, x3);
    HoldsLast(sbox, 8, key, i, x3);
    MixedStart(sbox, 8, i, x3.l3, x3, rc, 255);
    NextFour(sbox, 8, key, i, x0, Temp(sbox, 8, i, x3.l3));
    RoundKeyIs(sbox, 8, key, 2 * k + 2, i, y0);
  }

  method Second256(sbox: bv8 -> bv8, ghost key: seq<Word>, ghost k: nat, x3: Lanes<Word>, x2: Lanes<Word>,
                   x0: Lanes<Word>, rc: bv8)
      returns (y3: Lanes<Word>, y2: Lanes<Word>)
    requires |key| == 8 && x2.l0 == ZERO_WORD
    requires RoundKey(sbox, 8, key, 2 * k + 1, x3) && RoundKey(sbox, 8, key, 2 * k + 2, x0)
    ensures y2.l0 == ZERO_WORD && RoundKey(sbox, 8, key, 2 * k + 3, y3)
  {
    hide *;
    y3, y2 := ExpandAssist(sbox, x3, x2, x0, 170, rc);
    ghost var i := 8 * k + 12;
    MiddleIndices(k);
    RoundKeyIs(sbox, 8, key, 2 * k + 1, i - 8, x3);
    RoundKeyIs(sbox, 8, key, 2 * k + 2, i - 4, x0);
    HoldsLast(sbox, 8, key, i, x0);
    MixedMiddle(sbox, 8, i, x0, rc);
    NextFour(sbox, 8, key, i, x3, Temp(sbox, 8, i, x0.l3));
    RoundKeyIs(sbox, 8, key, 2 * k + 3, i, y3);
  }

  method Rounds256(sbox: bv8 -> bv8, ghost key: seq<Word>, low: Lanes<Word>, high: Lanes<Word>,
                   rdKey: array<Lanes<Word>>)
    requires rdKey.Length == 15 && |key| == 8 && RoundKey(sbox, 8, key, 0, low) && RoundKey(sbox, 8, key, 1, high)
    modifies rdKey
    ensures forall r: nat :: r < 15 ==> RoundKey(sbox, 8, key, r, rdKey[r])
  {
    hide *;
    rdKey[0], rdKey[1] := low, high;
    var x0, x2, x3 := low, ZeroLanes(), high;
    for k := 0 to 6
      invariant x2.l0 == ZERO_WORD && RoundKey(sbox, 8, key, 2 * k, x0) && RoundKey(sbox, 8, key, 2 * k + 1, x3)
      invariant forall r: nat :: r < 2 * k + 2 ==> RoundKey(sbox, 8, key, r, rdKey[r])
    {
      RconIs(k);
      x0, x2 := First256(sbox, key, k, x0, x2, x3, RoundConstant(k));
      rdKey[2 * k + 2] := x0;
      x3, x2 := Second256(sbox, key, k, x3, x2, x0, RoundConstant(k));
      rdKey[2 * k + 3] := x3;
    }
    RconIs(6);
    x0, x2 := First256(sbox, key, 6, x0, x2, x3, RoundConstant(6));
    rdKey[14] := x0;
  }

  /** AES_256_Key_Expansion: fifteen round keys with the 60 words of the schedule. */
  method Expand256(sbox: bv8 -> bv8, low: Lanes<Word>, high: Lanes<Word>, rdKey: array<Lanes<Word>>)
    requires rdKey.Length == 15
    modifies rdKey
    ensures Scheduled(sbox, 8, [low.l0, low.l1, low.l2, low.l3, high.l0, high.l1, high.l2, high.l3], rdKey[..], 15)
    ensures FollowsBytes(sbox, 8, [low.l0, low.l1, low.l2, low.l3, high.l0, high.l1, high.l2, high.l3], rdKey[..], 15)
  {
    hide W, FollowsBytes;
    ghost var key := [low.l0, low.l1, low.l2, low.l3, high.l0, high.l1, high.l2, high.l3];
    FirstWords(sbox, 8, key, 0);
    FirstWords(sbox, 8, key, 4);
    Rounds256(sbox, key, low, high, rdKey);
    BytesFollow(sbox, 8, key, rdKey[..], 15);
  }
}
