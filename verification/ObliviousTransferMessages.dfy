/** The sender's messages of the oblivious transfers, as they travel: elements and raw bytes in one ':'-separated
    text (src/interactive_mid_protocols/OT.cpp). */
module ObliviousTransferMessages {
  import opened Outcomes
  import opened DlogGroups
  import opened MessageTexts

  type Bytes = seq<bv8>

  /** The sender's message, in both modes. */
  datatype SenderMsg<G, X> = SenderMsg(w0: G, c0: X, w1: G, c1: X)

  // ---------- elements as texts ----------

  /** How a group prints its elements and reads them back. A text of the wrong kind is not an element. */
  datatype Codec<!G> = Codec(show: G -> string, read: string -> Outcome<G>)

  /** The laws at one member and one text: element texts of one coordinate (Zp) or of two (curves). */
  ghost predicate CodecAt<G(!new)>(d: DlogGroup<G>, codec: Codec<G>, x: G, y: G, s: string) {
    && (d.isMember(x) && d.isMember(y) ==> SameKind(codec.show(x), codec.show(y)))
    && (d.isMember(x) ==> codec.read(codec.show(x)) == Returned(x))
    && (d.isMember(x) && ElementText(s) && !SameKind(codec.show(x), s) ==> codec.read(s).Threw?)
  }

  ghost predicate ValidCodec<G(!new)>(d: DlogGroup<G>, codec: Codec<G>) {
    forall x, y, s :: CodecAt(d, codec, x, y, s)
  }

  /** `x.str()` and its reading, for the groups modulo a prime. */
  function DecimalCodec(): Codec<int> {
    Codec(x => Decimal(x), s => ParseDecimal(s))
  }

  lemma {:induction false} ColonIsNoDigit(s: string)
    requires !NoColon(s)
    ensures DigitsValue(s).Threw?
    decreases |s|
  {
    if s == "" {
    } else if s[|s| - 1] == COLON {
    } else {
      assert s == s[..|s| - 1] + [s[|s| - 1]];
      ColonIsNoDigit(s[..|s| - 1]);
    }
  }

  lemma DecimalCodecValid(d: DlogGroup<int>)
    ensures ValidCodec(d, DecimalCodec())
  {
    hide Decimal, ParseDecimal, ElementText, Proper, DigitsValue;
    forall x, y, s ensures CodecAt(d, DecimalCodec(), x, y, s) {
      DecimalRoundTrip(x);
      DecimalRoundTrip(y);
      ProperIsText(Decimal(x));
      ProperIsText(Decimal(y));
      if ElementText(s) && !Proper(s) {
        ColonUnread(s);
      }
    }
  }

  lemma ProperIsText(s: string)
    ensures Proper(s) ==> ElementText(s)
  {
  }

  lemma ColonUnread(s: string)
    requires ElementText(s) && !Proper(s)
    ensures ParseDecimal(s).Threw?
  {
    hide DigitsValue;
    ColonIsNoDigit(s);
    if s[0] == '-' {
      assert s == ['-'] + s[1..];
      ColonIsNoDigit(s[1..]);
    }
  }

  // ---------- bytes as characters ----------

  function ByteChar(b: bv8): char {
    (b as int) as char
  }

  function CharByte(c: char): bv8 {
    if c as int < 256 then (c as int) as bv8 else 0
  }

  lemma ByteCharByte(b: bv8)
    ensures CharByte(ByteChar(b)) == b
  {
  }

  function Chars(c: Bytes): (s: string)
    ensures |s| == |c|
  {
    seq(|c|, i requires 0 <= i < |c| => ByteChar(c[i]))
  }

  function BytesOf(s: string): (c: Bytes)
    ensures |c| == |s|
  {
    seq(|s|, i requires 0 <= i < |s| => CharByte(s[i]))
  }

  lemma BytesOfChars(c: Bytes)
    ensures BytesOf(Chars(c)) == c
  {
    forall i | 0 <= i < |c| ensures BytesOf(Chars(c))[i] == c[i] {
      ByteCharByte(c[i]);
    }
  }

  // ---------- messages of bytes ----------

  function PrintBytes<G>(codec: Codec<G>, m: SenderMsg<G, Bytes>): string {
    PrintSenderMsg(codec.show(m.w0), codec.show(m.w1), Chars(m.c0), Chars(m.c1))
  }

  function ReadBytes<G>(codec: Codec<G>, row: string): Outcome<SenderMsg<G, Bytes>> {
    var texts :- ParseByteMsg(row);
    var w0 :- codec.read(texts.w0);
    var w1 :- codec.read(texts.w1);
    Returned(SenderMsg(w0, BytesOf(texts.c0), w1, BytesOf(texts.c1)))
  }

  /** Bytes that survive the text: at least one, and none of them the separator. */
  predicate Printable(c: Bytes) {
    Proper(Chars(c))
  }

  lemma PrintableIff(c: Bytes)
    ensures Printable(c) <==> c != [] && 0x3A !in c
  {
    if c != [] && 0x3A !in c {
      forall i | 0 <= i < |c| ensures Chars(c)[i] != COLON {
        ByteCharByte(c[i]);
        assert CharByte(COLON) == 0x3A;
      }
    }
    if 0x3A in c {
      var i :| 0 <= i < |c| && c[i] == 0x3A;
      assert Chars(c)[i] == COLON;
    }
  }

  /** A message with inputs of one length is read as itself exactly when both are printable, and otherwise never as
      a message with inputs of that length. */
  lemma BytesRoundTrip<G(!new)>(d: DlogGroup<G>, codec: Codec<G>, m: SenderMsg<G, Bytes>)
    requires ValidCodec(d, codec) && d.isMember(m.w0) && d.isMember(m.w1) && |m.c0| == |m.c1|
    ensures var o := ReadBytes(codec, PrintBytes(codec, m));
            && (o == Returned(m) <==> Printable(m.c0) && Printable(m.c1))
            && (o.Returned? && |o.value.c0| == |o.value.c1| == |m.c0| ==> o == Returned(m))
  {
    hide ValidCodec;
    var p0, p1, s0, s1 := codec.show(m.w0), codec.show(m.w1), Chars(m.c0), Chars(m.c1);
    CodecOf(d, codec, m.w0, m.w1);
    BytesOfChars(m.c0);
    BytesOfChars(m.c1);
    ByteMsgRead(p0, p1, s0, s1);
    var rest, row := Fields(s0) + Fields(s1), PrintBytes(codec, m);
    if Printable(m.c0) && Printable(m.c1) {
      ByteMsgRoundTrip(p0, p1, s0, s1);
    }
    var o := ReadBytes(codec, row);
    if o.Returned? {
      if |rest| != 2 {
        NotAnElement(d, codec, m.w0, ParseByteMsg(row).value.w0);
      } else if |o.value.c0| == |o.value.c1| == |m.c0| {
        assert rest == [rest[0], rest[1]];
        TwoFieldsOfLength(s0, s1, rest[0], rest[1]);
      }
    }
  }

  lemma CodecOf<G(!new)>(d: DlogGroup<G>, codec: Codec<G>, x: G, y: G)
    requires ValidCodec(d, codec) && d.isMember(x) && d.isMember(y)
    ensures SameKind(codec.show(x), codec.show(y))
    ensures codec.read(codec.show(x)) == Returned(x) && codec.read(codec.show(y)) == Returned(y)
  {
    assert CodecAt(d, codec, x, y, "");
    assert CodecAt(d, codec, y, x, "");
  }

  lemma NotAnElement<G(!new)>(d: DlogGroup<G>, codec: Codec<G>, x: G, s: string)
    requires ValidCodec(d, codec) && d.isMember(x) && ElementText(s) && (Proper(s) <==> !Proper(codec.show(x)))
    ensures codec.read(s).Threw?
  {
    assert CodecAt(d, codec, x, x, s);
  }

  // ---------- messages of elements ----------

  function PrintElements<G>(codec: Codec<G>, m: SenderMsg<G, G>): string {
    PrintSenderMsg(codec.show(m.w0), codec.show(m.w1), codec.show(m.c0), codec.show(m.c1))
  }

  function ReadElements<G>(codec: Codec<G>, row: string): Outcome<SenderMsg<G, G>> {
    var texts :- ParseElementMsg(row);
    var w0 :- codec.read(texts.w0);
    var w1 :- codec.read(texts.w1);
    var c0 :- codec.read(texts.c0);
    var c1 :- codec.read(texts.c1);
    Returned(SenderMsg(w0, c0, w1, c1))
  }

  lemma ElementsRoundTrip<G(!new)>(d: DlogGroup<G>, codec: Codec<G>, m: SenderMsg<G, G>)
    requires ValidCodec(d, codec) && d.isMember(m.w0) && d.isMember(m.w1) && d.isMember(m.c0) && d.isMember(m.c1)
    ensures ReadElements(codec, PrintElements(codec, m)) == Returned(m)
  {
    CodecOf(d, codec, m.w0, m.w1);
    CodecOf(d, codec, m.w1, m.c0);
    CodecOf(d, codec, m.c0, m.c1);
    ElementMsgRoundTrip(codec.show(m.w0), codec.show(m.w1), codec.show(m.c0), codec.show(m.c1));
  }
}
