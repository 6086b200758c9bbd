/** Big integers written as bytes (src/infra/Common.cpp), and what decoding gives back. */
module IntegerEncoding {
  import opened Congruence
  import opened Challenges

  /** `x` has a two's complement of `k` bytes. */
  predicate Fits(x: int, k: nat) {
    -Pow(256, k) <= 2 * x < Pow(256, k)
  }

  /** The low `k` bytes of `v`, lowest first. */
  function LowBytes(v: nat, k: nat): (bs: seq<Byte>)
    ensures |bs| == k
    decreases k
  {
    if k == 0 then [] else [v % 256] + LowBytes(v / 256, k - 1)
  }

  function Complement(bs: seq<Byte>): (cs: seq<Byte>)
    ensures |cs| == |bs|
  {
    seq(|bs|, i requires 0 <= i < |bs| => 255 - bs[i])
  }

  /** What `encodeBigInteger` leaves in a buffer: for zero only the first byte is written. */
  function Encoded(x: int, buffer: seq<Byte>): (bs: seq<Byte>)
    requires buffer != []
    ensures |bs| == |buffer|
  {
    if x == 0 then buffer[0 := 0]
    else if x > 0 then LowBytes(x, |buffer|)
    else Complement(LowBytes(-x - 1, |buffer|))
  }

  method EncodeBigInteger(x: int, output: array<Byte>)
    requires output.Length > 0
    modifies output
    ensures output[..] == Encoded(x, old(output[..]))
  {
    ghost var before := output[..];
    if x == 0 {
      output[0] := 0;
      assert output[..] == before[0 := 0];
    } else {
      var value: nat := if x > 0 then x else -x - 1;
      ghost var all := LowBytes(value, output.Length);
      for i := 0 to output.Length
        invariant all[i..] == LowBytes(value, output.Length - i)
        invariant forall j :: 0 <= j < i ==> output[j] == if x > 0 then all[j] else 255 - all[j]
      {
        assert all[i] == value % 256 && all[i..][1..] == all[i + 1..];
        output[i] := if x > 0 then value % 256 else 255 - value % 256;
        value := value / 256;
      }
      assert output[..] == if x > 0 then all else Complement(all);
    }
  }

  // ---------- decoding what was encoded ----------

  lemma {:induction false} UnsignedLow(v: nat, k: nat)
    requires v < Pow(256, k)
    ensures Unsigned(LowBytes(v, k)) == v
    decreases k
  {
    if k == 0 {
    } else {
      UnsignedLow(v / 256, k - 1);
      assert LowBytes(v, k)[1..] == LowBytes(v / 256, k - 1);
    }
  }

  lemma {:induction false} UnsignedComplement(bs: seq<Byte>)
    ensures Unsigned(Complement(bs)) == Pow(256, |bs|) - 1 - Unsigned(bs)
    decreases |bs|
  {
    if bs == [] {
    } else {
      UnsignedComplement(bs[1..]);
      assert Complement(bs)[1..] == Complement(bs[1..]);
    }
  }

  lemma {:induction false} UnsignedZeros(bs: seq<Byte>)
    requires forall i :: 0 <= i < |bs| ==> bs[i] == 0
    ensures Unsigned(bs) == 0
    decreases |bs|
  {
    if bs == [] {
    } else {
      UnsignedZeros(bs[1..]);
    }
  }

  /** Two's complement by size: from half of `256^k` on a value is read as negative. */
  lemma DecodeBySize(bs: seq<Byte>)
    requires bs != []
    ensures DecodeBigInteger(bs) ==
            if 2 * Unsigned(bs) < Pow(256, |bs|) then Unsigned(bs) else Unsigned(bs) - Pow(256, |bs|)
  {
    UnsignedRange(bs);
  }

  /** An integer comes back from its bytes exactly when it fits; for zero the rest of the buffer must be clear. */
  lemma EncodeDecode(x: int, buffer: seq<Byte>)
    requires buffer != [] && (x == 0 ==> forall i :: 1 <= i < |buffer| ==> buffer[i] == 0)
    ensures DecodeBigInteger(Encoded(x, buffer)) == x <==> Fits(x, |buffer|)
  {
    var k, bs := |buffer|, Encoded(x, buffer);
    DecodeRange(bs);
    DecodeBySize(bs);
    if Fits(x, k) {
      if x == 0 {
        UnsignedZeros(bs);
      } else if x > 0 {
        hide DecodeBigInteger, Unsigned, LowBytes, Pow;
        UnsignedLow(x, k);
      } else {
        hide DecodeBigInteger, Unsigned, LowBytes, Complement, Pow;
        UnsignedLow(-x - 1, k);
        UnsignedComplement(LowBytes(-x - 1, k));
      }
    }
  }

  /** A positive value that needs the top bit is read as negative. */
  lemma TopBitIsSign(x: nat, buffer: seq<Byte>)
    requires buffer != [] && 0 < x < Pow(256, |buffer|) <= 2 * x
    ensures DecodeBigInteger(Encoded(x, buffer)) == x - Pow(256, |buffer|)
  {
    UnsignedLow(x, |buffer|);
    DecodeBySize(Encoded(x, buffer));
  }

  lemma {:induction false} LowBytesCong(v: nat, k: nat)
    ensures Cong(Unsigned(LowBytes(v, k)), v, Pow(256, k))
    decreases k
  {
    if k == 0 {
      var minus: int := v;
      CongFromQuotient(0, v, 1, -minus);
    } else {
      hide Cong, Unsigned, LowBytes, Pow;
      LowBytesCong(v / 256, k - 1);
      LowBytesUnfold(v, k);
      PowUnfolds(256, k - 1);
      var u, w := Unsigned(LowBytes(v / 256, k - 1)), Pow(256, k - 1);
      var q := CongQuotient(u, v / 256, w);
      ShiftedQuotient(q, w);
      CongFromQuotient(Unsigned(LowBytes(v, k)), v, 256 * w, q);
    }
  }

  lemma LowBytesUnfold(v: nat, k: nat)
    requires k >= 1
    ensures Unsigned(LowBytes(v, k)) == v % 256 + 256 * Unsigned(LowBytes(v / 256, k - 1))
  {
    assert LowBytes(v, k)[1..] == LowBytes(v / 256, k - 1);
  }

  lemma ShiftedQuotient(q: int, w: int)
    ensures 256 * (q * w) == q * (256 * w)
  {
  }

  /** Whatever its size, an integer that is not zero is written modulo `256^k`; with `DecodeRange` this fixes all
      bytes. */
  lemma EncodedCong(x: int, buffer: seq<Byte>)
    requires buffer != [] && x != 0
    ensures Cong(DecodeBigInteger(Encoded(x, buffer)), x, Pow(256, |buffer|))
  {
    hide Cong, Unsigned, LowBytes, Pow, DecodeBigInteger, Complement;
    var k, bs := |buffer|, Encoded(x, buffer);
    var w, u := Pow(256, k), Unsigned(bs);
    DecodeBySize(bs);
    CongRefl(u, w);
    CongFromQuotient(u - w, u, w, -1);
    if x > 0 {
      LowBytesCong(x, k);
    } else {
      LowBytesCong(-x - 1, k);
      UnsignedComplement(LowBytes(-x - 1, k));
      CongFromQuotient(w - 1, -1, w, 1);
      CongSub(w - 1, -1, Unsigned(LowBytes(-x - 1, k)), -x - 1, w);
    }
    CongTrans(DecodeBigInteger(bs), u, x, w);
  }

  // ---------- the number of bytes ----------

  /** `k` is the least number of bytes, at least one, that `x` fits in. */
  predicate Needs(x: int, k: nat) {
    k >= 1 && Fits(x, k) && (k > 1 ==> !Fits(x, k - 1))
  }

  lemma {:induction false} FitsMore(x: int, j: nat, k: nat)
    requires j <= k && Fits(x, j)
    ensures Fits(x, k)
    decreases k
  {
    if j == k {
    } else {
      FitsMore(x, j, k - 1);
    }
  }

  lemma NeedsOne(x: int, j: nat, k: nat)
    requires Needs(x, j) && Needs(x, k)
    ensures j == k
  {
    if j < k {
      FitsMore(x, j, k - 1);
    } else if k < j {
      FitsMore(x, k, j - 1);
    }
  }

  lemma EvenPower(k: nat) returns (h: int)
    requires k >= 1
    ensures Pow(256, k) == 2 * h
  {
    h := 128 * Pow(256, k - 1);
    assert Pow(256, k) == 256 * Pow(256, k - 1);
  }

  /** A number of `k` bytes with the given top byte. */
  lemma TopByteDecides(v: nat, top: Byte, p: int, low: nat)
    requires v == top * p + low && low < p
    ensures top < 0x80 ==> 2 * v < 256 * p
    ensures top >= 0x80 ==> 2 * v >= 256 * p && 2 * v < 256 * (256 * p)
    ensures top > 0 ==> v >= p
  {
    var w := top * p;
    MulMonotone(top, 0xff, p);
    if top < 0x80 {
      MulMonotone(top, 0x7f, p);
    } else {
      MulMonotone(0x80, top, p);
    }
    if top > 0 {
      MulMonotone(1, top, p);
    }
  }

  lemma MulMonotone(a: int, b: int, p: int)
    requires a <= b && p >= 0
    ensures a * p <= b * p
  {
    assert b * p == a * p + (b - a) * p;
  }

  lemma SplitProduct(a: int, b: int, p: int)
    ensures (256 * a + b) * p == a * (256 * p) + b * p
  {
    assert (256 * a + b) * p == (256 * a) * p + b * p;
    assert (256 * a) * p == a * (256 * p);
  }

  lemma ShiftByte(v: nat, value: nat, p: int, low: nat)
    requires v == value * p + low && 0 <= low < p
    ensures v == (value / 256) * (256 * p) + ((value % 256) * p + low)
    ensures 0 <= (value % 256) * p + low < 256 * p
  {
    var a, b := value / 256, value % 256;
    SplitProduct(a, b, p);
    MulMonotone(b, 255, p);
    MulMonotone(0, b, p);
  }

  /** `k` bytes of `v` have been read, the last of them `last`; `value` is what remains. */
  ghost predicate ReadSoFar(v: nat, value: nat, last: Byte, k: nat) {
    && k >= 1 && (k > 1 && value == 0 ==> last > 0)
    && 0 <= v - value * Pow(256, k) - last * Pow(256, k - 1) < Pow(256, k - 1)
  }

  lemma ReadFirst(v: nat)
    ensures ReadSoFar(v, v / 256, v % 256, 1)
  {
    assert Pow(256, 0) == 1 && Pow(256, 1) == 256 * Pow(256, 0);
  }

  lemma ReadNext(v: nat, value: nat, last: Byte, k: nat)
    requires ReadSoFar(v, value, last, k) && value > 0
    ensures ReadSoFar(v, value / 256, value % 256, k + 1)
  {
    var p := Pow(256, k - 1);
    assert Pow(256, k) == 256 * p && Pow(256, k + 1) == 256 * (256 * p);
    var low: nat := v - value * Pow(256, k) - last * p;
    TopByteRange(last, p, low);
    ShiftByte(v, value, 256 * p, last * p + low);
  }

  lemma TopByteRange(last: Byte, p: int, low: nat)
    requires low < p
    ensures 0 <= last * p + low < 256 * p
  {
    MulMonotone(last, 255, p);
    MulMonotone(0, last, p);
  }

  lemma ReadAll(x: int, v: nat, last: Byte, k: nat)
    requires ReadSoFar(v, 0, last, k) && v == if x < 0 then -x - 1 else x
    ensures Needs(x, if last >= 0x80 then k + 1 else k)
  {
    var p := Pow(256, k - 1);
    assert Pow(256, k) == 256 * p && Pow(256, k + 1) == 256 * (256 * p);
    var low: nat := v - last * p;
    TopByteDecides(v, last, p, low);
    CountRight(x, v, k, last);
  }

  /** `bytesCount`: the least number of bytes of the two's complement. */
  method BytesCount(x: int) returns (length: nat)
    ensures Needs(x, length)
  {
    if x == 0 {
      assert Pow(256, 1) == 256 * Pow(256, 0);
      return 1;
    }
    hide ReadSoFar, Needs;
    var v: nat := if x < 0 then -x - 1 else x;
    var value: nat, lastByte: Byte := v / 256, v % 256;
    length := 1;
    ReadFirst(v);
    while value != 0
      invariant ReadSoFar(v, value, lastByte, length)
      decreases value
    {
      ReadNext(v, value, lastByte, length);
      lastByte := value % 256;
      value := value / 256;
      length := length + 1;
    }
    ReadAll(x, v, lastByte, length);
    if lastByte >= 0x80 {
      length := length + 1;
    }
  }

  lemma CountRight(x: int, v: nat, k: nat, top: Byte)
    requires k >= 1 && v == if x < 0 then -x - 1 else x
    requires top < 0x80 ==> 2 * v < Pow(256, k)
    requires top >= 0x80 ==> 2 * v >= Pow(256, k) && 2 * v < Pow(256, k + 1)
    requires k > 1 ==> v >= Pow(256, k - 1)
    ensures Needs(x, if top >= 0x80 then k + 1 else k)
  {
    hide Pow;
    var h := EvenPower(k);
    var h' := EvenPower(k + 1);
    if k > 1 {
      var h'' := EvenPower(k - 1);
    }
  }

  /** `fromCmtToByteArray`: the bytes of an integer, as few as possible. */
  method MinimalBytes(x: int) returns (bs: seq<Byte>)
    ensures bs != [] && Needs(x, |bs|) && DecodeBigInteger(bs) == x
  {
    var size := BytesCount(x);
    var buffer: array<Byte> := new Byte[size](_ => 0);
    ghost var before := buffer[..];
    EncodeBigInteger(x, buffer);
    EncodeDecode(x, before);
    return buffer[..];
  }
}
