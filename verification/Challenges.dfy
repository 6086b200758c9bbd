/** Byte vectors read as big integers (src/infra/Common.cpp), and sigma-protocol challenges. */
module Challenges {
  import opened Congruence

  type Byte = b: int | 0 <= b < 256

  function Unsigned(bs: seq<Byte>): (r: nat)
    ensures r < Pow(256, |bs|)
  {
    if bs == [] then 0 else bs[0] + 256 * Unsigned(bs[1..])
  }

  /** Little-endian two's complement. */
  function DecodeBigInteger(bs: seq<Byte>): int
    requires bs != []
  {
    if bs[|bs| - 1] >= 0x80 then Unsigned(bs) - Pow(256, |bs|) else Unsigned(bs)
  }

  /** Challenges are made positive by clearing the top bit of the last byte. */
  function MakePositive(bs: seq<Byte>): seq<Byte>
    requires bs != []
  {
    bs[|bs| - 1 := bs[|bs| - 1] % 128]
  }

  lemma {:induction false} UnsignedRange(bs: seq<Byte>)
    requires bs != []
    ensures bs[|bs| - 1] < 0x80 <==> 2 * Unsigned(bs) < Pow(256, |bs|)
    decreases |bs|
  {
    assert Pow(256, |bs|) == 256 * Pow(256, |bs| - 1);
    if |bs| == 1 {
      assert bs[1..] == [];
    } else {
      var w, half, u := Pow(256, |bs| - 1), 128 * Pow(256, |bs| - 2), Unsigned(bs[1..]);
      assert w == 2 * half && u < w && Unsigned(bs) == bs[0] + 256 * u;
      UnsignedRange(bs[1..]);
      hide Unsigned, Pow;
      TopHalf(bs[0], u, w, half);
    }
  }

  lemma TopHalf(b: Byte, u: nat, w: int, half: int)
    requires u < w && w == 2 * half
    ensures 2 * u < w <==> 2 * (b + 256 * u) < 256 * w
  {
  }

  /** A `k`-byte challenge lies in `[-256^k/2, 256^k/2)`, and is non-negative once its top bit is cleared. */
  lemma DecodeRange(bs: seq<Byte>)
    requires bs != []
    ensures -Pow(256, |bs|) <= 2 * DecodeBigInteger(bs) < Pow(256, |bs|)
    ensures DecodeBigInteger(bs) >= 0 <==> bs[|bs| - 1] < 0x80
    ensures DecodeBigInteger(MakePositive(bs)) >= 0
  {
    UnsignedRange(bs);
    UnsignedRange(MakePositive(bs));
  }

  /** Clearing the top bit keeps all others: the challenge is the low `8k - 1` bits of what was drawn. */
  lemma PositiveIsLow(bs: seq<Byte>)
    requires bs != []
    ensures Pow(256, |bs|) == 2 * (128 * Pow(256, |bs| - 1))
    ensures DecodeBigInteger(MakePositive(bs)) == Unsigned(bs) % (128 * Pow(256, |bs| - 1))
  {
    hide Pow, Unsigned, DecodeBigInteger;
    var k, low, top := |bs| - 1, bs[..|bs| - 1], bs[|bs| - 1];
    NotNegative(MakePositive(bs));
    PowUnfolds(256, k);
    assert bs == low + [top] && MakePositive(bs) == low + [top % 128];
    UnsignedAppend(low, top);
    UnsignedAppend(low, top % 128);
    LowBits(Unsigned(low), top, Pow(256, k));
  }

  lemma NotNegative(bs: seq<Byte>)
    requires bs != [] && bs[|bs| - 1] < 0x80
    ensures DecodeBigInteger(bs) == Unsigned(bs)
  {
    hide Pow, Unsigned;
  }

  lemma LowBits(u: nat, top: Byte, w: int)
    requires u < w
    ensures (u + top * w) % (128 * w) == u + (top % 128) * w
  {
    if top < 128 {
      TopBound(u, top, w);
      SmallRemainder(u + top * w, 128 * w);
    } else {
      TopBound(u, top - 128, w);
      assert top * w == (top - 128) * w + 128 * w;
      CongFromQuotient(u + top * w, u + (top - 128) * w, 128 * w, 1);
      CongIffMod(u + top * w, u + (top - 128) * w, 128 * w);
      SmallRemainder(u + (top - 128) * w, 128 * w);
    }
  }

  lemma TopBound(u: nat, top: nat, w: int)
    requires u < w && top < 128
    ensures 0 <= u + top * w < 128 * w
  {
    assert 128 * w == top * w + (128 - top) * w;
    MulAtLeast(128 - top, w);
  }

  /** So each challenge that is not negative is drawn as exactly two strings of bytes. */
  lemma DrawnTwice(bs: seq<Byte>, drawn: seq<Byte>)
    requires bs != [] && bs[|bs| - 1] < 0x80 && |drawn| == |bs|
    ensures MakePositive(drawn) == bs <==> drawn == bs || drawn == bs[|bs| - 1 := bs[|bs| - 1] + 128]
  {
    var k := |bs| - 1;
    if MakePositive(drawn) == bs {
      assert drawn[k] % 128 == bs[k];
      assert drawn == bs[k := drawn[k]] by {
        forall i | 0 <= i < k ensures drawn[i] == bs[i] { assert MakePositive(drawn)[i] == bs[i]; }
      }
    }
  }

  lemma {:induction false} UnsignedInjective(b: seq<Byte>, c: seq<Byte>)
    requires |b| == |c| && Unsigned(b) == Unsigned(c)
    ensures b == c
    decreases |b|
  {
    if b == [] {
    } else {
      assert b[0] == c[0] && Unsigned(b[1..]) == Unsigned(c[1..]);
      UnsignedInjective(b[1..], c[1..]);
      assert b == [b[0]] + b[1..] && c == [c[0]] + c[1..];
    }
  }

  /** Different challenges of one length decode to integers less than `256^k` apart, and not equal. */
  lemma DecodeInjective(b: seq<Byte>, c: seq<Byte>)
    requires |b| == |c| && b != [] && b != c
    ensures DecodeBigInteger(b) != DecodeBigInteger(c)
    ensures -Pow(256, |b|) < DecodeBigInteger(b) - DecodeBigInteger(c) < Pow(256, |b|)
  {
    DecodeRange(b);
    DecodeRange(c);
    if DecodeBigInteger(b) == DecodeBigInteger(c) {
      UnsignedInjective(b, c);
    }
  }

  lemma {:induction false} UnsignedAppend(bs: seq<Byte>, b: Byte)
    ensures Unsigned(bs + [b]) == Unsigned(bs) + b * Pow(256, |bs|)
    decreases |bs|
  {
    if bs == [] {
      assert (bs + [b])[1..] == [];
    } else {
      UnsignedAppend(bs[1..], b);
      assert (bs + [b])[1..] == bs[1..] + [b];
      Shifted(b, Pow(256, |bs| - 1));
    }
  }

  lemma Shifted(b: int, p: int)
    ensures 256 * (b * p) == b * (256 * p)
  {
  }

  lemma {:induction false} ByteChallenges(k: nat, t: nat)
    requires k <= t / 8
    ensures Pow(256, k) <= Pow(2, t)
    decreases t
  {
    if k > 0 {
      ByteChallenges(k - 1, t - 8);
      PowAdd(2, 8, t - 8);
      assert Pow(2, 8) == 256;
    } else {
      assert Pow(2, t) >= 1;
    }
  }

  /** `decodeBigInteger`: bytes are added at growing positions, and a top byte of 0x80 or more extends the sign. */
  method Decode(bs: seq<Byte>) returns (result: int)
    requires bs != []
    ensures result == DecodeBigInteger(bs)
  {
    result := 0;
    var weight: int := 1;
    for i := 0 to |bs|
      invariant result == Unsigned(bs[..i]) && weight == Pow(256, i)
    {
      UnsignedAppend(bs[..i], bs[i]);
      assert bs[..i + 1] == bs[..i] + [bs[i]];
      result := result + bs[i] * weight;
      weight := 256 * weight;
    }
    assert bs[..|bs|] == bs;
    if bs[|bs| - 1] >= 0x80 {
      result := result - weight;
    }
  }
}
