/** The counter-mode generator of the short-key correlated OT library. */
module CounterGenerator {
  const TWO_64: nat := 0x1_0000_0000_0000_0000

  type Word64 = x: int | 0 <= x < TWO_64

  /** A counter block: the word that counts and the word that is never written. */
  datatype Counter = Counter(low: Word64, high: Word64)

  function Next(c: Word64, k: nat): Word64 {
    (c + k) % TWO_64
  }

  /** The counter blocks of one request of n blocks. */
  function Request(high: seq<Word64>, c: Word64, n: nat): seq<Counter>
    requires n <= |high|
  {
    seq(n, i requires 0 <= i < n => Counter(Next(c, i + 1), high[i]))
  }

  /** The counter blocks of a list of requests. */
  function Requests(high: seq<Word64>, c: Word64, sizes: seq<nat>): seq<Counter>
    requires forall i :: 0 <= i < |sizes| ==> sizes[i] <= |high|
    decreases |sizes|
  {
    if sizes == [] then [] else Request(high, c, sizes[0]) + Requests(high, Next(c, sizes[0]), sizes[1..])
  }

  function Sum(sizes: seq<nat>): nat {
    if sizes == [] then 0 else sizes[0] + Sum(sizes[1..])
  }

  function Encrypted<B>(encrypt: Counter -> B, counters: seq<Counter>): seq<B> {
    seq(|counters|, i requires 0 <= i < |counters| => encrypt(counters[i]))
  }

  class Generator<B> {
    const encrypt: Counter -> B
    const ctr: array<Counter>
    var ctrInc: Word64

    /** `init`: the counter starts at one; the contents of the buffer are whatever the allocation holds. */
    constructor (encrypt: Counter -> B, buffer: array<Counter>)
      ensures this.encrypt == encrypt && ctr == buffer && ctrInc == 1
    {
      this.encrypt, ctr, ctrInc := encrypt, buffer, 1;
    }

    ghost function High(): (h: seq<Word64>)
      reads ctr
      ensures |h| == ctr.Length
    {
      seq(ctr.Length, i requires 0 <= i < ctr.Length reads ctr => ctr[i].high)
    }

    /** `getBytes` of 16n bytes: advances the counter in the first n blocks and encrypts them. */
    method GetBytes(n: nat) returns (out: seq<B>)
      requires n <= ctr.Length
      modifies this, ctr
      ensures out == Encrypted(encrypt, Request(High(), old(ctrInc), n))
      ensures ctrInc == Next(old(ctrInc), n) && High() == old(High())
    {
      for i := 0 to n
        invariant ctrInc == Next(old(ctrInc), i)
        invariant forall j :: 0 <= j < ctr.Length ==> ctr[j].high == old(ctr[j].high)
        invariant forall j :: 0 <= j < i ==> ctr[j].low == Next(old(ctrInc), j + 1)
      {
        NextStep(old(ctrInc), i);
        ctrInc := (ctrInc + 1) % TWO_64;
        ctr[i] := ctr[i].(low := ctrInc);
      }
      out := seq(n, i requires 0 <= i < n reads ctr => encrypt(ctr[i]));
    }
  }

  lemma NextStep(c: Word64, k: nat)
    ensures (Next(c, k) + 1) % TWO_64 == Next(c, k + 1)
  {
  }

  lemma NextAdd(c: Word64, j: nat, k: nat)
    ensures Next(Next(c, j), k) == Next(c, j + k)
  {
  }

  /** The place of the t-th block within its own request. */
  function Place(sizes: seq<nat>, t: nat): nat
    requires t < Sum(sizes)
  {
    if t < sizes[0] then t else Place(sizes[1..], t - sizes[0])
  }

  /** The t-th block over all requests: the counting word goes on, the other word is that of its place. */
  lemma {:induction false} CounterAt(high: seq<Word64>, c: Word64, sizes: seq<nat>, t: nat)
    requires forall i :: 0 <= i < |sizes| ==> sizes[i] <= |high|
    requires t < Sum(sizes)
    ensures |Requests(high, c, sizes)| == Sum(sizes) && Place(sizes, t) < |high|
    ensures Requests(high, c, sizes)[t] == Counter(Next(c, t + 1), high[Place(sizes, t)])
    decreases |sizes|
  {
    RequestsLength(high, c, sizes);
    if t >= sizes[0] {
      CounterAt(high, Next(c, sizes[0]), sizes[1..], t - sizes[0]);
      NextAdd(c, sizes[0], t - sizes[0] + 1);
    }
  }

  lemma {:induction false} RequestsLength(high: seq<Word64>, c: Word64, sizes: seq<nat>)
    requires forall i :: 0 <= i < |sizes| ==> sizes[i] <= |high|
    ensures |Requests(high, c, sizes)| == Sum(sizes)
    decreases |sizes|
  {
    if sizes == [] {
    } else {
      RequestsLength(high, Next(c, sizes[0]), sizes[1..]);
    }
  }

  lemma NextDistinct(c: Word64, s: nat, t: nat)
    requires s < t < s + TWO_64
    ensures Next(c, s) != Next(c, t)
  {
  }

  /** Over any list of requests of at most 2^64 blocks together, no block is encrypted twice. */
  lemma NoBlockTwice(high: seq<Word64>, c: Word64, sizes: seq<nat>, s: nat, t: nat)
    requires forall i :: 0 <= i < |sizes| ==> sizes[i] <= |high|
    requires s < t < Sum(sizes) && Sum(sizes) <= TWO_64
    ensures |Requests(high, c, sizes)| == Sum(sizes) && Requests(high, c, sizes)[s] != Requests(high, c, sizes)[t]
  {
    CounterAt(high, c, sizes, s);
    CounterAt(high, c, sizes, t);
    NextDistinct(c, s + 1, t + 1);
  }

  ghost predicate Uniform(high: seq<Word64>, h: Word64) {
    forall i :: 0 <= i < |high| ==> high[i] == h
  }

  /** The blocks a single endless request would use. */
  function Stream(h: Word64, c: Word64, n: nat): seq<Counter> {
    seq(n, i requires 0 <= i < n => Counter(Next(c, i + 1), h))
  }

  /** With equal high words the blocks depend only on how many were asked for, not on the split. */
  lemma {:induction false} SplitDoesNotMatter(high: seq<Word64>, h: Word64, c: Word64, sizes: seq<nat>)
    requires Uniform(high, h) && forall i :: 0 <= i < |sizes| ==> sizes[i] <= |high|
    ensures Requests(high, c, sizes) == Stream(h, c, Sum(sizes))
    decreases |sizes|
  {
    if sizes == [] {
    } else {
      var n, rest := sizes[0], Sum(sizes[1..]);
      SplitDoesNotMatter(high, h, Next(c, n), sizes[1..]);
      RequestUniform(high, h, c, n);
      StreamAppend(h, c, n, rest);
    }
  }

  lemma RequestUniform(high: seq<Word64>, h: Word64, c: Word64, n: nat)
    requires Uniform(high, h) && n <= |high|
    ensures Request(high, c, n) == Stream(h, c, n)
  {
    hide Next;
  }

  lemma StreamAppend(h: Word64, c: Word64, n: nat, rest: nat)
    ensures Stream(h, c, n) + Stream(h, Next(c, n), rest) == Stream(h, c, n + rest)
  {
    hide Next;
    forall i | 0 <= i < rest ensures Stream(h, Next(c, n), rest)[i] == Stream(h, c, n + rest)[n + i] {
      NextAdd(c, n, i + 1);
    }
  }

  /** After 2^64 blocks the counting words start again. */
  lemma CounterWraps(c: Word64, t: nat)
    ensures Next(c, t + TWO_64) == Next(c, t)
  {
  }

  /** So the bound of `NoBlockTwice` is exact: with equal high words each block comes back 2^64 blocks later. */
  lemma BlockComesBack(high: seq<Word64>, h: Word64, c: Word64, sizes: seq<nat>, s: nat)
    requires Uniform(high, h) && forall i :: 0 <= i < |sizes| ==> sizes[i] <= |high|
    requires s + TWO_64 < Sum(sizes)
    ensures |Requests(high, c, sizes)| == Sum(sizes)
    ensures Requests(high, c, sizes)[s] == Requests(high, c, sizes)[s + TWO_64]
  {
    SplitDoesNotMatter(high, h, c, sizes);
    CounterWraps(c, s + 1);
    assert s + TWO_64 + 1 == s + 1 + TWO_64;
  }

  /** And only then: when two high words differ, one request and its split give different blocks. */
  lemma SplitMatters(high: seq<Word64>, c: Word64, j: nat)
    requires j < |high| && high[j] != high[0]
    ensures Requests(high, c, [j + 1]) != Requests(high, c, [j, 1])
  {
    var whole, split := Requests(high, c, [j + 1]), Requests(high, c, [j, 1]);
    assert [j + 1][1..] == [] && [j, 1][1..] == [1] && [1][1..] == [];
    assert Requests(high, Next(c, j), [1]) == Request(high, Next(c, j), 1);
    assert whole[j].high == high[j] && split[j].high == high[0];
  }

  predicate InBuffer(high: seq<Word64>, sizes: seq<nat>) {
    forall i :: 0 <= i < |sizes| ==> sizes[i] <= |high|
  }

  /** Any two lists of requests for as many blocks get the same blocks. */
  ghost predicate SplitIndependent(high: seq<Word64>, c: Word64) {
    forall some, other :: InBuffer(high, some) && InBuffer(high, other) && Sum(some) == Sum(other) ==>
                            Requests(high, c, some) == Requests(high, c, other)
  }

  /** The same blocks for every split of every request, exactly when all high words are equal. */
  lemma SplitIndependentIff(high: seq<Word64>, c: Word64)
    requires |high| > 0
    ensures SplitIndependent(high, c) <==> Uniform(high, high[0])
  {
    hide Requests, Sum;
    if Uniform(high, high[0]) {
      forall some, other | InBuffer(high, some) && InBuffer(high, other) && Sum(some) == Sum(other)
        ensures Requests(high, c, some) == Requests(high, c, other)
      {
        SplitDoesNotMatter(high, high[0], c, some);
        SplitDoesNotMatter(high, high[0], c, other);
      }
    } else {
      var j :| 0 <= j < |high| && high[j] != high[0];
      SplitMatters(high, c, j);
      SplitSum(j);
    }
  }

  lemma SplitSum(j: nat)
    ensures Sum([j + 1]) == Sum([j, 1])
  {
    assert [j + 1][1..] == [] && [j, 1][1..] == [1] && [1][1..] == [];
    assert Sum([1]) == 1;
  }

  /** A whole run of requests on the object. */
  method Run<B>(g: Generator<B>, sizes: seq<nat>) returns (out: seq<B>)
    requires forall i :: 0 <= i < |sizes| ==> sizes[i] <= g.ctr.Length
    modifies g, g.ctr
    ensures out == Encrypted(g.encrypt, Requests(old(g.High()), old(g.ctrInc), sizes))
  {
    out := [];
    ghost var high, all := g.High(), Requests(g.High(), g.ctrInc, sizes);
    for i := 0 to |sizes|
      invariant g.High() == high
      invariant out + Encrypted(g.encrypt, Requests(high, g.ctrInc, sizes[i..])) == Encrypted(g.encrypt, all)
    {
      ghost var c := g.ctrInc;
      assert sizes[i..][0] == sizes[i] && sizes[i..][1..] == sizes[i + 1..];
      var part := g.GetBytes(sizes[i]);
      EncryptedAppend(g.encrypt, Request(high, c, sizes[i]), Requests(high, g.ctrInc, sizes[i + 1..]));
      out := out + part;
    }
    assert sizes[|sizes|..] == [];
  }

  lemma EncryptedAppend<B>(encrypt: Counter -> B, a: seq<Counter>, b: seq<Counter>)
    ensures Encrypted(encrypt, a + b) == Encrypted(encrypt, a) + Encrypted(encrypt, b)
  {
  }

  ghost predicate Injective<B>(encrypt: Counter -> B) {
    forall a, b :: encrypt(a) == encrypt(b) ==> a == b
  }

  /** The t-th output block is the encryption of the t-th counter after the start, with the high word of its place in
      the request; a cipher that is injective gives different blocks, up to 2^64 of them. */
  lemma BlocksDistinct<B>(encrypt: Counter -> B, high: seq<Word64>, c: Word64, sizes: seq<nat>, s: nat, t: nat)
    requires Injective(encrypt) && InBuffer(high, sizes)
    requires s < t < Sum(sizes) && Sum(sizes) <= TWO_64
    ensures var out := Encrypted(encrypt, Requests(high, c, sizes));
            && |out| == Sum(sizes) && out[s] != out[t]
            && Place(sizes, t) < |high| && out[t] == encrypt(Counter(Next(c, t + 1), high[Place(sizes, t)]))
  {
    hide Requests, Sum, Next, Place;
    NoBlockTwice(high, c, sizes, s, t);
    CounterAt(high, c, sizes, t);
  }
}
