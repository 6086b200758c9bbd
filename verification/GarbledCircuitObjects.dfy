/** The garbled circuit as an object with wire and table arrays: garble, compute and translate. */
module GarbledCircuitObjects {
  import opened Congruence
  import opened Blocks
  import opened GarbledCircuits

  /** `2A ^ 4B ^ T`: the left shift of one key, the right shift of the other, and the gate number. */
  function GateKey(a: Block, b: Block, i: nat): Block {
    Xor(Xor(ShiftLeft(a), ShiftRight(b)), Tweak(i))
  }

  function OutputKey(a: Block, i: nat): Block {
    Xor(ShiftLeft(a), Tweak(i))
  }

  /** Masks from a block cipher under a fixed key: the encryption of the key, xored with the key. */
  function FixedKeyMasks(encrypt: Block -> Block): Masks {
    Masks((a, b, i) => Xor(encrypt(GateKey(a, b, i)), GateKey(a, b, i)),
          (a, i) => Xor(encrypt(OutputKey(a, i)), OutputKey(a, i)))
  }

  /** Bit j of the cipher input of a gate: bits `j - 1` and `j + 1` of the two keys in their 64-bit lanes, and of the
      gate number. */
  lemma GateKeyBit(a: Block, b: Block, i: nat, j: nat)
    requires j < 128
    ensures GateKey(a, b, i)[j] ==
            (((j % 64 != 0 && a[j - 1]) != (j % 64 != 63 && b[j + 1])) != (j < 32 && BinaryDigit(i, j)))
  {
    hide BinaryDigit;
  }

  /** A mask with its cipher input xored away is the encryption of that input, for gates and for outputs. */
  lemma MaskIsEncryption(encrypt: Block -> Block, a: Block, b: Block, i: nat)
    ensures Xor(FixedKeyMasks(encrypt).gate(a, b, i), GateKey(a, b, i)) == encrypt(GateKey(a, b, i))
    ensures Xor(FixedKeyMasks(encrypt).output(a, i), OutputKey(a, i)) == encrypt(OutputKey(a, i))
  {
    hide Xor, GateKey, OutputKey;
    XorCancels(encrypt(GateKey(a, b, i)), GateKey(a, b, i));
    XorCancels(encrypt(OutputKey(a, i)), OutputKey(a, i));
  }

  lemma OutputKeyBit(a: Block, i: nat, j: nat)
    requires j < 128
    ensures OutputKey(a, i)[j] == ((j % 64 != 0 && a[j - 1]) != (j < 32 && BinaryDigit(i, j)))
  {
    hide BinaryDigit;
  }

  /** Two gates have the same cipher input exactly when the shifted differences of their keys make up for the difference
      of their numbers. */
  lemma SameInputIff(a: Block, b: Block, i: nat, a': Block, b': Block, i': nat)
    ensures GateKey(a, b, i) == GateKey(a', b', i') <==>
            Xor(ShiftLeft(Xor(a, a')), ShiftRight(Xor(b, b'))) == Xor(Tweak(i), Tweak(i'))
  {
    hide Tweak;
    var x, y := GateKey(a, b, i), GateKey(a', b', i');
    var u, v := Xor(ShiftLeft(Xor(a, a')), ShiftRight(Xor(b, b'))), Xor(Tweak(i), Tweak(i'));
    assert forall j :: 0 <= j < 128 ==> (x[j] == y[j] <==> u[j] == v[j]);
    if x == y { assert forall j :: 0 <= j < 128 ==> u[j] == v[j]; }
    if u == v { assert forall j :: 0 <= j < 128 ==> x[j] == y[j]; }
  }

  /** For one gate and one second key, first keys collide exactly when they agree but for the top bits of the lanes,
      which the shift drops. So different pairs of keys do not always give different cipher inputs. */
  lemma FirstKeysCollideIff(a: Block, a': Block, b: Block, i: nat)
    ensures GateKey(a, b, i) == GateKey(a', b, i) <==>
            forall j :: 0 <= j < 128 && j % 64 != 63 ==> a[j] == a'[j]
  {
    hide Tweak, ShiftRight;
    var x, y := GateKey(a, b, i), GateKey(a', b, i);
    if x == y {
      forall j | 0 <= j < 128 && j % 64 != 63 ensures a[j] == a'[j] {
        assert (j + 1) % 64 != 0 && x[j + 1] == y[j + 1];
      }
    }
    if forall j :: 0 <= j < 128 && j % 64 != 63 ==> a[j] == a'[j] {
      forall j | 0 <= j < 128 ensures x[j] == y[j] {
        if j % 64 != 0 { assert (j - 1) % 64 != 63; }
      }
    }
  }

  lemma TopBitLost(a: Block, b: Block, i: nat)
    ensures a[63 := !a[63]] != a && GateKey(a[63 := !a[63]], b, i) == GateKey(a, b, i)
  {
    hide GateKey;
    var a': Block := a[63 := !a[63]];
    assert a'[63] != a[63];
    FirstKeysCollideIff(a', a, b, i);
  }

  lemma {:induction false} DigitsDetermine(m: nat, n: nat, k: nat)
    requires m < Pow(2, k) && n < Pow(2, k) && forall j: nat :: j < k ==> BinaryDigit(m, j) == BinaryDigit(n, j)
    ensures m == n
    decreases k
  {
    if k == 0 {
    } else {
      assert BinaryDigit(m, 0) == BinaryDigit(n, 0);
      PowUnfolds(2, k - 1);
      forall j: nat | j < k - 1 ensures BinaryDigit(m / 2, j) == BinaryDigit(n / 2, j) {
        assert BinaryDigit(m, j + 1) == BinaryDigit(n, j + 1);
      }
      DigitsDetermine(m / 2, n / 2, k - 1);
    }
  }

  /** Under the same keys, gates with different numbers below 2^32 have different cipher inputs. */
  lemma GateNumbersApart(a: Block, b: Block, i: nat, i': nat)
    requires i < Pow(2, 32) && i' < Pow(2, 32) && GateKey(a, b, i) == GateKey(a, b, i')
    ensures i == i'
  {
    hide Pow, BinaryDigit, GateKey;
    forall j: nat | j < 32 ensures BinaryDigit(i, j) == BinaryDigit(i', j) {
      GateKeyBit(a, b, i, j);
      GateKeyBit(a, b, i', j);
    }
    DigitsDetermine(i, i', 32);
  }

  class GarbledBooleanCircuit {
    const c: Circuit
    const scheme: Scheme
    const nonXorOutputs: bool
    const m: Masks
    const garbledWires: array<Block>
    const computedWires: array<Block>
    const garbledTables: array<Block>
    var deltaFreeXor: Block
    var translationTable: seq<bool>

    /** Position 0 of the wire arrays is wire -1. */
    ghost predicate Valid()
      reads computedWires
    {
      && WellFormed(c)
      && garbledWires.Length == c.wires + 1 && computedWires.Length == c.wires + 1
      && garbledTables.Length == LayerStart(c, scheme) + (if nonXorOutputs then 2 * |c.outputs| else 0)
      && garbledWires != computedWires && garbledWires != garbledTables && computedWires != garbledTables
      && computedWires[0] == Zero()
    }

    constructor (c: Circuit, scheme: Scheme, nonXorOutputs: bool, m: Masks)
      requires WellFormed(c)
      ensures Valid() && this.c == c && this.scheme == scheme && this.nonXorOutputs == nonXorOutputs && this.m == m
      ensures fresh(garbledWires) && fresh(computedWires) && fresh(garbledTables)
    {
      this.c, this.scheme, this.nonXorOutputs, this.m := c, scheme, nonXorOutputs, m;
      garbledWires := new Block[c.wires + 1](_ => Zero());
      computedWires := new Block[c.wires + 1](_ => Zero());
      garbledTables := new Block[LayerStart(c, scheme) + (if nonXorOutputs then 2 * |c.outputs| else 0)](_ => Zero());
      deltaFreeXor, translationTable := Zero(), [];
    }

    ghost function SetupWith(chunk: nat -> Block): Setup
      reads this
    {
      Setup(m, scheme, deltaFreeXor, chunk)
    }

    /** The two keys, the rows of the layer and the translation of the first n outputs. */
    ghost predicate OutputsSet(chunk: nat -> Block, bothOutputKeys: seq<(Block, Block)>, n: nat)
      requires Valid() && n <= |c.outputs| && |bothOutputKeys| == n
      reads this, garbledWires, computedWires, garbledTables
    {
      forall i :: 0 <= i < n ==>
        var zero := garbledWires[c.outputs[i] + 1];
        && bothOutputKeys[i] == OutputPair(SetupWith(chunk), c, nonXorOutputs, zero, i)
        && (nonXorOutputs ==> LayerHolds(SetupWith(chunk), c, zero, garbledTables[..], i))
    }

    /** What both kinds of `garble` establish. */
    ghost predicate Garbled(chunk: nat -> Block, wires: seq<Block>, bothInputKeys: seq<(Block, Block)>,
                            bothOutputKeys: seq<(Block, Block)>)
      requires Fits(c, wires)
      reads this, garbledWires, computedWires, garbledTables
    {
      && Valid() && SignalBit(deltaFreeXor)
      && |bothInputKeys| == |c.inputs| && |bothOutputKeys| == |c.outputs| == |translationTable|
      && (forall i :: 0 <= i < |c.inputs| ==> bothInputKeys[i] == (chunk(i), Xor(chunk(i), deltaFreeXor)))
      && var start := StartZeros(c, wires, deltaFreeXor, InputZeros(c, chunk));
      && garbledWires[..] == Zeros(SetupWith(chunk), c, start, |c.gates|)
      && TablesMatch(SetupWith(chunk), c, start, garbledTables[..])
      && OutputsSet(chunk, bothOutputKeys, |c.outputs|)
      && forall i :: 0 <= i < |c.outputs| ==> translationTable[i] == SignalBit(bothOutputKeys[i].0)
    }

    /** One identity gate: its new keys, and its two rows by the signal bit of the old key. */
    method IdentityGate(i: nat, chunk: nat -> Block) returns (keys: (Block, Block))
      requires Valid() && nonXorOutputs && i < |c.outputs|
      modifies garbledTables
      ensures Valid() && keys == OutputPair(SetupWith(chunk), c, true, garbledWires[c.outputs[i] + 1], i)
      ensures LayerHolds(SetupWith(chunk), c, garbledWires[c.outputs[i] + 1], garbledTables[..], i)
      ensures forall j :: 0 <= j < garbledTables.Length && j < LayerStart(c, scheme) + 2 * i ==>
        garbledTables[j] == old(garbledTables[j])
    {
      hide Xor, TableStart, Tabled;
      var zero, number := garbledWires[c.outputs[i] + 1], OutputNumber(c, i);
      if !SignalBit(zero) {
        keys := (zero, SetSignal(chunk(number)));
      } else {
        keys := (ClearFirstByte(chunk(number)), zero);
      }
      var row0 := Xor(m.output(zero, number), keys.0);
      var row1 := Xor(m.output(Xor(zero, deltaFreeXor), number), keys.1);
      var at := LayerStart(c, scheme) + 2 * i;
      if !SignalBit(zero) {
        garbledTables[at], garbledTables[at + 1] := row0, row1;
      } else {
        garbledTables[at + 1], garbledTables[at] := row0, row1;
      }
    }

    /** `garbleOutputWiresToNoFixedDelta`. */
    method GarbleOutputs(chunk: nat -> Block) returns (bothOutputKeys: seq<(Block, Block)>)
      requires Valid() && nonXorOutputs
      modifies garbledTables
      ensures Valid() && |bothOutputKeys| == |c.outputs| && OutputsSet(chunk, bothOutputKeys, |c.outputs|)
      ensures forall j :: 0 <= j < garbledTables.Length && j < LayerStart(c, scheme) ==>
        garbledTables[j] == old(garbledTables[j])
    {
      hide LayerHolds, OutputPair, LayerStart;
      bothOutputKeys := [];
      for i := 0 to |c.outputs|
        invariant Valid() && |bothOutputKeys| == i && OutputsSet(chunk, bothOutputKeys, i)
        invariant forall j :: 0 <= j < garbledTables.Length && j < LayerStart(c, scheme) ==>
          garbledTables[j] == old(garbledTables[j])
      {
        ghost var tables := garbledTables[..];
        var keys := IdentityGate(i, chunk);
        bothOutputKeys := bothOutputKeys + [keys];
        forall k | 0 <= k < i
          ensures LayerHolds(SetupWith(chunk), c, garbledWires[c.outputs[k] + 1], garbledTables[..], k)
        {
          LayerKept(SetupWith(chunk), c, garbledWires[c.outputs[k] + 1], tables, garbledTables[..], k, i);
        }
      }
    }

    method CopyOutputs(ghost chunk: nat -> Block) returns (bothOutputKeys: seq<(Block, Block)>)
      requires Valid() && !nonXorOutputs
      ensures |bothOutputKeys| == |c.outputs| && OutputsSet(chunk, bothOutputKeys, |c.outputs|)
    {
      bothOutputKeys := [];
      for i := 0 to |c.outputs|
        invariant |bothOutputKeys| == i && OutputsSet(chunk, bothOutputKeys, i)
      {
        var zero := garbledWires[c.outputs[i] + 1];
        bothOutputKeys := bothOutputKeys + [(zero, Xor(zero, deltaFreeXor))];
      }
    }

    /** Sets the output keys and fills the translation table. */
    method Finish(chunk: nat -> Block) returns (bothOutputKeys: seq<(Block, Block)>)
      requires Valid()
      modifies this, garbledTables
      ensures Valid() && deltaFreeXor == old(deltaFreeXor)
      ensures |bothOutputKeys| == |c.outputs| == |translationTable| && OutputsSet(chunk, bothOutputKeys, |c.outputs|)
      ensures forall i :: 0 <= i < |c.outputs| ==> translationTable[i] == SignalBit(bothOutputKeys[i].0)
      ensures forall j :: 0 <= j < garbledTables.Length && j < LayerStart(c, scheme) ==>
        garbledTables[j] == old(garbledTables[j])
    {
      if nonXorOutputs {
        bothOutputKeys := GarbleOutputs(chunk);
      } else {
        bothOutputKeys := CopyOutputs(chunk);
      }
      SetTranslation(bothOutputKeys);
    }

    method SetTranslation(bothOutputKeys: seq<(Block, Block)>)
      modifies this`translationTable
      ensures |translationTable| == |bothOutputKeys|
      ensures forall i :: 0 <= i < |bothOutputKeys| ==> translationTable[i] == SignalBit(bothOutputKeys[i].0)
    {
      translationTable := [];
      for i := 0 to |bothOutputKeys|
        invariant |translationTable| == i
        invariant forall j :: 0 <= j < i ==> translationTable[j] == SignalBit(bothOutputKeys[j].0)
      {
        translationTable := translationTable + [SignalBit(bothOutputKeys[i].0)];
      }
    }

    /** Zero-keys of the inputs from the seed, and the difference as the zero-key of wire -1. */
    method InitKeys(seedDelta: Block, chunk: nat -> Block) returns (bothInputKeys: seq<(Block, Block)>)
      requires Valid()
      modifies this, garbledWires
      ensures Valid() && deltaFreeXor == SetSignal(seedDelta)
      ensures |bothInputKeys| == |c.inputs|
      ensures forall i :: 0 <= i < |c.inputs| ==> bothInputKeys[i] == (chunk(i), Xor(chunk(i), deltaFreeXor))
      ensures garbledWires[..] == StartZeros(c, old(garbledWires[..]), deltaFreeXor, InputZeros(c, chunk))
    {
      hide Assign, Xor, SetSignal, Zero;
      deltaFreeXor := SetSignal(seedDelta);
      bothInputKeys := [];
      garbledWires[0] := deltaFreeXor;
      ghost var wires, zs := garbledWires[..], InputZeros(c, chunk);
      assert wires == old(garbledWires[..])[0 := deltaFreeXor];
      AssignNone(wires, c.inputs, zs);
      for i := 0 to |c.inputs|
        invariant Valid() && |bothInputKeys| == i && deltaFreeXor == SetSignal(seedDelta)
        invariant forall j :: 0 <= j < i ==> bothInputKeys[j] == (chunk(j), Xor(chunk(j), deltaFreeXor))
        invariant garbledWires[..] == Assign(wires, c.inputs[..i], zs[..i])
      {
        garbledWires[c.inputs[i] + 1] := chunk(i);
        bothInputKeys := bothInputKeys + [(chunk(i), Xor(chunk(i), deltaFreeXor))];
        AssignNext(wires, c.inputs, zs, i);
      }
      assert c.inputs[..|c.inputs|] == c.inputs && zs[..|zs|] == zs;
    }

    /** A free gate: the xor of the two zero-keys, and of the difference for the negated gate. */
    method SetFreeKey(i: nat, ghost chunk: nat -> Block)
      requires Valid() && i < |c.gates| && Free(c.gates[i])
      modifies garbledWires
      ensures Valid() && garbledWires[..] == ZerosStep(SetupWith(chunk), c, old(garbledWires[..]), i)
    {
      GateInRange(c, i);
      var g := c.gates[i];
      var a0, b0 := garbledWires[g.input0 + 1], garbledWires[g.input1 + 1];
      if g.table == XOR_GATE {
        garbledWires[g.output + 1] := Xor(a0, b0);
      } else {
        garbledWires[g.output + 1] := Xor(Xor(a0, b0), deltaFreeXor);
      }
    }

    /** The contents of the four rows, in the order of the input values. */
    method ComputeRows(g: Gate, i: nat, a0: Block, b0: Block, out0: Block) returns (rows: seq<Block>)
      requires |g.bits| == 4
      ensures |rows| == 4 && forall x, y :: rows[Row(x, y)] == RowFor(m, deltaFreeXor, a0, b0, out0, g, i, x, y)
    {
      rows := [];
      for a := 0 to 2
        invariant |rows| == 2 * a
        invariant forall x, y :: Row(x, y) < |rows| ==>
          rows[Row(x, y)] == RowFor(m, deltaFreeXor, a0, b0, out0, g, i, x, y)
      {
        for b := 0 to 2
          invariant |rows| == 2 * a + b
          invariant forall x, y :: Row(x, y) < |rows| ==>
            rows[Row(x, y)] == RowFor(m, deltaFreeXor, a0, b0, out0, g, i, x, y)
        {
          var x, y := a == 1, b == 1;
          assert Row(x, y) == 2 * a + b;
          var mask := m.gate(KeyOf(a0, deltaFreeXor, x), KeyOf(b0, deltaFreeXor, y), i);
          rows := rows + [Xor(mask, KeyOf(out0, deltaFreeXor, g.bits[2 * a + b]))];
        }
      }
    }

    /** Places each row by the signal bits of its two keys; `s0` and `t0` are those of the zero-keys. */
    method PlaceRows(k: nat, s0: bool, t0: bool, rows: seq<Block>)
      requires |rows| == 4 && 4 * k + 4 <= garbledTables.Length
      modifies garbledTables
      ensures forall a, b :: 0 <= a < 2 && 0 <= b < 2 ==> garbledTables[4 * k + Place(s0, t0, a, b)] == rows[2 * a + b]
      ensures forall j :: 0 <= j < 4 * k ==> garbledTables[j] == old(garbledTables[j])
    {
      hide Place;
      for a := 0 to 2
        invariant forall a', b' :: 0 <= a' < a && 0 <= b' < 2 ==>
          garbledTables[4 * k + Place(s0, t0, a', b')] == rows[2 * a' + b']
        invariant forall j :: 0 <= j < 4 * k ==> garbledTables[j] == old(garbledTables[j])
      {
        for b := 0 to 2
          invariant forall a', b' :: 0 <= a' < a && 0 <= b' < 2 ==>
            garbledTables[4 * k + Place(s0, t0, a', b')] == rows[2 * a' + b']
          invariant forall b' :: 0 <= b' < b ==> garbledTables[4 * k + Place(s0, t0, a, b')] == rows[2 * a + b']
          invariant forall j :: 0 <= j < 4 * k ==> garbledTables[j] == old(garbledTables[j])
        {
          PlaceApart(s0, t0, a, b);
          garbledTables[4 * k + Place(s0, t0, a, b)] := rows[2 * a + b];
        }
      }
    }

    /** The four rows of one gate. */
    method FourRowGate(g: Gate, i: nat, k: nat, a0: Block, b0: Block, out0: Block)
      requires |g.bits| == 4 && 4 * k + 4 <= garbledTables.Length
      modifies garbledTables
      ensures HoldsRows(m, FourRows, deltaFreeXor, a0, b0, out0, g, i, garbledTables[..], k)
      ensures forall j :: 0 <= j < 4 * k ==> garbledTables[j] == old(garbledTables[j])
    {
      var rows := ComputeRows(g, i, a0, b0, out0);
      PlaceRows(k, SignalBit(a0), SignalBit(b0), rows);
      PlacedRows(m, deltaFreeXor, a0, b0, out0, g, i, garbledTables[..], k, rows);
    }

    method FillFourRows(i: nat, k: nat, chunk: nat -> Block)
      requires Valid() && scheme == FourRows && i < |c.gates| && k == Tabled(c, i) && !Free(c.gates[i])
      modifies garbledTables
      ensures Valid() && RowsOf(SetupWith(chunk), c, garbledWires[..], garbledTables[..], i)
      ensures forall j :: 0 <= j < garbledTables.Length && j < 4 * k ==> garbledTables[j] == old(garbledTables[j])
    {
      hide RowContent;
      GateInRange(c, i);
      EntryInRange(c, scheme, garbledTables.Length, i);
      var g := c.gates[i];
      var a0, b0 := garbledWires[g.input0 + 1], garbledWires[g.input1 + 1];
      FourRowGate(g, i, k, a0, b0, chunk(k));
      RowsOfIntro(SetupWith(chunk), c, garbledWires[..], garbledTables[..], i, a0, b0, chunk(k));
    }

    /** One gate of the four-row `garble`. */
    method FreeXorGate(i: nat, nonXorIndex: nat, chunk: nat -> Block)
      requires Valid() && scheme == FourRows && i < |c.gates| && nonXorIndex == Tabled(c, i)
      modifies garbledWires, garbledTables
      ensures Valid() && garbledWires[..] == ZerosStep(SetupWith(chunk), c, old(garbledWires[..]), i)
      ensures !Free(c.gates[i]) ==> RowsOf(SetupWith(chunk), c, old(garbledWires[..]), garbledTables[..], i)
      ensures forall j :: 0 <= j < garbledTables.Length && j < 4 * Tabled(c, i) ==>
        garbledTables[j] == old(garbledTables[j])
    {
      GateInRange(c, i);
      var g := c.gates[i];
      if Free(g) {
        SetFreeKey(i, chunk);
      } else {
        FillFourRows(i, nonXorIndex, chunk);
        garbledWires[g.output + 1] := chunk(nonXorIndex);
      }
    }

    method FreeXorStep(i: nat, nonXorIndex: nat, chunk: nat -> Block, ghost start: seq<Block>)
      requires Valid() && scheme == FourRows && i < |c.gates| && nonXorIndex == Tabled(c, i) && SignalBit(deltaFreeXor)
      requires Fits(c, start) && garbledWires[..] == Zeros(SetupWith(chunk), c, start, i)
      requires TablesMatchUpTo(SetupWith(chunk), c, start, garbledTables[..], i)
      modifies garbledWires, garbledTables
      ensures Valid() && garbledWires[..] == Zeros(SetupWith(chunk), c, start, i + 1)
      ensures TablesMatchUpTo(SetupWith(chunk), c, start, garbledTables[..], i + 1)
    {
      ghost var before := garbledTables[..];
      FreeXorGate(i, nonXorIndex, chunk);
      NextRows(SetupWith(chunk), c, start, before, garbledTables[..], i);
    }

    /** `garble` of the four-row circuit: zero-keys and tables as specified, for every seed. */
    method GarbleFreeXor(seedDelta: Block, chunk: nat -> Block)
        returns (bothInputKeys: seq<(Block, Block)>, bothOutputKeys: seq<(Block, Block)>)
      requires Valid() && scheme == FourRows
      modifies this, garbledWires, garbledTables
      ensures Garbled(chunk, old(garbledWires[..]), bothInputKeys, bothOutputKeys)
      ensures deltaFreeXor == SetSignal(seedDelta)
    {
      hide RowMatches, ZerosStep, Assign, OutputPair, LayerHolds;
      bothInputKeys := InitKeys(seedDelta, chunk);
      ghost var start, p := garbledWires[..], SetupWith(chunk);
      var nonXorIndex := 0;
      for i := 0 to |c.gates|
        invariant Valid() && deltaFreeXor == SetSignal(seedDelta) && nonXorIndex == Tabled(c, i)
        invariant garbledWires[..] == Zeros(p, c, start, i)
        invariant TablesMatchUpTo(p, c, start, garbledTables[..], i)
      {
        FreeXorStep(i, nonXorIndex, chunk, start);
        if !Free(c.gates[i]) {
          nonXorIndex := nonXorIndex + 1;
        }
      }
      ghost var tables := garbledTables[..];
      bothOutputKeys := Finish(chunk);
      TablesKept(p, c, start, tables, garbledTables[..]);
    }

    /** The masks of the four rows, in the order of the signal bits. */
    method ComputeMasks(i: nat, a0: Block, b0: Block) returns (masks: seq<Block>)
      ensures |masks| == 4
      ensures forall s, t ::
        masks[Row(s, t)] == MaskFor(m, deltaFreeXor, a0, b0, i, s != SignalBit(a0), t != SignalBit(b0))
    {
      var s0, t0 := SignalBit(a0), SignalBit(b0);
      masks := [];
      for a := 0 to 2
        invariant |masks| == 2 * a
        invariant forall s, t :: Row(s, t) < |masks| ==>
          masks[Row(s, t)] == MaskFor(m, deltaFreeXor, a0, b0, i, s != s0, t != t0)
      {
        for b := 0 to 2
          invariant |masks| == 2 * a + b
          invariant forall s, t :: Row(s, t) < |masks| ==>
            masks[Row(s, t)] == MaskFor(m, deltaFreeXor, a0, b0, i, s != s0, t != t0)
        {
          assert Row(a == 1, b == 1) == 2 * a + b;
          masks := masks + [m.gate(KeyOf(a0, deltaFreeXor, (a == 1) != s0), KeyOf(b0, deltaFreeXor, (b == 1) != t0),
                                   i)];
        }
      }
    }

    /** The row with signal bits zero fixes the output key; the other three rows are stored. */
    method StoreThreeRows(k: nat, masks: seq<Block>, bits: seq<bool>) returns (out0: Block)
      requires |masks| == 4 && |bits| == 4 && 3 * k + 3 <= garbledTables.Length
      modifies garbledTables
      ensures out0 == KeyOf(masks[0], deltaFreeXor, bits[0])
      ensures forall l :: 1 <= l < 4 ==>
        garbledTables[3 * k + l - 1] == Xor(masks[l], KeyOf(out0, deltaFreeXor, bits[l]))
      ensures forall j :: 0 <= j < 3 * k ==> garbledTables[j] == old(garbledTables[j])
    {
      out0 := Zero();
      for a := 0 to 2
        invariant a > 0 ==> out0 == KeyOf(masks[0], deltaFreeXor, bits[0])
        invariant forall l :: 1 <= l < 2 * a ==>
          garbledTables[3 * k + l - 1] == Xor(masks[l], KeyOf(out0, deltaFreeXor, bits[l]))
        invariant forall j :: 0 <= j < 3 * k ==> garbledTables[j] == old(garbledTables[j])
      {
        for b := 0 to 2
          invariant 2 * a + b > 0 ==> out0 == KeyOf(masks[0], deltaFreeXor, bits[0])
          invariant forall l :: 1 <= l < 2 * a + b ==>
            garbledTables[3 * k + l - 1] == Xor(masks[l], KeyOf(out0, deltaFreeXor, bits[l]))
          invariant forall j :: 0 <= j < 3 * k ==> garbledTables[j] == old(garbledTables[j])
        {
          if a == 0 && b == 0 {
            out0 := if bits[0] then Xor(masks[0], deltaFreeXor) else masks[0];
          } else if bits[2 * a + b] {
            garbledTables[3 * k + 2 * a + b - 1] := Xor(masks[2 * a + b], Xor(out0, deltaFreeXor));
          } else {
            garbledTables[3 * k + 2 * a + b - 1] := Xor(masks[2 * a + b], out0);
          }
        }
      }
    }

    /** The truth-table bits in the order of the signal bits. */
    method BitsBySignal(bits: seq<bool>, s0: bool, t0: bool) returns (r: seq<bool>)
      requires |bits| == 4
      ensures |r| == 4 && forall s, t :: r[Row(s, t)] == bits[Row(s != s0, t != t0)]
    {
      r := [bits[Row(s0, t0)], bits[Row(s0, !t0)], bits[Row(!s0, t0)], bits[Row(!s0, !t0)]];
    }

    /** The output key and the three stored rows of one gate. */
    method ThreeRowGate(g: Gate, i: nat, k: nat, a0: Block, b0: Block, ghost chunk: Block) returns (out0: Block)
      requires |g.bits| == 4 && !Free(g) && 3 * k + 3 <= garbledTables.Length
      modifies garbledTables
      ensures out0 == OutZero(m, RowReduction, deltaFreeXor, a0, b0, chunk, g, i)
      ensures HoldsRows(m, RowReduction, deltaFreeXor, a0, b0, out0, g, i, garbledTables[..], k)
      ensures forall j :: 0 <= j < 3 * k ==> garbledTables[j] == old(garbledTables[j])
    {
      var masks := ComputeMasks(i, a0, b0);
      var bits := BitsBySignal(g.bits, SignalBit(a0), SignalBit(b0));
      out0 := StoreThreeRows(k, masks, bits);
      assert Reduced(m, deltaFreeXor, a0, b0, out0, g, i, garbledTables[..], k, masks, bits);
      ReducedOutput(m, deltaFreeXor, a0, b0, out0, g, i, garbledTables[..], k, masks, bits, chunk);
      ReducedRows(m, deltaFreeXor, a0, b0, out0, g, i, garbledTables[..], k, masks, bits);
    }

    method FillThreeRows(i: nat, k: nat, chunk: nat -> Block) returns (out0: Block)
      requires Valid() && scheme == RowReduction && i < |c.gates| && k == Tabled(c, i) && !Free(c.gates[i])
      modifies garbledTables
      ensures Valid() && out0 == OutputZero(SetupWith(chunk), c, garbledWires[..], i)
      ensures RowsOf(SetupWith(chunk), c, garbledWires[..], garbledTables[..], i)
      ensures forall j :: 0 <= j < garbledTables.Length && j < 3 * k ==> garbledTables[j] == old(garbledTables[j])
    {
      hide RowContent, OutZero;
      GateInRange(c, i);
      EntryInRange(c, scheme, garbledTables.Length, i);
      var g := c.gates[i];
      var a0, b0 := garbledWires[g.input0 + 1], garbledWires[g.input1 + 1];
      out0 := ThreeRowGate(g, i, k, a0, b0, chunk(k));
      RowsOfIntro(SetupWith(chunk), c, garbledWires[..], garbledTables[..], i, a0, b0, out0);
    }

    /** One gate of the row-reduced `garble`. */
    method RowReductionGate(i: nat, nonXorIndex: nat, chunk: nat -> Block)
      requires Valid() && scheme == RowReduction && i < |c.gates| && nonXorIndex == Tabled(c, i)
      modifies garbledWires, garbledTables
      ensures Valid() && garbledWires[..] == ZerosStep(SetupWith(chunk), c, old(garbledWires[..]), i)
      ensures !Free(c.gates[i]) ==> RowsOf(SetupWith(chunk), c, old(garbledWires[..]), garbledTables[..], i)
      ensures forall j :: 0 <= j < garbledTables.Length && j < 3 * Tabled(c, i) ==>
        garbledTables[j] == old(garbledTables[j])
    {
      GateInRange(c, i);
      var g := c.gates[i];
      if Free(g) {
        SetFreeKey(i, chunk);
      } else {
        var out0 := FillThreeRows(i, nonXorIndex, chunk);
        garbledWires[g.output + 1] := out0;
      }
    }

    method RowReductionStep(i: nat, nonXorIndex: nat, chunk: nat -> Block, ghost start: seq<Block>)
      requires Valid() && scheme == RowReduction && i < |c.gates| && nonXorIndex == Tabled(c, i)
      requires SignalBit(deltaFreeXor)
      requires Fits(c, start) && garbledWires[..] == Zeros(SetupWith(chunk), c, start, i)
      requires TablesMatchUpTo(SetupWith(chunk), c, start, garbledTables[..], i)
      modifies garbledWires, garbledTables
      ensures Valid() && garbledWires[..] == Zeros(SetupWith(chunk), c, start, i + 1)
      ensures TablesMatchUpTo(SetupWith(chunk), c, start, garbledTables[..], i + 1)
    {
      ghost var before := garbledTables[..];
      RowReductionGate(i, nonXorIndex, chunk);
      NextRows(SetupWith(chunk), c, start, before, garbledTables[..], i);
    }

    /** `garble` of the row-reduced circuit. */
    method GarbleRowReduction(seedDelta: Block, chunk: nat -> Block)
        returns (bothInputKeys: seq<(Block, Block)>, bothOutputKeys: seq<(Block, Block)>)
      requires Valid() && scheme == RowReduction
      modifies this, garbledWires, garbledTables
      ensures Garbled(chunk, old(garbledWires[..]), bothInputKeys, bothOutputKeys)
      ensures deltaFreeXor == SetSignal(seedDelta)
    {
      hide RowMatches, ZerosStep, Assign, OutputPair, LayerHolds;
      bothInputKeys := InitKeys(seedDelta, chunk);
      ghost var start, p := garbledWires[..], SetupWith(chunk);
      var nonXorIndex := 0;
      for i := 0 to |c.gates|
        invariant Valid() && deltaFreeXor == SetSignal(seedDelta) && nonXorIndex == Tabled(c, i)
        invariant garbledWires[..] == Zeros(p, c, start, i)
        invariant TablesMatchUpTo(p, c, start, garbledTables[..], i)
      {
        RowReductionStep(i, nonXorIndex, chunk, start);
        if !Free(c.gates[i]) {
          nonXorIndex := nonXorIndex + 1;
        }
      }
      ghost var tables := garbledTables[..];
      bothOutputKeys := Finish(chunk);
      TablesKept(p, c, start, tables, garbledTables[..]);
    }

    /** The key of the output of a gate, for three and for four rows. */
    method GateValue(i: nat, nonXorIndex: nat, a: Block, b: Block) returns (key: Block)
      requires Valid() && i < |c.gates| && nonXorIndex == Tabled(c, i)
      ensures key == EvaluateGate(m, c.gates[i], i, a, b, LookUp(c, scheme, garbledTables[..], i, a, b))
    {
      var g, jump := c.gates[i], Rows(scheme);
      if Free(g) {
        return Xor(a, b);
      }
      EntryInRange(c, scheme, garbledTables.Length, i);
      var row := (if SignalBit(a) then 2 else 0) + (if SignalBit(b) then 1 else 0);
      var rowIndex := if jump == 3 then row - 1 else row;
      var mask := m.gate(a, b, i);
      if jump == 3 && rowIndex == -1 {
        XorCancels(mask, mask);
        return mask;
      }
      return Xor(mask, garbledTables[TableStart(scheme, nonXorIndex) + rowIndex]);
    }

    /** One gate of `compute`. */
    method ComputeGate(i: nat, nonXorIndex: nat)
      requires Valid() && i < |c.gates| && nonXorIndex == Tabled(c, i)
      modifies computedWires
      ensures Valid()
      ensures computedWires[..] == EvaluateStep(m, scheme, c, garbledTables[..], old(computedWires[..]), i)
    {
      hide LookUp, EvaluateGate, Zero;
      GateInRange(c, i);
      var g := c.gates[i];
      ghost var before := computedWires[..];
      var key := GateValue(i, nonXorIndex, computedWires[g.input0 + 1], computedWires[g.input1 + 1]);
      computedWires[g.output + 1] := key;
      assert computedWires[..] == before[g.output + 1 := key];
    }

    method LoadInputs(inputKeys: seq<Block>)
      requires Valid() && |inputKeys| == |c.inputs|
      modifies computedWires
      ensures Valid() && computedWires[..] == Assign(old(computedWires[..]), c.inputs, inputKeys)
    {
      ghost var wires := computedWires[..];
      for i := 0 to |c.inputs|
        invariant Valid() && computedWires[..] == Assign(wires, c.inputs[..i], inputKeys[..i])
      {
        computedWires[c.inputs[i] + 1] := inputKeys[i];
        AssignNext(wires, c.inputs, inputKeys, i);
      }
      assert c.inputs[..|c.inputs|] == c.inputs && inputKeys[..|inputKeys|] == inputKeys;
    }

    method ComputeGates() returns (nonXorIndex: nat)
      requires Valid()
      modifies computedWires
      ensures Valid() && nonXorIndex == Tabled(c, |c.gates|)
      ensures computedWires[..] == Evaluate(m, scheme, c, garbledTables[..], old(computedWires[..]), |c.gates|)
    {
      hide EvaluateStep, WellFormed;
      ghost var start, tables := computedWires[..], garbledTables[..];
      nonXorIndex := 0;
      for i := 0 to |c.gates|
        invariant Valid() && nonXorIndex == Tabled(c, i) && garbledTables[..] == tables
        invariant computedWires[..] == Evaluate(m, scheme, c, tables, start, i)
      {
        ComputeGate(i, nonXorIndex);
        if !Free(c.gates[i]) {
          nonXorIndex := nonXorIndex + 1;
        }
      }
    }

    /** The identity gates (`computeOutputWiresToNoFixedDelta`), or the keys as they are. */
    method ReadOutputs(nonXorIndex: nat) returns (outputKeys: seq<Block>)
      requires Valid() && nonXorIndex == Tabled(c, |c.gates|)
      ensures |outputKeys| == |c.outputs|
      ensures forall i :: 0 <= i < |c.outputs| ==>
        outputKeys[i] == FinalKey(m, c, scheme, nonXorOutputs, garbledTables[..], computedWires[c.outputs[i] + 1], i)
    {
      outputKeys := [];
      for i := 0 to |c.outputs|
        invariant |outputKeys| == i
        invariant forall j :: 0 <= j < i ==>
          outputKeys[j] == FinalKey(m, c, scheme, nonXorOutputs, garbledTables[..], computedWires[c.outputs[j] + 1], j)
      {
        var key := computedWires[c.outputs[i] + 1];
        if nonXorOutputs {
          var at := TableStart(scheme, nonXorIndex) + 2 * i;
          var row := if !SignalBit(key) then garbledTables[at] else garbledTables[at + 1];
          outputKeys := outputKeys + [Xor(m.output(key, OutputNumber(c, i)), row)];
        } else {
          outputKeys := outputKeys + [key];
        }
      }
    }

    /** `compute`: one key per input to one key per output. */
    method Compute(inputKeys: seq<Block>) returns (outputKeys: seq<Block>)
      requires Valid() && |inputKeys| == |c.inputs|
      modifies computedWires
      ensures Valid() && |outputKeys| == |c.outputs|
      ensures var start := Assign(old(computedWires[..]), c.inputs, inputKeys);
              var keys := Evaluate(m, scheme, c, garbledTables[..], start, |c.gates|);
              forall i :: 0 <= i < |c.outputs| ==>
                outputKeys[i] == FinalKey(m, c, scheme, nonXorOutputs, garbledTables[..], keys[c.outputs[i] + 1], i)
    {
      hide Evaluate, FinalKey;
      LoadInputs(inputKeys);
      var nonXorIndex := ComputeGates();
      outputKeys := ReadOutputs(nonXorIndex);
    }

    /** `translate`: signal bits xored with the translation table. */
    method Translate(outputKeys: seq<Block>) returns (answer: seq<bool>)
      requires |outputKeys| == |translationTable|
      ensures |answer| == |outputKeys|
      ensures forall i :: 0 <= i < |answer| ==> answer[i] == (SignalBit(outputKeys[i]) != translationTable[i])
    {
      answer := [];
      for i := 0 to |outputKeys|
        invariant |answer| == i
        invariant forall j :: 0 <= j < i ==> answer[j] == (SignalBit(outputKeys[j]) != translationTable[j])
      {
        answer := answer + [SignalBit(outputKeys[i]) != translationTable[i]];
      }
    }
  }

  /** The plain outputs of a circuit. */
  ghost function PlainOutputs(c: Circuit, xs: seq<bool>): seq<bool>
    requires WellFormed(c) && |xs| == |c.inputs|
  {
    var wires := seq(c.wires + 1, _ => false);
    var values := Plain(c, StartValues(c, wires, xs), |c.gates|);
    seq(|c.outputs|, i requires 0 <= i < |c.outputs| => values[c.outputs[i] + 1])
  }

  /** The selection an evaluator is given: for each input bit one of the two keys. */
  function Choose(bothInputKeys: seq<(Block, Block)>, xs: seq<bool>): seq<Block>
    requires |bothInputKeys| == |xs|
  {
    seq(|xs|, i requires 0 <= i < |xs| => if xs[i] then bothInputKeys[i].1 else bothInputKeys[i].0)
  }

  /** The keys of a run: each output has two different keys, and what was computed is the one of its value. */
  predicate KeysTell(bothOutputKeys: seq<(Block, Block)>, keys: seq<Block>, answer: seq<bool>)
    requires |bothOutputKeys| == |keys| == |answer|
  {
    forall i :: 0 <= i < |keys| ==>
      && SignalBit(bothOutputKeys[i].0) != SignalBit(bothOutputKeys[i].1)
      && keys[i] == if answer[i] then bothOutputKeys[i].1 else bothOutputKeys[i].0
  }

  /** Garble, compute and translate agree with plain evaluation, for every circuit, input and seed, in both schemes,
      with and without the layer of identity gates; the object may have been used before. The input keys are those
      drawn from the seed, and the computed keys are those of the answer. */
  method Run(gc: GarbledBooleanCircuit, seedDelta: Block, chunk: nat -> Block, xs: seq<bool>)
      returns (answer: seq<bool>, bothInputKeys: seq<(Block, Block)>, bothOutputKeys: seq<(Block, Block)>,
               keys: seq<Block>)
    requires gc.Valid() && |xs| == |gc.c.inputs|
    modifies gc, gc.garbledWires, gc.computedWires, gc.garbledTables
    ensures answer == PlainOutputs(gc.c, xs)
    ensures |bothInputKeys| == |xs| && |bothOutputKeys| == |keys| == |answer|
    ensures forall i :: 0 <= i < |xs| ==> bothInputKeys[i] == (chunk(i), Xor(chunk(i), SetSignal(seedDelta)))
    ensures KeysTell(bothOutputKeys, keys, answer)
  {
    hide Zeros, TablesMatch, Evaluate, StartZeros, FinalKey, OutputsMatch, Assign, WellFormed, Xor, PlainOutputs,
      KeysTell;
    ghost var wires, computed := gc.garbledWires[..], gc.computedWires[..];
    bothInputKeys, bothOutputKeys := GarbleEither(gc, seedDelta, chunk);
    ghost var zs, p, tables := InputZeros(gc.c, chunk), gc.SetupWith(chunk), gc.garbledTables[..];
    var choice := Choose(bothInputKeys, xs);
    assert choice == Select(zs, p.delta, xs);
    keys := gc.Compute(choice);
    answer := gc.Translate(keys);
    AnswerIsPlain(p, gc.c, gc.nonXorOutputs, wires, computed, zs, xs, tables, bothOutputKeys, keys, answer);
  }

  /** The two keys of every output, and the rows of the layer, from the zero-keys. */
  ghost predicate OutputsMatch(p: Setup, c: Circuit, layer: bool, zeros: seq<Block>, tables: seq<Block>,
                               bothOutputKeys: seq<(Block, Block)>)
    requires WellFormed(c) && Fits(c, zeros) && |bothOutputKeys| == |c.outputs|
    requires layer ==> LayerFits(c, p.scheme, |tables|)
  {
    forall i :: 0 <= i < |c.outputs| ==>
      && bothOutputKeys[i] == OutputPair(p, c, layer, zeros[c.outputs[i] + 1], i)
      && (layer ==> LayerHolds(p, c, zeros[c.outputs[i] + 1], tables, i))
  }

  /** The `garble` of the object's own scheme. */
  method GarbleEither(gc: GarbledBooleanCircuit, seedDelta: Block, chunk: nat -> Block)
      returns (bothInputKeys: seq<(Block, Block)>, bothOutputKeys: seq<(Block, Block)>)
    requires gc.Valid()
    modifies gc, gc.garbledWires, gc.garbledTables
    ensures gc.Valid() && gc.deltaFreeXor == SetSignal(seedDelta)
    ensures |bothInputKeys| == |gc.c.inputs| && |bothOutputKeys| == |gc.translationTable| == |gc.c.outputs|
    ensures forall i :: 0 <= i < |gc.c.inputs| ==> bothInputKeys[i] == (chunk(i), Xor(chunk(i), gc.deltaFreeXor))
    ensures var p := gc.SetupWith(chunk);
            var start := StartZeros(gc.c, old(gc.garbledWires[..]), p.delta, InputZeros(gc.c, chunk));
            var zeros := Zeros(p, gc.c, start, |gc.c.gates|);
            && TablesMatch(p, gc.c, start, gc.garbledTables[..])
            && OutputsMatch(p, gc.c, gc.nonXorOutputs, zeros, gc.garbledTables[..], bothOutputKeys)
    ensures forall i :: 0 <= i < |gc.c.outputs| ==> gc.translationTable[i] == SignalBit(bothOutputKeys[i].0)
  {
    hide Zeros, TablesMatch, LayerHolds, OutputPair, StartZeros;
    if gc.scheme == FourRows {
      bothInputKeys, bothOutputKeys := gc.GarbleFreeXor(seedDelta, chunk);
    } else {
      bothInputKeys, bothOutputKeys := gc.GarbleRowReduction(seedDelta, chunk);
    }
  }

  /** What `compute` returns on the keys that were chosen. */
  ghost predicate ComputedFrom(p: Setup, c: Circuit, layer: bool, computed: seq<Block>, choice: seq<Block>,
                               tables: seq<Block>, keys: seq<Block>)
    requires WellFormed(c) && Fits(c, computed) && |choice| == |c.inputs| && |keys| == |c.outputs|
    requires TablesFit(c, p.scheme, tables) && (layer ==> LayerFits(c, p.scheme, |tables|))
  {
    var wires := Evaluate(p.m, p.scheme, c, tables, Assign(computed, c.inputs, choice), |c.gates|);
    forall i :: 0 <= i < |c.outputs| ==>
      keys[i] == FinalKey(p.m, c, p.scheme, layer, tables, wires[c.outputs[i] + 1], i)
  }

  /** Keys of an honest garbling, evaluated, translate to the plain outputs. */
  lemma AnswerIsPlain(p: Setup, c: Circuit, layer: bool, wires: seq<Block>, computed: seq<Block>, zs: seq<Block>,
                      xs: seq<bool>, tables: seq<Block>, both: seq<(Block, Block)>, keys: seq<Block>, answer: seq<bool>)
    requires WellFormed(c) && Fits(c, wires) && Fits(c, computed) && computed[0] == Zero()
    requires |zs| == |xs| == |c.inputs| && SignalBit(p.delta) && (layer ==> LayerFits(c, p.scheme, |tables|))
    requires TablesMatch(p, c, StartZeros(c, wires, p.delta, zs), tables)
    requires |both| == |keys| == |answer| == |c.outputs|
    requires OutputsMatch(p, c, layer, Zeros(p, c, StartZeros(c, wires, p.delta, zs), |c.gates|), tables, both)
    requires ComputedFrom(p, c, layer, computed, Select(zs, p.delta, xs), tables, keys)
    requires forall i :: 0 <= i < |answer| ==> answer[i] == (SignalBit(keys[i]) != SignalBit(both[i].0))
    ensures answer == PlainOutputs(c, xs) && KeysTell(both, keys, answer)
  {
    hide Zeros, TablesMatch, Evaluate, Plain, StartZeros, StartValues, Select, KeyOf, FinalKey, OutputPair, LayerHolds,
      Assign;
    var values := seq(c.wires + 1, _ => false);
    forall i | 0 <= i < |answer|
      ensures answer[i] == PlainOutputs(c, xs)[i] && SignalBit(both[i].0) != SignalBit(both[i].1)
      ensures keys[i] == if answer[i] then both[i].1 else both[i].0
    {
      OutputsCorrect(p, c, wires, computed, values, zs, xs, tables, i);
      var zero := Zeros(p, c, StartZeros(c, wires, p.delta, zs), |c.gates|)[c.outputs[i] + 1];
      FinalKeyCorrect(p, c, layer, zero, tables, i, PlainOutputs(c, xs)[i]);
      FinalKeyCorrect(p, c, layer, zero, tables, i, true);
    }
  }

  /** The whole run with a block cipher under the fixed key and under the seed, as the circuits draw their keys. */
  method RunFixedKey(c: Circuit, scheme: Scheme, nonXorOutputs: bool, fixedKey: Block -> Block, seedKey: Block -> Block,
                     xs: seq<bool>)
      returns (answer: seq<bool>, bothInputKeys: seq<(Block, Block)>, bothOutputKeys: seq<(Block, Block)>,
               keys: seq<Block>)
    requires WellFormed(c) && |xs| == |c.inputs|
    ensures answer == PlainOutputs(c, xs)
    ensures |bothInputKeys| == |xs| && |bothOutputKeys| == |keys| == |answer|
    ensures var delta := SetSignal(seedKey(seedKey(Zero())));
            forall i :: 0 <= i < |xs| ==> bothInputKeys[i] == (seedKey(Tweak(i)), Xor(seedKey(Tweak(i)), delta))
    ensures KeysTell(bothOutputKeys, keys, answer)
  {
    hide KeysTell, PlainOutputs, WellFormed, Xor, Tweak;
    var gc := new GarbledBooleanCircuit(c, scheme, nonXorOutputs, FixedKeyMasks(fixedKey));
    answer, bothInputKeys, bothOutputKeys, keys := Run(gc, seedKey(seedKey(Zero())), i => seedKey(Tweak(i)), xs);
  }
}
