/** Garbling with free xor, in four-row and in row-reduced tables: what evaluation computes. */
module GarbledCircuits {
  import opened Blocks

  const XOR_GATE := 6
  const XOR_NOT_GATE := 9

  /** Two inputs, one output, and a truth table as a number and as its four bits. Wire -1 carries one. */
  datatype Gate = Gate(input0: int, input1: int, output: nat, table: nat, bits: seq<bool>)

  datatype Circuit = Circuit(wires: nat, inputs: seq<nat>, outputs: seq<nat>, gates: seq<Gate>)

  datatype Scheme = FourRows | RowReduction

  /** The encryptions under the fixed key: of a gate's two keys, and of one output key. */
  datatype Masks = Masks(gate: (Block, Block, nat) -> Block, output: (Block, nat) -> Block)

  /** Everything a garbling depends on besides the circuit: the encryptions, the kind of tables,
      the difference between the two keys of a wire, and the keys derived from the seed. */
  datatype Setup = Setup(m: Masks, scheme: Scheme, delta: Block, chunk: nat -> Block)

  // ---------- plain circuits ----------

  function BitOf(table: nat, row: nat): nat {
    if row == 0 then (table / 8) % 2
    else if row == 1 then (table / 4) % 2
    else if row == 2 then (table / 2) % 2
    else table % 2
  }

  /** The bits of a gate are its truth table, highest bit first (`getRowTruthTableResultShifts`). */
  predicate BitsMatch(g: Gate) {
    && |g.bits| == 4 && g.table < 16
    && (g.bits[0] <==> BitOf(g.table, 0) == 1) && (g.bits[1] <==> BitOf(g.table, 1) == 1)
    && (g.bits[2] <==> BitOf(g.table, 2) == 1) && (g.bits[3] <==> BitOf(g.table, 3) == 1)
  }

  function Row(x: bool, y: bool): (r: nat)
    ensures r < 4
  {
    (if x then 2 else 0) + (if y then 1 else 0)
  }

  predicate Free(g: Gate) {
    g.table == XOR_GATE || g.table == XOR_NOT_GATE
  }

  predicate WireOk(c: Circuit, w: int) {
    -1 <= w < c.wires
  }

  /** Wires that carry a value before the n-th gate. */
  ghost predicate Defined(c: Circuit, n: nat, w: int)
    requires n <= |c.gates|
  {
    if n == 0 then w == -1 || w in c.inputs else w == c.gates[n - 1].output || Defined(c, n - 1, w)
  }

  ghost predicate GateOk(c: Circuit, i: nat)
    requires i < |c.gates|
  {
    && BitsMatch(c.gates[i]) && c.gates[i].output < c.wires
    && WireOk(c, c.gates[i].input0) && Defined(c, i, c.gates[i].input0)
    && WireOk(c, c.gates[i].input1) && Defined(c, i, c.gates[i].input1)
  }

  /** Topologically ordered: every gate reads wires that carry a value. */
  ghost predicate WellFormed(c: Circuit) {
    && (forall i :: 0 <= i < |c.inputs| ==> c.inputs[i] < c.wires)
    && (forall i :: 0 <= i < |c.gates| ==> GateOk(c, i))
    && (forall i :: 0 <= i < |c.outputs| ==> c.outputs[i] < c.wires && Defined(c, |c.gates|, c.outputs[i]))
  }

  lemma GateInRange(c: Circuit, n: nat)
    requires WellFormed(c) && n < |c.gates|
    ensures BitsMatch(c.gates[n]) && c.gates[n].output < c.wires
    ensures WireOk(c, c.gates[n].input0) && Defined(c, n, c.gates[n].input0)
    ensures WireOk(c, c.gates[n].input1) && Defined(c, n, c.gates[n].input1)
  {
    assert GateOk(c, n);
  }

  /** Writing values to wires in order; wire w is kept at position w + 1. */
  function Assign<T>(wires: seq<T>, indices: seq<nat>, values: seq<T>): (r: seq<T>)
    requires |indices| == |values| && forall i :: 0 <= i < |indices| ==> indices[i] + 1 < |wires|
    ensures |r| == |wires| && (|wires| > 0 ==> r[0] == wires[0])
    decreases |indices|
  {
    if indices == [] then wires
    else
      var n := |indices| - 1;
      Assign(wires, indices[..n], values[..n])[indices[n] + 1 := values[n]]
  }

  predicate Fits<T>(c: Circuit, wires: seq<T>) {
    |wires| == c.wires + 1
  }

  /** The effect of one gate on the values. */
  ghost function PlainStep(c: Circuit, v: seq<bool>, n: nat): (r: seq<bool>)
    requires WellFormed(c) && Fits(c, v) && n < |c.gates|
    ensures Fits(c, r)
  {
    GateInRange(c, n);
    v[c.gates[n].output + 1 := c.gates[n].bits[Row(v[c.gates[n].input0 + 1], v[c.gates[n].input1 + 1])]]
  }

  /** The values of all wires after the first n gates. */
  ghost function Plain(c: Circuit, start: seq<bool>, n: nat): (r: seq<bool>)
    requires WellFormed(c) && Fits(c, start) && n <= |c.gates|
    ensures Fits(c, r)
  {
    if n == 0 then start else PlainStep(c, Plain(c, start, n - 1), n - 1)
  }

  // ---------- one gate ----------

  /** The key of a wire for a value. */
  function KeyOf(zero: Block, delta: Block, v: bool): Block {
    if v then Xor(zero, delta) else zero
  }

  /** The mask of a gate for the input values (x, y). */
  function MaskFor(m: Masks, delta: Block, a0: Block, b0: Block, i: nat, x: bool, y: bool): Block {
    m.gate(KeyOf(a0, delta, x), KeyOf(b0, delta, y), i)
  }

  function RowFor(m: Masks, delta: Block, a0: Block, b0: Block, out0: Block, g: Gate, i: nat, x: bool, y: bool): Block
    requires |g.bits| == 4
  {
    Xor(MaskFor(m, delta, a0, b0, i, x, y), KeyOf(out0, delta, g.bits[Row(x, y)]))
  }

  /** The content of the row with signal bits (s, t). */
  function RowContent(m: Masks, delta: Block, a0: Block, b0: Block, out0: Block, g: Gate, i: nat, s: bool,
                      t: bool): Block
    requires |g.bits| == 4
  {
    RowFor(m, delta, a0, b0, out0, g, i, s != SignalBit(a0), t != SignalBit(b0))
  }

  /** The zero-key of the output: xor for free gates, a fresh key with four rows, and with row
      reduction the key that makes the first row zero. */
  function OutZero(m: Masks, scheme: Scheme, delta: Block, a0: Block, b0: Block, chunk: Block, g: Gate, i: nat): Block
    requires |g.bits| == 4
  {
    if g.table == XOR_GATE then Xor(a0, b0)
    else if g.table == XOR_NOT_GATE then Xor(Xor(a0, b0), delta)
    else if scheme.FourRows? then chunk
    else KeyOf(MaskFor(m, delta, a0, b0, i, SignalBit(a0), SignalBit(b0)), delta,
               g.bits[Row(SignalBit(a0), SignalBit(b0))])
  }

  /** What evaluation does with a gate, given the row it looks up. */
  function EvaluateGate(m: Masks, g: Gate, i: nat, a: Block, b: Block, entry: Block): Block {
    if Free(g) then Xor(a, b) else Xor(m.gate(a, b, i), entry)
  }

  lemma KeyOfSignal(zero: Block, delta: Block, v: bool)
    requires SignalBit(delta)
    ensures SignalBit(KeyOf(zero, delta, v)) <==> v != SignalBit(zero)
  {
  }

  /** The two free gates are exclusive or and its negation. */
  lemma FreeTables(g: Gate, x: bool, y: bool)
    requires BitsMatch(g)
    ensures g.table == XOR_GATE ==> (g.bits[Row(x, y)] <==> x != y)
    ensures g.table == XOR_NOT_GATE ==> (g.bits[Row(x, y)] <==> x == y)
  {
    assert Row(x, y) == 0 || Row(x, y) == 1 || Row(x, y) == 2 || Row(x, y) == 3;
  }

  lemma FreeGate(delta: Block, a0: Block, b0: Block, x: bool, y: bool)
    ensures Xor(KeyOf(a0, delta, x), KeyOf(b0, delta, y)) == KeyOf(Xor(a0, b0), delta, x != y)
    ensures Xor(KeyOf(a0, delta, x), KeyOf(b0, delta, y)) == KeyOf(Xor(Xor(a0, b0), delta), delta, x == y)
  {
  }

  /** The first row of a row-reduced gate is zero. */
  lemma FirstRowZero(m: Masks, delta: Block, a0: Block, b0: Block, chunk: Block, g: Gate, i: nat)
    requires !Free(g) && |g.bits| == 4
    ensures RowContent(m, delta, a0, b0, OutZero(m, RowReduction, delta, a0, b0, chunk, g, i), g, i, false, false) ==
            Zero()
  {
    var k := m.gate(KeyOf(a0, delta, SignalBit(a0)), KeyOf(b0, delta, SignalBit(b0)), i);
    XorCancels(k, k);
    XorCancels(k, delta);
    XorCancels(Xor(k, delta), delta);
  }

  /** Evaluating a gate on the keys for (x, y) gives the output key for the truth-table value. */
  lemma GateCorrect(m: Masks, delta: Block, a0: Block, b0: Block, out0: Block, g: Gate, i: nat, x: bool, y: bool,
                    entry: Block)
    requires SignalBit(delta) && BitsMatch(g)
    requires g.table == XOR_GATE ==> out0 == Xor(a0, b0)
    requires g.table == XOR_NOT_GATE ==> out0 == Xor(Xor(a0, b0), delta)
    requires !Free(g) ==> entry == RowContent(m, delta, a0, b0, out0, g, i,
                                              SignalBit(KeyOf(a0, delta, x)), SignalBit(KeyOf(b0, delta, y)))
    ensures EvaluateGate(m, g, i, KeyOf(a0, delta, x), KeyOf(b0, delta, y), entry)
            == KeyOf(out0, delta, g.bits[Row(x, y)])
  {
    if Free(g) {
      FreeTables(g, x, y);
      FreeGate(delta, a0, b0, x, y);
    } else {
      KeyOfSignal(a0, delta, x);
      KeyOfSignal(b0, delta, y);
      var k := m.gate(KeyOf(a0, delta, x), KeyOf(b0, delta, y), i);
      var out := KeyOf(out0, delta, g.bits[Row(x, y)]);
      XorCancels(out, k);
    }
  }

  // ---------- whole circuits ----------

  /** How many of the first n gates have a table. */
  function Tabled(c: Circuit, n: nat): (r: nat)
    requires n <= |c.gates|
    ensures r <= n
  {
    if n == 0 then 0 else Tabled(c, n - 1) + (if Free(c.gates[n - 1]) then 0 else 1)
  }

  lemma {:induction false} TabledMonotone(c: Circuit, n: nat, k: nat)
    requires n <= k <= |c.gates|
    ensures Tabled(c, n) <= Tabled(c, k)
    decreases k
  {
    if n == k {
    } else {
      TabledMonotone(c, n, k - 1);
    }
  }

  ghost function OutputZero(p: Setup, c: Circuit, w: seq<Block>, n: nat): Block
    requires WellFormed(c) && Fits(c, w) && n < |c.gates|
  {
    GateInRange(c, n);
    OutZero(p.m, p.scheme, p.delta, w[c.gates[n].input0 + 1], w[c.gates[n].input1 + 1], p.chunk(Tabled(c, n)),
            c.gates[n], n)
  }

  ghost function ZerosStep(p: Setup, c: Circuit, w: seq<Block>, n: nat): (r: seq<Block>)
    requires WellFormed(c) && Fits(c, w) && n < |c.gates|
    ensures Fits(c, r)
  {
    GateInRange(c, n);
    w[c.gates[n].output + 1 := OutputZero(p, c, w, n)]
  }

  /** The zero-keys after the first n gates. */
  ghost function Zeros(p: Setup, c: Circuit, start: seq<Block>, n: nat): (r: seq<Block>)
    requires WellFormed(c) && Fits(c, start) && n <= |c.gates|
    ensures Fits(c, r)
  {
    if n == 0 then start else ZerosStep(p, c, Zeros(p, c, start, n - 1), n - 1)
  }

  /** `getNumOfRows`. */
  function Rows(scheme: Scheme): nat {
    if scheme.FourRows? then 4 else 3
  }

  /** Where the k-th table starts. */
  function TableStart(scheme: Scheme, k: nat): nat {
    if scheme.FourRows? then 4 * k else 3 * k
  }

  predicate TablesFit(c: Circuit, scheme: Scheme, tables: seq<Block>) {
    |tables| >= TableStart(scheme, Tabled(c, |c.gates|))
  }

  lemma {:induction false} EntryInRange(c: Circuit, scheme: Scheme, size: nat, n: nat)
    requires size >= TableStart(scheme, Tabled(c, |c.gates|)) && n < |c.gates| && !Free(c.gates[n])
    ensures TableStart(scheme, Tabled(c, n) + 1) <= size
  {
    TabledBound(c, n);
    StartMonotone(scheme, Tabled(c, n) + 1, Tabled(c, |c.gates|), size);
  }

  lemma TabledBound(c: Circuit, n: nat)
    requires n < |c.gates| && !Free(c.gates[n])
    ensures Tabled(c, n) + 1 <= Tabled(c, |c.gates|)
  {
    TabledNext(c, n);
    TabledMonotone(c, n + 1, |c.gates|);
  }

  lemma TabledNext(c: Circuit, n: nat)
    requires n < |c.gates| && !Free(c.gates[n])
    ensures Tabled(c, n + 1) == Tabled(c, n) + 1
  {
  }

  lemma StartMonotone(scheme: Scheme, j: nat, k: nat, size: nat)
    requires j <= k && TableStart(scheme, k) <= size
    ensures TableStart(scheme, j) <= size
  {
  }

  /** The stored row, or zero for the row that row reduction leaves out. */
  function Entry(scheme: Scheme, tables: seq<Block>, k: nat, row: nat): Block
    requires row < 4 && TableStart(scheme, k + 1) <= |tables|
  {
    if scheme.FourRows? then tables[4 * k + row]
    else if row == 0 then Zero()
    else tables[3 * k + row - 1]
  }

  /** The tables hold the content of every row of every gate. */
  ghost predicate TablesMatch(p: Setup, c: Circuit, start: seq<Block>,
                              tables: seq<Block>)
    requires WellFormed(c) && Fits(c, start)
  {
    && TablesFit(c, p.scheme, tables)
    && forall n, s, t :: 0 <= n < |c.gates| && !Free(c.gates[n]) ==>
         RowMatches(p, c, start, tables, n, s, t)
  }

  /** The content of a row of the n-th gate, with zero-keys w before the gate. */
  ghost function GateRow(p: Setup, c: Circuit, w: seq<Block>, n: nat, s: bool, t: bool): Block
    requires WellFormed(c) && Fits(c, w) && n < |c.gates|
  {
    GateInRange(c, n);
    RowContent(p.m, p.delta, w[c.gates[n].input0 + 1], w[c.gates[n].input1 + 1], OutputZero(p, c, w, n), c.gates[n], n,
               s, t)
  }

  ghost predicate RowMatches(p: Setup, c: Circuit, start: seq<Block>, tables: seq<Block>, n: nat, s: bool, t: bool)
    requires WellFormed(c) && Fits(c, start) && TablesFit(c, p.scheme, tables) && n < |c.gates| && !Free(c.gates[n])
  {
    EntryInRange(c, p.scheme, |tables|, n);
    Entry(p.scheme, tables, Tabled(c, n), Row(s, t)) == GateRow(p, c, Zeros(p, c, start, n), n, s, t)
  }

  /** The row a gate's two keys point to. */
  ghost function LookUp(c: Circuit, scheme: Scheme, tables: seq<Block>, n: nat, a: Block, b: Block): Block
    requires TablesFit(c, scheme, tables) && n < |c.gates|
  {
    if Free(c.gates[n]) then Zero()
    else
      EntryInRange(c, scheme, |tables|, n);
      Entry(scheme, tables, Tabled(c, n), Row(SignalBit(a), SignalBit(b)))
  }

  ghost function EvaluateStep(m: Masks, scheme: Scheme, c: Circuit, tables: seq<Block>, w: seq<Block>,
                              n: nat): (r: seq<Block>)
    requires WellFormed(c) && Fits(c, w) && TablesFit(c, scheme, tables) && n < |c.gates|
    ensures Fits(c, r)
  {
    GateInRange(c, n);
    w[c.gates[n].output + 1 :=
      EvaluateGate(m, c.gates[n], n, w[c.gates[n].input0 + 1], w[c.gates[n].input1 + 1],
                   LookUp(c, scheme, tables, n, w[c.gates[n].input0 + 1], w[c.gates[n].input1 + 1]))]
  }

  /** The keys that evaluation has on the wires after the first n gates. */
  ghost function Evaluate(m: Masks, scheme: Scheme, c: Circuit, tables: seq<Block>, start: seq<Block>, n: nat)
      : (r: seq<Block>)
    requires WellFormed(c) && Fits(c, start) && TablesFit(c, scheme, tables) && n <= |c.gates|
    ensures Fits(c, r)
  {
    if n == 0 then start else EvaluateStep(m, scheme, c, tables, Evaluate(m, scheme, c, tables, start, n - 1), n - 1)
  }

  /** The wire holds the key of its value. */
  ghost predicate CarriesWire(delta: Block, zeros: seq<Block>, keys: seq<Block>, values: seq<bool>, w: int)
    requires |zeros| == |keys| == |values| && 0 <= w + 1 < |zeros|
  {
    keys[w + 1] == KeyOf(zeros[w + 1], delta, values[w + 1])
  }

  /** Every wire defined after n gates holds the key of its value. */
  ghost predicate Carries(c: Circuit, delta: Block, zeros: seq<Block>, keys: seq<Block>, values: seq<bool>, n: nat)
    requires Fits(c, zeros) && Fits(c, keys) && Fits(c, values) && n <= |c.gates|
  {
    forall w :: WireOk(c, w) && Defined(c, n, w) ==> CarriesWire(delta, zeros, keys, values, w)
  }

  /** After every number of gates, each defined wire holds exactly the key of its plain value. */
  lemma {:induction false} EvaluationCarries(p: Setup, c: Circuit,
                                             zeros: seq<Block>, keys: seq<Block>, values: seq<bool>,
                                             tables: seq<Block>, n: nat)
    requires WellFormed(c) && Fits(c, zeros) && Fits(c, keys) && Fits(c, values) && n <= |c.gates|
    requires SignalBit(p.delta) && TablesMatch(p, c, zeros, tables)
    requires Carries(c, p.delta, zeros, keys, values, 0)
    ensures Carries(c, p.delta, Zeros(p, c, zeros, n), Evaluate(p.m, p.scheme, c, tables, keys, n),
                    Plain(c, values, n), n)
    decreases n
  {
    if n == 0 {
    } else {
      EvaluationCarries(p, c, zeros, keys, values, tables, n - 1);
      EvaluationStep(p, c, zeros, keys, values, tables, n - 1);
    }
  }

  lemma EvaluationStep(p: Setup, c: Circuit,
                       zeros: seq<Block>, keys: seq<Block>, values: seq<bool>, tables: seq<Block>, n: nat)
    requires WellFormed(c) && Fits(c, zeros) && Fits(c, keys) && Fits(c, values) && n < |c.gates|
    requires SignalBit(p.delta) && TablesMatch(p, c, zeros, tables)
    requires Carries(c, p.delta, Zeros(p, c, zeros, n), Evaluate(p.m, p.scheme, c, tables, keys, n),
                     Plain(c, values, n), n)
    ensures Carries(c, p.delta, Zeros(p, c, zeros, n + 1), Evaluate(p.m, p.scheme, c, tables, keys, n + 1),
                    Plain(c, values, n + 1), n + 1)
  {
    var k := Evaluate(p.m, p.scheme, c, tables, keys, n);
    LookUpIsRow(p, c, zeros, tables, n, k);
    StepCarries(p, c, tables, Zeros(p, c, zeros, n), k, Plain(c, values, n), n);
  }

  /** The row looked up by the keys of a gate. */
  ghost function LookedUp(scheme: Scheme, c: Circuit, tables: seq<Block>, k: seq<Block>, n: nat): Block
    requires WellFormed(c) && Fits(c, k) && TablesFit(c, scheme, tables) && n < |c.gates|
  {
    GateInRange(c, n);
    LookUp(c, scheme, tables, n, k[c.gates[n].input0 + 1], k[c.gates[n].input1 + 1])
  }

  ghost predicate IsRowFor(p: Setup, c: Circuit, w: seq<Block>, k: seq<Block>, n: nat, entry: Block)
    requires WellFormed(c) && Fits(c, w) && Fits(c, k) && n < |c.gates|
  {
    GateInRange(c, n);
    Free(c.gates[n]) ||
    entry == GateRow(p, c, w, n, SignalBit(k[c.gates[n].input0 + 1]), SignalBit(k[c.gates[n].input1 + 1]))
  }

  lemma LookUpIsRow(p: Setup, c: Circuit, zeros: seq<Block>, tables: seq<Block>, n: nat, k: seq<Block>)
    requires WellFormed(c) && Fits(c, zeros) && Fits(c, k) && n < |c.gates| && TablesMatch(p, c, zeros, tables)
    ensures IsRowFor(p, c, Zeros(p, c, zeros, n), k, n, LookedUp(p.scheme, c, tables, k, n))
  {
    hide RowContent, Zeros, Entry, Tabled, WellFormed;
    GateInRange(c, n);
    if !Free(c.gates[n]) {
      assert RowMatches(p, c, zeros, tables, n, SignalBit(k[c.gates[n].input0 + 1]),
                        SignalBit(k[c.gates[n].input1 + 1]));
    }
  }

  lemma StepCarries(p: Setup, c: Circuit, tables: seq<Block>, w: seq<Block>, k: seq<Block>, v: seq<bool>, n: nat)
    requires WellFormed(c) && Fits(c, w) && Fits(c, k) && Fits(c, v) && n < |c.gates|
    requires SignalBit(p.delta) && TablesFit(c, p.scheme, tables)
    requires Carries(c, p.delta, w, k, v, n)
    requires IsRowFor(p, c, w, k, n, LookedUp(p.scheme, c, tables, k, n))
    ensures Carries(c, p.delta, ZerosStep(p, c, w, n), EvaluateStep(p.m, p.scheme, c, tables, k, n), PlainStep(c, v, n),
                    n + 1)
  {
    hide *;
    GateReach(c, w, n);
    GateReach(c, k, n);
    GateReach(c, v, n);
    var g, entry := c.gates[n], LookedUp(p.scheme, c, tables, k, n);
    var zero, key := OutputZero(p, c, w, n), EvaluateGate(p.m, g, n, k[g.input0 + 1], k[g.input1 + 1], entry);
    var value := g.bits[Row(v[g.input0 + 1], v[g.input1 + 1])];
    ZerosStepIs(p, c, w, n);
    EvaluateStepIs(p, c, tables, k, n);
    PlainStepIs(c, v, n);
    StepOutput(p, c, w, k, v, n, entry);
    UpdateCarries(c, p.delta, w, k, v, n, zero, key, value);
  }

  ghost predicate GateReaches(c: Circuit, length: nat, n: nat)
    requires n < |c.gates|
  {
    var g := c.gates[n];
    0 <= g.input0 + 1 < length && 0 <= g.input1 + 1 < length && g.output + 1 < length && |g.bits| == 4
  }

  lemma GateReach<T>(c: Circuit, w: seq<T>, n: nat)
    requires WellFormed(c) && Fits(c, w) && n < |c.gates|
    ensures GateOk(c, n) && GateReaches(c, |w|, n)
  {
    GateInRange(c, n);
  }

  lemma ZerosStepIs(p: Setup, c: Circuit, w: seq<Block>, n: nat)
    requires WellFormed(c) && Fits(c, w) && n < |c.gates| && GateReaches(c, |w|, n)
    ensures ZerosStep(p, c, w, n) == w[c.gates[n].output + 1 := OutputZero(p, c, w, n)]
  {
    hide OutputZero, WellFormed, Fits;
  }

  lemma EvaluateStepIs(p: Setup, c: Circuit, tables: seq<Block>, k: seq<Block>, n: nat)
    requires WellFormed(c) && Fits(c, k) && TablesFit(c, p.scheme, tables) && n < |c.gates|
    requires GateReaches(c, |k|, n)
    ensures var g, entry := c.gates[n], LookedUp(p.scheme, c, tables, k, n);
            EvaluateStep(p.m, p.scheme, c, tables, k, n) ==
            k[g.output + 1 := EvaluateGate(p.m, g, n, k[g.input0 + 1], k[g.input1 + 1], entry)]
  {
    hide LookUp, EvaluateGate, WellFormed, TablesFit, Fits;
  }

  lemma PlainStepIs(c: Circuit, v: seq<bool>, n: nat)
    requires WellFormed(c) && Fits(c, v) && n < |c.gates| && GateReaches(c, |v|, n)
    ensures var g := c.gates[n];
            PlainStep(c, v, n) == v[g.output + 1 := g.bits[Row(v[g.input0 + 1], v[g.input1 + 1])]]
  {
    hide WellFormed, Fits, Row;
  }

  lemma PlainNext(c: Circuit, start: seq<bool>, n: nat)
    requires WellFormed(c) && Fits(c, start) && n < |c.gates|
    ensures Plain(c, start, n + 1) == PlainStep(c, Plain(c, start, n), n)
  {
    hide WellFormed, PlainStep;
  }

  lemma UpdateCarries(c: Circuit, delta: Block, w: seq<Block>, k: seq<Block>, v: seq<bool>, n: nat,
                      zero: Block, key: Block, value: bool)
    requires Fits(c, w) && Fits(c, k) && Fits(c, v) && n < |c.gates| && c.gates[n].output < c.wires
    requires Carries(c, delta, w, k, v, n) && key == KeyOf(zero, delta, value)
    ensures var o := c.gates[n].output + 1;
            Carries(c, delta, w[o := zero], k[o := key], v[o := value], n + 1)
  {
    hide KeyOf;
    var o := c.gates[n].output;
    forall u | WireOk(c, u) && Defined(c, n + 1, u)
      ensures CarriesWire(delta, w[o + 1 := zero], k[o + 1 := key], v[o + 1 := value], u)
    {
      WireUpdate(delta, w, k, v, o, zero, key, value, u);
    }
  }

  lemma StepOutput(p: Setup, c: Circuit, w: seq<Block>, k: seq<Block>, v: seq<bool>, n: nat, entry: Block)
    requires WellFormed(c) && Fits(c, w) && Fits(c, k) && Fits(c, v) && n < |c.gates| && SignalBit(p.delta)
    requires Carries(c, p.delta, w, k, v, n)
    requires GateOk(c, n) && IsRowFor(p, c, w, k, n, entry)
    ensures var g := c.gates[n];
            EvaluateGate(p.m, g, n, k[g.input0 + 1], k[g.input1 + 1], entry)
            == KeyOf(OutputZero(p, c, w, n), p.delta, g.bits[Row(v[g.input0 + 1], v[g.input1 + 1])])
  {
    var g := c.gates[n];
    assert CarriesWire(p.delta, w, k, v, g.input0) && CarriesWire(p.delta, w, k, v, g.input1);
    GateCorrect(p.m, p.delta, w[g.input0 + 1], w[g.input1 + 1], OutputZero(p, c, w, n), g, n,
                v[g.input0 + 1], v[g.input1 + 1], entry);
  }

  lemma WireUpdate(delta: Block, zeros: seq<Block>, keys: seq<Block>, values: seq<bool>,
                   out: nat, zero: Block, key: Block, value: bool, w: int)
    requires |zeros| == |keys| == |values| && 0 <= w + 1 < |zeros| && out + 1 < |zeros|
    requires key == KeyOf(zero, delta, value) && (w == out || CarriesWire(delta, zeros, keys, values, w))
    ensures CarriesWire(delta, zeros[out + 1 := zero], keys[out + 1 := key], values[out + 1 := value], w)
  {
  }

  // ---------- inputs, outputs and translation ----------

  /** One key for each input bit. */
  function Select(zeros: seq<Block>, delta: Block, xs: seq<bool>): seq<Block>
    requires |zeros| == |xs|
  {
    seq(|xs|, i requires 0 <= i < |xs| => KeyOf(zeros[i], delta, xs[i]))
  }

  lemma {:induction false} AssignCarries(delta: Block, zeros: seq<Block>, keys: seq<Block>, values: seq<bool>,
                                         inputs: seq<nat>, zs: seq<Block>, ks: seq<Block>, xs: seq<bool>, w: int)
    requires |zeros| == |keys| == |values| && |inputs| == |zs| == |ks| == |xs| && 0 <= w + 1 < |zeros|
    requires forall i :: 0 <= i < |inputs| ==> inputs[i] + 1 < |zeros| && ks[i] == KeyOf(zs[i], delta, xs[i])
    requires w in inputs || CarriesWire(delta, zeros, keys, values, w)
    ensures CarriesWire(delta, Assign(zeros, inputs, zs), Assign(keys, inputs, ks), Assign(values, inputs, xs), w)
    decreases |inputs|
  {
    if inputs == [] {
    } else {
      var n := |inputs| - 1;
      if w != inputs[n] {
        assert w in inputs ==> w in inputs[..n];
        AssignCarries(delta, zeros, keys, values, inputs[..n], zs[..n], ks[..n], xs[..n], w);
      }
      WireUpdate(delta, Assign(zeros, inputs[..n], zs[..n]), Assign(keys, inputs[..n], ks[..n]),
                 Assign(values, inputs[..n], xs[..n]), inputs[n], zs[n], ks[n], xs[n], w);
    }
  }

  /** The wires at the start: -1 has the difference as zero-key, holds the zero block and carries one. */
  function StartZeros(c: Circuit, wires: seq<Block>, delta: Block, zs: seq<Block>): (r: seq<Block>)
    requires Fits(c, wires) && |zs| == |c.inputs| && forall i :: 0 <= i < |c.inputs| ==> c.inputs[i] < c.wires
    ensures Fits(c, r)
  {
    Assign(wires[0 := delta], c.inputs, zs)
  }

  function StartValues(c: Circuit, wires: seq<bool>, xs: seq<bool>): (r: seq<bool>)
    requires Fits(c, wires) && |xs| == |c.inputs| && forall i :: 0 <= i < |c.inputs| ==> c.inputs[i] < c.wires
    ensures Fits(c, r)
  {
    Assign(wires[0 := true], c.inputs, xs)
  }

  lemma StartCarries(c: Circuit, delta: Block, zeros: seq<Block>, keys: seq<Block>, values: seq<bool>, zs: seq<Block>,
                     xs: seq<bool>)
    requires WellFormed(c) && Fits(c, zeros) && Fits(c, keys) && Fits(c, values) && keys[0] == Zero()
    requires |zs| == |xs| == |c.inputs|
    ensures Carries(c, delta, StartZeros(c, zeros, delta, zs), Assign(keys, c.inputs, Select(zs, delta, xs)),
                    StartValues(c, values, xs), 0)
  {
    XorCancels(delta, delta);
    forall w | WireOk(c, w) && Defined(c, 0, w)
      ensures CarriesWire(delta, StartZeros(c, zeros, delta, zs), Assign(keys, c.inputs, Select(zs, delta, xs)),
                          StartValues(c, values, xs), w)
    {
      AssignCarries(delta, zeros[0 := delta], keys, values[0 := true], c.inputs, zs, Select(zs, delta, xs), xs, w);
    }
  }

  /** `translate` with the signal bits of the zero-keys gives the plain value back. */
  lemma Translated(zero: Block, delta: Block, v: bool)
    requires SignalBit(delta)
    ensures (SignalBit(KeyOf(zero, delta, v)) != SignalBit(zero)) == v
  {
    KeyOfSignal(zero, delta, v);
  }

  /** Evaluating an honest garbling and translating gives the plain outputs: for every circuit in
      topological order, every input, every choice of zero-keys and every difference with signal bit one,
      with four rows and with row reduction alike. */
  lemma OutputsCorrect(p: Setup, c: Circuit, zeros: seq<Block>, keys: seq<Block>, values: seq<bool>,
                       zs: seq<Block>, xs: seq<bool>, tables: seq<Block>, i: nat)
    requires WellFormed(c) && Fits(c, zeros) && Fits(c, keys) && Fits(c, values) && keys[0] == Zero()
    requires |zs| == |xs| == |c.inputs| && i < |c.outputs| && SignalBit(p.delta)
    requires TablesMatch(p, c, StartZeros(c, zeros, p.delta, zs), tables)
    ensures var n, w := |c.gates|, c.outputs[i] + 1;
            var zero := Zeros(p, c, StartZeros(c, zeros, p.delta, zs), n)[w];
            var key := Evaluate(p.m, p.scheme, c, tables, Assign(keys, c.inputs, Select(zs, p.delta, xs)), n)[w];
            var value := Plain(c, StartValues(c, values, xs), n)[w];
            key == KeyOf(zero, p.delta, value) && (SignalBit(key) != SignalBit(zero)) == value
  {
    var start := StartZeros(c, zeros, p.delta, zs);
    StartCarries(c, p.delta, zeros, keys, values, zs, xs);
    EvaluationCarries(p, c, start, Assign(keys, c.inputs, Select(zs, p.delta, xs)), StartValues(c, values, xs), tables,
                      |c.gates|);
    var w: int := c.outputs[i];
    assert Defined(c, |c.gates|, w) && WireOk(c, w);
    assert CarriesWire(p.delta, Zeros(p, c, start, |c.gates|),
                       Evaluate(p.m, p.scheme, c, tables, Assign(keys, c.inputs, Select(zs, p.delta, xs)), |c.gates|),
                       Plain(c, StartValues(c, values, xs), |c.gates|), w);
    Translated(Zeros(p, c, start, |c.gates|)[w + 1], p.delta, Plain(c, StartValues(c, values, xs), |c.gates|)[w + 1]);
  }

  // ---------- outputs without the fixed difference ----------

  /** The two keys of an output after the layer of identity gates: the key with signal bit zero is
      kept or replaced so that the zero-key always has signal bit zero. */
  function NewKeys(zero: Block, chunk: Block): (Block, Block) {
    if !SignalBit(zero) then (zero, SetSignal(chunk)) else (ClearFirstByte(chunk), zero)
  }

  /** One of the new keys is the old zero-key, in the place that its signal bit names; the other is drawn from the seed,
      but for its first byte. */
  lemma NewKeysDrawn(zero: Block, chunk: Block)
    ensures var keys := NewKeys(zero, chunk);
            var kept, drawn := if SignalBit(zero) then keys.1 else keys.0, if SignalBit(zero) then keys.0 else keys.1;
            kept == zero && drawn[8..] == chunk[8..] && SignalBit(drawn) == !SignalBit(zero)
  {
  }

  /** The two rows of an identity gate, by the signal bit of the old key. */
  function IdentityRow(m: Masks, delta: Block, zero: Block, chunk: Block, i: nat, s: bool): Block {
    var v := s != SignalBit(zero);
    Xor(m.output(KeyOf(zero, delta, v), i), if v then NewKeys(zero, chunk).1 else NewKeys(zero, chunk).0)
  }

  /** The identity gate takes the key of a value to the new key of that value, and the new keys
      translate to the value with the signal bit of the new zero-key. */
  lemma IdentityCorrect(m: Masks, delta: Block, zero: Block, chunk: Block, i: nat, v: bool)
    requires SignalBit(delta)
    ensures var key := KeyOf(zero, delta, v);
            var out := Xor(m.output(key, i), IdentityRow(m, delta, zero, chunk, i, SignalBit(key)));
            && out == (if v then NewKeys(zero, chunk).1 else NewKeys(zero, chunk).0)
            && (SignalBit(out) != SignalBit(NewKeys(zero, chunk).0)) == v
  {
    KeyOfSignal(zero, delta, v);
    XorCancels(if v then NewKeys(zero, chunk).1 else NewKeys(zero, chunk).0, m.output(KeyOf(zero, delta, v), i));
  }

  /** How many of the first n gates are free with two inputs (`numOfXorGates`). */
  function XorGates(c: Circuit, n: nat): (r: nat)
    requires n <= |c.gates|
    ensures r <= n
  {
    if n == 0 then 0
    else XorGates(c, n - 1) + (if Free(c.gates[n - 1]) && c.gates[n - 1].input1 != -1 then 1 else 0)
  }

  /** The number in the key of the i-th identity gate, and of the new key drawn for it. */
  function OutputNumber(c: Circuit, i: nat): nat {
    |c.gates| - XorGates(c, |c.gates|) + i
  }

  /** The two keys of the i-th output, with or without the layer. */
  function OutputPair(p: Setup, c: Circuit, layer: bool, zero: Block, i: nat): (Block, Block) {
    if layer then NewKeys(zero, p.chunk(OutputNumber(c, i))) else (zero, Xor(zero, p.delta))
  }

  /** The layer's rows follow the tables of the gates. */
  function LayerStart(c: Circuit, scheme: Scheme): nat {
    TableStart(scheme, Tabled(c, |c.gates|))
  }

  predicate LayerFits(c: Circuit, scheme: Scheme, size: nat) {
    size >= LayerStart(c, scheme) + 2 * |c.outputs|
  }

  function LayerRow(c: Circuit, scheme: Scheme, tables: seq<Block>, i: nat, s: bool): Block
    requires LayerFits(c, scheme, |tables|) && i < |c.outputs|
  {
    tables[LayerStart(c, scheme) + 2 * i + (if s then 1 else 0)]
  }

  /** What evaluation makes of the key on the i-th output wire. */
  function FinalKey(m: Masks, c: Circuit, scheme: Scheme, layer: bool, tables: seq<Block>, key: Block, i: nat): Block
    requires i < |c.outputs| && (layer ==> LayerFits(c, scheme, |tables|))
  {
    if layer then Xor(m.output(key, OutputNumber(c, i)), LayerRow(c, scheme, tables, i, SignalBit(key))) else key
  }

  /** Both rows of an identity gate are in the tables. */
  ghost predicate LayerHolds(p: Setup, c: Circuit, zero: Block, tables: seq<Block>, i: nat)
    requires LayerFits(c, p.scheme, |tables|) && i < |c.outputs|
  {
    var number := OutputNumber(c, i);
    && LayerRow(c, p.scheme, tables, i, false) == IdentityRow(p.m, p.delta, zero, p.chunk(number), number, false)
    && LayerRow(c, p.scheme, tables, i, true) == IdentityRow(p.m, p.delta, zero, p.chunk(number), number, true)
  }

  /** With and without the layer, evaluation ends with the key of the value, of the two keys of the output. */
  lemma FinalKeyCorrect(p: Setup, c: Circuit, layer: bool, zero: Block, tables: seq<Block>, i: nat, v: bool)
    requires SignalBit(p.delta) && i < |c.outputs|
    requires layer ==> LayerFits(c, p.scheme, |tables|) && LayerHolds(p, c, zero, tables, i)
    ensures var pair := OutputPair(p, c, layer, zero, i);
            var final := FinalKey(p.m, c, p.scheme, layer, tables, KeyOf(zero, p.delta, v), i);
            final == (if v then pair.1 else pair.0) && (SignalBit(final) != SignalBit(pair.0)) == v
  {
    if layer {
      var number := OutputNumber(c, i);
      hide NewKeys, IdentityRow, LayerRow, LayerFits, KeyOf, Xor, OutputNumber, SignalBit;
      IdentityCorrect(p.m, p.delta, zero, p.chunk(number), number, v);
    } else {
      Translated(zero, p.delta, v);
    }
  }

  lemma LayerKept(p: Setup, c: Circuit, zero: Block, before: seq<Block>, after: seq<Block>, k: nat, i: nat)
    requires k < i < |c.outputs| && |before| == |after| && LayerFits(c, p.scheme, |before|)
    requires forall j :: 0 <= j < |after| && j < LayerStart(c, p.scheme) + 2 * i ==> after[j] == before[j]
    requires LayerHolds(p, c, zero, before, k)
    ensures LayerHolds(p, c, zero, after, k)
  {
    hide IdentityRow, LayerStart, OutputNumber;
  }

  // ---------- for the loops of the objects ----------

  function InputZeros(c: Circuit, chunk: nat -> Block): (zs: seq<Block>)
    ensures |zs| == |c.inputs|
  {
    seq(|c.inputs|, i requires 0 <= i < |c.inputs| => chunk(i))
  }

  /** With four rows the keys derived from the seed are used twice: the output wire of the i-th gate with a table gets
      the zero-key of the i-th input. */
  lemma SharedZeroKey(p: Setup, c: Circuit, w: seq<Block>, n: nat)
    requires WellFormed(c) && Fits(c, w) && n < |c.gates| && p.scheme.FourRows?
    requires !Free(c.gates[n]) && Tabled(c, n) < |c.inputs|
    ensures c.gates[n].output + 1 < |w|
    ensures ZerosStep(p, c, w, n)[c.gates[n].output + 1] == InputZeros(c, p.chunk)[Tabled(c, n)]
  {
    GateInRange(c, n);
  }

  lemma AssignNone<T>(wires: seq<T>, indices: seq<nat>, values: seq<T>)
    requires |indices| == |values| && forall j :: 0 <= j < |indices| ==> indices[j] + 1 < |wires|
    ensures Assign(wires, indices[..0], values[..0]) == wires
  {
  }

  lemma {:induction false} AssignNext<T>(wires: seq<T>, indices: seq<nat>, values: seq<T>, i: nat)
    requires |indices| == |values| && i < |indices| && forall j :: 0 <= j < |indices| ==> indices[j] + 1 < |wires|
    ensures Assign(wires, indices[..i + 1], values[..i + 1]) ==
            Assign(wires, indices[..i], values[..i])[indices[i] + 1 := values[i]]
  {
    assert indices[..i + 1][..i] == indices[..i] && values[..i + 1][..i] == values[..i];
  }

  /** The row for the input values a and b, when the zero-keys have signal bits s0 and t0. */
  function Place(s0: bool, t0: bool, a: int, b: int): (r: int)
    ensures 0 <= a < 2 && 0 <= b < 2 ==> 0 <= r < 4
  {
    2 * (if s0 then 1 - a else a) + (if t0 then 1 - b else b)
  }

  lemma PlaceApart(s0: bool, t0: bool, a: int, b: int)
    requires 0 <= a < 2 && 0 <= b < 2
    ensures forall a', b' :: 0 <= a' < 2 && 0 <= b' < 2 && (a' != a || b' != b) ==>
              Place(s0, t0, a', b') != Place(s0, t0, a, b)
  {
  }

  /** The rows of the first n gates are in the tables. */
  ghost predicate TablesMatchUpTo(p: Setup, c: Circuit, start: seq<Block>, tables: seq<Block>, n: nat)
    requires WellFormed(c) && Fits(c, start) && n <= |c.gates|
  {
    && TablesFit(c, p.scheme, tables)
    && forall k, s, t :: 0 <= k < n && !Free(c.gates[k]) ==> RowMatches(p, c, start, tables, k, s, t)
  }

  lemma {:induction false} EntryKept(c: Circuit, scheme: Scheme, before: seq<Block>, after: seq<Block>, k: nat, n: nat,
                                     row: nat)
    requires TablesFit(c, scheme, before) && |after| == |before| && k < n <= |c.gates| && !Free(c.gates[k]) && row < 4
    requires forall j :: 0 <= j < |after| && j < TableStart(scheme, Tabled(c, n)) ==> after[j] == before[j]
    ensures TableStart(scheme, Tabled(c, k) + 1) <= |before|
    ensures Entry(scheme, after, Tabled(c, k), row) == Entry(scheme, before, Tabled(c, k), row)
  {
    EntryInRange(c, scheme, |before|, k);
    TabledMonotone(c, k + 1, n);
    assert Tabled(c, k + 1) == Tabled(c, k) + 1;
  }

  lemma RowKept(p: Setup, c: Circuit, start: seq<Block>, before: seq<Block>, after: seq<Block>, n: nat, k: nat,
                s: bool, t: bool)
    requires WellFormed(c) && Fits(c, start) && k < n <= |c.gates| && TablesMatchUpTo(p, c, start, before, n)
    requires |after| == |before| && !Free(c.gates[k])
    requires forall j :: 0 <= j < |after| && j < TableStart(p.scheme, Tabled(c, n)) ==> after[j] == before[j]
    ensures RowMatches(p, c, start, after, k, s, t)
  {
    assert RowMatches(p, c, start, before, k, s, t);
    EntryKept(c, p.scheme, before, after, k, n, Row(s, t));
  }

  /** The table of the k-th tabled gate holds all its rows. */
  ghost predicate HoldsRows(m: Masks, scheme: Scheme, delta: Block, a0: Block, b0: Block, out0: Block, g: Gate, n: nat,
                            tables: seq<Block>, k: nat)
    requires |g.bits| == 4 && TableStart(scheme, k + 1) <= |tables|
  {
    forall s, t :: Entry(scheme, tables, k, Row(s, t)) == RowContent(m, delta, a0, b0, out0, g, n, s, t)
  }

  /** The rows of the n-th gate are in the tables, with zero-keys w before the gate. */
  ghost predicate RowsOf(p: Setup, c: Circuit, w: seq<Block>, tables: seq<Block>, n: nat)
    requires WellFormed(c) && Fits(c, w) && TablesFit(c, p.scheme, tables) && n < |c.gates| && !Free(c.gates[n])
  {
    GateInRange(c, n);
    EntryInRange(c, p.scheme, |tables|, n);
    HoldsRows(p.m, p.scheme, p.delta, w[c.gates[n].input0 + 1], w[c.gates[n].input1 + 1], OutputZero(p, c, w, n),
              c.gates[n], n, tables, Tabled(c, n))
  }

  lemma RowFromRows(p: Setup, c: Circuit, start: seq<Block>, tables: seq<Block>, n: nat, s: bool, t: bool)
    requires WellFormed(c) && Fits(c, start) && TablesFit(c, p.scheme, tables) && n < |c.gates| && !Free(c.gates[n])
    requires RowsOf(p, c, Zeros(p, c, start, n), tables, n)
    ensures RowMatches(p, c, start, tables, n, s, t)
  {
    EntryInRange(c, p.scheme, |tables|, n);
  }

  /** Writing the rows of the n-th gate keeps the rows of the earlier ones. */
  lemma NextRows(p: Setup, c: Circuit, start: seq<Block>, before: seq<Block>, after: seq<Block>, n: nat)
    requires WellFormed(c) && Fits(c, start) && n < |c.gates| && TablesMatchUpTo(p, c, start, before, n)
    requires |after| == |before|
    requires forall j :: 0 <= j < |after| && j < TableStart(p.scheme, Tabled(c, n)) ==> after[j] == before[j]
    requires !Free(c.gates[n]) ==> RowsOf(p, c, Zeros(p, c, start, n), after, n)
    ensures TablesMatchUpTo(p, c, start, after, n + 1)
  {
    hide RowMatches, RowsOf, Zeros, Tabled, WellFormed, TableStart;
    forall k, s, t | 0 <= k < n + 1 && !Free(c.gates[k]) ensures RowMatches(p, c, start, after, k, s, t) {
      if k < n {
        RowKept(p, c, start, before, after, n, k, s, t);
      } else {
        RowFromRows(p, c, start, after, n, s, t);
      }
    }
  }

  /** Writing behind the tables of the gates keeps them. */
  lemma TablesKept(p: Setup, c: Circuit, start: seq<Block>, before: seq<Block>, after: seq<Block>)
    requires WellFormed(c) && Fits(c, start) && TablesMatchUpTo(p, c, start, before, |c.gates|)
    requires |after| == |before|
    requires forall j :: 0 <= j < |after| && j < LayerStart(c, p.scheme) ==> after[j] == before[j]
    ensures TablesMatch(p, c, start, after)
  {
    hide RowMatches, Zeros, Tabled, WellFormed, TableStart;
    forall k, s, t | 0 <= k < |c.gates| && !Free(c.gates[k]) ensures RowMatches(p, c, start, after, k, s, t) {
      RowKept(p, c, start, before, after, |c.gates|, k, s, t);
    }
  }

  lemma PlacedRow(m: Masks, delta: Block, a0: Block, b0: Block, out0: Block, g: Gate, n: nat,
                  tables: seq<Block>, k: nat, rows: seq<Block>, s: bool, t: bool)
    requires |g.bits| == 4 && |rows| == 4 && 4 * k + 4 <= |tables|
    requires forall x, y :: rows[Row(x, y)] == RowFor(m, delta, a0, b0, out0, g, n, x, y)
    requires forall a, b :: 0 <= a < 2 && 0 <= b < 2 ==>
      tables[4 * k + Place(SignalBit(a0), SignalBit(b0), a, b)] == rows[2 * a + b]
    ensures tables[4 * k + Row(s, t)] == RowContent(m, delta, a0, b0, out0, g, n, s, t)
  {
    var s0, t0 := SignalBit(a0), SignalBit(b0);
    var x, y := s != s0, t != t0;
    var a, b := if x then 1 else 0, if y then 1 else 0;
    assert Place(s0, t0, a, b) == Row(s, t) && 2 * a + b == Row(x, y);
  }

  /** What the loops of row reduction leave: masks and truth-table bits by signal bits, the output key
      from the first row, and the other three rows stored. */
  ghost predicate Reduced(m: Masks, delta: Block, a0: Block, b0: Block, out0: Block, g: Gate, n: nat,
                          tables: seq<Block>, k: nat, masks: seq<Block>, bits: seq<bool>)
    requires |g.bits| == 4 && 3 * k + 3 <= |tables|
  {
    && |masks| == |bits| == 4
    && (forall s, t :: masks[Row(s, t)] == MaskFor(m, delta, a0, b0, n, s != SignalBit(a0), t != SignalBit(b0)))
    && (forall s, t :: bits[Row(s, t)] == g.bits[Row(s != SignalBit(a0), t != SignalBit(b0))])
    && out0 == KeyOf(masks[0], delta, bits[0])
    && (forall l :: 1 <= l < 4 ==> tables[3 * k + l - 1] == Xor(masks[l], KeyOf(out0, delta, bits[l])))
  }

  lemma ReducedOutput(m: Masks, delta: Block, a0: Block, b0: Block, out0: Block, g: Gate, n: nat,
                      tables: seq<Block>, k: nat, masks: seq<Block>, bits: seq<bool>, chunk: Block)
    requires |g.bits| == 4 && 3 * k + 3 <= |tables| && !Free(g)
    requires Reduced(m, delta, a0, b0, out0, g, n, tables, k, masks, bits)
    ensures out0 == OutZero(m, RowReduction, delta, a0, b0, chunk, g, n)
  {
    assert Row(false, false) == 0;
    assert masks[Row(false, false)] == MaskFor(m, delta, a0, b0, n, SignalBit(a0), SignalBit(b0));
    assert bits[Row(false, false)] == g.bits[Row(SignalBit(a0), SignalBit(b0))];
  }

  lemma ReducedRow(m: Masks, delta: Block, a0: Block, b0: Block, out0: Block, g: Gate, n: nat,
                   tables: seq<Block>, k: nat, masks: seq<Block>, bits: seq<bool>, s: bool, t: bool)
    requires |g.bits| == 4 && 3 * k + 3 <= |tables| && !Free(g)
    requires Reduced(m, delta, a0, b0, out0, g, n, tables, k, masks, bits)
    ensures Entry(RowReduction, tables, k, Row(s, t)) == RowContent(m, delta, a0, b0, out0, g, n, s, t)
  {
    if Row(s, t) == 0 {
      assert !s && !t;
      ReducedOutput(m, delta, a0, b0, out0, g, n, tables, k, masks, bits, Zero());
      FirstRowZero(m, delta, a0, b0, Zero(), g, n);
    } else {
      var l := Row(s, t);
      assert tables[3 * k + l - 1] == Xor(masks[l], KeyOf(out0, delta, bits[l]));
    }
  }

  /** Rows computed by input values and placed by signal bits are the rows of the gate. */
  lemma PlacedRows(m: Masks, delta: Block, a0: Block, b0: Block, out0: Block, g: Gate, n: nat,
                   tables: seq<Block>, k: nat, rows: seq<Block>)
    requires |g.bits| == 4 && |rows| == 4 && 4 * k + 4 <= |tables|
    requires forall x, y :: rows[Row(x, y)] == RowFor(m, delta, a0, b0, out0, g, n, x, y)
    requires forall a, b :: 0 <= a < 2 && 0 <= b < 2 ==>
      tables[4 * k + Place(SignalBit(a0), SignalBit(b0), a, b)] == rows[2 * a + b]
    ensures HoldsRows(m, FourRows, delta, a0, b0, out0, g, n, tables, k)
  {
    forall s, t ensures Entry(FourRows, tables, k, Row(s, t)) == RowContent(m, delta, a0, b0, out0, g, n, s, t) {
      PlacedRow(m, delta, a0, b0, out0, g, n, tables, k, rows, s, t);
    }
  }

  /** The rows stored by row reduction, together with the zero row, are the rows of the gate. */
  lemma ReducedRows(m: Masks, delta: Block, a0: Block, b0: Block, out0: Block, g: Gate, n: nat,
                    tables: seq<Block>, k: nat, masks: seq<Block>, bits: seq<bool>)
    requires |g.bits| == 4 && 3 * k + 3 <= |tables| && !Free(g)
    requires Reduced(m, delta, a0, b0, out0, g, n, tables, k, masks, bits)
    ensures HoldsRows(m, RowReduction, delta, a0, b0, out0, g, n, tables, k)
  {
    forall s, t ensures Entry(RowReduction, tables, k, Row(s, t)) == RowContent(m, delta, a0, b0, out0, g, n, s, t) {
      ReducedRow(m, delta, a0, b0, out0, g, n, tables, k, masks, bits, s, t);
    }
  }

  lemma RowsOfIntro(p: Setup, c: Circuit, w: seq<Block>, tables: seq<Block>, n: nat,
                    a0: Block, b0: Block, out0: Block)
    requires WellFormed(c) && Fits(c, w) && TablesFit(c, p.scheme, tables)
    requires n < |c.gates| && !Free(c.gates[n]) && TableStart(p.scheme, Tabled(c, n) + 1) <= |tables|
    requires GateOk(c, n) && a0 == w[c.gates[n].input0 + 1] && b0 == w[c.gates[n].input1 + 1]
    requires out0 == OutZero(p.m, p.scheme, p.delta, a0, b0, p.chunk(Tabled(c, n)), c.gates[n], n)
    requires HoldsRows(p.m, p.scheme, p.delta, a0, b0, out0, c.gates[n], n, tables, Tabled(c, n))
    ensures out0 == OutputZero(p, c, w, n) && RowsOf(p, c, w, tables, n)
  {
    hide RowContent, OutZero, HoldsRows, WellFormed, Tabled, TableStart;
  }
}
