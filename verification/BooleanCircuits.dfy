/** Plain boolean circuits: the reference semantics, and its agreement with the garbled reading of the same gates. */
module BooleanCircuits {
  import opened Outcomes
  import Blocks
  import Congruence
  import GC = GarbledCircuits
  import GO = GarbledCircuitObjects

  /** A gate with any number of inputs and outputs. */
  datatype Gate = Gate(truthTable: seq<bool>, inputs: seq<int>, outputs: seq<int>)

  type Wires = map<int, bool>

  function Pow2(k: nat): (r: nat)
    ensures r > 0
  {
    if k == 0 then 1 else 2 * Pow2(k - 1)
  }

  function Bit(b: bool): nat {
    if b then 1 else 0
  }

  predicate Present(wires: Wires, indices: seq<int>) {
    forall i :: 0 <= i < |indices| ==> indices[i] in wires
  }

  /** The inputs read as a binary number, first input highest. */
  function Index(inputs: seq<int>, wires: Wires): nat
    requires Present(wires, inputs)
  {
    if inputs == [] then 0 else 2 * Index(inputs[..|inputs| - 1], wires) + Bit(wires[inputs[|inputs| - 1]])
  }

  /** The inputs from position i on, as a binary number. */
  lemma {:induction false} IndexSplit(inputs: seq<int>, wires: Wires, i: nat)
    requires Present(wires, inputs) && i < |inputs|
    ensures Index(inputs[i..], wires) == Bit(wires[inputs[i]]) * Pow2(|inputs| - 1 - i) + Index(inputs[i + 1..], wires)
    decreases |inputs| - i
  {
    var n := |inputs|;
    if i == n - 1 {
      assert inputs[i..] == [inputs[i]] && inputs[i + 1..] == [] && inputs[i..][..0] == [];
    } else {
      var front := inputs[..n - 1];
      IndexSplit(front, wires, i);
      assert inputs[i..][..n - 1 - i] == front[i..] && inputs[i + 1..][..n - 2 - i] == front[i + 1..];
      var b, p := Bit(wires[inputs[i]]), Pow2(n - 2 - i);
      assert Pow2(n - 1 - i) == 2 * p;
      assert 2 * (b * p) == b * (2 * p);
    }
  }

  /** `calculateIndexOfTruthTable`: powers of two from the last input backwards. */
  method CalculateIndex(inputs: seq<int>, wires: Wires) returns (index: nat)
    requires Present(wires, inputs)
    ensures index == Index(inputs, wires)
  {
    index := 0;
    var i, j := |inputs| - 1, 0;
    while j < |inputs|
      invariant 0 <= j <= |inputs| && i == |inputs| - 1 - j
      invariant index == Index(inputs[i + 1..], wires)
    {
      IndexSplit(inputs, wires, i);
      index := index + Bit(wires[inputs[i]]) * Pow2(j);
      i, j := i - 1, j + 1;
    }
    assert inputs[0..] == inputs;
  }

  function SetAll(wires: Wires, outputs: seq<int>, value: bool): (r: Wires)
    ensures wires.Keys <= r.Keys
  {
    if outputs == [] then wires else SetAll(wires, outputs[..|outputs| - 1], value)[outputs[|outputs| - 1] := value]
  }

  lemma {:induction false} SetAllValues(wires: Wires, outputs: seq<int>, value: bool, w: int)
    ensures w in outputs ==> w in SetAll(wires, outputs, value) && SetAll(wires, outputs, value)[w] == value
    ensures w !in outputs ==>
      && (w in SetAll(wires, outputs, value) <==> w in wires)
      && (w in wires ==> SetAll(wires, outputs, value)[w] == wires[w])
    decreases |outputs|
  {
    if outputs == [] {
    } else {
      var front := outputs[..|outputs| - 1];
      assert outputs == front + [outputs[|outputs| - 1]];
      SetAllValues(wires, front, value, w);
    }
  }

  function ComputeGate(g: Gate, wires: Wires): Outcome<Wires>
    requires Present(wires, g.inputs)
  {
    if Index(g.inputs, wires) >= |g.truthTable| then Threw(OutOfRange)
    else Returned(SetAll(wires, g.outputs, g.truthTable[Index(g.inputs, wires)]))
  }

  /** Input i of a gate is bit `n - 1 - i` of the row, counted from the lowest; there is no other bit. */
  lemma {:induction false} RowBits(inputs: seq<int>, wires: Wires, i: nat)
    requires Present(wires, inputs) && i < |inputs|
    ensures Index(inputs, wires) < Pow2(|inputs|)
    ensures (Index(inputs, wires) / Pow2(|inputs| - 1 - i)) % 2 == Bit(wires[inputs[i]])
    decreases |inputs|
  {
    hide Index, Pow2, Bit;
    var n := |inputs| - 1;
    var front, last := inputs[..n], Bit(wires[inputs[n]]);
    IndexUnfolds(inputs, wires);
    Pow2Unfolds(n);
    if n > 0 {
      RowBits(front, wires, if i < n then i else 0);
    }
    if i == n {
      LowestBit(Index(front, wires), last);
    } else {
      Pow2Unfolds(n - 1 - i);
      Congruence.HalvedQuotient(Index(front, wires), last, Pow2(n - 1 - i));
    }
  }

  lemma IndexUnfolds(inputs: seq<int>, wires: Wires)
    requires Present(wires, inputs) && inputs != []
    ensures var n := |inputs| - 1;
            && Present(wires, inputs[..n]) && Bit(wires[inputs[n]]) <= 1
            && Index(inputs, wires) == 2 * Index(inputs[..n], wires) + Bit(wires[inputs[n]])
            && (n == 0 ==> Index(inputs[..n], wires) == 0)
  {
  }

  lemma Pow2Unfolds(k: nat)
    ensures Pow2(0) == 1 && Pow2(k + 1) == 2 * Pow2(k)
  {
  }

  lemma LowestBit(u: nat, b: nat)
    requires b <= 1
    ensures ((2 * u + b) / 1) % 2 == b
  {
  }

  /** A gate of any number of inputs and outputs sets every output to the entry of its table in that row and keeps all
      other wires; it throws exactly when the table has no such row. */
  lemma GateOutputs(g: Gate, wires: Wires, w: int)
    requires Present(wires, g.inputs)
    ensures ComputeGate(g, wires).Threw? <==> Index(g.inputs, wires) >= |g.truthTable|
    ensures ComputeGate(g, wires).Threw? ==> ComputeGate(g, wires).error == OutOfRange
    ensures ComputeGate(g, wires).Returned? ==>
      var after := ComputeGate(g, wires).value;
      && (w in g.outputs ==> w in after && after[w] == g.truthTable[Index(g.inputs, wires)])
      && (w !in g.outputs ==> (w in after <==> w in wires) && (w in wires ==> after[w] == wires[w]))
  {
    hide Index, SetAll;
    if Index(g.inputs, wires) < |g.truthTable| {
      SetAllValues(wires, g.outputs, g.truthTable[Index(g.inputs, wires)], w);
    }
  }

  /** Every gate of a run finds its inputs. */
  predicate Ordered(gates: seq<Gate>, wires: Wires)
    decreases |gates|
  {
    gates == [] || (Present(wires, gates[0].inputs) &&
                    (ComputeGate(gates[0], wires).Returned? ==>
                      Ordered(gates[1..], ComputeGate(gates[0], wires).value)))
  }

  function ComputeAll(gates: seq<Gate>, wires: Wires): Outcome<Wires>
    requires Ordered(gates, wires)
    decreases |gates|
  {
    if gates == [] then Returned(wires)
    else
      var next :- ComputeGate(gates[0], wires);
      ComputeAll(gates[1..], next)
  }

  /** How many of the wires come before the first one without a preset value. */
  function FirstMissing(own: seq<int>, preset: Wires): (n: nat)
    ensures n <= |own| && Present(preset, own[..n]) && (n < |own| ==> own[n] !in preset)
  {
    if own == [] || own[0] !in preset then 0 else FirstMissing(own[1..], preset) + 1
  }

  lemma MissingNext(own: seq<int>, preset: Wires, i: nat)
    requires i < |own| && i <= FirstMissing(own, preset)
    ensures own[i] in preset <==> i < FirstMissing(own, preset)
  {
    var n := FirstMissing(own, preset);
    if i < n { assert own[..n][i] == own[i]; }
  }

  /** The wires with the preset values of these written over. */
  function TakeOver(wires: Wires, own: seq<int>, preset: Wires): Wires
    requires Present(preset, own)
  {
    if own == [] then wires
    else TakeOver(wires, own[..|own| - 1], preset)[own[|own| - 1] := preset[own[|own| - 1]]]
  }

  lemma {:induction false} TakenOver(wires: Wires, own: seq<int>, preset: Wires, w: int)
    requires Present(preset, own)
    ensures w in TakeOver(wires, own, preset) <==> w in wires || w in own
    ensures w in own ==> w in preset && TakeOver(wires, own, preset)[w] == preset[w]
    ensures w in wires && w !in own ==> TakeOver(wires, own, preset)[w] == wires[w]
    decreases |own|
  {
    if own == [] {
    } else {
      var front := own[..|own| - 1];
      assert own == front + [own[|own| - 1]];
      TakenOver(wires, front, preset, w);
    }
  }

  lemma OverwrittenWires(wires: Wires, own: seq<int>, preset: Wires)
    ensures var n := FirstMissing(own, preset);
            var after := TakeOver(wires, own[..n], preset);
            && (n == |own| <==> Present(preset, own))
            && (forall w :: w in own && n == |own| ==> w in preset && w in after && after[w] == preset[w])
            && (forall w :: w in wires && w !in own ==> w in after && after[w] == wires[w])
  {
    hide TakeOver, FirstMissing;
    var n := FirstMissing(own, preset);
    forall w
      ensures w in own && n == |own| ==> w in preset && w in TakeOver(wires, own[..n], preset)
      ensures w in own && n == |own| ==> TakeOver(wires, own[..n], preset)[w] == preset[w]
      ensures w in wires && w !in own ==> w in TakeOver(wires, own[..n], preset)
      ensures w in wires && w !in own ==> TakeOver(wires, own[..n], preset)[w] == wires[w]
    {
      TakenOver(wires, own[..n], preset, w);
      if n == |own| { assert own[..n] == own; }
    }
    if n == |own| { assert own[..n] == own; }
  }

  class BooleanCircuit {
    const gates: seq<Gate>
    const inputsOfParty: seq<seq<int>>
    const outputsOfParty: seq<seq<int>>
    var isInputSet: seq<bool>
    var computedWires: Wires

    predicate Valid()
      reads this
    {
      |isInputSet| == |inputsOfParty|
    }

    constructor (gates: seq<Gate>, outputsOfParty: seq<seq<int>>, inputsOfParty: seq<seq<int>>)
      ensures Valid() && this.gates == gates && computedWires == map[]
      ensures this.inputsOfParty == inputsOfParty && this.outputsOfParty == outputsOfParty
      ensures forall i :: 0 <= i < |isInputSet| ==> !isInputSet[i]
    {
      this.gates, this.outputsOfParty, this.inputsOfParty := gates, outputsOfParty, inputsOfParty;
      isInputSet, computedWires := seq(|inputsOfParty|, _ => false), map[];
    }

    /** The constructor for one or two parties, which keeps a single list of outputs. */
    static method CreateTwoParty(gates: seq<Gate>, outputs: seq<int>, inputsOfParty: seq<seq<int>>)
        returns (o: Outcome<BooleanCircuit>)
      ensures o.Returned? <==> |inputsOfParty| <= 2
      ensures o.Threw? ==> o.error == InvalidArgument
      ensures o.Returned? ==>
        && fresh(o.value) && o.value.Valid() && o.value.gates == gates && o.value.computedWires == map[]
        && o.value.inputsOfParty == inputsOfParty && o.value.outputsOfParty == [outputs]
        && forall i :: 0 <= i < |o.value.isInputSet| ==> !o.value.isInputSet[i]
    {
      if |inputsOfParty| > 2 {
        return Threw(InvalidArgument);
      }
      var c := new BooleanCircuit(gates, [outputs], inputsOfParty);
      return Returned(c);
    }

    /** The first time wires that have a value keep it; later the party's own wires are overwritten. */
    method SetInputs(preset: Wires, party: int) returns (o: Outcome<()>)
      requires Valid()
      modifies this
      ensures Valid()
      ensures !(1 <= party <= |inputsOfParty|) ==> o == Threw(InvalidArgument) && unchanged(this)
      ensures 1 <= party <= |inputsOfParty| && !old(isInputSet[party - 1]) ==>
        && o == Returned(()) && computedWires == preset + old(computedWires)
        && isInputSet == old(isInputSet)[party - 1 := true]
      ensures 1 <= party <= |inputsOfParty| && old(isInputSet[party - 1]) ==>
        && (o.Returned? <==> Present(preset, inputsOfParty[party - 1]))
        && (o.Threw? ==> o.error == OutOfRange)
        && isInputSet == old(isInputSet)
        && var own := inputsOfParty[party - 1];
        && computedWires == TakeOver(old(computedWires), own[..FirstMissing(own, preset)], preset)
        && (forall w :: w in inputsOfParty[party - 1] && o.Returned? ==>
              w in computedWires && computedWires[w] == preset[w])
        && (forall w :: w in old(computedWires) && w !in inputsOfParty[party - 1] ==>
              w in computedWires && computedWires[w] == old(computedWires[w]))
    {
      hide TakeOver, FirstMissing;
      if party < 1 || party > |inputsOfParty| {
        return Threw(InvalidArgument);
      }
      if !isInputSet[party - 1] {
        computedWires := preset + computedWires;
      } else {
        var own := inputsOfParty[party - 1];
        var complete := Overwrite(own, preset);
        OverwrittenWires(old(computedWires), own, preset);
        if !complete {
          return Threw(OutOfRange);
        }
      }
      isInputSet := isInputSet[party - 1 := true];
      return Returned(());
    }

    /** The loop over a party's own wires, which stops at the first one without a value. */
    method Overwrite(own: seq<int>, preset: Wires) returns (complete: bool)
      modifies this`computedWires
      ensures computedWires == TakeOver(old(computedWires), own[..FirstMissing(own, preset)], preset)
      ensures complete <==> FirstMissing(own, preset) == |own|
    {
      hide FirstMissing;
      for i := 0 to |own|
        invariant i <= FirstMissing(own, preset)
        invariant computedWires == TakeOver(old(computedWires), own[..i], preset)
      {
        MissingNext(own, preset, i);
        if own[i] !in preset {
          return false;
        }
        assert own[..i + 1][..i] == own[..i];
        computedWires := computedWires[own[i] := preset[own[i]]];
      }
      return true;
    }

    /** `compute`: all gates in order, then the wires that are outputs. There is one list of outputs for each party
        that has inputs, or the code indexes past the last list. That is undefined behaviour of the code and not an
        exception; `OutOfRange` marks it here. */
    method Compute() returns (o: Outcome<Wires>)
      requires Valid() && Ordered(gates, computedWires)
      requires ComputeAll(gates, computedWires).Returned? ==>
        forall i :: 0 <= i < |inputsOfParty| && i < |outputsOfParty| ==>
          Present(ComputeAll(gates, computedWires).value, outputsOfParty[i])
      modifies this
      ensures Valid() && isInputSet == old(isInputSet)
      ensures (exists i :: 0 <= i < |isInputSet| && !isInputSet[i]) ==> o == Threw(IllegalState) && unchanged(this)
      ensures (forall i :: 0 <= i < |isInputSet| ==> isInputSet[i]) ==>
        match old(ComputeAll(gates, computedWires))
        case Threw(e) => o == Threw(e)
        case Returned(wires) =>
          && computedWires == wires
          && (|outputsOfParty| < |inputsOfParty| ==> o == Threw(OutOfRange))
          && (|outputsOfParty| >= |inputsOfParty| ==>
                && o.Returned?
                && (forall w :: w in o.value ==> w in wires && o.value[w] == wires[w])
                && (forall w :: w in o.value ==> exists i :: 0 <= i < |inputsOfParty| && w in outputsOfParty[i])
                && (forall i, j :: 0 <= i < |inputsOfParty| && 0 <= j < |outputsOfParty[i]| ==>
                      outputsOfParty[i][j] in o.value))
    {
      for i := 0 to |isInputSet|
        invariant forall j :: 0 <= j < i ==> isInputSet[j]
      {
        if !isInputSet[i] {
          return Threw(IllegalState);
        }
      }
      for i := 0 to |gates|
        invariant Valid() && isInputSet == old(isInputSet)
        invariant Ordered(gates[i..], computedWires)
        invariant ComputeAll(gates[i..], computedWires) == old(ComputeAll(gates, computedWires))
      {
        assert gates[i..][0] == gates[i] && gates[i..][1..] == gates[i + 1..];
        var index := CalculateIndex(gates[i].inputs, computedWires);
        if index >= |gates[i].truthTable| {
          return Threw(OutOfRange);
        }
        SetOutputs(gates[i].outputs, gates[i].truthTable[index]);
      }
      var outputMap: Wires := map[];
      for i := 0 to |inputsOfParty|
        invariant i <= |outputsOfParty|
        invariant forall w :: w in outputMap ==> exists i' :: 0 <= i' < i && w in outputsOfParty[i']
        invariant forall w :: w in outputMap ==> w in computedWires && outputMap[w] == computedWires[w]
        invariant forall i', j :: 0 <= i' < i && 0 <= j < |outputsOfParty[i']| ==> outputsOfParty[i'][j] in outputMap
      {
        if i >= |outputsOfParty| {
          return Threw(OutOfRange);
        }
        for j := 0 to |outputsOfParty[i]|
          invariant forall w :: w in outputMap ==> exists i' :: 0 <= i' <= i && w in outputsOfParty[i']
          invariant forall w :: w in outputMap ==> w in computedWires && outputMap[w] == computedWires[w]
          invariant forall i', j :: 0 <= i' < i && 0 <= j < |outputsOfParty[i']| ==> outputsOfParty[i'][j] in outputMap
          invariant forall j' :: 0 <= j' < j ==> outputsOfParty[i][j'] in outputMap
        {
          assert Present(computedWires, outputsOfParty[i]);
          var w := outputsOfParty[i][j];
          outputMap := outputMap[w := computedWires[w]];
        }
      }
      return Returned(outputMap);
    }

    method SetOutputs(outputs: seq<int>, value: bool)
      modifies this`computedWires
      ensures computedWires == SetAll(old(computedWires), outputs, value)
    {
      ghost var before := computedWires;
      for i := 0 to |outputs|
        invariant computedWires == SetAll(before, outputs[..i], value)
      {
        computedWires := computedWires[outputs[i] := value];
        assert outputs[..i + 1][..i] == outputs[..i];
      }
      assert outputs[..|outputs|] == outputs;
    }
  }

  /** So a circuit of two parties from the constructor for two parties has no defined outputs: computing it
      throws or indexes past its single list of outputs. */
  method TwoPartyRun(gates: seq<Gate>, outputs: seq<int>, inputs1: seq<int>, inputs2: seq<int>, preset1: Wires,
                     preset2: Wires)
      returns (o: Outcome<Wires>)
    requires Ordered(gates, preset2 + preset1)
    requires ComputeAll(gates, preset2 + preset1).Returned? ==>
      Present(ComputeAll(gates, preset2 + preset1).value, outputs)
    ensures o == Threw(OutOfRange)
  {
    var circuit := BooleanCircuit.CreateTwoParty(gates, outputs, [inputs1, inputs2]);
    var c := circuit.value;
    var _ := c.SetInputs(preset1, 1);
    assert c.computedWires == preset1;
    var _ := c.SetInputs(preset2, 2);
    assert forall i :: 0 <= i < |c.isInputSet| ==> c.isInputSet[i];
    OnlyOutOfRange(gates, c.computedWires);
    o := c.Compute();
  }

  lemma {:induction false} OnlyOutOfRange(gates: seq<Gate>, wires: Wires)
    requires Ordered(gates, wires)
    ensures ComputeAll(gates, wires).Threw? ==> ComputeAll(gates, wires).error == OutOfRange
    decreases |gates|
  {
    if gates == [] {
    } else if ComputeGate(gates[0], wires).Returned? {
      OnlyOutOfRange(gates[1..], ComputeGate(gates[0], wires).value);
    }
  }

  // ---------- the same gates, read for garbling ----------

  /** `binaryTodecimal`: a truth table that was read as a decimal number. */
  function FromDecimal(n: nat): nat {
    if n == 0 then 0 else (if n % 10 == 1 then 1 else 0) + 2 * FromDecimal(n / 10)
  }

  method BinaryToDecimal(n: nat) returns (output: nat)
    ensures output == FromDecimal(n)
  {
    var rest, pow := n, 1;
    output := 0;
    while rest > 0
      invariant output + pow * FromDecimal(rest) == FromDecimal(n)
    {
      ghost var d := if rest % 10 == 1 then 1 else 0;
      PowerStep(pow, d, FromDecimal(rest / 10));
      if rest % 10 == 1 {
        output := output + pow;
      }
      rest := rest / 10;
      pow := pow * 2;
    }
  }

  lemma PowerStep(pow: int, d: int, rest: int)
    ensures pow * (d + 2 * rest) == pow * d + (pow * 2) * rest
  {
    assert pow * (2 * rest) == (pow * 2) * rest;
  }

  /** The decimal number that the four digits of a truth table are read as. */
  function AsDecimal(t: seq<bool>): nat
    requires |t| == 4
  {
    1000 * Bit(t[0]) + 100 * Bit(t[1]) + 10 * Bit(t[2]) + Bit(t[3])
  }

  /** A gate as the garbled circuit reads it: with one input it becomes a xor with the constant one,
      whatever its table says. */
  function ReadGate(g: Gate): GC.Gate
    requires |g.outputs| == 1 && g.outputs[0] >= 0
    requires |g.inputs| == 1 || (|g.inputs| == 2 && |g.truthTable| == 4)
  {
    if |g.inputs| == 1 then GC.Gate(g.inputs[0], -1, g.outputs[0], GC.XOR_GATE, [false, true, true, false])
    else GC.Gate(g.inputs[0], g.inputs[1], g.outputs[0], FromDecimal(AsDecimal(g.truthTable)), g.truthTable)
  }

  lemma FromDecimalDigits(a: nat, b: nat, c: nat, d: nat)
    requires a <= 1 && b <= 1 && c <= 1 && d <= 1
    ensures FromDecimal(1000 * a + 100 * b + 10 * c + d) == 8 * a + 4 * b + 2 * c + d
  {
    hide FromDecimal;
    DecimalStep(0, a);
    DecimalZero();
    DecimalStep(a, b);
    DecimalStep(10 * a + b, c);
    DecimalStep(100 * a + 10 * b + c, d);
  }

  lemma DecimalZero()
    ensures FromDecimal(0) == 0
  {
  }

  lemma DecimalStep(rest: nat, d: nat)
    requires d <= 1
    ensures FromDecimal(10 * rest + d) == d + 2 * FromDecimal(rest)
  {
    assert (10 * rest + d) / 10 == rest && (10 * rest + d) % 10 == d;
  }

  lemma NumberBits(a: nat, b: nat, c: nat, d: nat)
    requires a <= 1 && b <= 1 && c <= 1 && d <= 1
    ensures var n := 8 * a + 4 * b + 2 * c + d;
            n < 16 && GC.BitOf(n, 0) == a && GC.BitOf(n, 1) == b && GC.BitOf(n, 2) == c && GC.BitOf(n, 3) == d
  {
  }

  /** The number and the bits of a gate that was read agree, so the free gates are recognised rightly. */
  lemma ReadBitsMatch(g: Gate)
    requires |g.outputs| == 1 && g.outputs[0] >= 0
    requires |g.inputs| == 1 || (|g.inputs| == 2 && |g.truthTable| == 4)
    ensures GC.BitsMatch(ReadGate(g))
  {
    hide FromDecimal, GC.BitOf;
    if |g.inputs| == 1 {
      NumberBits(0, 1, 1, 0);
    } else {
      var t := g.truthTable;
      FromDecimalDigits(Bit(t[0]), Bit(t[1]), Bit(t[2]), Bit(t[3]));
      NumberBits(Bit(t[0]), Bit(t[1]), Bit(t[2]), Bit(t[3]));
    }
  }

  /** The value of a gate in the plain circuit, on one or two input values. */
  function PlainValue(g: Gate, x: bool, y: bool): bool
    requires (|g.inputs| == 1 && |g.truthTable| == 2) || (|g.inputs| == 2 && |g.truthTable| == 4)
  {
    if |g.inputs| == 1 then g.truthTable[Bit(x)] else g.truthTable[2 * Bit(x) + Bit(y)]
  }

  /** The value of the gate that was read; the second input of a one-input gate is the constant one. */
  function ReadValue(g: Gate, x: bool, y: bool): bool
    requires |g.outputs| == 1 && g.outputs[0] >= 0
    requires |g.inputs| == 1 || (|g.inputs| == 2 && |g.truthTable| == 4)
  {
    ReadGate(g).bits[GC.Row(x, if |g.inputs| == 1 then true else y)]
  }

  /** Both readings of a gate agree on all values exactly when a one-input gate is a negation. */
  lemma ReadAgreesIff(g: Gate)
    requires |g.outputs| == 1 && g.outputs[0] >= 0
    requires (|g.inputs| == 1 && |g.truthTable| == 2) || (|g.inputs| == 2 && |g.truthTable| == 4)
    ensures (forall x, y :: ReadValue(g, x, y) == PlainValue(g, x, y)) <==>
            (|g.inputs| == 1 ==> g.truthTable == [true, false])
  {
    if |g.inputs| == 1 {
      if forall x, y :: ReadValue(g, x, y) == PlainValue(g, x, y) {
        assert ReadValue(g, false, false) == PlainValue(g, false, false);
        assert ReadValue(g, true, false) == PlainValue(g, true, false);
        assert g.truthTable == [g.truthTable[0], g.truthTable[1]];
      }
    }
  }

  predicate Readable(g: Gate) {
    && |g.outputs| == 1 && g.outputs[0] >= 0
    && ((|g.inputs| == 1 && g.truthTable == [true, false]) || (|g.inputs| == 2 && |g.truthTable| == 4))
  }

  predicate InputsOk(gates: seq<Gate>) {
    forall i, k :: 0 <= i < |gates| && 0 <= k < |gates[i].inputs| ==> gates[i].inputs[k] >= 0
  }

  /** The circuit was read from the same gates. */
  ghost predicate SameGates(c: GC.Circuit, gates: seq<Gate>) {
    |gates| == |c.gates| && forall i :: 0 <= i < |gates| ==> Readable(gates[i]) && c.gates[i] == ReadGate(gates[i])
  }

  /** Values of the defined wires agree; wire -1 carries one. */
  ghost predicate Agree(c: GC.Circuit, n: nat, values: seq<bool>, wires: Wires)
    requires GC.Fits(c, values) && n <= |c.gates|
  {
    values[0] && forall w :: 0 <= w < c.wires && GC.Defined(c, n, w) ==> w in wires && wires[w] == values[w + 1]
  }

  lemma GateCount(c: GC.Circuit, gates: seq<Gate>)
    requires SameGates(c, gates)
    ensures |gates| == |c.gates|
  {
  }

  lemma InputsAgree(c: GC.Circuit, gates: seq<Gate>, n: nat, values: seq<bool>, wires: Wires)
    requires GC.WellFormed(c) && SameGates(c, gates) && n < |gates| && GC.Fits(c, values)
    requires Agree(c, n, values, wires) && InputsOk(gates) && GC.GateReaches(c, |values|, n)
    ensures var g, r := gates[n], c.gates[n];
            var x, y := values[r.input0 + 1], values[r.input1 + 1];
            && Readable(g) && r == ReadGate(g) && r.output < c.wires
            && Present(wires, g.inputs) && wires[g.inputs[0]] == x
            && (if |g.inputs| == 1 then y else wires[g.inputs[1]] == y)
  {
    hide FromDecimal, GC.BitsMatch, GC.Defined, GC.WellFormed;
    GC.GateInRange(c, n);
  }

  lemma GateValueAgrees(g: Gate, wires: Wires, x: bool, y: bool)
    requires Readable(g) && Present(wires, g.inputs) && wires[g.inputs[0]] == x
    requires if |g.inputs| == 1 then y else wires[g.inputs[1]] == y
    ensures |ReadGate(g).bits| == 4
    ensures ComputeGate(g, wires) == Returned(wires[ReadGate(g).output := ReadGate(g).bits[GC.Row(x, y)]])
  {
    hide FromDecimal, Index, SetAll;
    IndexOfGate(g, wires, x, y);
    ReadAgreesIff(g);
    assert ReadValue(g, x, y) == PlainValue(g, x, y);
    OneOutput(wires, g.outputs, PlainValue(g, x, y));
  }

  lemma GateAgrees(c: GC.Circuit, gates: seq<Gate>, n: nat, values: seq<bool>, wires: Wires)
    requires GC.WellFormed(c) && SameGates(c, gates) && n < |gates| && GC.Fits(c, values)
    requires Agree(c, n, values, wires) && InputsOk(gates)
    ensures Present(wires, gates[n].inputs) && ComputeGate(gates[n], wires).Returned?
    ensures Agree(c, n + 1, GC.PlainStep(c, values, n), ComputeGate(gates[n], wires).value)
  {
    hide *;
    GateCount(c, gates);
    GC.GateReach(c, values, n);
    InputsAgree(c, gates, n, values, wires);
    var r := c.gates[n];
    var x, y := values[r.input0 + 1], values[r.input1 + 1];
    GateValueAgrees(gates[n], wires, x, y);
    GC.PlainStepIs(c, values, n);
    AgreeUpdate(c, n, values, wires, r.bits[GC.Row(x, y)]);
  }

  lemma AgreeUpdate(c: GC.Circuit, n: nat, values: seq<bool>, wires: Wires, value: bool)
    requires GC.Fits(c, values) && n < |c.gates| && c.gates[n].output < c.wires && Agree(c, n, values, wires)
    ensures Agree(c, n + 1, values[c.gates[n].output + 1 := value], wires[c.gates[n].output := value])
  {
  }

  lemma OneOutput(wires: Wires, outputs: seq<int>, value: bool)
    requires |outputs| == 1
    ensures SetAll(wires, outputs, value) == wires[outputs[0] := value]
  {
    assert outputs[..0] == [];
  }

  lemma IndexOfGate(g: Gate, wires: Wires, x: bool, y: bool)
    requires Readable(g) && Present(wires, g.inputs)
    requires wires[g.inputs[0]] == x && (|g.inputs| == 2 ==> wires[g.inputs[1]] == y)
    ensures Index(g.inputs, wires) == if |g.inputs| == 1 then Bit(x) else 2 * Bit(x) + Bit(y)
  {
    var one := g.inputs[..1];
    assert one[..0] == [] && g.inputs[..0] == [];
    assert Index(one, wires) == Bit(x);
    if |g.inputs| == 1 { assert one == g.inputs; }
  }

  lemma LastGate(gates: seq<Gate>, wires: Wires)
    ensures Ordered(gates[|gates|..], wires) && ComputeAll(gates[|gates|..], wires) == Returned(wires)
  {
  }

  lemma NextGate(gates: seq<Gate>, n: nat, wires: Wires)
    requires n < |gates| && Present(wires, gates[n].inputs) && ComputeGate(gates[n], wires).Returned?
    requires Ordered(gates[n + 1..], ComputeGate(gates[n], wires).value)
    ensures Ordered(gates[n..], wires)
    ensures ComputeAll(gates[n..], wires) == ComputeAll(gates[n + 1..], ComputeGate(gates[n], wires).value)
  {
    hide ComputeGate, Present;
    assert gates[n..][0] == gates[n] && gates[n..][1..] == gates[n + 1..];
  }

  /** Plain evaluation of the gates and of their garbled reading agree on every defined wire, from any gate on. */
  lemma {:induction false} ReadingAgrees(c: GC.Circuit, gates: seq<Gate>, n: nat, values: seq<bool>, wires: Wires)
    requires GC.WellFormed(c) && SameGates(c, gates) && n <= |gates| && GC.Fits(c, values)
    requires InputsOk(gates)
    requires Agree(c, n, GC.Plain(c, values, n), wires)
    ensures Ordered(gates[n..], wires) && ComputeAll(gates[n..], wires).Returned?
    ensures Agree(c, |gates|, GC.Plain(c, values, |gates|), ComputeAll(gates[n..], wires).value)
    decreases |gates| - n
  {
    hide *;
    GateCount(c, gates);
    if n == |gates| {
      LastGate(gates, wires);
    } else {
      GateAgrees(c, gates, n, GC.Plain(c, values, n), wires);
      var next := ComputeGate(gates[n], wires).value;
      GC.PlainNext(c, values, n);
      ReadingAgrees(c, gates, n + 1, values, next);
      NextGate(gates, n, wires);
    }
  }

  lemma {:induction false} AssignedValue(start: seq<bool>, indices: seq<nat>, values: seq<bool>, w: nat, value: bool)
    requires |indices| == |values| && forall i :: 0 <= i < |indices| ==> indices[i] + 1 < |start|
    requires w in indices && forall i :: 0 <= i < |indices| && indices[i] == w ==> values[i] == value
    ensures w + 1 < |start| && GC.Assign(start, indices, values)[w + 1] == value
    decreases |indices|
  {
    var n := |indices| - 1;
    if indices[n] == w {
    } else {
      assert w in indices[..n];
      AssignedValue(start, indices[..n], values[..n], w, value);
    }
  }

  /** The wires hold these input values. */
  ghost predicate HoldInputs(c: GC.Circuit, xs: seq<bool>, wires: Wires)
    requires |xs| == |c.inputs|
  {
    forall i :: 0 <= i < |xs| ==> c.inputs[i] in wires && wires[c.inputs[i]] == xs[i]
  }

  lemma StartAgrees(c: GC.Circuit, xs: seq<bool>, values: seq<bool>, wires: Wires)
    requires GC.WellFormed(c) && |xs| == |c.inputs| && HoldInputs(c, xs, wires) && GC.Fits(c, values)
    ensures Agree(c, 0, GC.StartValues(c, values, xs), wires)
  {
    hide GC.Assign;
    var start := values[0 := true];
    forall w | 0 <= w < c.wires && GC.Defined(c, 0, w)
      ensures w in wires && wires[w] == GC.StartValues(c, values, xs)[w + 1]
    {
      AssignedValue(start, c.inputs, xs, w, wires[w]);
    }
  }

  /** The plain run succeeds, and its wires hold the outputs of the circuit that was read. */
  lemma OutputsAgree(c: GC.Circuit, gates: seq<Gate>, xs: seq<bool>, wires: Wires)
    requires GC.WellFormed(c) && SameGates(c, gates) && InputsOk(gates)
    requires |xs| == |c.inputs| && HoldInputs(c, xs, wires)
    ensures Ordered(gates, wires) && ComputeAll(gates, wires).Returned?
    ensures var final := ComputeAll(gates, wires).value;
            forall i :: 0 <= i < |c.outputs| ==>
              c.outputs[i] in final && final[c.outputs[i]] == GO.PlainOutputs(c, xs)[i]
  {
    hide GC.StartValues, GC.PlainStep, GC.GateOk, Ordered, ComputeAll, HoldInputs;
    var values := seq(c.wires + 1, _ => false);
    var start := GC.StartValues(c, values, xs);
    StartAgrees(c, xs, values, wires);
    ReadingAgrees(c, gates, 0, start, wires);
    assert gates[0..] == gates;
  }

  /** The parties' outputs are the outputs of the circuit that was read. */
  ghost predicate SameOutputs(c: GC.Circuit, parties: nat, outputsOfParty: seq<seq<int>>) {
    && parties <= |outputsOfParty|
    && (forall i, j :: 0 <= i < parties && 0 <= j < |outputsOfParty[i]| ==> outputsOfParty[i][j] in c.outputs)
    && (forall k :: 0 <= k < |c.outputs| ==> exists i :: 0 <= i < parties && c.outputs[k] in outputsOfParty[i])
  }

  lemma OutputsPresent(c: GC.Circuit, parties: nat, outputsOfParty: seq<seq<int>>, final: Wires, i: nat)
    requires SameOutputs(c, parties, outputsOfParty) && i < parties
    requires forall k :: 0 <= k < |c.outputs| ==> c.outputs[k] in final
    ensures Present(final, outputsOfParty[i])
  {
  }

  /** Garbling the gates of a plain circuit, evaluating and translating gives what the plain circuit computes: for all
      gates that can be read (`ReadAgreesIff`), all inputs and seeds, with three and four rows, with and without the
      layer of identity gates. */
  method RunBoth(plain: BooleanCircuit, gc: GO.GarbledBooleanCircuit, seedDelta: Blocks.Block,
                 chunk: nat -> Blocks.Block, xs: seq<bool>) returns (o: Outcome<Wires>, answer: seq<bool>)
    requires plain.Valid() && gc.Valid() && SameGates(gc.c, plain.gates) && InputsOk(plain.gates)
    requires forall i :: 0 <= i < |plain.isInputSet| ==> plain.isInputSet[i]
    requires |xs| == |gc.c.inputs| && HoldInputs(gc.c, xs, plain.computedWires)
    requires SameOutputs(gc.c, |plain.inputsOfParty|, plain.outputsOfParty)
    modifies plain, gc, gc.garbledWires, gc.computedWires, gc.garbledTables
    ensures o.Returned? && |answer| == |gc.c.outputs|
    ensures forall k :: 0 <= k < |answer| ==> gc.c.outputs[k] in o.value && o.value[gc.c.outputs[k]] == answer[k]
  {
    hide GC.WellFormed, SameGates, InputsOk, HoldInputs, Ordered, ComputeAll;
    OutputsAgree(gc.c, plain.gates, xs, plain.computedWires);
    ghost var final := ComputeAll(plain.gates, plain.computedWires).value;
    forall i | 0 <= i < |plain.inputsOfParty| ensures Present(final, plain.outputsOfParty[i]) {
      OutputsPresent(gc.c, |plain.inputsOfParty|, plain.outputsOfParty, final, i);
    }
    o := plain.Compute();
    ghost var bothInputKeys, bothOutputKeys, keys;
    answer, bothInputKeys, bothOutputKeys, keys := GO.Run(gc, seedDelta, chunk, xs);
    assert |answer| == |gc.c.outputs|;
  }
}
