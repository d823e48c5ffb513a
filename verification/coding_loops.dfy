/** The twelve coding loops: the three loops over bytes, inputs and
    outputs nested in each of their six orders, each with either
    multiplication routine. Every order meets the CodingLoop contract, so
    all twelve leave the same heap behind.

    Each order is split into one method per loop level so that every
    level carries its own small contract. */
module CodingLoops {
  import opened Galois
  import opened CodingLoop
  import opened Wrappers

  /** Nesting of the three loops, outermost first. */
  datatype LoopOrder =
    | ByteInputOutput
    | ByteOutputInput
    | InputByteOutput
    | InputOutputByte
    | OutputByteInput
    | OutputInputByte

  datatype Loop = Loop(order: LoopOrder, mult: MulMethod)

  /** ALL_CODING_LOOPS, in declaration order. */
  const AllCodingLoops: seq<Loop> := [
    Loop(ByteInputOutput, Exp), Loop(ByteInputOutput, Table),
    Loop(ByteOutputInput, Exp), Loop(ByteOutputInput, Table),
    Loop(InputByteOutput, Exp), Loop(InputByteOutput, Table),
    Loop(InputOutputByte, Exp), Loop(InputOutputByte, Table),
    Loop(OutputByteInput, Exp), Loop(OutputByteInput, Table),
    Loop(OutputInputByte, Exp), Loop(OutputInputByte, Table)
  ]

  // ---------------------------------------------------------------------
  // Innermost loops

  /** Adds input i into byte p of every output (innermost loop: outputs). */
  method AccumulateColumn(f: Field, m: MulMethod, c: Call, h0: Heap, h: Heap, i: nat, p: nat) returns (h': Heap)
    requires WellShaped(c, h0) && Unaliased(c) && Framed(c, h0, h)
    requires i < c.inputCount && c.InWindow(p)
    requires Region(f, m, c, h0, h, 0, c.outputCount, p, p + 1, i)
    ensures Framed(c, h0, h')
    ensures Region(f, m, c, h0, h', 0, c.outputCount, p, p + 1, i + 1)
    ensures Agree(c, h0, h, h', 0, c.outputCount, c.offset, p)
    ensures Agree(c, h0, h, h', 0, c.outputCount, p + 1, c.End())
  {
    h' := h;
    var o := 0;
    while o < c.outputCount
      invariant 0 <= o <= c.outputCount
      invariant Framed(c, h0, h')
      invariant Region(f, m, c, h0, h', 0, o, p, p + 1, i + 1)
      invariant Region(f, m, c, h0, h', o, c.outputCount, p, p + 1, i)
      invariant Agree(c, h0, h, h', 0, c.outputCount, c.offset, p)
      invariant Agree(c, h0, h, h', 0, c.outputCount, p + 1, c.End())
    {
      var next := Accumulate(f, m, c, h0, h', o, i, p);
      RegionFrame(f, m, c, h0, h', next, 0, o, p, p + 1, i + 1, o, p);
      RegionFrame(f, m, c, h0, h', next, o + 1, c.outputCount, p, p + 1, i, o, p);
      RegionJoinOutputs(f, m, c, h0, next, 0, o, o + 1, p, p + 1, i + 1);
      h' := next;
      o := o + 1;
    }
  }

  /** Adds input i into every window byte of output o (innermost loop: bytes). */
  method AccumulateRow(f: Field, m: MulMethod, c: Call, h0: Heap, h: Heap, o: nat, i: nat) returns (h': Heap)
    requires WellShaped(c, h0) && Unaliased(c) && Framed(c, h0, h)
    requires o < c.outputCount && i < c.inputCount
    requires Region(f, m, c, h0, h, o, o + 1, c.offset, c.End(), i)
    ensures Framed(c, h0, h')
    ensures Region(f, m, c, h0, h', o, o + 1, c.offset, c.End(), i + 1)
    ensures Agree(c, h0, h, h', 0, o, c.offset, c.End())
    ensures Agree(c, h0, h, h', o + 1, c.outputCount, c.offset, c.End())
  {
    h' := h;
    var p := c.offset;
    while p < c.End()
      invariant c.offset <= p <= c.End()
      invariant Framed(c, h0, h')
      invariant Region(f, m, c, h0, h', o, o + 1, c.offset, p, i + 1)
      invariant Region(f, m, c, h0, h', o, o + 1, p, c.End(), i)
      invariant Agree(c, h0, h, h', 0, o, c.offset, c.End())
      invariant Agree(c, h0, h, h', o + 1, c.outputCount, c.offset, c.End())
    {
      var next := Accumulate(f, m, c, h0, h', o, i, p);
      RegionFrame(f, m, c, h0, h', next, o, o + 1, c.offset, p, i + 1, o, p);
      RegionFrame(f, m, c, h0, h', next, o, o + 1, p + 1, c.End(), i, o, p);
      RegionJoinBytes(f, m, c, h0, next, o, o + 1, c.offset, p, p + 1, i + 1);
      h' := next;
      p := p + 1;
    }
  }

  /** The coded byte of output o at p, summed over the inputs in a local
      (innermost loop: inputs). */
  method SumInputs(f: Field, m: MulMethod, c: Call, h: Heap, o: nat, p: nat) returns (value: bv8)
    requires WellShaped(c, h)
    requires o < c.outputCount && c.InWindow(p)
    ensures value == Coded(f, m, c, h, o, p)
  {
    value := 0;
    var i := 0;
    while i < c.inputCount
      invariant 0 <= i <= c.inputCount
      invariant value == Sum(f, m, c.matrixRows[o], h, c.inputs, p, i)
    {
      value := Add(value, Multiply(f, m, c.matrixRows[o][i], h[c.inputs[i]][p]));
      i := i + 1;
    }
  }

  /** Byte p of output o, summed in a local and then stored once. */
  method CodeByte(f: Field, m: MulMethod, c: Call, h0: Heap, h: Heap, o: nat, p: nat) returns (h': Heap)
    requires WellShaped(c, h0) && Unaliased(c) && Framed(c, h0, h)
    requires o < c.outputCount && c.InWindow(p)
    ensures Framed(c, h0, h')
    ensures Holds(f, m, c, h0, h', o, p, c.inputCount)
    ensures forall o', p' :: 0 <= o' < c.outputCount && c.InWindow(p') && (o' != o || p' != p) ==>
              h'[c.outputs[o']][p'] == h[c.outputs[o']][p']
  {
    FramedWellShaped(c, h0, h);
    InputsUnchanged(c, h0, h);
    var value := SumInputs(f, m, c, h, o, p);
    SumReadsOnlyUsedInputs(f, m, c.matrixRows[o], h, c.inputs, h0, c.inputs, p, c.inputCount);
    h' := Write(c, h0, h, o, p, value);
  }

  // ---------------------------------------------------------------------
  // Middle loops

  /** Every input, then every output, at byte p. */
  method InputOutputAt(f: Field, m: MulMethod, c: Call, h0: Heap, h: Heap, p: nat) returns (h': Heap)
    requires WellShaped(c, h0) && Unaliased(c) && Framed(c, h0, h)
    requires c.InWindow(p)
    requires Region(f, m, c, h0, h, 0, c.outputCount, p, p + 1, 0)
    ensures Framed(c, h0, h')
    ensures Region(f, m, c, h0, h', 0, c.outputCount, p, p + 1, c.inputCount)
    ensures Agree(c, h0, h, h', 0, c.outputCount, c.offset, p)
    ensures Agree(c, h0, h, h', 0, c.outputCount, p + 1, c.End())
  {
    h' := h;
    var i := 0;
    while i < c.inputCount
      invariant 0 <= i <= c.inputCount
      invariant Framed(c, h0, h')
      invariant Region(f, m, c, h0, h', 0, c.outputCount, p, p + 1, i)
      invariant Agree(c, h0, h, h', 0, c.outputCount, c.offset, p)
      invariant Agree(c, h0, h, h', 0, c.outputCount, p + 1, c.End())
    {
      var next := AccumulateColumn(f, m, c, h0, h', i, p);
      AgreeTrans(c, h0, h, h', next, 0, c.outputCount, c.offset, p);
      AgreeTrans(c, h0, h, h', next, 0, c.outputCount, p + 1, c.End());
      h' := next;
      i := i + 1;
    }
  }

  /** Every output, each summed over the inputs, at byte p. */
  method OutputInputAt(f: Field, m: MulMethod, c: Call, h0: Heap, h: Heap, p: nat) returns (h': Heap)
    requires WellShaped(c, h0) && Unaliased(c) && Framed(c, h0, h)
    requires c.InWindow(p)
    ensures Framed(c, h0, h')
    ensures Region(f, m, c, h0, h', 0, c.outputCount, p, p + 1, c.inputCount)
    ensures Agree(c, h0, h, h', 0, c.outputCount, c.offset, p)
    ensures Agree(c, h0, h, h', 0, c.outputCount, p + 1, c.End())
  {
    h' := h;
    var o := 0;
    while o < c.outputCount
      invariant 0 <= o <= c.outputCount
      invariant Framed(c, h0, h')
      invariant Region(f, m, c, h0, h', 0, o, p, p + 1, c.inputCount)
      invariant Agree(c, h0, h, h', 0, c.outputCount, c.offset, p)
      invariant Agree(c, h0, h, h', 0, c.outputCount, p + 1, c.End())
    {
      var next := CodeByte(f, m, c, h0, h', o, p);
      RegionFrame(f, m, c, h0, h', next, 0, o, p, p + 1, c.inputCount, o, p);
      RegionJoinOutputs(f, m, c, h0, next, 0, o, o + 1, p, p + 1, c.inputCount);
      h' := next;
      o := o + 1;
    }
  }

  /** Input i at every byte, each byte over every output. */
  method ByteOutputFor(f: Field, m: MulMethod, c: Call, h0: Heap, h: Heap, i: nat) returns (h': Heap)
    requires WellShaped(c, h0) && Unaliased(c) && Framed(c, h0, h)
    requires i < c.inputCount
    requires Region(f, m, c, h0, h, 0, c.outputCount, c.offset, c.End(), i)
    ensures Framed(c, h0, h')
    ensures Region(f, m, c, h0, h', 0, c.outputCount, c.offset, c.End(), i + 1)
  {
    h' := h;
    var p := c.offset;
    while p < c.End()
      invariant c.offset <= p <= c.End()
      invariant Framed(c, h0, h')
      invariant Region(f, m, c, h0, h', 0, c.outputCount, c.offset, p, i + 1)
      invariant Region(f, m, c, h0, h', 0, c.outputCount, p, c.End(), i)
    {
      var next := AccumulateColumn(f, m, c, h0, h', i, p);
      RegionTransfer(f, m, c, h0, h', next, 0, c.outputCount, c.offset, p, i + 1);
      RegionTransfer(f, m, c, h0, h', next, 0, c.outputCount, p + 1, c.End(), i);
      RegionJoinBytes(f, m, c, h0, next, 0, c.outputCount, c.offset, p, p + 1, i + 1);
      h' := next;
      p := p + 1;
    }
  }

  /** Input i into every output, each output over every byte. */
  method OutputByteFor(f: Field, m: MulMethod, c: Call, h0: Heap, h: Heap, i: nat) returns (h': Heap)
    requires WellShaped(c, h0) && Unaliased(c) && Framed(c, h0, h)
    requires i < c.inputCount
    requires Region(f, m, c, h0, h, 0, c.outputCount, c.offset, c.End(), i)
    ensures Framed(c, h0, h')
    ensures Region(f, m, c, h0, h', 0, c.outputCount, c.offset, c.End(), i + 1)
  {
    h' := h;
    var o := 0;
    while o < c.outputCount
      invariant 0 <= o <= c.outputCount
      invariant Framed(c, h0, h')
      invariant Region(f, m, c, h0, h', 0, o, c.offset, c.End(), i + 1)
      invariant Region(f, m, c, h0, h', o, c.outputCount, c.offset, c.End(), i)
    {
      var next := AccumulateRow(f, m, c, h0, h', o, i);
      RegionTransfer(f, m, c, h0, h', next, 0, o, c.offset, c.End(), i + 1);
      RegionTransfer(f, m, c, h0, h', next, o + 1, c.outputCount, c.offset, c.End(), i);
      RegionJoinOutputs(f, m, c, h0, next, 0, o, o + 1, c.offset, c.End(), i + 1);
      h' := next;
      o := o + 1;
    }
  }

  /** Output o over every input, each input over every byte. */
  method InputByteFor(f: Field, m: MulMethod, c: Call, h0: Heap, h: Heap, o: nat) returns (h': Heap)
    requires WellShaped(c, h0) && Unaliased(c) && Framed(c, h0, h)
    requires o < c.outputCount
    requires Region(f, m, c, h0, h, o, o + 1, c.offset, c.End(), 0)
    ensures Framed(c, h0, h')
    ensures Region(f, m, c, h0, h', o, o + 1, c.offset, c.End(), c.inputCount)
    ensures Agree(c, h0, h, h', 0, o, c.offset, c.End())
    ensures Agree(c, h0, h, h', o + 1, c.outputCount, c.offset, c.End())
  {
    h' := h;
    var i := 0;
    while i < c.inputCount
      invariant 0 <= i <= c.inputCount
      invariant Framed(c, h0, h')
      invariant Region(f, m, c, h0, h', o, o + 1, c.offset, c.End(), i)
      invariant Agree(c, h0, h, h', 0, o, c.offset, c.End())
      invariant Agree(c, h0, h, h', o + 1, c.outputCount, c.offset, c.End())
    {
      var next := AccumulateRow(f, m, c, h0, h', o, i);
      AgreeTrans(c, h0, h, h', next, 0, o, c.offset, c.End());
      AgreeTrans(c, h0, h, h', next, o + 1, c.outputCount, c.offset, c.End());
      h' := next;
      i := i + 1;
    }
  }

  /** Output o at every byte, each byte summed over the inputs. */
  method ByteInputFor(f: Field, m: MulMethod, c: Call, h0: Heap, h: Heap, o: nat) returns (h': Heap)
    requires WellShaped(c, h0) && Unaliased(c) && Framed(c, h0, h)
    requires o < c.outputCount
    ensures Framed(c, h0, h')
    ensures Region(f, m, c, h0, h', o, o + 1, c.offset, c.End(), c.inputCount)
    ensures Agree(c, h0, h, h', 0, o, c.offset, c.End())
    ensures Agree(c, h0, h, h', o + 1, c.outputCount, c.offset, c.End())
  {
    h' := h;
    var p := c.offset;
    while p < c.End()
      invariant c.offset <= p <= c.End()
      invariant Framed(c, h0, h')
      invariant Region(f, m, c, h0, h', o, o + 1, c.offset, p, c.inputCount)
      invariant Agree(c, h0, h, h', 0, o, c.offset, c.End())
      invariant Agree(c, h0, h, h', o + 1, c.outputCount, c.offset, c.End())
    {
      var next := CodeByte(f, m, c, h0, h', o, p);
      RegionFrame(f, m, c, h0, h', next, o, o + 1, c.offset, p, c.inputCount, o, p);
      RegionJoinBytes(f, m, c, h0, next, o, o + 1, c.offset, p, p + 1, c.inputCount);
      h' := next;
      p := p + 1;
    }
  }

  // ---------------------------------------------------------------------
  // The six orders

  method CodeByteInputOutput(f: Field, m: MulMethod, c: Call, h0: Heap) returns (h: Heap)
    requires WellShaped(c, h0) && Unaliased(c)
    ensures IsCoded(f, m, c, h0, h)
  {
    FramedRefl(c, h0);
    h := h0;
    var p := c.offset;
    while p < c.End()
      invariant c.offset <= p <= c.End()
      invariant Framed(c, h0, h)
      invariant Region(f, m, c, h0, h, 0, c.outputCount, c.offset, p, c.inputCount)
      invariant Region(f, m, c, h0, h, 0, c.outputCount, p, c.End(), 0)
    {
      var next := InputOutputAt(f, m, c, h0, h, p);
      RegionTransfer(f, m, c, h0, h, next, 0, c.outputCount, c.offset, p, c.inputCount);
      RegionTransfer(f, m, c, h0, h, next, 0, c.outputCount, p + 1, c.End(), 0);
      RegionJoinBytes(f, m, c, h0, next, 0, c.outputCount, c.offset, p, p + 1, c.inputCount);
      h := next;
      p := p + 1;
    }
    RegionComplete(f, m, c, h0, h);
  }

  method CodeByteOutputInput(f: Field, m: MulMethod, c: Call, h0: Heap) returns (h: Heap)
    requires WellShaped(c, h0) && Unaliased(c)
    ensures IsCoded(f, m, c, h0, h)
  {
    FramedRefl(c, h0);
    h := h0;
    var p := c.offset;
    while p < c.End()
      invariant c.offset <= p <= c.End()
      invariant Framed(c, h0, h)
      invariant Region(f, m, c, h0, h, 0, c.outputCount, c.offset, p, c.inputCount)
    {
      var next := OutputInputAt(f, m, c, h0, h, p);
      RegionTransfer(f, m, c, h0, h, next, 0, c.outputCount, c.offset, p, c.inputCount);
      RegionJoinBytes(f, m, c, h0, next, 0, c.outputCount, c.offset, p, p + 1, c.inputCount);
      h := next;
      p := p + 1;
    }
    RegionComplete(f, m, c, h0, h);
  }

  method CodeInputByteOutput(f: Field, m: MulMethod, c: Call, h0: Heap) returns (h: Heap)
    requires WellShaped(c, h0) && Unaliased(c)
    ensures IsCoded(f, m, c, h0, h)
  {
    FramedRefl(c, h0);
    h := h0;
    var i := 0;
    while i < c.inputCount
      invariant 0 <= i <= c.inputCount
      invariant Framed(c, h0, h)
      invariant Region(f, m, c, h0, h, 0, c.outputCount, c.offset, c.End(), i)
    {
      h := ByteOutputFor(f, m, c, h0, h, i);
      i := i + 1;
    }
    RegionComplete(f, m, c, h0, h);
  }

  method CodeInputOutputByte(f: Field, m: MulMethod, c: Call, h0: Heap) returns (h: Heap)
    requires WellShaped(c, h0) && Unaliased(c)
    ensures IsCoded(f, m, c, h0, h)
  {
    FramedRefl(c, h0);
    h := h0;
    var i := 0;
    while i < c.inputCount
      invariant 0 <= i <= c.inputCount
      invariant Framed(c, h0, h)
      invariant Region(f, m, c, h0, h, 0, c.outputCount, c.offset, c.End(), i)
    {
      h := OutputByteFor(f, m, c, h0, h, i);
      i := i + 1;
    }
    RegionComplete(f, m, c, h0, h);
  }

  method CodeOutputByteInput(f: Field, m: MulMethod, c: Call, h0: Heap) returns (h: Heap)
    requires WellShaped(c, h0) && Unaliased(c)
    ensures IsCoded(f, m, c, h0, h)
  {
    FramedRefl(c, h0);
    h := h0;
    var o := 0;
    while o < c.outputCount
      invariant 0 <= o <= c.outputCount
      invariant Framed(c, h0, h)
      invariant Region(f, m, c, h0, h, 0, o, c.offset, c.End(), c.inputCount)
    {
      var next := ByteInputFor(f, m, c, h0, h, o);
      RegionTransfer(f, m, c, h0, h, next, 0, o, c.offset, c.End(), c.inputCount);
      RegionJoinOutputs(f, m, c, h0, next, 0, o, o + 1, c.offset, c.End(), c.inputCount);
      h := next;
      o := o + 1;
    }
    RegionComplete(f, m, c, h0, h);
  }

  method CodeOutputInputByte(f: Field, m: MulMethod, c: Call, h0: Heap) returns (h: Heap)
    requires WellShaped(c, h0) && Unaliased(c)
    ensures IsCoded(f, m, c, h0, h)
  {
    FramedRefl(c, h0);
    h := h0;
    var o := 0;
    while o < c.outputCount
      invariant 0 <= o <= c.outputCount
      invariant Framed(c, h0, h)
      invariant Region(f, m, c, h0, h, 0, o, c.offset, c.End(), c.inputCount)
      invariant Region(f, m, c, h0, h, o, c.outputCount, c.offset, c.End(), 0)
    {
      var next := InputByteFor(f, m, c, h0, h, o);
      RegionTransfer(f, m, c, h0, h, next, 0, o, c.offset, c.End(), c.inputCount);
      RegionTransfer(f, m, c, h0, h, next, o + 1, c.outputCount, c.offset, c.End(), 0);
      RegionJoinOutputs(f, m, c, h0, next, 0, o, o + 1, c.offset, c.End(), c.inputCount);
      h := next;
      o := o + 1;
    }
    RegionComplete(f, m, c, h0, h);
  }

  // ---------------------------------------------------------------------
  // The interface

  /** codeSomeShards of the given loop. Whatever the loop, only the window
      of the first outputCount output buffers changes, and there each byte
      is the coded byte; with a consistent field that is also the byte the
      log/exp routine gives. */
  method CodeSomeShards(f: Field, loop: Loop, c: Call, h: Heap) returns (h': Heap)
    requires WellShaped(c, h) && Unaliased(c)
    ensures IsCoded(f, loop.mult, c, h, h')
    ensures Consistent(f) ==> IsCoded(f, Exp, c, h, h')
  {
    match loop.order {
      case ByteInputOutput => h' := CodeByteInputOutput(f, loop.mult, c, h);
      case ByteOutputInput => h' := CodeByteOutputInput(f, loop.mult, c, h);
      case InputByteOutput => h' := CodeInputByteOutput(f, loop.mult, c, h);
      case InputOutputByte => h' := CodeInputOutputByte(f, loop.mult, c, h);
      case OutputByteInput => h' := CodeOutputByteInput(f, loop.mult, c, h);
      case OutputInputByte => h' := CodeOutputInputByte(f, loop.mult, c, h);
    }
    if Consistent(f) {
      IsCodedIgnoresMethod(f, loop.mult, c, h, h');
    }
  }

  /** Runs every loop of AllCodingLoops on the same arguments: with a
      consistent field all twelve leave byte-identical heaps. */
  method RunAllCodingLoops(f: Field, c: Call, h: Heap) returns (results: seq<Heap>)
    requires Consistent(f) && WellShaped(c, h) && Unaliased(c)
    ensures |results| == |AllCodingLoops|
    ensures forall j :: 0 <= j < |results| ==> IsCoded(f, Exp, c, h, results[j])
    ensures forall j, k :: 0 <= j < |results| && 0 <= k < |results| ==> results[j] == results[k]
  {
    results := [];
    var j := 0;
    while j < |AllCodingLoops|
      invariant 0 <= j <= |AllCodingLoops| && |results| == j
      invariant forall k :: 0 <= k < j ==> IsCoded(f, Exp, c, h, results[k])
    {
      var r := CodeSomeShards(f, AllCodingLoops[j], c, h);
      results := results + [r];
      j := j + 1;
    }
    forall j, k | 0 <= j < |results| && 0 <= k < |results|
      ensures results[j] == results[k]
    {
      IsCodedDeterminesResult(f, Exp, c, h, results[j], results[k]);
    }
  }

  /** checkSomeShards with a null temp buffer: every byte is summed into a
      local and compared at once. */
  method CheckByByte(f: Field, m: MulMethod, c: Call, h: Heap) returns (ok: bool)
    requires WellShaped(c, h)
    ensures ok <==> Matches(f, m, c, h)
  {
    var o := 0;
    while o < c.outputCount
      invariant 0 <= o <= c.outputCount
      invariant forall o', q :: 0 <= o' < o && c.InWindow(q) ==> h[c.outputs[o']][q] == Coded(f, m, c, h, o', q)
    {
      var p := c.offset;
      while p < c.End()
        invariant c.offset <= p <= c.End()
        invariant forall o', q :: 0 <= o' < o && c.InWindow(q) ==> h[c.outputs[o']][q] == Coded(f, m, c, h, o', q)
        invariant forall q :: c.offset <= q < p ==> h[c.outputs[o]][q] == Coded(f, m, c, h, o, q)
      {
        var value := SumInputs(f, m, c, h, o, p);
        if value != h[c.outputs[o]][p] {
          return false;
        }
        p := p + 1;
      }
      o := o + 1;
    }
    return true;
  }

  /** The temp-buffer pass for one output: every input's products are
      accumulated into the window of t, the first input assigning. */
  method FillTemp(f: Field, m: MulMethod, c: Call, h: Heap, o: nat, t0: Buffer) returns (t: Buffer)
    requires WellShaped(c, h) && o < c.outputCount && c.End() <= |t0|
    ensures |t| == |t0|
    ensures forall q :: c.InWindow(q) ==> t[q] == Coded(f, m, c, h, o, q)
  {
    t := t0;
    var row := c.matrixRows[o];
    var i := 0;
    while i < c.inputCount
      invariant 0 <= i <= c.inputCount && |t| == |t0|
      invariant forall q :: c.InWindow(q) && 0 < i ==> t[q] == Sum(f, m, row, h, c.inputs, q, i)
    {
      var p := c.offset;
      while p < c.End()
        invariant c.offset <= p <= c.End() && |t| == |t0|
        invariant forall q :: c.offset <= q < p ==> t[q] == Sum(f, m, row, h, c.inputs, q, i + 1)
        invariant forall q :: p <= q < c.End() && 0 < i ==> t[q] == Sum(f, m, row, h, c.inputs, q, i)
      {
        var prev := if i == 0 then 0 else t[p];
        t := t[p := Add(prev, Multiply(f, m, row[i], h[c.inputs[i]][p]))];
        p := p + 1;
      }
      i := i + 1;
    }
  }

  /** checkSomeShards with a temp buffer: each output's window is computed
      into the buffer and then compared. */
  method CheckWithBuffer(f: Field, m: MulMethod, c: Call, h: Heap, tempBuffer: Buffer) returns (ok: bool)
    requires WellShaped(c, h) && c.End() <= |tempBuffer|
    ensures ok <==> Matches(f, m, c, h)
  {
    var t := tempBuffer;
    var o := 0;
    while o < c.outputCount
      invariant 0 <= o <= c.outputCount && |t| == |tempBuffer|
      invariant forall o', q :: 0 <= o' < o && c.InWindow(q) ==> h[c.outputs[o']][q] == Coded(f, m, c, h, o', q)
    {
      t := FillTemp(f, m, c, h, o, t);
      var p := c.offset;
      while p < c.End()
        invariant c.offset <= p <= c.End()
        invariant forall q :: c.offset <= q < p ==> h[c.outputs[o]][q] == Coded(f, m, c, h, o, q)
      {
        if t[p] != h[c.outputs[o]][p] {
          assert c.InWindow(p) && t[p] == Coded(f, m, c, h, o, p);
          return false;
        }
        p := p + 1;
      }
      o := o + 1;
    }
    return true;
  }

  /** checkSomeShards of the given loop: true exactly when every toCheck
      buffer holds the coded bytes over the window, whether or not a temp
      buffer is supplied. Nothing is written: the result is the only output. */
  method CheckSomeShards(f: Field, loop: Loop, c: Call, h: Heap, tempBuffer: Option<Buffer>) returns (ok: bool)
    requires WellShaped(c, h)
    requires tempBuffer.Some? ==> c.End() <= |tempBuffer.value|
    ensures ok <==> Matches(f, loop.mult, c, h)
    ensures Consistent(f) ==> (ok <==> Matches(f, Exp, c, h))
  {
    match tempBuffer {
      case None => ok := CheckByByte(f, loop.mult, c, h);
      case Some(t) => ok := CheckWithBuffer(f, loop.mult, c, h, t);
    }
    if Consistent(f) {
      MatchesIgnoresMethod(f, loop.mult, c, h);
    }
  }

  /** Coding a shard set and then checking it with the same loop, with or
      without a temp buffer, always succeeds. */
  method CodeThenCheck(f: Field, loop: Loop, c: Call, h: Heap, tempBuffer: Option<Buffer>)
    returns (h': Heap, ok: bool)
    requires WellShaped(c, h) && Unaliased(c)
    requires tempBuffer.Some? ==> c.End() <= |tempBuffer.value|
    ensures IsCoded(f, loop.mult, c, h, h')
    ensures ok
  {
    h' := CodeSomeShards(f, loop, c, h);
    CodedThenMatches(f, loop.mult, c, h, h');
    ok := CheckSomeShards(f, loop, c, h', tempBuffer);
  }
}
