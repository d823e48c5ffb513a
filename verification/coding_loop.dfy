/** The contract of the CodingLoop interface: which bytes codeSomeShards
    writes, what it writes there, and what checkSomeShards compares.

    Java passes shards as arrays of references to byte arrays, so a
    caller may hand the same buffer in twice, for example an input array
    holding the whole shard set with outputs taken from its parity tail.
    To keep such sharing expressible, buffers live in a Heap, a sequence
    of buffer contents, and a call names its input and output buffers by
    their index in it. */
module CodingLoop {
  import opened Galois

  type Buffer = seq<bv8>

  /** All byte arrays a call can reach; a reference is an index into it. */
  type Heap = seq<Buffer>

  /** The arguments of codeSomeShards / checkSomeShards. For a check,
      `outputs` are the toCheck buffers and `outputCount` is checkCount. */
  datatype Call = Call(
    matrixRows: seq<seq<bv8>>,
    inputs: seq<nat>,
    inputCount: nat,
    outputs: seq<nat>,
    outputCount: nat,
    offset: nat,
    byteCount: nat)
  {
    /** One past the last byte processed. */
    function End(): nat {
      offset + byteCount
    }

    predicate InWindow(p: int) {
      offset <= p < offset + byteCount
    }

    /** Buffer `b` of the heap is one of the outputs the call computes. */
    predicate IsUsedOutput(b: nat)
      requires outputCount <= |outputs|
    {
      exists o :: 0 <= o < outputCount && outputs[o] == b
    }
  }

  /** Every array access the loops make is in bounds: the used rows are
      inputCount wide, there are that many input references, and every used
      input and output buffer covers the byte window. Extra rows, extra
      references and bytes outside the window may be present. */
  predicate WellShaped(c: Call, h: Heap) {
    && 1 <= c.inputCount <= |c.inputs|
    && c.outputCount <= |c.matrixRows|
    && c.outputCount <= |c.outputs|
    && (forall o :: 0 <= o < c.outputCount ==> |c.matrixRows[o]| == c.inputCount)
    && (forall i :: 0 <= i < c.inputCount ==> c.inputs[i] < |h| && c.End() <= |h[c.inputs[i]]|)
    && (forall o :: 0 <= o < c.outputCount ==> c.outputs[o] < |h| && c.End() <= |h[c.outputs[o]]|)
  }

  /** No output buffer that is written is also an input buffer that is read,
      and no buffer is written as two different outputs. */
  predicate Unaliased(c: Call)
    requires c.inputCount <= |c.inputs| && c.outputCount <= |c.outputs|
  {
    && (forall o, i :: 0 <= o < c.outputCount && 0 <= i < c.inputCount ==> c.outputs[o] != c.inputs[i])
    && (forall o, o' :: 0 <= o < o' < c.outputCount ==> c.outputs[o] != c.outputs[o'])
  }

  /** The first k terms of a coded byte can be read. */
  predicate SumDefined(row: seq<bv8>, h: Heap, refs: seq<nat>, p: nat, k: nat) {
    && k <= |row|
    && k <= |refs|
    && (forall i :: 0 <= i < k ==> refs[i] < |h| && p < |h[refs[i]]|)
  }

  /** The field sum of the first k products row[i] * input_i[p]. */
  function Sum(f: Field, m: MulMethod, row: seq<bv8>, h: Heap, refs: seq<nat>, p: nat, k: nat): bv8
    requires SumDefined(row, h, refs, p, k)
  {
    if k == 0 then 0
    else Add(Sum(f, m, row, h, refs, p, k - 1), Multiply(f, m, row[k - 1], h[refs[k - 1]][p]))
  }

  /** The byte output o must hold at position p: row o of the matrix times
      the column of input bytes at p. */
  function Coded(f: Field, m: MulMethod, c: Call, h: Heap, o: nat, p: nat): bv8
    requires WellShaped(c, h)
    requires o < c.outputCount && p < c.End()
  {
    Sum(f, m, c.matrixRows[o], h, c.inputs, p, c.inputCount)
  }

  /** h' differs from h at most inside the byte window of the used output
      buffers: every other buffer is untouched, and the output buffers keep
      their length and their bytes outside the window. */
  ghost predicate Framed(c: Call, h: Heap, h': Heap)
    requires WellShaped(c, h)
  {
    && |h'| == |h|
    && (forall b: nat :: b < |h| && !c.IsUsedOutput(b) ==> h'[b] == h[b])
    && (forall o :: 0 <= o < c.outputCount ==> |h'[c.outputs[o]]| == |h[c.outputs[o]]|)
    && (forall o, p :: 0 <= o < c.outputCount && 0 <= p < |h[c.outputs[o]]| && !c.InWindow(p) ==>
          h'[c.outputs[o]][p] == h[c.outputs[o]][p])
  }

  /** h' is what codeSomeShards leaves behind when started on h: only the
      window of the used outputs changed, and there every byte is coded. */
  ghost predicate IsCoded(f: Field, m: MulMethod, c: Call, h: Heap, h': Heap)
    requires WellShaped(c, h)
  {
    && Framed(c, h, h')
    && (forall o, p :: 0 <= o < c.outputCount && c.InWindow(p) ==> h'[c.outputs[o]][p] == Coded(f, m, c, h, o, p))
  }

  /** Every toCheck buffer already holds the coded bytes over the window. */
  ghost predicate Matches(f: Field, m: MulMethod, c: Call, h: Heap)
    requires WellShaped(c, h)
  {
    forall o, p :: 0 <= o < c.outputCount && c.InWindow(p) ==> h[c.outputs[o]][p] == Coded(f, m, c, h, o, p)
  }

  /** Partial progress of a loop: the byte of output o at p holds the sum of
      its first k products, or is still the caller's byte when k is 0. */
  ghost predicate Holds(f: Field, m: MulMethod, c: Call, h0: Heap, h: Heap, o: nat, p: nat, k: nat)
    requires WellShaped(c, h0) && Framed(c, h0, h)
    requires o < c.outputCount && c.InWindow(p) && k <= c.inputCount
  {
    h[c.outputs[o]][p] == if k == 0 then h0[c.outputs[o]][p] else Sum(f, m, c.matrixRows[o], h0, c.inputs, p, k)
  }

  /** Holds(k) for every output in [o0, o1) and every window byte in [p0, p1). */
  ghost predicate Region(f: Field, m: MulMethod, c: Call, h0: Heap, h: Heap, o0: nat, o1: nat, p0: nat, p1: nat, k: nat)
    requires WellShaped(c, h0) && Framed(c, h0, h)
    requires o1 <= c.outputCount && k <= c.inputCount
  {
    forall o, p :: o0 <= o < o1 && p0 <= p < p1 && c.InWindow(p) ==> Holds(f, m, c, h0, h, o, p, k)
  }

  /** A write to byte p of output o leaves every region that does not hold
      that byte as it was. */
  lemma RegionFrame(f: Field, m: MulMethod, c: Call, h0: Heap, h: Heap, h': Heap,
                    o0: nat, o1: nat, p0: nat, p1: nat, k: nat, o: nat, p: nat)
    requires WellShaped(c, h0) && Framed(c, h0, h) && Framed(c, h0, h')
    requires o1 <= c.outputCount && k <= c.inputCount
    requires forall o', p' :: 0 <= o' < c.outputCount && c.InWindow(p') && (o' != o || p' != p) ==>
               h'[c.outputs[o']][p'] == h[c.outputs[o']][p']
    requires !(o0 <= o < o1 && p0 <= p < p1)
    requires Region(f, m, c, h0, h, o0, o1, p0, p1, k)
    ensures Region(f, m, c, h0, h', o0, o1, p0, p1, k)
  {
    forall o', p' | o0 <= o' < o1 && p0 <= p' < p1 && c.InWindow(p')
      ensures Holds(f, m, c, h0, h', o', p', k)
    {
      assert Holds(f, m, c, h0, h, o', p', k);
    }
  }

  /** h and h' hold the same bytes on outputs [o0, o1) at window bytes [p0, p1). */
  ghost predicate Agree(c: Call, h0: Heap, h: Heap, h': Heap, o0: nat, o1: nat, p0: nat, p1: nat)
    requires WellShaped(c, h0) && Framed(c, h0, h) && Framed(c, h0, h')
    requires o1 <= c.outputCount
  {
    forall o, p :: o0 <= o < o1 && p0 <= p < p1 && c.InWindow(p) ==> h'[c.outputs[o]][p] == h[c.outputs[o]][p]
  }

  lemma AgreeTrans(c: Call, h0: Heap, h1: Heap, h2: Heap, h3: Heap, o0: nat, o1: nat, p0: nat, p1: nat)
    requires WellShaped(c, h0) && Framed(c, h0, h1) && Framed(c, h0, h2) && Framed(c, h0, h3)
    requires o1 <= c.outputCount
    requires Agree(c, h0, h1, h2, o0, o1, p0, p1) && Agree(c, h0, h2, h3, o0, o1, p0, p1)
    ensures Agree(c, h0, h1, h3, o0, o1, p0, p1)
  {
  }

  /** A region survives any change that keeps its bytes. */
  lemma RegionTransfer(f: Field, m: MulMethod, c: Call, h0: Heap, h: Heap, h': Heap,
                       o0: nat, o1: nat, p0: nat, p1: nat, k: nat)
    requires WellShaped(c, h0) && Framed(c, h0, h) && Framed(c, h0, h')
    requires o1 <= c.outputCount && k <= c.inputCount
    requires Region(f, m, c, h0, h, o0, o1, p0, p1, k) && Agree(c, h0, h, h', o0, o1, p0, p1)
    ensures Region(f, m, c, h0, h', o0, o1, p0, p1, k)
  {
    forall o, p | o0 <= o < o1 && p0 <= p < p1 && c.InWindow(p)
      ensures Holds(f, m, c, h0, h', o, p, k)
    {
      assert Holds(f, m, c, h0, h, o, p, k);
    }
  }

  /** Two regions side by side along the outputs form one region. */
  lemma RegionJoinOutputs(f: Field, m: MulMethod, c: Call, h0: Heap, h: Heap,
                          o0: nat, o1: nat, o2: nat, p0: nat, p1: nat, k: nat)
    requires WellShaped(c, h0) && Framed(c, h0, h)
    requires o0 <= o1 <= o2 <= c.outputCount && k <= c.inputCount
    requires Region(f, m, c, h0, h, o0, o1, p0, p1, k) && Region(f, m, c, h0, h, o1, o2, p0, p1, k)
    ensures Region(f, m, c, h0, h, o0, o2, p0, p1, k)
  {
  }

  /** Two regions side by side along the bytes form one region. */
  lemma RegionJoinBytes(f: Field, m: MulMethod, c: Call, h0: Heap, h: Heap,
                        o0: nat, o1: nat, p0: nat, p1: nat, p2: nat, k: nat)
    requires WellShaped(c, h0) && Framed(c, h0, h)
    requires o1 <= c.outputCount && k <= c.inputCount && p0 <= p1 <= p2
    requires Region(f, m, c, h0, h, o0, o1, p0, p1, k) && Region(f, m, c, h0, h, o0, o1, p1, p2, k)
    ensures Region(f, m, c, h0, h, o0, o1, p0, p2, k)
  {
  }

  /** Once every window byte of every output holds all inputCount products,
      the heap is the one codeSomeShards promises. */
  lemma RegionComplete(f: Field, m: MulMethod, c: Call, h0: Heap, h: Heap)
    requires WellShaped(c, h0) && Framed(c, h0, h)
    requires Region(f, m, c, h0, h, 0, c.outputCount, c.offset, c.End(), c.inputCount)
    ensures IsCoded(f, m, c, h0, h)
  {
    forall o, p | 0 <= o < c.outputCount && c.InWindow(p)
      ensures h[c.outputs[o]][p] == Coded(f, m, c, h0, o, p)
    {
      assert Holds(f, m, c, h0, h, o, p, c.inputCount);
    }
  }

  /** A frame-respecting heap still has every buffer the call reads. */
  lemma FramedWellShaped(c: Call, h0: Heap, h: Heap)
    requires WellShaped(c, h0) && Framed(c, h0, h)
    ensures WellShaped(c, h)
  {
  }

  lemma FramedRefl(c: Call, h: Heap)
    requires WellShaped(c, h)
    ensures Framed(c, h, h)
  {
  }

  /** Writing a frame-respecting heap never disturbs an input that is not
      also an output: with unaliased arguments the inputs read back as they
      were passed in. */
  lemma InputsUnchanged(c: Call, h0: Heap, h: Heap)
    requires WellShaped(c, h0) && Unaliased(c) && Framed(c, h0, h)
    ensures forall i :: 0 <= i < c.inputCount ==> h[c.inputs[i]] == h0[c.inputs[i]]
  {
  }

  /** Stores v at byte p of output o: the one write a coding loop makes. */
  function Write(c: Call, h0: Heap, h: Heap, o: nat, p: nat, v: bv8): (h': Heap)
    requires WellShaped(c, h0) && Unaliased(c) && Framed(c, h0, h)
    requires o < c.outputCount && c.InWindow(p)
    ensures Framed(c, h0, h')
    ensures h'[c.outputs[o]][p] == v
    ensures forall o', p' :: 0 <= o' < c.outputCount && c.InWindow(p') && (o' != o || p' != p) ==>
              h'[c.outputs[o']][p'] == h[c.outputs[o']][p']
  {
    var b := c.outputs[o];
    var h' := h[b := h[b][p := v]];
    assert forall b': nat :: b' < |h0| && !c.IsUsedOutput(b') ==> b' != b;
    h'
  }

  /** Accumulates input i into byte p of output o, reading the input from
      the current heap; the first input overwrites instead of adding, as the
      loops seed each output byte from input 0. */
  function Accumulate(f: Field, m: MulMethod, c: Call, h0: Heap, h: Heap, o: nat, i: nat, p: nat): (h': Heap)
    requires WellShaped(c, h0) && Unaliased(c) && Framed(c, h0, h)
    requires o < c.outputCount && i < c.inputCount && c.InWindow(p)
    requires Holds(f, m, c, h0, h, o, p, i)
    ensures Framed(c, h0, h')
    ensures Holds(f, m, c, h0, h', o, p, i + 1)
    ensures forall o', p' :: 0 <= o' < c.outputCount && c.InWindow(p') && (o' != o || p' != p) ==>
              h'[c.outputs[o']][p'] == h[c.outputs[o']][p']
  {
    InputsUnchanged(c, h0, h);
    var prev := if i == 0 then 0 else h[c.outputs[o]][p];
    Write(c, h0, h, o, p, Add(prev, Multiply(f, m, c.matrixRows[o][i], h[c.inputs[i]][p])))
  }

  /** Two heaps that codeSomeShards may leave behind from the same start are
      the same heap: the contract fixes every byte. */
  lemma IsCodedDeterminesResult(f: Field, m: MulMethod, c: Call, h: Heap, h1: Heap, h2: Heap)
    requires WellShaped(c, h)
    requires IsCoded(f, m, c, h, h1) && IsCoded(f, m, c, h, h2)
    ensures h1 == h2
  {
    forall b | 0 <= b < |h|
      ensures h1[b] == h2[b]
    {
      if c.IsUsedOutput(b) {
        var o :| 0 <= o < c.outputCount && c.outputs[o] == b;
        forall p | 0 <= p < |h[b]|
          ensures h1[b][p] == h2[b][p]
        {
          if c.InWindow(p) {
            assert h1[c.outputs[o]][p] == Coded(f, m, c, h, o, p);
          }
        }
      }
    }
  }

  /** A sum reads only the first k input references and only byte p of each:
      two heaps and two reference lists that agree there give the same sum. */
  lemma {:induction false} SumReadsOnlyUsedInputs(
    f: Field, m: MulMethod, row: seq<bv8>, h1: Heap, refs1: seq<nat>, h2: Heap, refs2: seq<nat>, p: nat, k: nat)
    requires SumDefined(row, h1, refs1, p, k) && SumDefined(row, h2, refs2, p, k)
    requires forall i :: 0 <= i < k ==> h1[refs1[i]][p] == h2[refs2[i]][p]
    ensures Sum(f, m, row, h1, refs1, p, k) == Sum(f, m, row, h2, refs2, p, k)
  {
    if k > 0 {
      SumReadsOnlyUsedInputs(f, m, row, h1, refs1, h2, refs2, p, k - 1);
    }
  }

  /** With a consistent field, a sum formed with table lookups equals the
      sum formed with log/exp lookups. */
  lemma {:induction false} SumIgnoresMethod(f: Field, row: seq<bv8>, h: Heap, refs: seq<nat>, p: nat, k: nat)
    requires Consistent(f) && SumDefined(row, h, refs, p, k)
    ensures Sum(f, Table, row, h, refs, p, k) == Sum(f, Exp, row, h, refs, p, k)
  {
    if k > 0 {
      SumIgnoresMethod(f, row, h, refs, p, k - 1);
      MultiplyIgnoresMethod(f, row[k - 1], h[refs[k - 1]][p]);
    }
  }

  /** Under a consistent field, the contract does not depend on the
      multiplication routine: a table loop's result is an exp loop's result. */
  lemma IsCodedIgnoresMethod(f: Field, m: MulMethod, c: Call, h: Heap, h': Heap)
    requires Consistent(f) && WellShaped(c, h)
    requires IsCoded(f, m, c, h, h')
    ensures IsCoded(f, Exp, c, h, h')
  {
    forall o, p | 0 <= o < c.outputCount && c.InWindow(p)
      ensures h'[c.outputs[o]][p] == Coded(f, Exp, c, h, o, p)
    {
      SumIgnoresMethod(f, c.matrixRows[o], h, c.inputs, p, c.inputCount);
    }
  }

  /** Same for the check: a table check and an exp check accept the same heaps. */
  lemma MatchesIgnoresMethod(f: Field, m: MulMethod, c: Call, h: Heap)
    requires Consistent(f) && WellShaped(c, h)
    ensures Matches(f, m, c, h) <==> Matches(f, Exp, c, h)
  {
    forall o, p | 0 <= o < c.outputCount && c.InWindow(p)
      ensures Coded(f, m, c, h, o, p) == Coded(f, Exp, c, h, o, p)
    {
      SumIgnoresMethod(f, c.matrixRows[o], h, c.inputs, p, c.inputCount);
    }
  }

  /** Extra input buffers are ignored: two calls that differ only in the
      references past inputCount, run on heaps whose used inputs and used
      outputs hold the same bytes, compute the same output buffers. */
  lemma ExtraInputsIgnored(f: Field, m: MulMethod, c1: Call, h1: Heap, r1: Heap, c2: Call, h2: Heap, r2: Heap)
    requires WellShaped(c1, h1) && WellShaped(c2, h2)
    requires c2 == c1.(inputs := c2.inputs)
    requires c1.inputs[..c1.inputCount] == c2.inputs[..c2.inputCount]
    requires forall i :: 0 <= i < c1.inputCount ==> h1[c1.inputs[i]] == h2[c1.inputs[i]]
    requires forall o :: 0 <= o < c1.outputCount ==> h1[c1.outputs[o]] == h2[c1.outputs[o]]
    requires IsCoded(f, m, c1, h1, r1) && IsCoded(f, m, c2, h2, r2)
    ensures forall o :: 0 <= o < c1.outputCount ==> r1[c1.outputs[o]] == r2[c1.outputs[o]]
  {
    assert c2.outputs == c1.outputs && c2.outputCount == c1.outputCount && c2.offset == c1.offset;
    forall o | 0 <= o < c1.outputCount
      ensures r1[c1.outputs[o]] == r2[c1.outputs[o]]
    {
      var b := c1.outputs[o];
      forall p | 0 <= p < |h1[b]|
        ensures r1[b][p] == r2[b][p]
      {
        if c1.InWindow(p) {
          forall i | 0 <= i < c1.inputCount
            ensures h1[c1.inputs[i]][p] == h2[c2.inputs[i]][p]
          {
            assert c1.inputs[i] == c1.inputs[..c1.inputCount][i];
          }
          SumReadsOnlyUsedInputs(f, m, c1.matrixRows[o], h1, c1.inputs, h2, c2.inputs, p, c1.inputCount);
          assert Coded(f, m, c1, h1, o, p) == Coded(f, m, c2, h2, o, p);
        } else {
          assert p < |h2[c2.outputs[o]]| && !c2.InWindow(p);
        }
      }
    }
  }

  /** A check notices every corrupted byte: changing one window byte of a
      toCheck buffer that matched (and is not itself an input) makes the
      heap fail the check. */
  lemma CorruptionDetected(f: Field, m: MulMethod, c: Call, h: Heap, o: nat, p: nat, v: bv8)
    requires WellShaped(c, h) && Unaliased(c) && Matches(f, m, c, h)
    requires o < c.outputCount && c.InWindow(p) && v != h[c.outputs[o]][p]
    ensures WellShaped(c, h[c.outputs[o] := h[c.outputs[o]][p := v]])
    ensures !Matches(f, m, c, h[c.outputs[o] := h[c.outputs[o]][p := v]])
  {
    var b := c.outputs[o];
    var h2 := h[b := h[b][p := v]];
    assert Framed(c, h, h2) by {
      assert forall b': nat :: b' < |h| && !c.IsUsedOutput(b') ==> b' != b;
    }
    FramedWellShaped(c, h, h2);
    InputsUnchanged(c, h, h2);
    SumReadsOnlyUsedInputs(f, m, c.matrixRows[o], h, c.inputs, h2, c.inputs, p, c.inputCount);
    assert h2[b][p] != Coded(f, m, c, h2, o, p);
  }

  /** The other half of corruption detection: a heap just left by
      codeSomeShards passes checkSomeShards on the same call. This needs the
      call to be unaliased, since an output that is also an input would
      change the sums the check recomputes. */
  lemma CodedThenMatches(f: Field, m: MulMethod, c: Call, h: Heap, h': Heap)
    requires WellShaped(c, h) && Unaliased(c) && IsCoded(f, m, c, h, h')
    ensures WellShaped(c, h') && Matches(f, m, c, h')
  {
    FramedWellShaped(c, h, h');
    InputsUnchanged(c, h, h');
    forall o, p | 0 <= o < c.outputCount && c.InWindow(p)
      ensures h'[c.outputs[o]][p] == Coded(f, m, c, h', o, p)
    {
      SumReadsOnlyUsedInputs(f, m, c.matrixRows[o], h, c.inputs, h', c.inputs, p, c.inputCount);
    }
  }
}
