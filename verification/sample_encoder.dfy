/** The packing arithmetic of the sample encoder: how a file becomes the
    shard array handed to the codec. The stored data is a four-byte
    big-endian size, the file's bytes, and zero padding up to a multiple of
    the data-shard count; that buffer is cut into equal data shards.

    Pack computes every size exactly and refuses files whose sizes do not
    fit in a Java int. PackAsWritten follows the program's own int
    arithmetic, wrap-around and all, and the lemmas at the end relate the
    two. */
module SampleEncoder {
  import opened Wrappers

  /** An octet, as the unsigned value of its eight bits. */
  type Byte = x: int | 0 <= x < 0x100

  type OctetBuffer = seq<Byte>

  const BytesInInt: nat := 4
  const MinInt: int := -0x8000_0000
  const MaxInt: int := 0x7fff_ffff
  const TwoTo32: int := 0x1_0000_0000

  /** DATA_SHARDS, PARITY_SHARDS and TOTAL_SHARDS. */
  datatype Config = Config(dataShards: nat, parityShards: nat, totalShards: nat)

  /** The constants as the class declares them. */
  const Sample: Config := Config(1, 2, 4)

  /** The 4+2 layout with six output files that the class comment describes. */
  const Documented: Config := Config(4, 2, 6)

  /** Every shard is either a data shard or a parity shard. */
  predicate ShardCountsAgree(cfg: Config) {
    cfg.totalShards == cfg.dataShards + cfg.parityShards
  }

  /** What the packing code needs of its constants: it divides by the
      data-shard count and copies each data shard into its own buffer. */
  predicate Usable(cfg: Config) {
    1 <= cfg.dataShards <= cfg.totalShards
  }

  // ---------------------------------------------------------------------
  // Sizes and layout, computed exactly

  /** The sizes stay below Integer.MAX_VALUE all the way to
      storedSize + DATA_SHARDS - 1. */
  predicate Fits(fileLength: nat, d: nat) {
    fileLength + BytesInInt + d - 1 <= MaxInt
  }

  /** shardSize: the stored size divided by d, rounded up. */
  function ShardSize(storedSize: nat, d: nat): (r: nat)
    requires 1 <= d
    ensures d * r >= storedSize
    ensures d * (r - 1) < storedSize
  {
    var a := storedSize + d - 1;
    assert a == d * (a / d) + a % d;
    assert d * ((a / d) - 1) == d * (a / d) - d;
    a / d
  }

  /** The padding added to reach a multiple of d is less than d, so the
      buffer is the smallest multiple of d holding header and content. */
  lemma PaddingBounds(storedSize: nat, d: nat)
    requires 1 <= d
    ensures 0 <= d * ShardSize(storedSize, d) - storedSize < d
  {
  }

  function Zeros(n: nat): (r: OctetBuffer)
    ensures |r| == n
    ensures forall j :: 0 <= j < n ==> r[j] == 0
  {
    seq(n, _ => 0)
  }

  /** The four bytes read as an unsigned number, most significant first. */
  function Unsigned(b: seq<Byte>): int
    requires |b| == BytesInInt
  {
    ((b[0] as int * 0x100 + b[1]) * 0x100 + b[2]) * 0x100 + b[3]
  }

  /** Four bytes hold the unsigned numbers below 2^32, and the top bit of
      the first byte is clear exactly for those up to Integer.MAX_VALUE. */
  lemma UnsignedBounds(b: seq<Byte>)
    requires |b| == BytesInInt
    ensures 0 <= Unsigned(b) < TwoTo32
    ensures Unsigned(b) <= MaxInt <==> b[0] < 0x80
  {
  }

  /** ByteBuffer.getInt: four bytes, most significant first, read as a
      two's-complement int. */
  function BytesToInt(b: seq<Byte>): (r: int)
    requires |b| == BytesInInt
    ensures MinInt <= r <= MaxInt
    ensures 0 <= r <==> b[0] < 0x80
  {
    UnsignedBounds(b);
    var u := Unsigned(b);
    if u > MaxInt then u - TwoTo32 else u
  }

  /** ByteBuffer.putInt for the non-negative sizes whose header is kept:
      the four bytes of n, most significant first. A negative fileSize can
      also reach putInt, but the read that follows then throws. */
  function IntToBytes(n: nat): (r: seq<Byte>)
    requires n <= MaxInt
    ensures |r| == BytesInInt
    ensures Unsigned(r) == n
    ensures BytesToInt(r) == n
  {
    var n1 := n / 0x100;
    var n2 := n1 / 0x100;
    assert n == n1 * 0x100 + n % 0x100;
    assert n1 == n2 * 0x100 + n1 % 0x100;
    assert n2 == n2 / 0x100 * 0x100 + n2 % 0x100;
    var r := [n2 / 0x100, n2 % 0x100, n1 % 0x100, n % 0x100];
    UnsignedBounds(r);
    r
  }

  /** The digits of a number written in base 256 are read back by
      repeated division. */
  lemma Digits(d0: int, d1: int, d2: int, d3: int)
    requires 0 <= d1 < 0x100 && 0 <= d2 < 0x100 && 0 <= d3 < 0x100
    ensures var n := ((d0 * 0x100 + d1) * 0x100 + d2) * 0x100 + d3;
            && n % 0x100 == d3 && n / 0x100 % 0x100 == d2
            && n / 0x100 / 0x100 % 0x100 == d1 && n / 0x100 / 0x100 / 0x100 == d0
  {
  }

  /** The header read back and written again gives the same four bytes:
      together with IntToBytes' contract, the header is a bijection between
      non-negative ints and four-byte strings whose top bit is clear. */
  lemma HeaderRoundTrip(b: seq<Byte>)
    requires |b| == BytesInInt && 0 <= BytesToInt(b)
    ensures IntToBytes(BytesToInt(b)) == b
  {
    UnsignedBounds(b);
    Digits(b[0], b[1], b[2], b[3]);
    var r := IntToBytes(BytesToInt(b));
    assert r[0] == b[0] && r[1] == b[1] && r[2] == b[2] && r[3] == b[3];
    assert forall i :: 0 <= i < BytesInInt ==> r[i] == b[i];
  }

  /** allBytes: the size header, then the file, then zeros up to the
      next multiple of d. */
  function Layout(content: OctetBuffer, d: nat): (buf: OctetBuffer)
    requires 1 <= d && |content| + BytesInInt <= MaxInt
    ensures |buf| == d * ShardSize(|content| + BytesInInt, d)
    ensures |content| + BytesInInt <= |buf| < |content| + BytesInInt + d
    ensures BytesToInt(buf[..BytesInInt]) == |content|
    ensures buf[BytesInInt..BytesInInt + |content|] == content
    ensures forall j :: BytesInInt + |content| <= j < |buf| ==> buf[j] == 0
  {
    var storedSize := |content| + BytesInInt;
    PaddingBounds(storedSize, d);
    var buf := IntToBytes(|content|) + content + Zeros(d * ShardSize(storedSize, d) - storedSize);
    assert buf[..BytesInInt] == IntToBytes(|content|);
    buf
  }

  /** The buffer cut into k consecutive pieces of shardSize bytes. */
  function Chunks(buf: OctetBuffer, shardSize: nat, k: nat): (pieces: seq<OctetBuffer>)
    requires |buf| == k * shardSize
    ensures |pieces| == k
    ensures forall i :: 0 <= i < k ==> |pieces[i]| == shardSize
  {
    if k == 0 then []
    else
      assert |buf[shardSize..]| == (k - 1) * shardSize;
      [buf[..shardSize]] + Chunks(buf[shardSize..], shardSize, k - 1)
  }

  /** One factor fewer: (a - 1) * b == a * b - b. */
  lemma MulPred(a: nat, b: nat)
    requires 0 < a
    ensures (a - 1) * b == a * b - b
  {
  }

  /** A slice of the buffer with its first n bytes dropped is a slice of
      the buffer itself. */
  lemma SliceOfDrop(buf: OctetBuffer, n: nat, lo: nat, hi: nat)
    requires n <= |buf| && lo <= hi <= |buf| - n
    ensures buf[n..][lo..hi] == buf[n + lo..n + hi]
  {
  }

  /** Piece i of the cut is the slice [i * shardSize, (i + 1) * shardSize)
      of the buffer, as System.arraycopy copies it. */
  lemma {:induction false} ChunkAt(buf: OctetBuffer, shardSize: nat, k: nat, i: nat)
    requires |buf| == k * shardSize && i < k
    ensures i * shardSize + shardSize <= |buf|
    ensures Chunks(buf, shardSize, k)[i] == buf[i * shardSize .. i * shardSize + shardSize]
  {
    if i > 0 {
      var rest := buf[shardSize..];
      var x := (i - 1) * shardSize;
      MulPred(k, shardSize);
      MulPred(i, shardSize);
      ChunkAt(rest, shardSize, k - 1, i - 1);
      SliceOfDrop(buf, shardSize, x, x + shardSize);
    }
  }

  /** The shard array: totalShards buffers of shardSize bytes, the data
      shards cut from the buffer in order, the others still zero as
      allocated. */
  function Split(buf: OctetBuffer, cfg: Config, shardSize: nat): (shards: seq<OctetBuffer>)
    requires Usable(cfg) && |buf| == cfg.dataShards * shardSize
    ensures |shards| == cfg.totalShards
    ensures forall i :: 0 <= i < |shards| ==> |shards[i]| == shardSize
    ensures shards[..cfg.dataShards] == Chunks(buf, shardSize, cfg.dataShards)
    ensures forall i :: cfg.dataShards <= i < cfg.totalShards ==> shards[i] == Zeros(shardSize)
  {
    var parity := seq(cfg.totalShards - cfg.dataShards, _ => Zeros(shardSize));
    var shards := Chunks(buf, shardSize, cfg.dataShards) + parity;
    assert shards[..cfg.dataShards] == Chunks(buf, shardSize, cfg.dataShards);
    shards
  }

  /** The shards laid end to end. */
  function Concat(shards: seq<OctetBuffer>): OctetBuffer {
    if |shards| == 0 then [] else shards[0] + Concat(shards[1..])
  }

  /** Laying the pieces of a cut end to end gives back the buffer. */
  lemma {:induction false} ConcatChunks(buf: OctetBuffer, shardSize: nat, k: nat)
    requires |buf| == k * shardSize
    ensures Concat(Chunks(buf, shardSize, k)) == buf
  {
    if k > 0 {
      MulPred(k, shardSize);
      var rest := buf[shardSize..];
      var pieces := Chunks(buf, shardSize, k);
      assert pieces[1..] == Chunks(rest, shardSize, k - 1);
      ConcatChunks(rest, shardSize, k - 1);
      assert buf[..shardSize] + rest == buf;
    }
  }

  /** Concatenating the data shards gives back the buffer. */
  lemma ConcatSplit(buf: OctetBuffer, cfg: Config, shardSize: nat)
    requires Usable(cfg) && |buf| == cfg.dataShards * shardSize
    ensures Concat(Split(buf, cfg, shardSize)[..cfg.dataShards]) == buf
  {
    ConcatChunks(buf, shardSize, cfg.dataShards);
  }

  datatype PackError = FileTooLarge

  /** Lines 63-88 of main with exact arithmetic: the shard array handed to
      the codec, or FileTooLarge when a size would not fit in an int. */
  function Pack(cfg: Config, content: OctetBuffer): (r: Result<seq<OctetBuffer>, PackError>)
    requires Usable(cfg)
    ensures r.Success? <==> Fits(|content|, cfg.dataShards)
    ensures r.Success? ==> |r.value| == cfg.totalShards
    ensures r.Success? ==> forall i :: 0 <= i < |r.value| ==>
              |r.value[i]| == ShardSize(|content| + BytesInInt, cfg.dataShards)
  {
    if !Fits(|content|, cfg.dataShards) then Failure(FileTooLarge)
    else
      var shardSize := ShardSize(|content| + BytesInInt, cfg.dataShards);
      Success(Split(Layout(content, cfg.dataShards), cfg, shardSize))
  }

  datatype UnpackError = TooShort | BadLength

  /** The reverse of packing: lay the data shards end to end, read the size
      header and keep that many bytes after it. */
  function Unpack(dataShards: seq<OctetBuffer>): (r: Result<OctetBuffer, UnpackError>)
    ensures r.Success? ==> BytesInInt + |r.value| <= |Concat(dataShards)|
    ensures r.Success? ==> r.value == Concat(dataShards)[BytesInInt..BytesInInt + |r.value|]
  {
    var buf := Concat(dataShards);
    if |buf| < BytesInInt then Failure(TooShort)
    else
      var n := BytesToInt(buf[..BytesInInt]);
      if n < 0 || BytesInInt + n > |buf| then Failure(BadLength)
      else Success(buf[BytesInInt..BytesInInt + n])
  }

  /** Packing loses nothing: unpacking the data shards of a packed file
      gives the file back. */
  lemma PackUnpackRoundTrip(cfg: Config, content: OctetBuffer)
    requires Usable(cfg) && Fits(|content|, cfg.dataShards)
    ensures Pack(cfg, content).Success?
    ensures Unpack(Pack(cfg, content).value[..cfg.dataShards]) == Success(content)
  {
    var d := cfg.dataShards;
    var buf := Layout(content, d);
    ConcatSplit(buf, cfg, ShardSize(|content| + BytesInInt, d));
  }

  /** The layout claims of lines 67-88 for a packed file, restated on the
      shard array: every shard has shardSize bytes, shardSize is the ceiling
      of storedSize / d, and the data shards read in order are the header,
      the file and zeros. */
  lemma PackLayout(cfg: Config, content: OctetBuffer)
    requires Usable(cfg) && Fits(|content|, cfg.dataShards)
    ensures var shards := Pack(cfg, content).value;
            var buf := Concat(shards[..cfg.dataShards]);
            var s := ShardSize(|content| + BytesInInt, cfg.dataShards);
            && cfg.dataShards * s >= |content| + BytesInInt
            && cfg.dataShards * (s - 1) < |content| + BytesInInt
            && |buf| == cfg.dataShards * s
            && BytesToInt(buf[..BytesInInt]) == |content|
            && buf[BytesInInt..BytesInInt + |content|] == content
            && (forall j :: BytesInInt + |content| <= j < |buf| ==> buf[j] == 0)
            && (forall i :: 0 <= i < cfg.dataShards ==>
                  i * s + s <= |buf| && shards[i] == buf[i * s .. i * s + s])
  {
    var d := cfg.dataShards;
    var s := ShardSize(|content| + BytesInInt, d);
    var buf := Layout(content, d);
    var shards := Pack(cfg, content).value;
    ConcatSplit(buf, cfg, s);
    forall i | 0 <= i < d
      ensures i * s + s <= |buf| && shards[i] == buf[i * s .. i * s + s]
    {
      ChunkAt(buf, s, d, i);
      assert shards[i] == shards[..d][i];
    }
  }

  // ---------------------------------------------------------------------
  // The same code with Java int arithmetic

  /** Java's narrowing to int: the low 32 bits read as two's complement. */
  function Int32(x: int): (r: int)
    ensures MinInt <= r <= MaxInt
    ensures (x - r) % TwoTo32 == 0
    ensures MinInt <= x <= MaxInt ==> r == x
    ensures 0 <= x ==> r <= x
  {
    var low := x % TwoTo32;
    assert x == (x / TwoTo32) * TwoTo32 + low;
    if low > MaxInt then low - TwoTo32 else low
  }

  /** Java's int division, rounding toward zero. */
  function JavaDiv(a: int, b: int): (r: int)
    requires 0 < b
    ensures 0 <= a ==> r == a / b && b * r <= a < b * r + b
    ensures a < 0 ==> a <= b * r <= 0 && b * r < a + b
    ensures 0 <= a ==> 0 <= r <= a
    ensures a < 0 ==> a <= r <= 0
  {
    if 0 <= a then DivBounds(a, b); a / b
    else DivBounds(-a, b); -((-a) / b)
  }

  /** The quotient of a non-negative numerator lies between 0 and the
      numerator, and the divisor's multiple brackets the numerator. */
  lemma DivBounds(a: int, b: int)
    requires 0 <= a && 0 < b
    ensures 0 <= a / b <= a
    ensures b * (a / b) <= a < b * (a / b) + b
    ensures b * -(a / b) == -(b * (a / b))
  {
    var q, m := a / b, a % b;
    assert a == b * q + m && 0 <= m < b;
    assert q <= b * q by { MulMonotone(q, b, 1); }
  }

  /** Multiplying by a larger non-negative factor does not shrink. */
  lemma MulMonotone(x: int, y: int, z: int)
    requires 0 <= x && z <= y
    ensures x * z <= x * y
  {
    assert x * y - x * z == x * (y - z);
  }

  datatype Sizes = Sizes(fileSize: int, storedSize: int, shardSize: int, bufferSize: int)

  /** fileSize, storedSize, shardSize and bufferSize as main computes them. */
  function SizesAsWritten(fileLength: nat, d: nat): (s: Sizes)
    requires 1 <= d <= MaxInt
    ensures MinInt <= s.fileSize <= MaxInt && MinInt <= s.storedSize <= MaxInt
    ensures MinInt <= s.shardSize <= MaxInt && MinInt <= s.bufferSize <= MaxInt
    ensures (fileLength - s.fileSize) % TwoTo32 == 0
    ensures (s.fileSize + BytesInInt - s.storedSize) % TwoTo32 == 0
    ensures (d * s.shardSize - s.bufferSize) % TwoTo32 == 0
    ensures var a := Int32(s.storedSize + d - 1);
            && (0 <= a ==> d * s.shardSize <= a < d * s.shardSize + d)
            && (a < 0 ==> a <= d * s.shardSize <= 0 && d * s.shardSize < a + d)
  {
    var fileSize := Int32(fileLength);
    var storedSize := Int32(fileSize + BytesInInt);
    var a := Int32(storedSize + d - 1);
    var shardSize := JavaDiv(a, d);
    Sizes(fileSize, storedSize, shardSize, Int32(d * shardSize))
  }

  /** The exceptions lines 63-88 can throw. */
  datatype JavaException = NegativeArraySize | BufferOverflow | IndexOutOfBounds

  /** Lines 63-88 as written: the sizes with int arithmetic, then each
      allocation and copy in turn, failing where Java would throw. */
  function PackAsWritten(cfg: Config, content: OctetBuffer): (r: Result<seq<OctetBuffer>, JavaException>)
    requires Usable(cfg) && cfg.dataShards <= MaxInt
    ensures r.Success? <==> 0 <= Int32(|content|) && Fits(Int32(|content|), cfg.dataShards)
  {
    var d := cfg.dataShards;
    var s := SizesAsWritten(|content|, d);
    SizesVerdict(|content|, d);
    if s.bufferSize < 0 then Failure(NegativeArraySize)
    else if s.bufferSize < BytesInInt then Failure(BufferOverflow)
    else if s.fileSize < 0 || s.bufferSize - BytesInInt < s.fileSize then Failure(IndexOutOfBounds)
    else if s.shardSize < 0 then Failure(NegativeArraySize)
    else if s.bufferSize != d * s.shardSize then Failure(IndexOutOfBounds)
    else
      var buf := IntToBytes(s.fileSize) + content[..s.fileSize] + Zeros(s.bufferSize - BytesInInt - s.fileSize);
      assert |buf| == s.bufferSize;
      Success(Split(buf, cfg, s.shardSize))
  }

  /** Which files the int arithmetic lets through. When the file size
      after the cast is non-negative and fits, the sizes are the exact ones
      for that size; otherwise fileSize or bufferSize is negative or zero,
      and one of the program's guards throws. */
  lemma SizesVerdict(fileLength: nat, d: nat)
    requires 1 <= d <= MaxInt
    ensures var f := Int32(fileLength);
            var s := SizesAsWritten(fileLength, d);
            && (0 <= f && Fits(f, d) ==>
                  s == Sizes(f, f + BytesInInt, ShardSize(f + BytesInInt, d), d * ShardSize(f + BytesInInt, d)))
            && (!(0 <= f && Fits(f, d)) ==> s.fileSize < 0 || s.bufferSize <= 0)
  {
    var f := Int32(fileLength);
    if 0 <= f && Fits(f, d) {
      assert SizesAsWritten(fileLength, d) == SizesAsWritten(f, d);
      SizesExact(f, d);
    } else if 0 <= f {
      assert SizesAsWritten(fileLength, d) == SizesAsWritten(f, d);
      OverflowSizes(f, d);
    }
  }

  /** For every file whose sizes fit, the program's int arithmetic computes
      exactly the shards Pack does. */
  lemma PackAsWrittenAgrees(cfg: Config, content: OctetBuffer)
    requires Usable(cfg) && cfg.dataShards <= MaxInt && Fits(|content|, cfg.dataShards)
    ensures PackAsWritten(cfg, content) == Success(Pack(cfg, content).value)
  {
    SizesExact(|content|, cfg.dataShards);
    assert content[..|content|] == content;
  }

  /** When the sizes fit, none of the int operations wraps: the program's
      sizes are the exact ones. */
  lemma SizesExact(n: nat, d: nat)
    requires 1 <= d <= MaxInt && Fits(n, d)
    ensures var shardSize := ShardSize(n + BytesInInt, d);
            SizesAsWritten(n, d) == Sizes(n, n + BytesInInt, shardSize, d * shardSize)
  {
  }

  /** A file no longer than Integer.MAX_VALUE whose sizes do not fit makes
      the program throw: storedSize + DATA_SHARDS - 1 wraps to a negative
      int, so the buffer size comes out negative or zero. */
  lemma PackAsWrittenOverflowFails(cfg: Config, content: OctetBuffer)
    requires Usable(cfg) && cfg.dataShards <= MaxInt
    requires |content| <= MaxInt && !Fits(|content|, cfg.dataShards)
    ensures SizesAsWritten(|content|, cfg.dataShards).bufferSize <= 0
    ensures PackAsWritten(cfg, content).Failure?
  {
    OverflowSizes(|content|, cfg.dataShards);
  }

  /** The arithmetic behind it: storedSize + d - 1 wraps below d, so
      shardSize, and with it bufferSize, is zero or negative. */
  lemma OverflowSizes(n: nat, d: nat)
    requires 1 <= d <= MaxInt && n <= MaxInt && !Fits(n, d)
    ensures SizesAsWritten(n, d).bufferSize <= 0
  {
    var s := SizesAsWritten(n, d);
    var a := Int32(s.storedSize + d - 1);
    WrapsBelow(n, d);
    SmallQuotient(a, d);
  }

  /** For such a file the rounded-up stored size wraps to an int below d. */
  lemma WrapsBelow(n: nat, d: nat)
    requires 1 <= d <= MaxInt && n <= MaxInt && !Fits(n, d)
    ensures Int32(Int32(Int32(n) + BytesInInt) + d - 1) < d
  {
    assert Int32(n) == n;
    var stored := Int32(n + BytesInInt);
    if n + BytesInInt > MaxInt {
      assert stored == n + BytesInInt - TwoTo32;
      assert Int32(stored + d - 1) == stored + d - 1;
    } else {
      assert stored == n + BytesInInt;
      assert Int32(stored + d - 1) == stored + d - 1 - TwoTo32;
    }
  }

  /** An int below d divided by d, rounding toward zero, and multiplied
      back by d gives an int that is zero or negative. */
  lemma SmallQuotient(a: int, d: nat)
    requires 1 <= d && MinInt <= a < d
    ensures MinInt <= d * JavaDiv(a, d) <= 0
    ensures Int32(d * JavaDiv(a, d)) <= 0
  {
    var q := JavaDiv(a, d);
    if a < 0 {
      assert a <= d * q <= 0;
    } else {
      DivSmall(a, d);
    }
  }

  lemma DivSmall(a: int, d: int)
    requires 0 <= a < d
    ensures a / d == 0
  {
  }

  /** A concrete instance: with the sample's single data shard, a file of
      Integer.MAX_VALUE - 3 bytes already overflows storedSize. */
  lemma SampleOverflowAtMaxIntMinus3(content: OctetBuffer)
    requires |content| == MaxInt - 3
    ensures !Fits(|content|, Sample.dataShards)
    ensures SizesAsWritten(|content|, Sample.dataShards).storedSize == MinInt
    ensures PackAsWritten(Sample, content) == Failure(NegativeArraySize)
  {
  }

  // ---------------------------------------------------------------------
  // Findings

  /** As written, a file of 2^32 bytes or more is not refused: the (int)
      cast keeps its low 32 bits, and when those give a size that fits, the
      program packs that many leading bytes without any error. */
  lemma PackAsWrittenTruncates(cfg: Config, content: OctetBuffer)
    requires Usable(cfg) && cfg.dataShards <= MaxInt
    requires TwoTo32 <= |content|
    requires 0 <= Int32(|content|) && Fits(Int32(|content|), cfg.dataShards)
    ensures Int32(|content|) < |content|
    ensures PackAsWritten(cfg, content) == Success(Pack(cfg, content[..Int32(|content|)]).value)
    ensures Unpack(PackAsWritten(cfg, content).value[..cfg.dataShards]) == Success(content[..Int32(|content|)])
    ensures content[..Int32(|content|)] != content
  {
    var n := Int32(|content|);
    var prefix := content[..n];
    PackAsWrittenAgrees(cfg, prefix);
    assert SizesAsWritten(|content|, cfg.dataShards) == SizesAsWritten(|prefix|, cfg.dataShards);
    assert prefix[..n] == content[..n];
    PackUnpackRoundTrip(cfg, prefix);
  }

  /** A concrete file that shows it: 2^32 + 10 bytes are packed as a
      10-byte file. */
  lemma SampleTruncatesExample(content: OctetBuffer)
    requires |content| == TwoTo32 + 10
    ensures Unpack(PackAsWritten(Sample, content).value[..Sample.dataShards]) == Success(content[..10])
  {
    assert Int32(|content|) == 10 by {
      assert |content| - TwoTo32 == 10;
    }
    PackAsWrittenTruncates(Sample, content);
  }

  /** The declared constants disagree with themselves: the shard array has
      TOTAL_SHARDS = 4 buffers, while a codec for DATA_SHARDS + PARITY_SHARDS
      = 1 + 2 shards works on 3. */
  lemma SampleShardCountMismatch(content: OctetBuffer)
    requires Fits(|content|, Sample.dataShards)
    ensures !ShardCountsAgree(Sample)
    ensures |Pack(Sample, content).value| == 4
    ensures |Pack(Sample, content).value| != Sample.dataShards + Sample.parityShards
  {
  }

  /** With the documented 4+2 configuration the shard array has exactly one
      buffer per data or parity shard, six in all. */
  lemma DocumentedShardCount(content: OctetBuffer)
    requires Fits(|content|, Documented.dataShards)
    ensures ShardCountsAgree(Documented) && Usable(Documented)
    ensures |Pack(Documented, content).value| == Documented.dataShards + Documented.parityShards == 6
  {
  }
}
