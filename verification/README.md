# Reed-Solomon coding loops and sample-encoder packing, in Dafny

This project models two pieces of the Backblaze Java Reed-Solomon library.

**The CodingLoop contract.** `codeSomeShards` multiplies a block of
coding-matrix rows by the input shards over a byte window. For output `o`
and byte `p` it writes the GF(2^8) sum (XOR) of `row[o][i] * input[i][p]`.
`checkSomeShards` computes the same bytes and compares them with existing
buffers instead of writing them. `ALL_CODING_LOOPS` lists twelve
implementations: the byte, input and output loops nested in each of their
six orders, each using either the multiplication table or the log/exp
tables.

- Module `Galois`: the field as the loops see it. The two multiplication
  routines are function values. The fact that they agree is the predicate
  `Galois.Consistent`, which callers state and which is never assumed.
- Module `CodingLoop`: the arguments (`Call`) and a heap of byte buffers.
  Inputs and outputs are references into the heap, so Java's array
  sharing can be expressed. It also holds the reference sum (`Sum`,
  `Coded`), the contract predicates (`IsCoded`, `Matches`) and the lemmas
  about them.
- Module `CodingLoops`: the six loop orders as imperative methods, split
  one method per loop level. Each is proved against the contract. The
  module also holds `CodeSomeShards`, `RunAllCodingLoops` and
  `CheckSomeShards`.

**The sample encoder's packing arithmetic** (module `SampleEncoder`). This
is how `main` turns a file into the shard array it hands to the codec:

- a four-byte big-endian size header, then the file bytes, then zero
  padding up to a multiple of `DATA_SHARDS`;
- the resulting buffer is cut into `DATA_SHARDS` equal data shards;
- the remaining shard buffers stay zero.

`Pack` computes this with exact arithmetic and refuses (`FileTooLarge`)
files whose sizes would not fit in an int. `PackAsWritten` follows the
program's own 32-bit int arithmetic, including the `(int)` cast, and, assuming
the read returns the whole file, fails wherever the Java code would throw. Lemmas relate the two. The encoder
works on octets as integers `0..255` (`SampleEncoder.Byte`). The coding
loops work on `bv8`, because they need XOR.

Where the comments and the code disagree, the model follows the code:

- The comment at SampleEncoder.java:30-35 says the data is padded to a
  multiple of four bytes. The code pads to a multiple of `DATA_SHARDS`
  (line 68).
- The comment at line 66 says the size takes 8 bytes. The code writes a
  4-byte int (lines 43, 74).

## Model

| member | source | states |
|---|---|---|
| CodingLoops.CodeSomeShards | src/main/java/com/backblaze/erasure/CodingLoop.java:58-98 | For every loop order and multiplication routine: every byte in the window of the first outputCount output buffers becomes the field sum over the used inputs of row o times the input byte. Every other buffer, and every output byte outside the window, is unchanged. With consistent tables the result is the one the log/exp routine gives. |
| CodingLoops.CodeByteInputOutput | src/main/java/com/backblaze/erasure/CodingLoop.java:44-45 | The byte / input / output nesting meets the codeSomeShards contract above. |
| CodingLoops.CodeByteOutputInput | src/main/java/com/backblaze/erasure/CodingLoop.java:46-47 | The byte / output / input nesting meets the codeSomeShards contract. |
| CodingLoops.CodeInputByteOutput | src/main/java/com/backblaze/erasure/CodingLoop.java:48-49 | The input / byte / output nesting meets the codeSomeShards contract. |
| CodingLoops.CodeInputOutputByte | src/main/java/com/backblaze/erasure/CodingLoop.java:50-51 | The input / output / byte nesting meets the codeSomeShards contract. |
| CodingLoops.CodeOutputByteInput | src/main/java/com/backblaze/erasure/CodingLoop.java:52-53 | The output / byte / input nesting meets the codeSomeShards contract. |
| CodingLoops.CodeOutputInputByte | src/main/java/com/backblaze/erasure/CodingLoop.java:54-55 | The output / input / byte nesting meets the codeSomeShards contract. |
| CodingLoops.RunAllCodingLoops | src/main/java/com/backblaze/erasure/CodingLoop.java:11-56 | Running all twelve loops of ALL_CODING_LOOPS on the same arguments, with consistent tables, gives twelve byte-identical heaps, each meeting the contract. |
| CodingLoops.CheckSomeShards | src/main/java/com/backblaze/erasure/CodingLoop.java:100-130 | Returns true exactly when every toCheck buffer holds the coded byte at every window position. The answer is the same with or without a temp buffer, and for either multiplication routine when the tables agree. |
| CodingLoops.CodeThenCheck | src/main/java/com/backblaze/erasure/CodingLoop.java:58-131 | Coding a shard set and then checking it with the same loop, with or without a temp buffer, always returns true. |
| CodingLoops.CheckByByte | src/main/java/com/backblaze/erasure/CodingLoop.java:100-130 | With a null temp buffer, the check accepts exactly the heaps whose toCheck windows hold the coded bytes. |
| CodingLoops.CheckWithBuffer | src/main/java/com/backblaze/erasure/CodingLoop.java:100-130 | With a supplied temp buffer, the check gives the same answer, computing each output into the buffer first. |
| CodingLoops.FillTemp | src/main/java/com/backblaze/erasure/CodingLoop.java:121 | After the temp-buffer pass for output o, the window of the buffer holds output o's coded bytes and its length is unchanged. |
| CodingLoop.InputsUnchanged | src/main/java/com/backblaze/erasure/CodingLoop.java:63-98 | A result that changes only the output windows leaves every input buffer as passed in, provided no output aliases an input. |
| CodingLoop.ExtraInputsIgnored | src/main/java/com/backblaze/erasure/CodingLoop.java:65-72 | Two calls that differ only in the input references past inputCount, and in the heap outside the used buffers, compute the same output buffers. |
| CodingLoop.SumReadsOnlyUsedInputs | src/main/java/com/backblaze/erasure/CodingLoop.java:67-72 | A coded byte depends only on byte p of the first k input buffers. |
| CodingLoop.IsCodedDeterminesResult | src/main/java/com/backblaze/erasure/CodingLoop.java:42-56 | The contract fixes every byte of the heap, so any two loops that meet it leave the same heap. |
| CodingLoop.SumIgnoresMethod | src/main/java/com/backblaze/erasure/CodingLoop.java:26-30 | With consistent tables, the sum formed with table lookups equals the sum formed with log/exp lookups. |
| CodingLoop.IsCodedIgnoresMethod | src/main/java/com/backblaze/erasure/CodingLoop.java:26-56 | With consistent tables, a table loop's result also meets the log/exp contract. |
| CodingLoop.MatchesIgnoresMethod | src/main/java/com/backblaze/erasure/CodingLoop.java:100-104 | With consistent tables, a table check and a log/exp check accept the same heaps. |
| CodingLoop.CorruptionDetected | src/main/java/com/backblaze/erasure/CodingLoop.java:100-104 | For an unaliased call, changing any single window byte of a matching toCheck buffer, one that is not also a used input, makes the check fail. |
| CodingLoop.CodedThenMatches | src/main/java/com/backblaze/erasure/CodingLoop.java:58-104 | A heap that codeSomeShards leaves behind, for an unaliased call, passes checkSomeShards on the same call: no corruption means the check succeeds. |
| SampleEncoder.ShardSize | src/main/java/com/backblaze/erasure/SampleEncoder.java:67-68 | shardSize is the ceiling of storedSize / DATA_SHARDS: d * shardSize >= storedSize and d * (shardSize - 1) < storedSize. |
| SampleEncoder.PaddingBounds | src/main/java/com/backblaze/erasure/SampleEncoder.java:72 | The padding bufferSize - storedSize lies in [0, d), so the buffer is the smallest multiple of d that holds header and file. |
| SampleEncoder.BytesToInt | src/main/java/com/backblaze/erasure/SampleEncoder.java:32-33 | Reading a header back gives an int, and it is non-negative exactly when the top bit of the first byte is clear. |
| SampleEncoder.IntToBytes | src/main/java/com/backblaze/erasure/SampleEncoder.java:74 | putInt writes four bytes, most significant first, which read back as the size written. |
| SampleEncoder.HeaderRoundTrip | src/main/java/com/backblaze/erasure/SampleEncoder.java:74 | A header whose top bit is clear, read and written again, gives the same four bytes. So the header is a bijection between non-negative ints and such byte strings. |
| SampleEncoder.Layout | src/main/java/com/backblaze/erasure/SampleEncoder.java:70-76 | allBytes has d * shardSize bytes. Bytes 0..3 decode to the file size, the next bytes are the file in order, and everything after is zero. |
| SampleEncoder.Chunks | src/main/java/com/backblaze/erasure/SampleEncoder.java:86-88 | Cutting a buffer of k * shardSize bytes gives k pieces of shardSize bytes each. |
| SampleEncoder.ChunkAt | src/main/java/com/backblaze/erasure/SampleEncoder.java:86-88 | Piece i is the slice [i * shardSize, i * shardSize + shardSize) of the buffer, which is what the arraycopy copies. |
| SampleEncoder.ConcatChunks | src/main/java/com/backblaze/erasure/SampleEncoder.java:86-88 | Laying the pieces end to end gives back the buffer. |
| SampleEncoder.Split | src/main/java/com/backblaze/erasure/SampleEncoder.java:83-88 | There are TOTAL_SHARDS buffers of shardSize bytes. The first DATA_SHARDS are the pieces of the buffer and the rest are zero. |
| SampleEncoder.ConcatSplit | src/main/java/com/backblaze/erasure/SampleEncoder.java:83-88 | Concatenating the data shards gives back allBytes. |
| SampleEncoder.Pack | src/main/java/com/backblaze/erasure/SampleEncoder.java:61-88 | Packing fails exactly when file length + 4 + d - 1 exceeds Integer.MAX_VALUE. Otherwise it yields TOTAL_SHARDS shards of shardSize bytes. |
| SampleEncoder.PackUnpackRoundTrip | src/main/java/com/backblaze/erasure/SampleEncoder.java:63-88 | Reading the size header from the concatenated data shards, and keeping that many bytes after it, gives back exactly the file. |
| SampleEncoder.PackLayout | src/main/java/com/backblaze/erasure/SampleEncoder.java:67-88 | On the packed shards: shardSize is the ceiling, and the data shards read in order are header, file and zeros. Data shard i is slice i of that buffer. |
| SampleEncoder.Int32 | src/main/java/com/backblaze/erasure/SampleEncoder.java:63-72 | The int narrowing keeps a value's class modulo 2^32, lands in the int range, and leaves ints unchanged. |
| SampleEncoder.JavaDiv | src/main/java/com/backblaze/erasure/SampleEncoder.java:68 | Int division rounds toward zero: the divisor's multiple lies between the dividend and zero, less than one divisor away from the dividend, also for the negative dividend an overflow produces. The quotient lies between the dividend and zero. |
| SampleEncoder.SizesAsWritten | src/main/java/com/backblaze/erasure/SampleEncoder.java:63-72 | fileSize, storedSize and bufferSize are ints that agree modulo 2^32 with the file length, fileSize + 4 and d times shardSize. shardSize is the int quotient of the wrapped storedSize + d - 1 by d, rounded toward zero: d times it lies within one d of that dividend, on the zero side. |
| SampleEncoder.SizesVerdict | src/main/java/com/backblaze/erasure/SampleEncoder.java:63-72 | When the narrowed file size is non-negative and fits, the four sizes are the exact ones for that size. Otherwise fileSize is negative or bufferSize is zero or negative. |
| SampleEncoder.PackAsWritten | src/main/java/com/backblaze/erasure/SampleEncoder.java:63-88 | The program packs a file, rather than throwing, exactly when the file size after the (int) cast is non-negative and file size + 4 + d - 1 fits in an int. |
| SampleEncoder.SizesExact | src/main/java/com/backblaze/erasure/SampleEncoder.java:63-72 | When the sizes fit, none of the int operations wraps: fileSize, storedSize, shardSize and bufferSize are the exact values. |
| SampleEncoder.PackAsWrittenAgrees | src/main/java/com/backblaze/erasure/SampleEncoder.java:61-88 | For every file whose sizes fit, the program's int arithmetic produces exactly Pack's shards. |
| SampleEncoder.OverflowSizes | src/main/java/com/backblaze/erasure/SampleEncoder.java:61-72 | For a file no longer than Integer.MAX_VALUE whose sizes do not fit, storedSize + d - 1 wraps and bufferSize comes out zero or negative. |
| SampleEncoder.WrapsBelow | src/main/java/com/backblaze/erasure/SampleEncoder.java:63-68 | For such a file, storedSize + DATA_SHARDS - 1 computed in int arithmetic wraps to a value below DATA_SHARDS. |
| SampleEncoder.SmallQuotient | src/main/java/com/backblaze/erasure/SampleEncoder.java:68-72 | Any int below d, divided by d with rounding toward zero and multiplied back, gives a bufferSize that is zero or negative. |
| SampleEncoder.PackAsWrittenOverflowFails | src/main/java/com/backblaze/erasure/SampleEncoder.java:61-74 | Such a file makes the program throw rather than pack anything, because its bufferSize is zero or negative. |
| SampleEncoder.SampleOverflowAtMaxIntMinus3 | src/main/java/com/backblaze/erasure/SampleEncoder.java:61-73 | With one data shard, a file of Integer.MAX_VALUE - 3 bytes already wraps storedSize to Integer.MIN_VALUE, and the allocation throws. |
| SampleEncoder.PackAsWrittenTruncates | src/main/java/com/backblaze/erasure/SampleEncoder.java:61-76 | A file of 2^32 bytes or more whose low 32 bits give a size that fits is packed, with no error, as its leading (length mod 2^32) bytes. |
| SampleEncoder.SampleTruncatesExample | src/main/java/com/backblaze/erasure/SampleEncoder.java:61-63 | Concretely, a file of 2^32 + 10 bytes unpacks as its first 10 bytes. |
| SampleEncoder.SampleShardCountMismatch | src/main/java/com/backblaze/erasure/SampleEncoder.java:39-41 | With the declared constants, the shard array has 4 buffers while the codec's 1 + 2 shards number 3. |
| SampleEncoder.DocumentedShardCount | src/main/java/com/backblaze/erasure/SampleEncoder.java:17-26 | With the documented 4 + 2 configuration, the shard array has exactly one buffer per data or parity shard, six in all. |

## Left out

- Galois multiplication tables, the log/exp tables and the generator polynomial are not part of this model. Each multiplication routine is an arbitrary function of two bytes, and their agreement is the stated predicate `Galois.Consistent`.
- The twelve loop classes are not part of this model, only their names and the interface's documentation. The six orders are written from those names. In four orders an output byte is seeded from input 0 and the other inputs are added into it in place. The two orders with the byte or output loop outermost and the input loop innermost (ByteOutputInput, OutputByteInput) sum the inputs into a local value that starts at zero, then store it once.
- CodingLoops.CodeSomeShards: the call must be `WellShaped`. So it needs at least one input, every used matrix row exactly inputCount wide (the interface says the row length decides how many inputs are used), and every used buffer covering the window. Arguments for which Java would throw an array-index or negative-size exception are excluded rather than modelled as an exception.
- CodingLoops.CodeSomeShards: the call must also be `Unaliased`: no output buffer may also be a used input, and no buffer may be two outputs. The interface does not say what happens otherwise.
- CodingLoops.CheckSomeShards: the call must be `WellShaped`, and a supplied temp buffer must hold at least offset + byteCount bytes. Arguments for which Java would throw an array-index exception are excluded rather than modelled as an exception.
- CodingLoops.CheckSomeShards: the temp buffer is assumed to be a buffer of its own, distinct from every input and toCheck buffer. It is passed as a value outside the Heap, so aliasing it cannot be expressed. In Java, a temp buffer shared with an input would be overwritten while later sums still read it, and one shared with a toCheck buffer would be compared with itself.
- CodingLoops.CheckSomeShards: buffers are values, so the check writes nothing the caller can see. In Java, the bytes a check leaves in tempBuffer are visible afterwards, and they are not modelled.
- Offsets, counts and sizes in the coding loops are naturals, and their 32-bit int width is not modelled. The loops use offset + byteCount as their bound, and in Java int arithmetic that sum can wrap to a negative value. The loop would then run zero times, and a check would return true without comparing anything. `WellShaped` excludes such a window, because every used buffer must cover it and no Java array is that long.
- File existence checks, file reading and writing, the hard-coded path, output file naming, console printing and wall-clock timing in `main` are I/O. The read is assumed to return the whole file; the "not enough bytes read" IOException (SampleEncoder.java:77-79) is not modelled.
- `ReedSolomon.create` and `encodeParity` (SampleEncoder.java:91-92) are not part of this model. The packed shards are what would be handed to them; parity shards are left as allocated (zero).
- `Unpack` is the reverse of packing, which the model uses to state the round trip. The decoder program is not part of this model.
- SampleEncoder.Pack: d is the parameter `cfg.dataShards` and must be at least 1 and at most totalShards (`Usable`). With the declared constants this holds.

## Findings

| source | as written | input that shows it | evidently intended | confidence | as-written member | corrected member |
|---|---|---|---|---|---|---|
| src/main/java/com/backblaze/erasure/SampleEncoder.java:39-41 | `DATA_SHARDS = 1`, `PARITY_SHARDS = 2`, `TOTAL_SHARDS = 4`: the shard array has 4 buffers, but the codec is created for 1 + 2 = 3 shards | any file: `shards.length == 4` while `DATA_SHARDS + PARITY_SHARDS == 3` | the 4 + 2 layout the class comment describes (lines 2, 18-26): `TOTAL_SHARDS == DATA_SHARDS + PARITY_SHARDS == 6` | not executed | SampleEncoder.SampleShardCountMismatch | SampleEncoder.DocumentedShardCount |
| src/main/java/com/backblaze/erasure/SampleEncoder.java:61-63 | `(int) inputFile.length()` keeps the low 32 bits of the length, so a file of 2^32 bytes or more whose low bits give a small size is not refused | a file of 2^32 + 10 bytes is packed, without error, as a 10-byte file | the comment says files bigger than Integer.MAX_VALUE fail here: refuse every file whose sizes do not fit | not executed | SampleEncoder.SampleTruncatesExample | SampleEncoder.Pack |
