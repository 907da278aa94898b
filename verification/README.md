# bitreader in Dafny

A model of the Go package `bitreader`. It is a cursor over a byte buffer that it owns. The cursor reads the buffer one bit at a time, most significant bit of each byte first. On top of that single-bit read the package offers:

- reads of an unsigned or signed field of `count` bits (8, 16, 32 and 64 in particular);
- skipping forward and rewinding backward by a number of bits;
- appending bytes to the buffer and trimming the bytes already read;
- decoding of Exp-Golomb codes, which ITU-T H.264 defines in section 9.1 (unsigned codes, ue(v)) and section 9.1.1 (signed codes, se(v)).

The model has four modules, one per file.

- `BitStream` (`bits.dfy`) gives a buffer its meaning as a bit string.
  - `Bits(data)` is the MSB-first bit view of the buffer.
  - `ValueOf(s)` is the unsigned number a run of bits stands for.
  - `BigEndian(data)` is the number the bytes stand for.
  - `ToSigned(u, w)` is Go's conversion of a `uintW` to an `intW`.
  - `PackingLaw` connects `ValueOf`, `Bits` and `BigEndian`.
- `ExpGolomb` (`expgolomb.dfy`) states the code on bit strings.
  - `DecodeUev` is the decoder, computed in uint64 arithmetic as the reader does.
  - `EncodeUev` is an independent encoder; it is not in the package and serves as the decoder's inverse.
  - `ZigZag` is the se(v) mapping. `SignedUev` is what the reader computes from it in uint64 and int64.
- `Reader` (`reader.dfy`) is the class `BitReader`.
  - Its fields are `data`, `byteIndex` and `bitIndex`. `New` is the class constructor, `CurrentIndex` is a function of the fields, and every other Go method is a Dafny method.
  - The loops in `ReadBits`, `Reverse` and the zero count of `ReadUev` are `while` loops with invariants.
  - Each method is proved against the bit view, so each result is a function of `Bits(data)` at the old cursor.
- `Scenarios` (`scenarios.dfy`) holds client code. Each method replays the calls of one of the package's unit tests on a fresh reader and proves the result that test expects. It also holds two general client properties of rewinding.

Several uint64 behaviours are modelled explicitly, modulo 2^64, rather than excluded:

- the accumulator of `ReadBits` (`result<<1` drops the top bit when `count` exceeds 64);
- the `1 << countZero` of `ReadUev` (0 once `countZero` reaches 64);
- the sum `- 1 + v`;
- the `+ 1` and negation of `ReadEv`.

A failed multi-bit read does not roll back; the contracts state this. `ReadBits`, `Skip`, the fixed-width reads and `ReadUev` each consume every remaining bit before failing, so on failure the cursor ends at `8 * |data|`.

## Model

| member | source | states |
|---|---|---|
| Reader.BitReader.constructor | bitreader.go:14-18 | a new reader holds the given bytes with both indices at 0 |
| Reader.BitReader.CurrentIndex | bitreader.go:106-108 | the absolute bit position is `8 * byteIndex + bitIndex`; it never passes the end of the buffer |
| Reader.BitReader.Append | bitreader.go:20-22 | the buffer becomes old data followed by the new bytes, and its bit view becomes the concatenation; the position is unchanged and the remaining bits grow by 8 per byte |
| Reader.BitReader.Trim | bitreader.go:24-28 | the bytes before `byteIndex` are dropped and `byteIndex` becomes 0 with `bitIndex` kept; the position becomes the old position mod 8; the unread bits are exactly the unread bits of the old buffer |
| Reader.BitReader.ReadBit | bitreader.go:30-42 | fails with BufferExhausted exactly when `byteIndex` is at or past the end (no bits left), returning 0 with the position unchanged; otherwise returns the bit at the position and advances by one |
| Reader.BitReader.ReadFlag | bitreader.go:44-47 | true exactly when the bit at the position is 1; fails, with false, exactly when no bits are left |
| Reader.BitReader.ReadBits | bitreader.go:49-59 | succeeds exactly when `count` bits remain; the result is the value of the next `count` bits mod 2^64, and the position advances by `count`; a negative count reads nothing and gives 0; on failure the result is 0 and the cursor is at the end of the buffer |
| Reader.BitReader.ReadUint8 | bitreader.go:61-64 | succeeds exactly when 8 bits remain; the result is the value of the next 8 bits |
| Reader.BitReader.ReadUint16 | bitreader.go:66-69 | the same for 16 bits |
| Reader.BitReader.ReadUint32 | bitreader.go:71-74 | the same for 32 bits |
| Reader.BitReader.ReadUint64 | bitreader.go:76-79 | the same for 64 bits |
| Reader.BitReader.Skip | bitreader.go:81-84 | succeeds exactly when `count` bits remain and then advances by `count` (by 0 if `count` is negative); on failure the cursor is at the end |
| Reader.BitReader.ReadInt8 | bitreader.go:86-89 | succeeds exactly when 8 bits remain; the result is the two's-complement reading of the next 8 bits |
| Reader.BitReader.ReadInt16 | bitreader.go:91-94 | the same for 16 bits |
| Reader.BitReader.ReadInt32 | bitreader.go:96-99 | the same for 32 bits |
| Reader.BitReader.ReadInt64 | bitreader.go:101-104 | the same for 64 bits |
| Reader.BitReader.Reverse | bitreader.go:110-123 | fails with InvalidRewind exactly when `count` exceeds the position, and then changes nothing; otherwise moves the position back by `count` (by 0 if `count` is negative) |
| Reader.BitReader.CountZeros | bitreader.go:127-137 | on success returns the number of leading zeros of the bits ahead and stops just past the terminating 1; fails only when no 1 follows, i.e. the code is truncated, leaving the cursor at the end |
| Reader.BitReader.ReadUev | bitreader.go:125-143 | succeeds exactly when the bits ahead start with a complete ue(v) code; it then returns that code's number (in uint64) and advances by the code's length; otherwise it gives BufferExhausted and 0, with the cursor at the end |
| Reader.BitReader.ReadEv | bitreader.go:145-156 | succeeds exactly when ReadUev would; it then returns the se(v) value of the code number, as Go's uint64/int64 arithmetic computes it, and consumes the same bits |
| Reader.AccumulateBit | bitreader.go:56 | one step of the accumulator (shift left by one, then or in the new bit) turns the uint64 value of i bits into that of i + 1 bits |
| Reader.NarrowField | bitreader.go:61-79 | a field of 8, 16, 32 or 64 bits read into a uint64 and converted to its own width keeps its exact value |
| Reader.UevFromFields | bitreader.go:138-142 | k zeros, then a 1, then a k-bit suffix read into v: the returned `(1 << k) - 1 + v` is the code number DecodeUev gives and the code is 2k + 1 bits long |
| Reader.NoTerminator | bitreader.go:128-132 | a run of zeros to the end of the stream is a truncated code |
| ExpGolomb.LeadingZeros | bitreader.go:127-137 | the count is the index of the first 1 bit: every earlier bit is 0 |
| ExpGolomb.DecodeUev | bitreader.go:125-143 | a code is complete exactly when the stream holds more than twice as many bits as it has leading zeros; a complete code occupies 2k + 1 bits for k leading zeros, its number is a uint64, and with fewer than 64 leading zeros it is exactly 2^k - 1 plus the k bits after the terminating 1 |
| ExpGolomb.CodeNumber | bitreader.go:142 | `(1 << k) - 1 + v` in uint64 is below 2^64, and for k < 64 with a k-bit suffix it equals 2^k - 1 + v without wrapping |
| ExpGolomb.DecodeUevShape | bitreader.go:125-143 | k zeros, a 1 and a k-bit suffix decode, whatever follows, to `2^k - 1 + suffix` mod 2^64 (exactly when k < 64) in 2k + 1 bits |
| ExpGolomb.TruncatedShape | bitreader.go:138-141 | k zeros and a 1 followed by t are a truncated code exactly when t holds fewer than k bits, i.e. the stream ends inside the suffix |
| ExpGolomb.UevRoundTrip | bitreader.go:125-143 | decoding the encoding of any n < 2^64 gives n back and consumes exactly the code |
| ExpGolomb.UevCanonical | bitreader.go:125-143 | conversely, a code with fewer than 64 leading zeros is the encoding of the number it decodes to |
| ExpGolomb.ZigZag | bitreader.go:151-155 | odd code numbers give positive values and even ones non-positive; the code number is recovered from the value |
| ExpGolomb.SignedCode | bitreader.go:151-155 | every integer has a code number that ZigZag maps to it |
| ExpGolomb.SignedUev | bitreader.go:151-155 | ReadEv's arithmetic agrees with ZigZag on every code number below 2^64 - 1 and gives 0 for 2^64 - 1 |
| BitStream.Bits | bitreader.go:35 | a buffer of n bytes is a string of 8n bits |
| BitStream.BitsIndex | bitreader.go:35 | bit i of the buffer is `data[i / 8] >> (7 - i % 8) & 1` |
| BitStream.BitsConcat | bitreader.go:20-22 | the bits of appended buffers are the concatenated bits |
| BitStream.BitsDrop | bitreader.go:24-28 | dropping k bytes drops the first 8k bits |
| BitStream.ToSigned | bitreader.go:86-104 | the result lies in the intW range, is congruent to the pattern mod 2^w, and is negative exactly when the top bit is set |
| BitStream.PackingLaw | bitreader.go:49-59 | all the bits of a buffer, read MSB first, give the big-endian value of its bytes |
| BitStream.ByteAlignedField | bitreader.go:61-79 | a byte-aligned field gives the big-endian value of its bytes; a single byte reads back as itself |
| Scenarios.ShortInt64 | bitreader_test.go:9-15 | ReadInt64 on a 2-byte buffer fails with BufferExhausted |
| Scenarios.AppendThenRead | bitreader_test.go:17-25 | skipping 8 bits of `fa 0a 9b`, appending `ff ff` and reading a uint32 gives 177995775 |
| Scenarios.AppendedField | bitreader_test.go:17-25 | bits 8..40 of `fa 0a 9b ff ff` are 177995775 |
| Scenarios.SkipThenTrim | bitreader_test.go:27-35 | skipping 9 bits and trimming leaves the position at 1 |
| Scenarios.TruncatedUev | bitreader_test.go:37-43 | ReadUev on `00 0f` fails with BufferExhausted and returns 0 |
| Scenarios.TruncatedBits | bitreader_test.go:37-43 | the bits of `00 0f` are a truncated ue(v) code |
| Scenarios.ByteAndFlags | bitreader_test.go:45-62 | `a7` reads as the uint8 167, and as the flags true then false |
| Scenarios.RewindAfterByte | bitreader_test.go:64-91 | after a byte the position is 8; a rewind of 10 fails with InvalidRewind; a rewind of 4 leaves the position at 4 |
| Scenarios.ReadThenReverse | bitreader.go:110-123 | on any reader with n bits left, reading n bits and rewinding n succeeds and restores both indices |
| Scenarios.ReadReverseReread | bitreader.go:110-123 | reading n bits, rewinding n and reading n again gives the same value twice |
| Scenarios.SkipThenUint16 | bitreader_test.go:93-100 | a uint16 after one skipped byte of `1a fc da` is 0xfcda |
| Scenarios.Uint32Read | bitreader_test.go:102-108 | `fc da 5f af` reads as the uint32 0xfcda5faf |
| Scenarios.Int32Read | bitreader_test.go:126-132 | `fc da 5f af` reads as the int32 -52797521 |
| Scenarios.SixtyFourBits | bitreader_test.go:110-124 | `fc da 5f af ec da 5f af` reads as the uint64 0xfcda5fafecda5faf and as the int64 -226763622031138897 |
| Scenarios.NarrowSigned | bitreader_test.go:134-148 | `fc da` reads as the int16 -806, and `fc` as the int8 -4 |
| Scenarios.UevVector | bitreader_test.go:150-169 | past its first four bits, test buffer n holds a ue(v) code that decodes to n |
| Scenarios.ReadUevTable | bitreader_test.go:150-169 | skipping four bits and then ReadUev on the seven test buffers succeeds each time and gives 0 to 6 |
| Scenarios.ReadEvTable | bitreader_test.go:171-190 | ReadEv on the same buffers succeeds each time and gives 0, 1, -1, 2, -2, 3, -3 |

## Left out

- Go slices are modelled as owned values. `New` keeps the caller's slice without copying, `Append` may reuse its spare capacity, and `Trim` reslices the shared backing array. Aliasing between the reader and its caller is therefore not modelled.
- The error strings are reduced to a two-case `Error` datatype: `BufferExhausted` and `InvalidRewind`.
- Machine integer widths of the indices are not modelled. `byteIndex` is a `uint64` and `bitIndex` a `uint8`; here they are a `nat` and a `nat` kept below 8 by `Valid()`. The `int` conversions in `CurrentIndex` cannot overflow for a buffer that fits in memory.
- Go's `int` parameter of `ReadBits`, `Skip` and `Reverse` is an unbounded `int`.
- The loop of `ReadUev` that counts zeros is the method `CountZeros`, which `ReadUev` calls; the statements are the same.
- The reader has no encoder. `ExpGolomb.EncodeUev` is the inverse the decoder is proved against, not a model of source code.
- Scenarios.ReadEvTable: each test buffer is read through `EvAfterNibble`. That method states the ZigZag value only for code numbers below 2^64 - 1, which covers every test buffer. ReadEv itself states the value for every code number through `SignedUev`.
- Concurrency: the reader is used by one caller at a time, and nothing concurrent is modelled.
