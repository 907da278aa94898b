/** The bit reader: a cursor over an owned byte buffer that reads bits most
    significant first, fixed-width integers built from them, and Exp-Golomb
    codes. Every read is specified against the bit view Bits(data) of the
    buffer and the absolute bit position CurrentIndex() = 8 * byteIndex + bitIndex.
 */
module Reader {
  import opened BitStream
  import opened ExpGolomb

  datatype Error = BufferExhausted | InvalidRewind

  /** Go's `error` result: nil (Pass) or one of the two failures. */
  datatype Outcome = Pass | Fail(error: Error)

  class BitReader {
    var data: seq<byte>
    var byteIndex: nat
    var bitIndex: nat

    /** The cursor is inside the buffer and never rests on bit 8 of a byte. */
    ghost predicate Valid()
      reads this
    {
      bitIndex < 8 && byteIndex * 8 + bitIndex <= 8 * |data|
    }

    /** New: a reader at bit 0 of byte 0 of d. */
    constructor (d: seq<byte>)
      ensures Valid() && data == d && byteIndex == 0 && bitIndex == 0
    {
      data, byteIndex, bitIndex := d, 0, 0;
    }

    /** The absolute bit position; it determines byteIndex and bitIndex. */
    function CurrentIndex(): (i: nat)
      reads this
      requires Valid()
      ensures i <= 8 * |data|
      ensures i / 8 == byteIndex && i % 8 == bitIndex
    {
      byteIndex * 8 + bitIndex
    }

    /** The number of bits left to read. */
    ghost function Remaining(): nat
      reads this
      requires Valid()
    {
      8 * |data| - CurrentIndex()
    }

    method Append(d: seq<byte>)
      requires Valid()
      modifies this
      ensures Valid()
      ensures data == old(data) + d && byteIndex == old(byteIndex) && bitIndex == old(bitIndex)
      ensures Bits(data) == Bits(old(data)) + Bits(d)
      ensures CurrentIndex() == old(CurrentIndex()) && Remaining() == old(Remaining()) + 8 * |d|
    {
      data := data + d;
      BitsConcat(old(data), d);
    }

    /** Drops the bytes already read; the bits ahead of the cursor are kept. */
    method Trim()
      requires Valid()
      modifies this
      ensures Valid()
      ensures data == old(data)[old(byteIndex)..] && byteIndex == 0 && bitIndex == old(bitIndex)
      ensures CurrentIndex() == old(CurrentIndex()) % 8
      ensures Bits(data)[CurrentIndex()..] == Bits(old(data))[old(CurrentIndex())..]
    {
      BitsDrop(data, byteIndex);
      data := data[byteIndex..];
      byteIndex := 0;
    }

    /** Reads bit 7 - bitIndex of data[byteIndex] and advances by one bit;
        fails, without moving, exactly when the cursor is at the end. */
    method ReadBit() returns (v: bit, err: Outcome)
      requires Valid()
      modifies this
      ensures Valid() && data == old(data)
      ensures err.Fail? <==> old(byteIndex) >= |data|
      ensures err.Fail? <==> old(Remaining()) == 0
      ensures err.Fail? ==> err.error == BufferExhausted && v == 0
                            && byteIndex == old(byteIndex) && bitIndex == old(bitIndex)
      ensures err.Pass? ==> v == Bits(data)[old(CurrentIndex())]
                            && CurrentIndex() == old(CurrentIndex()) + 1
    {
      if byteIndex >= |data| {
        return 0, Fail(BufferExhausted);
      }
      BitsIndex(data, CurrentIndex());
      v := BitOf(data[byteIndex], 7 - bitIndex);
      bitIndex := bitIndex + 1;
      if bitIndex == 8 {
        byteIndex := byteIndex + 1;
        bitIndex := 0;
      }
      err := Pass;
    }

    method ReadFlag() returns (f: bool, err: Outcome)
      requires Valid()
      modifies this
      ensures Valid() && data == old(data)
      ensures err.Fail? <==> old(Remaining()) == 0
      ensures err.Fail? ==> err.error == BufferExhausted && !f && CurrentIndex() == old(CurrentIndex())
      ensures err.Pass? ==> f == (Bits(data)[old(CurrentIndex())] == 1)
                            && CurrentIndex() == old(CurrentIndex()) + 1
    {
      var v;
      v, err := ReadBit();
      f := v == 1;
    }

    /** Reads count bits MSB first into a uint64 accumulator (so only the last
        64 bits survive). A non-positive count reads nothing. Running out of
        bits fails with result 0, and the bits read before the failure stay
        consumed: the cursor is then at the end of the buffer. */
    method ReadBits(count: int) returns (r: nat, err: Outcome)
      requires Valid()
      modifies this
      ensures Valid() && data == old(data)
      ensures err.Pass? <==> count <= old(Remaining())
      ensures err.Pass? && count >= 0 ==>
        r == ValueOf(Bits(data)[old(CurrentIndex())..old(CurrentIndex()) + count]) % TWO_64
        && CurrentIndex() == old(CurrentIndex()) + count
      ensures err.Pass? && count < 0 ==> r == 0 && CurrentIndex() == old(CurrentIndex())
      ensures err.Fail? ==> err.error == BufferExhausted && r == 0 && CurrentIndex() == 8 * |data|
    {
      ghost var start, bits := CurrentIndex(), Bits(data);
      r := 0;
      var i := 0;
      while i < count
        invariant Valid() && data == old(data)
        invariant 0 <= i && (i <= count || i == 0)
        invariant CurrentIndex() == start + i
        invariant r == ValueOf(bits[start..start + i]) % TWO_64
      {
        var v, e := ReadBit();
        if e.Fail? {
          return 0, e;
        }
        AccumulateBit(bits, start, i, r, v);
        // `uint64(v) | result<<1`: the shifted accumulator is even, so OR adds the bit.
        r := (2 * r) % TWO_64 + v;
        i := i + 1;
      }
      err := Pass;
    }

    method ReadUint8() returns (r: nat, err: Outcome)
      requires Valid()
      modifies this
      ensures Valid() && data == old(data)
      ensures err.Pass? <==> 8 <= old(Remaining())
      ensures err.Pass? ==> r == ValueOf(Bits(data)[old(CurrentIndex())..old(CurrentIndex()) + 8])
                            && r < 0x100 && CurrentIndex() == old(CurrentIndex()) + 8
      ensures err.Fail? ==> err.error == BufferExhausted && r == 0 && CurrentIndex() == 8 * |data|
    {
      ghost var start := CurrentIndex();
      var v;
      v, err := ReadBits(8);
      r := v % 0x100;
      if err.Pass? {
        NarrowField(Bits(data)[start..start + 8], v);
      }
    }

    method ReadUint16() returns (r: nat, err: Outcome)
      requires Valid()
      modifies this
      ensures Valid() && data == old(data)
      ensures err.Pass? <==> 16 <= old(Remaining())
      ensures err.Pass? ==> r == ValueOf(Bits(data)[old(CurrentIndex())..old(CurrentIndex()) + 16])
                            && r < 0x1_0000 && CurrentIndex() == old(CurrentIndex()) + 16
      ensures err.Fail? ==> err.error == BufferExhausted && r == 0 && CurrentIndex() == 8 * |data|
    {
      ghost var start := CurrentIndex();
      var v;
      v, err := ReadBits(16);
      r := v % 0x1_0000;
      if err.Pass? {
        NarrowField(Bits(data)[start..start + 16], v);
      }
    }

    method ReadUint32() returns (r: nat, err: Outcome)
      requires Valid()
      modifies this
      ensures Valid() && data == old(data)
      ensures err.Pass? <==> 32 <= old(Remaining())
      ensures err.Pass? ==> r == ValueOf(Bits(data)[old(CurrentIndex())..old(CurrentIndex()) + 32])
                            && r < 0x1_0000_0000 && CurrentIndex() == old(CurrentIndex()) + 32
      ensures err.Fail? ==> err.error == BufferExhausted && r == 0 && CurrentIndex() == 8 * |data|
    {
      ghost var start := CurrentIndex();
      var v;
      v, err := ReadBits(32);
      r := v % 0x1_0000_0000;
      if err.Pass? {
        NarrowField(Bits(data)[start..start + 32], v);
      }
    }

    method ReadUint64() returns (r: nat, err: Outcome)
      requires Valid()
      modifies this
      ensures Valid() && data == old(data)
      ensures err.Pass? <==> 64 <= old(Remaining())
      ensures err.Pass? ==> r == ValueOf(Bits(data)[old(CurrentIndex())..old(CurrentIndex()) + 64])
                            && r < TWO_64 && CurrentIndex() == old(CurrentIndex()) + 64
      ensures err.Fail? ==> err.error == BufferExhausted && r == 0 && CurrentIndex() == 8 * |data|
    {
      ghost var start := CurrentIndex();
      r, err := ReadBits(64);
      if err.Pass? {
        NarrowField(Bits(data)[start..start + 64], r);
      }
    }

    /** Discards count bits, with ReadBits' failure behaviour. */
    method Skip(count: int) returns (err: Outcome)
      requires Valid()
      modifies this
      ensures Valid() && data == old(data)
      ensures err.Pass? <==> count <= old(Remaining())
      ensures err.Pass? ==> CurrentIndex() == old(CurrentIndex()) + (if count < 0 then 0 else count)
      ensures err.Fail? ==> err.error == BufferExhausted && CurrentIndex() == 8 * |data|
    {
      var discarded;
      discarded, err := ReadBits(count);
    }

    method ReadInt8() returns (r: int, err: Outcome)
      requires Valid()
      modifies this
      ensures Valid() && data == old(data)
      ensures err.Pass? <==> 8 <= old(Remaining())
      ensures err.Pass? ==>
        var u := ValueOf(Bits(data)[old(CurrentIndex())..old(CurrentIndex()) + 8]);
        u < Pow2(8) && r == ToSigned(u, 8) && CurrentIndex() == old(CurrentIndex()) + 8
      ensures err.Fail? ==> err.error == BufferExhausted && r == 0 && CurrentIndex() == 8 * |data|
    {
      var u;
      u, err := ReadUint8();
      Pow2Values();
      r := ToSigned(u, 8);
    }

    method ReadInt16() returns (r: int, err: Outcome)
      requires Valid()
      modifies this
      ensures Valid() && data == old(data)
      ensures err.Pass? <==> 16 <= old(Remaining())
      ensures err.Pass? ==>
        var u := ValueOf(Bits(data)[old(CurrentIndex())..old(CurrentIndex()) + 16]);
        u < Pow2(16) && r == ToSigned(u, 16) && CurrentIndex() == old(CurrentIndex()) + 16
      ensures err.Fail? ==> err.error == BufferExhausted && r == 0 && CurrentIndex() == 8 * |data|
    {
      var u;
      u, err := ReadUint16();
      Pow2Values();
      r := ToSigned(u, 16);
    }

    method ReadInt32() returns (r: int, err: Outcome)
      requires Valid()
      modifies this
      ensures Valid() && data == old(data)
      ensures err.Pass? <==> 32 <= old(Remaining())
      ensures err.Pass? ==>
        var u := ValueOf(Bits(data)[old(CurrentIndex())..old(CurrentIndex()) + 32]);
        u < Pow2(32) && r == ToSigned(u, 32) && CurrentIndex() == old(CurrentIndex()) + 32
      ensures err.Fail? ==> err.error == BufferExhausted && r == 0 && CurrentIndex() == 8 * |data|
    {
      var u;
      u, err := ReadUint32();
      Pow2Values();
      r := ToSigned(u, 32);
    }

    method ReadInt64() returns (r: int, err: Outcome)
      requires Valid()
      modifies this
      ensures Valid() && data == old(data)
      ensures err.Pass? <==> 64 <= old(Remaining())
      ensures err.Pass? ==>
        var u := ValueOf(Bits(data)[old(CurrentIndex())..old(CurrentIndex()) + 64]);
        u < Pow2(64) && r == ToSigned(u, 64) && CurrentIndex() == old(CurrentIndex()) + 64
      ensures err.Fail? ==> err.error == BufferExhausted && r == 0 && CurrentIndex() == 8 * |data|
    {
      var u;
      u, err := ReadUint64();
      Pow2Values();
      r := ToSigned(u, 64);
    }

    /** Moves the cursor back count bits, one bit at a time, borrowing from
        byteIndex when bitIndex is 0. Asking for more bits than have been
        read fails and changes nothing; a negative count does nothing. */
    method Reverse(count: int) returns (err: Outcome)
      requires Valid()
      modifies this
      ensures Valid() && data == old(data)
      ensures err.Fail? <==> count > old(CurrentIndex())
      ensures err.Fail? ==> err.error == InvalidRewind
                            && byteIndex == old(byteIndex) && bitIndex == old(bitIndex)
      ensures err.Pass? ==> CurrentIndex() == old(CurrentIndex()) - (if count < 0 then 0 else count)
    {
      if count > CurrentIndex() {
        return Fail(InvalidRewind);
      }
      var i := 0;
      while i < count
        invariant Valid() && data == old(data)
        invariant 0 <= i && (i <= count || i == 0)
        invariant CurrentIndex() == old(CurrentIndex()) - i
      {
        if bitIndex == 0 {
          bitIndex := 7;
          byteIndex := byteIndex - 1;
        } else {
          bitIndex := bitIndex - 1;
        }
        i := i + 1;
      }
      err := Pass;
    }

    /** The prefix of a ue(v) code: reads bits up to and including the first
        1 bit and returns the number of 0 bits before it. Running out of bits
        fails with every remaining bit consumed, so the code is truncated. */
    method CountZeros() returns (countZero: nat, err: Outcome)
      requires Valid()
      modifies this
      ensures Valid() && data == old(data)
      ensures var ahead := Bits(data)[old(CurrentIndex())..];
        && (err.Pass? ==> countZero < |ahead| && LeadingZeros(ahead) == countZero
                          && CurrentIndex() == old(CurrentIndex()) + countZero + 1)
        && (err.Fail? <==> LeadingZeros(ahead) == |ahead|)
        && (err.Fail? ==> err.error == BufferExhausted && DecodeUev(ahead).Truncated?
                          && CurrentIndex() == 8 * |data|)
    {
      ghost var start := CurrentIndex();
      ghost var ahead := Bits(data)[start..];
      countZero := 0;
      while true
        invariant Valid() && data == old(data)
        invariant CurrentIndex() == start + countZero
        invariant forall j :: 0 <= j < countZero ==> ahead[j] == 0
        decreases Remaining()
      {
        var v;
        v, err := ReadBit();
        if err.Fail? {
          NoTerminator(ahead, countZero);
          return;
        }
        if v == 1 {
          break;
        }
        countZero := countZero + 1;
      }
      Terminator(ahead, countZero);
    }

    /** Reads one ue(v) code: counts 0 bits up to a terminating 1 bit, then
        reads that many suffix bits. On failure the result is 0 and, as with
        ReadBits, everything up to the end of the buffer has been consumed. */
    method ReadUev() returns (r: nat, err: Outcome)
      requires Valid()
      modifies this
      ensures Valid() && data == old(data)
      ensures var d := DecodeUev(Bits(data)[old(CurrentIndex())..]);
        && (err.Pass? <==> d.Decoded?)
        && (d.Decoded? ==> r == d.value && CurrentIndex() == old(CurrentIndex()) + d.length)
        && (d.Truncated? ==> err.error == BufferExhausted && r == 0 && CurrentIndex() == 8 * |data|)
    {
      ghost var start := CurrentIndex();
      var countZero;
      countZero, err := CountZeros();
      if err.Fail? {
        return 0, err;
      }
      ghost var first := CurrentIndex();
      var v;
      v, err := ReadBits(countZero);
      if err.Fail? {
        UevPastEnd(Bits(data), start, countZero);
        return 0, err;
      }
      // `(1 << countZero) - 1 + v` in uint64: the shift is 0 once countZero reaches 64.
      r := (Pow2(countZero) % TWO_64 - 1 + v) % TWO_64;
      UevFromFields(Bits(data), start, first, countZero, v);
    }

    /** Reads one se(v) code: the ue(v) code number mapped to a signed value.
        A failure of ReadUev is passed on with result 0. */
    method ReadEv() returns (r: int, err: Outcome)
      requires Valid()
      modifies this
      ensures Valid() && data == old(data)
      ensures var d := DecodeUev(Bits(data)[old(CurrentIndex())..]);
        && (err.Pass? <==> d.Decoded?)
        && (d.Decoded? ==> r == SignedUev(d.value) && CurrentIndex() == old(CurrentIndex()) + d.length)
        && (d.Truncated? ==> err.error == BufferExhausted && r == 0 && CurrentIndex() == 8 * |data|)
    {
      var v;
      v, err := ReadUev();
      if err.Fail? {
        return 0, err;
      }
      r := SignedUev(v);
    }
  }

  /** One step of the uint64 accumulator: shifting the reduced value left and
      adding a bit is shifting the exact value and reducing afterwards. */
  lemma ShiftIn(x: nat, b: bit)
    ensures (2 * (x % TWO_64)) % TWO_64 + b == (2 * x + b) % TWO_64
  {
    var q, m := x / TWO_64, x % TWO_64;
    var carry := if 2 * m < TWO_64 then 0 else 1;
    var low := 2 * m - carry * TWO_64;
    assert (2 * m) % TWO_64 == low by {
      ModOfMultiple(carry, low);
    }
    assert 2 * x + b == (2 * q + carry) * TWO_64 + (low + b);
    ModOfMultiple(2 * q + carry, low + b);
  }

  lemma ModOfMultiple(h: int, r: int)
    requires 0 <= r < TWO_64
    ensures (h * TWO_64 + r) % TWO_64 == r
  {
  }

  /** The accumulator after one more bit is the uint64 value of one more bit. */
  lemma AccumulateBit(bits: seq<bit>, start: nat, i: nat, r: nat, v: bit)
    requires start + i < |bits| && r == ValueOf(bits[start..start + i]) % TWO_64
    requires v == bits[start + i]
    ensures (2 * r) % TWO_64 + v == ValueOf(bits[start..start + (i + 1)]) % TWO_64
  {
    var read := bits[start..start + (i + 1)];
    assert read[..|read| - 1] == bits[start..start + i];
    ShiftIn(ValueOf(bits[start..start + i]), bits[start + i]);
  }

  /** A w-bit field read into a uint64, and converted to the uintW of its
      width when that is narrower, keeps its value. */
  lemma NarrowField(s: seq<bit>, v: nat)
    requires |s| <= 64 && v == ValueOf(s) % TWO_64
    ensures |s| == 8 ==> v % 0x100 == ValueOf(s) < 0x100
    ensures |s| == 16 ==> v % 0x1_0000 == ValueOf(s) < 0x1_0000
    ensures |s| == 32 ==> v % 0x1_0000_0000 == ValueOf(s) < 0x1_0000_0000
    ensures |s| == 64 ==> v == ValueOf(s) < TWO_64
  {
    FieldFits(s);
    Pow2Values();
  }

  /** A field of at most 64 bits fits in the integer type of its width. */
  lemma FieldFits(s: seq<bit>)
    requires |s| <= 64
    ensures ValueOf(s) < Pow2(|s|) <= TWO_64
    ensures ValueOf(s) % TWO_64 == ValueOf(s) && ValueOf(s) % Pow2(|s|) == ValueOf(s)
  {
    ValueOfBound(s);
    Pow2Monotone(|s|, 64);
    Pow2Values();
    ModOfShift(ValueOf(s), TWO_64);
    ModOfShift(ValueOf(s), Pow2(|s|));
  }

  /** The reader's uint64 form of the code number, from the suffix read into
      a uint64 v, equals CodeNumber. */
  lemma CodeNumberMod(k: nat, suffix: seq<bit>, v: nat)
    requires v == ValueOf(suffix) % TWO_64
    ensures (Pow2(k) % TWO_64 - 1 + v) % TWO_64 == CodeNumber(k, suffix)
  {
    WrapSum(Pow2(k), ValueOf(suffix));
  }

  /** A run of zeros up to the end of the stream is a truncated code. */
  lemma NoTerminator(ahead: seq<bit>, k: nat)
    requires k == |ahead| && forall j :: 0 <= j < k ==> ahead[j] == 0
    ensures DecodeUev(ahead) == Truncated
  {
    assert LeadingZeros(ahead) == k;
  }

  /** k zeros and then a 1 are k leading zeros. */
  lemma Terminator(ahead: seq<bit>, k: nat)
    requires k < |ahead| && ahead[k] == 1 && forall j :: 0 <= j < k ==> ahead[j] == 0
    ensures LeadingZeros(ahead) == k
  {
  }

  /** A code whose suffix runs past the end of the stream is truncated. */
  lemma UevPastEnd(bits: seq<bit>, start: nat, k: nat)
    requires start <= |bits| < start + 2 * k + 1 && LeadingZeros(bits[start..]) == k
    ensures DecodeUev(bits[start..]) == Truncated
  {
  }

  /** ReadUev's result from its two fields: k zeros counted from bit start,
      then the k-bit suffix after the terminating 1 read into a uint64 v. */
  lemma UevFromFields(bits: seq<bit>, start: nat, first: nat, k: nat, v: nat)
    requires first == start + k + 1 && first + k <= |bits| && LeadingZeros(bits[start..]) == k
    requires v == ValueOf(bits[first..first + k]) % TWO_64
    ensures DecodeUev(bits[start..]) == Decoded((Pow2(k) % TWO_64 - 1 + v) % TWO_64, 2 * k + 1)
  {
    var ahead := bits[start..];
    var suffix := ahead[k + 1..2 * k + 1];
    assert suffix == bits[first..first + k];
    CodeNumberMod(k, suffix, v);
    DecodeUevAt(ahead, k);
  }

  lemma WrapSum(a: nat, b: nat)
    ensures (a % TWO_64 - 1 + b % TWO_64) % TWO_64 == (a - 1 + b) % TWO_64
  {
    var qa, qb := a / TWO_64, b / TWO_64;
    assert a - 1 + b == (qa + qb) * TWO_64 + (a % TWO_64 - 1 + b % TWO_64);
  }
}
