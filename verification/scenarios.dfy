/** Concrete uses of the reader on the buffers of the package's own tests,
    with the values those tests expect, derived from the reader's contracts. */
module Scenarios {
  import opened BitStream
  import opened ExpGolomb
  import opened Reader

  /** The buffers of the ue(v)/se(v) tests: four bits to skip, then the code
      of 0, 1, ..., 6, then zero padding. */
  const UevVectors: seq<seq<byte>> :=
    [[0x08], [0x04], [0x06], [0x02, 0x00], [0x02, 0x80], [0x03, 0x00], [0x03, 0x80]]

  lemma BigEndian2(a: byte, b: byte)
    ensures BigEndian([a, b]) == a * 256 + b
  {
    assert [a, b][..1] == [a];
    assert [a][..0] == [];
    assert BigEndian([a]) == a;
  }

  lemma BigEndian4(a: byte, b: byte, c: byte, d: byte)
    ensures BigEndian([a, b, c, d]) == ((a * 256 + b) * 256 + c) * 256 + d
  {
    assert [a, b, c, d][..3] == [a, b, c];
    assert [a, b, c][..2] == [a, b];
    BigEndian2(a, b);
    assert BigEndian([a, b, c]) == (a * 256 + b) * 256 + c;
  }

  lemma BigEndian8(a: byte, b: byte, c: byte, d: byte, e: byte, f: byte, g: byte, h: byte)
    ensures BigEndian([a, b, c, d, e, f, g, h])
         == ((BigEndian([a, b, c, d]) * 256 + e) * 256 + f) * 256 * 256 + g * 256 + h
  {
    var x := [a, b, c, d, e, f, g, h];
    assert x[..7] == [a, b, c, d, e, f, g];
    assert x[..7][..6] == [a, b, c, d, e, f];
    assert x[..7][..6][..5] == [a, b, c, d, e];
    assert x[..7][..6][..5][..4] == [a, b, c, d];
    var p := BigEndian([a, b, c, d]);
    assert BigEndian([a, b, c, d, e]) == p * 256 + e;
    assert BigEndian([a, b, c, d, e, f]) == (p * 256 + e) * 256 + f;
    assert BigEndian([a, b, c, d, e, f, g]) == ((p * 256 + e) * 256 + f) * 256 + g;
  }

  /** Two bits read most significant first. */
  lemma ValuePair(t: seq<bit>)
    requires |t| == 2
    ensures ValueOf(t) == 2 * (t[0] as int) + t[1]
  {
    assert t[..1][..0] == [];
    assert ValueOf(t[..1]) == t[0];
  }

  /** k zeros, a 1 and a k-bit suffix with value v at the front of s
      (for the short codes of the tests, k <= 2) decode to 2^k - 1 + v. */
  lemma ShortCodeAt(s: seq<bit>, k: nat, v: nat)
    requires k <= 2 && 2 * k + 1 <= |s| && s[k] == 1
    requires forall j :: 0 <= j < k ==> s[j] == 0
    requires k == 0 ==> v == 0
    requires k == 1 ==> v == s[2]
    requires k == 2 ==> v == 2 * (s[3] as int) + s[4]
    ensures DecodeUev(s) == Decoded(Pow2(k) - 1 + v, 2 * k + 1)
  {
    Terminator(s, k);
    var suffix := s[k + 1..2 * k + 1];
    if k == 1 {
      assert suffix[..0] == [];
      assert ValueOf(suffix) == v;
    } else if k == 2 {
      ValuePair(suffix);
      assert ValueOf(suffix) == v;
    }
    CodeFits(k, suffix);
    DecodeUevAt(s, k);
  }

  lemma UevVector0(d: seq<byte>, n: nat)
    requires d == [0x08] && n == 0
    ensures DecodeUev(Bits(d)[4..]) == Decoded(n, 1)
  {
    BitsIndex(d, 4);
    ShortCodeAt(Bits(d)[4..], 0, 0);
  }

  lemma UevVector1(d: seq<byte>, n: nat)
    requires d == [0x04] && n == 1
    ensures DecodeUev(Bits(d)[4..]) == Decoded(n, 3)
  {
    BitsIndex(d, 4);
    BitsIndex(d, 5);
    BitsIndex(d, 6);
    ShortCodeAt(Bits(d)[4..], 1, 0);
  }

  lemma UevVector2(d: seq<byte>, n: nat)
    requires d == [0x06] && n == 2
    ensures DecodeUev(Bits(d)[4..]) == Decoded(n, 3)
  {
    BitsIndex(d, 4);
    BitsIndex(d, 5);
    BitsIndex(d, 6);
    ShortCodeAt(Bits(d)[4..], 1, 1);
  }

  lemma UevVector3(d: seq<byte>, n: nat)
    requires d == [0x02, 0x00] && n == 3
    ensures DecodeUev(Bits(d)[4..]) == Decoded(n, 5)
  {
    BitsIndex(d, 4);
    BitsIndex(d, 5);
    BitsIndex(d, 6);
    BitsIndex(d, 7);
    BitsIndex(d, 8);
    ShortCodeAt(Bits(d)[4..], 2, 0);
  }

  lemma UevVector4(d: seq<byte>, n: nat)
    requires d == [0x02, 0x80] && n == 4
    ensures DecodeUev(Bits(d)[4..]) == Decoded(n, 5)
  {
    BitsIndex(d, 4);
    BitsIndex(d, 5);
    BitsIndex(d, 6);
    BitsIndex(d, 7);
    BitsIndex(d, 8);
    ShortCodeAt(Bits(d)[4..], 2, 1);
  }

  lemma UevVector5(d: seq<byte>, n: nat)
    requires d == [0x03, 0x00] && n == 5
    ensures DecodeUev(Bits(d)[4..]) == Decoded(n, 5)
  {
    BitsIndex(d, 4);
    BitsIndex(d, 5);
    BitsIndex(d, 6);
    BitsIndex(d, 7);
    BitsIndex(d, 8);
    ShortCodeAt(Bits(d)[4..], 2, 2);
  }

  lemma UevVector6(d: seq<byte>, n: nat)
    requires d == [0x03, 0x80] && n == 6
    ensures DecodeUev(Bits(d)[4..]) == Decoded(n, 5)
  {
    BitsIndex(d, 4);
    BitsIndex(d, 5);
    BitsIndex(d, 6);
    BitsIndex(d, 7);
    BitsIndex(d, 8);
    ShortCodeAt(Bits(d)[4..], 2, 3);
  }

  /** Past its first four bits, test buffer n holds the ue(v) code of n. */
  lemma UevVector(n: nat)
    requires n < |UevVectors|
    ensures |UevVectors[n]| >= 1
    ensures var d := DecodeUev(Bits(UevVectors[n])[4..]); d.Decoded? && d.value == n
  {
    var d := UevVectors[n];
    if n == 0 { UevVector0(d, n); }
    else if n == 1 { UevVector1(d, n); }
    else if n == 2 { UevVector2(d, n); }
    else if n == 3 { UevVector3(d, n); }
    else if n == 4 { UevVector4(d, n); }
    else if n == 5 { UevVector5(d, n); }
    else { UevVector6(d, n); }
  }

  /** 00 0f: twelve zeros, then a 1 followed by only three bits. */
  lemma TruncatedBits(d: seq<byte>)
    requires d == [0x00, 0x0f]
    ensures DecodeUev(Bits(d)[0..]) == Truncated
  {
    BitsIndex(d, 0);
    BitsIndex(d, 1);
    BitsIndex(d, 2);
    BitsIndex(d, 3);
    BitsIndex(d, 4);
    BitsIndex(d, 5);
    BitsIndex(d, 6);
    BitsIndex(d, 7);
    BitsIndex(d, 8);
    BitsIndex(d, 9);
    BitsIndex(d, 10);
    BitsIndex(d, 11);
    BitsIndex(d, 12);
    var s := Bits(d)[0..];
    Terminator(s, 12);
  }

  /** Bytes 1..5 of fa 0a 9b ff ff, read bit by bit, are 0x0a9bffff. */
  lemma AppendedField(d: seq<byte>)
    requires d == [0xfa, 0x0a, 0x9b, 0xff, 0xff]
    ensures ValueOf(Bits(d)[8..40]) == 177995775
  {
    assert d[1..5] == [0x0a, 0x9b, 0xff, 0xff];
    ByteAlignedField(d, 1, 5);
    BigEndian4(0x0a, 0x9b, 0xff, 0xff);
  }

  /** The single byte 0b10100111: its value 167 and its first two bits. */
  lemma ByteA7(d: seq<byte>)
    requires d == [0xa7]
    ensures ValueOf(Bits(d)[0..8]) == 167
    ensures Bits(d)[0] == 1
    ensures Bits(d)[1] == 0
  {
    ByteAlignedField(d, 0, 1);
    BitsIndex(d, 0);
    BitsIndex(d, 1);
    assert BitOf(0xa7, 7) == 1 && BitOf(0xa7, 6) == 0;
  }

  /** Bits 8..24 of 1a fc da are 0xfcda. */
  lemma SecondAndThirdBytes(d: seq<byte>)
    requires d == [0x1a, 0xfc, 0xda]
    ensures ValueOf(Bits(d)[8..24]) == 0xfcda
  {
    assert d[1..3] == [0xfc, 0xda];
    ByteAlignedField(d, 1, 3);
    BigEndian2(0xfc, 0xda);
  }

  /** fc, fc da, fc da 5f af and fc da 5f af ec da 5f af read whole, and
      their signed readings. */
  lemma Field8(d: seq<byte>)
    requires d == [0xfc]
    ensures ValueOf(Bits(d)[0..8]) == 0xfc && Pow2(8) == 0x100 && ToSigned(0xfc, 8) == -4
  {
    ByteAlignedField(d, 0, 1);
    Pow2Values();
  }

  lemma Field16(d: seq<byte>)
    requires d == [0xfc, 0xda]
    ensures ValueOf(Bits(d)[0..16]) == 0xfcda && Pow2(16) == 0x1_0000 && ToSigned(0xfcda, 16) == -806
  {
    ByteAlignedField(d, 0, 2);
    assert d[0..2] == d;
    BigEndian2(0xfc, 0xda);
    Pow2Values();
  }

  lemma Field32(d: seq<byte>)
    requires d == [0xfc, 0xda, 0x5f, 0xaf]
    ensures ValueOf(Bits(d)[0..32]) == 0xfcda5faf && Pow2(32) == 0x1_0000_0000
         && ToSigned(0xfcda5faf, 32) == -52797521
  {
    ByteAlignedField(d, 0, 4);
    assert d[0..4] == d;
    BigEndian4(0xfc, 0xda, 0x5f, 0xaf);
    Pow2Values();
  }

  lemma Field64(d: seq<byte>)
    requires d == [0xfc, 0xda, 0x5f, 0xaf, 0xec, 0xda, 0x5f, 0xaf]
    ensures ValueOf(Bits(d)[0..64]) == 0xfcda5fafecda5faf
    ensures Pow2(64) == TWO_64 && ToSigned(0xfcda5fafecda5faf, 64) == -226763622031138897
  {
    ByteAlignedField(d, 0, 8);
    assert d[0..8] == d;
    BigEndian4(0xfc, 0xda, 0x5f, 0xaf);
    BigEndian8(0xfc, 0xda, 0x5f, 0xaf, 0xec, 0xda, 0x5f, 0xaf);
    Pow2Values();
  }

  /** Two bytes are too few for an int64. */
  method ShortInt64() returns (err: Outcome)
    ensures err == Fail(BufferExhausted)
  {
    var br := new BitReader([0xff, 0xff]);
    var r;
    r, err := br.ReadInt64();
  }

  /** Skip one byte of fa 0a 9b, append ff ff, and read a uint32: 0x0a9bffff. */
  method AppendThenRead() returns (r: nat, err: Outcome)
    ensures err == Pass && r == 177995775
  {
    var br := new BitReader([0xfa, 0x0a, 0x9b]);
    var skipped := br.Skip(8);
    br.Append([0xff, 0xff]);
    AppendedField(br.data);
    r, err := br.ReadUint32();
  }

  /** Trimming after nine bits keeps only the bit offset into the second byte. */
  method SkipThenTrim() returns (index: nat)
    ensures index == 1
  {
    var br := new BitReader([0xfa, 0x0a, 0x9b]);
    var skipped := br.Skip(9);
    br.Trim();
    index := br.CurrentIndex();
  }

  /** Reading a ue(v) code from 00 0f runs out of bits. */
  method TruncatedUev() returns (v: nat, err: Outcome)
    ensures err == Fail(BufferExhausted) && v == 0
  {
    var d: seq<byte> := [0x00, 0x0f];
    TruncatedBits(d);
    var br := new BitReader(d);
    v, err := br.ReadUev();
  }

  /** 0b10100111 reads as 167, and as the flags 1 then 0. */
  method ByteAndFlags() returns (u: nat, f1: bool, f2: bool)
    ensures u == 167 && f1 && !f2
  {
    var d: seq<byte> := [0xa7];
    ByteA7(d);
    var br := new BitReader(d);
    var e;
    u, e := br.ReadUint8();
    br := new BitReader(d);
    f1, e := br.ReadFlag();
    f2, e := br.ReadFlag();
  }

  /** After one byte of a7 a7 the index is 8; rewinding 10 bits fails and
      leaves it there, rewinding 4 lands on 4. */
  method RewindAfterByte() returns (index: nat, err10: Outcome, back4: nat)
    ensures index == 8 && err10 == Fail(InvalidRewind) && back4 == 4
  {
    var br := new BitReader([0xa7, 0xa7]);
    var u, e := br.ReadUint8();
    index := br.CurrentIndex();
    err10 := br.Reverse(10);
    var ok := br.Reverse(4);
    back4 := br.CurrentIndex();
  }

  /** Skip the first byte of 1a fc da and read a uint16: 0xfcda. */
  method SkipThenUint16() returns (r: nat)
    ensures r == 0xfcda
  {
    var d: seq<byte> := [0x1a, 0xfc, 0xda];
    SecondAndThirdBytes(d);
    var br := new BitReader(d);
    var e := br.Skip(8);
    r, e := br.ReadUint16();
  }

  /** fc da 5f af read as a uint32. */
  method Uint32Read() returns (u32: nat)
    ensures u32 == 0xfcda5faf
  {
    var d: seq<byte> := [0xfc, 0xda, 0x5f, 0xaf];
    Field32(d);
    var br := new BitReader(d);
    var e;
    u32, e := br.ReadUint32();
  }

  /** The same four bytes read as an int32. */
  method Int32Read() returns (i32: int)
    ensures i32 == -52797521
  {
    var d: seq<byte> := [0xfc, 0xda, 0x5f, 0xaf];
    Field32(d);
    var br := new BitReader(d);
    var e;
    i32, e := br.ReadInt32();
  }

  /** fc da as an int16 and fc as an int8. */
  method NarrowSigned() returns (i16: int, i8: int)
    ensures i16 == -806 && i8 == -4
  {
    var d: seq<byte> := [0xfc, 0xda];
    Field16(d);
    var br := new BitReader(d);
    var e;
    i16, e := br.ReadInt16();
    d := [0xfc];
    Field8(d);
    br := new BitReader(d);
    i8, e := br.ReadInt8();
  }

  /** fc da 5f af ec da 5f af as a uint64 and as an int64. */
  method SixtyFourBits() returns (u64: nat, i64: int)
    ensures u64 == 0xfcda5fafecda5faf && i64 == -226763622031138897
  {
    var d: seq<byte> := [0xfc, 0xda, 0x5f, 0xaf, 0xec, 0xda, 0x5f, 0xaf];
    Field64(d);
    var br := new BitReader(d);
    var e;
    u64, e := br.ReadUint64();
    br := new BitReader(d);
    i64, e := br.ReadInt64();
  }

  /** A fresh reader on d skips four bits and reads one ue(v) code. */
  method UevAfterNibble(d: seq<byte>) returns (v: nat, err: Outcome)
    requires |d| >= 1
    ensures var c := DecodeUev(Bits(d)[4..]);
      (err.Pass? <==> c.Decoded?) && (c.Decoded? ==> v == c.value)
  {
    var reader := new BitReader(d);
    var skipped := reader.Skip(4);
    v, err := reader.ReadUev();
  }

  /** A fresh reader on d skips four bits and reads one se(v) code. */
  method EvAfterNibble(d: seq<byte>) returns (v: int, err: Outcome)
    requires |d| >= 1
    ensures var c := DecodeUev(Bits(d)[4..]);
      (err.Pass? <==> c.Decoded?) && (c.Decoded? && c.value < TWO_64 - 1 ==> v == ZigZag(c.value))
  {
    var reader := new BitReader(d);
    var skipped := reader.Skip(4);
    v, err := reader.ReadEv();
  }

  /** For each test buffer n, skipping four bits and reading a ue(v) code
      succeeds and gives n. */
  method ReadUevTable() returns (values: seq<nat>, allPassed: bool)
    ensures allPassed && values == [0, 1, 2, 3, 4, 5, 6]
  {
    values, allPassed := [], true;
    for n := 0 to |UevVectors|
      invariant |values| == n && allPassed
      invariant forall j :: 0 <= j < n ==> values[j] == j
    {
      UevVector(n);
      var v, e := UevAfterNibble(UevVectors[n]);
      allPassed := allPassed && e.Pass?;
      values := values + [v];
    }
  }

  /** The zig-zag readings of 0..6 are 0, 1, -1, 2, -2, 3, -3. */
  lemma SmallZigZag(n: nat)
    requires n < 7
    ensures ZigZag(n) == [0, 1, -1, 2, -2, 3, -3][n]
  {
  }

  /** For each test buffer n, skipping four bits and reading an se(v) code
      succeeds and gives the n-th of 0, 1, -1, 2, -2, 3, -3. */
  method ReadEvTable() returns (values: seq<int>, allPassed: bool)
    ensures allPassed && values == [0, 1, -1, 2, -2, 3, -3]
  {
    values, allPassed := [], true;
    for n := 0 to |UevVectors|
      invariant values == [0, 1, -1, 2, -2, 3, -3][..n] && allPassed
    {
      UevVector(n);
      SmallZigZag(n);
      var v, e := EvAfterNibble(UevVectors[n]);
      allPassed := allPassed && e.Pass?;
      values := values + [v];
    }
  }

  /** Reading n bits and then rewinding n bits leaves the reader where it
      started, on any reader with at least n bits left. */
  method ReadThenReverse(reader: BitReader, n: nat) returns (r: nat, err: Outcome)
    requires reader.Valid() && n <= reader.Remaining()
    modifies reader
    ensures reader.Valid() && reader.data == old(reader.data) && err.Pass?
    ensures reader.byteIndex == old(reader.byteIndex) && reader.bitIndex == old(reader.bitIndex)
    ensures r == ValueOf(Bits(reader.data)[old(reader.CurrentIndex())..old(reader.CurrentIndex()) + n]) % TWO_64
  {
    var readErr;
    r, readErr := reader.ReadBits(n);
    err := reader.Reverse(n);
  }

  /** Rewinding n bits after reading them makes the next n-bit read see the
      same bits again: both reads give the same value and end at the same place. */
  method ReadReverseReread(reader: BitReader, n: nat) returns (first: nat, again: nat, err: Outcome)
    requires reader.Valid() && n <= reader.Remaining()
    modifies reader
    ensures reader.Valid() && reader.data == old(reader.data) && err.Pass?
    ensures first == again
    ensures reader.CurrentIndex() == old(reader.CurrentIndex()) + n
  {
    first, err := ReadThenReverse(reader, n);
    again, err := reader.ReadBits(n);
  }
}
