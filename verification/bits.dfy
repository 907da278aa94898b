/** The bit-level view of a byte buffer that the reader works against.

    A buffer of n bytes is read as a string of 8n bits, most significant bit
    of each byte first. A run of bits read in that order stands for the
    unsigned integer whose binary digits they are (ValueOf), and a w-bit
    pattern can be reinterpreted as a two's-complement integer (ToSigned).
 */
module BitStream {

  type byte = x: int | 0 <= x < 256
  type bit = x: int | 0 <= x < 2

  /** 2^64: the modulus of Go's uint64 arithmetic. */
  const TWO_64: nat := 0x1_0000_0000_0000_0000

  function Pow2(n: nat): (r: nat)
    ensures r >= 1
  {
    if n == 0 then 1 else 2 * Pow2(n - 1)
  }

  /** Bit k (0 = least significant) of b, i.e. `b >> k & 1`: shifting right
      by k halves k times. */
  function BitOf(b: nat, k: nat): bit
  {
    if k == 0 then b % 2 else BitOf(b / 2, k - 1)
  }

  /** x shifted left by n bits, `x << n` on unbounded integers. */
  function Shl(x: nat, n: nat): nat
  {
    if n == 0 then x else 2 * Shl(x, n - 1)
  }

  /** The bits of a buffer, most significant bit of data[0] first:
      bit i is bit 7 - i % 8 of byte i / 8 (BitsIndex). */
  function Bits(data: seq<byte>): (s: seq<bit>)
    ensures |s| == 8 * |data|
  {
    seq(8 * |data|, i => BitAt(data, i))
  }

  /** Bit i of the buffer, counting eight bits per byte from data[0]. */
  function BitAt(data: seq<byte>, i: int): bit
    decreases |data|
  {
    if |data| == 0 || i < 0 then 0
    else if i < 8 then BitOf(data[0], 7 - i)
    else BitAt(data[1..], i - 8)
  }

  lemma {:induction false} BitAtIndex(data: seq<byte>, i: int)
    requires 0 <= i < 8 * |data|
    ensures BitAt(data, i) == BitOf(data[i / 8], 7 - i % 8)
    decreases |data|
  {
    if i >= 8 {
      BitAtIndex(data[1..], i - 8);
      assert (i - 8) / 8 == i / 8 - 1 && (i - 8) % 8 == i % 8;
    }
  }

  /** Bit i of the buffer is bit 7 - i % 8 of byte i / 8. */
  lemma BitsIndex(data: seq<byte>, i: int)
    requires 0 <= i < 8 * |data|
    ensures Bits(data)[i] == BitOf(data[i / 8], 7 - i % 8)
  {
    BitAtIndex(data, i);
  }

  /** The unsigned integer whose binary digits, most significant first, are s. */
  function ValueOf(s: seq<bit>): nat
  {
    if |s| == 0 then 0 else 2 * ValueOf(s[..|s| - 1]) + s[|s| - 1]
  }

  /** The unsigned integer whose base-256 digits, most significant first, are data. */
  function BigEndian(data: seq<byte>): nat
  {
    if |data| == 0 then 0 else 256 * BigEndian(data[..|data| - 1]) + data[|data| - 1]
  }

  /** The w-bit MSB-first pattern of x: the inverse of ValueOf. */
  function BitsOfWidth(x: nat, w: nat): (s: seq<bit>)
    requires x < Pow2(w)
    ensures |s| == w
  {
    if w == 0 then [] else BitsOfWidth(x / 2, w - 1) + [x % 2]
  }

  /** The signed integer whose w-bit two's-complement pattern is u: Go's
      conversion of a uintW to the intW of the same width. */
  function ToSigned(u: nat, w: nat): (r: int)
    requires 0 < w && u < Pow2(w)
    ensures -(Pow2(w - 1) as int) <= r < Pow2(w - 1)
    ensures r % Pow2(w) == u
    ensures r < 0 <==> u >= Pow2(w - 1)
  {
    var half, full := Pow2(w - 1), Pow2(w);
    assert full == 2 * half;
    ModOfShift(u, full);
    if u < half then u else u - full
  }

  lemma ModOfShift(u: int, p: int)
    requires 0 <= u < p
    ensures u % p == u && (u - p) % p == u
  {
    assert (u - p) == -1 * p + u;
  }

  lemma Pow2Values()
    ensures Pow2(8) == 256 && Pow2(16) == 0x1_0000 && Pow2(32) == 0x1_0000_0000
    ensures Pow2(63) == TWO_64 / 2 && Pow2(64) == TWO_64
  {
    assert Pow2(8) == 256;
    assert Pow2(16) == 0x1_0000;
    Pow2Add(16, 16);
    Pow2Add(32, 31);
    Pow2Add(32, 32);
    assert Pow2(31) == 0x8000_0000;
  }

  lemma {:induction false} Pow2Monotone(a: nat, b: nat)
    requires a <= b
    ensures Pow2(a) <= Pow2(b)
  {
    if a < b {
      Pow2Monotone(a, b - 1);
    }
  }

  lemma {:induction false} Pow2Add(a: nat, b: nat)
    ensures Pow2(a + b) == Pow2(a) * Pow2(b)
  {
    if b > 0 {
      Pow2Add(a, b - 1);
      assert Pow2(a + b) == 2 * Pow2(a + b - 1);
    }
  }

  /** A run of w bits stands for a number below 2^w. */
  lemma {:induction false} ValueOfBound(s: seq<bit>)
    ensures ValueOf(s) < Pow2(|s|)
  {
    if |s| > 0 {
      ValueOfBound(s[..|s| - 1]);
    }
  }

  /** Reading a + b is reading a, shifting it left by |b| bits, and adding b. */
  lemma {:induction false} ValueOfConcat(a: seq<bit>, b: seq<bit>)
    ensures ValueOf(a + b) == Shl(ValueOf(a), |b|) + ValueOf(b)
  {
    if |b| == 0 {
      assert a + b == a;
    } else {
      var b' := b[..|b| - 1];
      assert (a + b)[..|a + b| - 1] == a + b';
      ValueOfConcat(a, b');
      assert ValueOf(a + b) == 2 * ValueOf(a + b') + b[|b| - 1];
    }
  }

  /** BitsOfWidth inverts ValueOf in both directions. */
  lemma {:induction false} ValueOfBitsOfWidth(x: nat, w: nat)
    requires x < Pow2(w)
    ensures ValueOf(BitsOfWidth(x, w)) == x
  {
    if w > 0 {
      ValueOfBitsOfWidth(x / 2, w - 1);
      var s := BitsOfWidth(x, w);
      assert s[..|s| - 1] == BitsOfWidth(x / 2, w - 1);
    }
  }

  lemma {:induction false} BitsOfWidthValueOf(s: seq<bit>)
    ensures ValueOf(s) < Pow2(|s|) && BitsOfWidth(ValueOf(s), |s|) == s
  {
    ValueOfBound(s);
    if |s| > 0 {
      var p := s[..|s| - 1];
      BitsOfWidthValueOf(p);
      assert ValueOf(s) / 2 == ValueOf(p);
      assert s == p + [s[|s| - 1]];
    }
  }

  /** The bits of a concatenation are the concatenation of the bits. */
  lemma BitsConcat(a: seq<byte>, b: seq<byte>)
    ensures Bits(a + b) == Bits(a) + Bits(b)
  {
    var l, r := Bits(a + b), Bits(a) + Bits(b);
    forall i | 0 <= i < |l|
      ensures l[i] == r[i]
    {
      BitsIndex(a + b, i);
      if i < 8 * |a| {
        BitsIndex(a, i);
      } else {
        var j := i - 8 * |a|;
        assert j / 8 == i / 8 - |a| && j % 8 == i % 8;
        BitsIndex(b, j);
      }
    }
  }

  /** Dropping k bytes drops the first 8k bits. */
  lemma BitsDrop(data: seq<byte>, k: nat)
    requires k <= |data|
    ensures Bits(data[k..]) == Bits(data)[8 * k..]
  {
    assert data == data[..k] + data[k..];
    BitsConcat(data[..k], data[k..]);
  }

  /** Bits i..j of a buffer (in whole bytes) are the bits of data[i..j]. */
  lemma BitsSlice(data: seq<byte>, i: nat, j: nat)
    requires i <= j <= |data|
    ensures Bits(data)[8 * i..8 * j] == Bits(data[i..j])
  {
    assert data == data[..i] + data[i..j] + data[j..];
    BitsConcat(data[..i] + data[i..j], data[j..]);
    BitsConcat(data[..i], data[i..j]);
  }

  /** Bit j of a w-bit pattern, counted from the most significant end, is
      bit w - 1 - j of the number. */
  lemma {:induction false} BitsOfWidthAt(x: nat, w: nat, j: nat)
    requires x < Pow2(w) && j < w
    ensures BitsOfWidth(x, w)[j] == BitOf(x, w - 1 - j)
  {
    if j < w - 1 {
      BitsOfWidthAt(x / 2, w - 1, j);
    }
  }

  /** The bits of one byte are its 8-bit binary pattern. */
  lemma ByteBits(b: byte)
    ensures Bits([b]) == BitsOfWidth(b, 8)
  {
    assert Pow2(8) == 256;
    ByteBitsOfWidth(b, 8);
  }

  /** ByteBits with the width as a variable, so that the pattern is compared
      bit by bit rather than unfolded eight times. */
  lemma ByteBitsOfWidth(b: byte, w: nat)
    requires w == 8 && b < Pow2(w)
    ensures Bits([b]) == BitsOfWidth(b, w)
  {
    var bits, pattern := Bits([b]), BitsOfWidth(b, w);
    forall j | 0 <= j < w
      ensures bits[j] == pattern[j]
    {
      ByteBitAt(b, j);
      BitsOfWidthAt(b, w, j);
    }
  }

  lemma ByteBitAt(b: byte, j: nat)
    requires j < 8
    ensures Bits([b])[j] == BitOf(b, 7 - j)
  {
    assert j / 8 == 0 && j % 8 == j;
  }

  /** The eight bits of one byte, read most significant first, give the byte back. */
  lemma ValueOfByte(b: byte)
    ensures ValueOf(Bits([b])) == b
  {
    ByteBits(b);
    assert Pow2(8) == 256;
    ValueOfBitsOfWidth(b, 8);
  }

  lemma ShlByte(x: nat)
    ensures Shl(x, 8) == 256 * x
  {
    assert Shl(x, 1) == 2 * x;
    assert Shl(x, 2) == 4 * x;
    assert Shl(x, 3) == 8 * x;
    assert Shl(x, 4) == 16 * x;
    assert Shl(x, 5) == 32 * x;
    assert Shl(x, 6) == 64 * x;
    assert Shl(x, 7) == 128 * x;
  }

  /** The MSB-first packing law: the bits of a buffer read as one number are
      the buffer read as a big-endian number. */
  lemma {:induction false} PackingLaw(data: seq<byte>)
    ensures ValueOf(Bits(data)) == BigEndian(data)
  {
    if |data| > 0 {
      var p, b := data[..|data| - 1], data[|data| - 1];
      assert data == p + [b];
      BitsConcat(p, [b]);
      ValueOfConcat(Bits(p), Bits([b]));
      PackingLaw(p);
      ValueOfByte(b);
      ShlByte(ValueOf(Bits(p)));
    }
  }

  /** Reading bytes i..j of a buffer bit by bit gives their big-endian value;
      in particular each byte is recovered by reading its 8 bits. */
  lemma ByteAlignedField(data: seq<byte>, i: nat, j: nat)
    requires i <= j <= |data|
    ensures ValueOf(Bits(data)[8 * i..8 * j]) == BigEndian(data[i..j])
    ensures j == i + 1 ==> ValueOf(Bits(data)[8 * i..8 * j]) == data[i]
  {
    BitsSlice(data, i, j);
    PackingLaw(data[i..j]);
    if j == i + 1 {
      assert data[i..j] == [data[i]];
      ValueOfByte(data[i]);
    }
  }
}
