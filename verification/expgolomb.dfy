/** Exp-Golomb codes as ITU-T H.264 defines them: ue(v) in section 9.1
    (parsing process for Exp-Golomb codes) and se(v) in section 9.1.1
    (mapping process for signed Exp-Golomb codes), stated on bit strings.

    DecodeUev is what the reader's ReadUev computes from the bits ahead of its
    cursor, uint64 arithmetic included; EncodeUev is the code's writer side,
    which the reader does not have and which serves here as its inverse.
 */
module ExpGolomb {
  import opened BitStream

  function Zeros(k: nat): seq<bit>
  {
    seq(k, _ => 0)
  }

  /** The number of 0 bits before the first 1 bit of s (all of s when s holds no 1). */
  function LeadingZeros(s: seq<bit>): (k: nat)
    ensures k <= |s|
    ensures forall j :: 0 <= j < k ==> s[j] == 0
    ensures k < |s| ==> s[k] == 1
  {
    ZerosFrom(s, 0)
  }

  /** The position of the first 1 bit of s at or after i (|s| if there is none). */
  function ZerosFrom(s: seq<bit>, i: nat): (k: nat)
    requires i <= |s| && forall j :: 0 <= j < i ==> s[j] == 0
    ensures i <= k <= |s|
    ensures forall j :: 0 <= j < k ==> s[j] == 0
    ensures k < |s| ==> s[k] == 1
    decreases |s| - i
  {
    if i == |s| || s[i] == 1 then i else ZerosFrom(s, i + 1)
  }

  /** The outcome of reading one ue(v) code from the front of a bit string:
      its code number and the number of bits it occupies, or Truncated when
      the string ends before the terminating 1 bit or inside the suffix. */
  datatype Uev = Decoded(value: nat, length: nat) | Truncated

  /** k leading zeros, a terminating 1, then a k-bit suffix v give 2^k - 1 + v.
      The sum is taken modulo 2^64, as the reader computes it in uint64
      (where `1 << k` is 0 once k reaches 64). */
  function DecodeUev(s: seq<bit>): (r: Uev)
    ensures r.Decoded? <==> 2 * LeadingZeros(s) < |s|
    ensures r.Decoded? ==> r.length == 2 * LeadingZeros(s) + 1 <= |s| && r.value < TWO_64
    ensures r.Decoded? && LeadingZeros(s) < 64 ==>
      r.value == Pow2(LeadingZeros(s)) - 1 + ValueOf(s[LeadingZeros(s) + 1..r.length])
  {
    var k := LeadingZeros(s);
    if |s| < 2 * k + 1 then Truncated
    else Decoded(CodeNumber(k, s[k + 1..2 * k + 1]), 2 * k + 1)
  }

  /** The code number of k leading zeros and suffix, 2^k - 1 + suffix in uint64. */
  function CodeNumber(k: nat, suffix: seq<bit>): (n: nat)
    ensures n < TWO_64
    ensures |suffix| == k < 64 ==> n == Pow2(k) - 1 + ValueOf(suffix)
  {
    var n := (Pow2(k) - 1 + ValueOf(suffix)) % TWO_64;
    assert |suffix| == k < 64 ==> n == Pow2(k) - 1 + ValueOf(suffix) by {
      if |suffix| == k < 64 {
        CodeFits(k, suffix);
      }
    }
    n
  }

  /** The position of the leading 1 bit of x. */
  function Log2(x: nat): (k: nat)
    requires x >= 1
    ensures Pow2(k) <= x < Pow2(k + 1)
  {
    if x == 1 then 0 else 1 + Log2(x / 2)
  }

  /** The ue(v) code of n: as many zeros as n + 1 has bits after its leading 1,
      then n + 1 in binary. */
  function EncodeUev(n: nat): seq<bit>
  {
    var k := Log2(n + 1);
    Zeros(k) + [1] + BitsOfWidth(n + 1 - Pow2(k), k)
  }

  /** se(v): code number u stands for (-1)^(u+1) * Ceil(u / 2), i.e.
      0, 1, -1, 2, -2, ... for u = 0, 1, 2, 3, 4, ...; every u is the code
      of exactly one integer, given back by SignedCode. */
  function ZigZag(u: nat): (r: int)
    ensures u == if r > 0 then 2 * r - 1 else -2 * r
    ensures r > 0 <==> u % 2 == 1
  {
    if u % 2 == 1 then (u + 1) / 2 else -(u / 2)
  }

  /** The se(v) code number of a signed integer. */
  function SignedCode(r: int): (u: nat)
    ensures ZigZag(u) == r
  {
    if r > 0 then 2 * r - 1 else -2 * r
  }

  /** The signed value ReadEv returns for code number v, computed as Go does on
      a uint64: `(v + 1) / 2` for odd v and the negation `-(v / 2)` for even v,
      each wrapping modulo 2^64 and then read as an int64. It agrees with se(v)
      for every code number but the largest, where `v + 1` wraps to 0. */
  function SignedUev(v: nat): (r: int)
    requires v < TWO_64
    ensures v < TWO_64 - 1 ==> r == ZigZag(v)
    ensures v == TWO_64 - 1 ==> r == 0
  {
    Pow2Values();
    if v % 2 == 1 then
      var half := (v + 1) % TWO_64 / 2;
      assert half == if v < TWO_64 - 1 then (v + 1) / 2 else 0 by {
        WrapIncrement(v);
      }
      ToSigned(half, 64)
    else
      var negated := (TWO_64 - v / 2) % TWO_64;
      assert negated == if v / 2 == 0 then 0 else TWO_64 - v / 2 by {
        WrapNegate(v / 2);
      }
      ToSigned(negated, 64)
  }

  lemma WrapIncrement(v: nat)
    requires v < TWO_64
    ensures (v + 1) % TWO_64 == if v < TWO_64 - 1 then v + 1 else 0
  {
  }

  lemma WrapNegate(h: nat)
    requires h < TWO_64
    ensures (TWO_64 - h) % TWO_64 == if h == 0 then 0 else TWO_64 - h
  {
  }

  lemma {:induction false} LeadingZerosOfCode(k: nat, t: seq<bit>)
    ensures LeadingZeros(Zeros(k) + [1] + t) == k
  {
    var s := Zeros(k) + [1] + t;
    assert s[k] == 1;
    assert forall j :: 0 <= j < k ==> s[j] == 0;
  }

  /** Shape of a ue(v) code: k zeros, a 1 and a k-bit suffix v decode to
      2^k - 1 + v (exactly, when k < 64) and occupy 2k + 1 bits, whatever follows. */
  lemma DecodeUevShape(k: nat, suffix: seq<bit>, rest: seq<bit>)
    requires |suffix| == k
    ensures DecodeUev(Zeros(k) + [1] + suffix + rest)
         == Decoded(CodeNumber(k, suffix), 2 * k + 1)
    ensures k < 64 ==> DecodeUev(Zeros(k) + [1] + suffix + rest).value == Pow2(k) - 1 + ValueOf(suffix)
  {
    var s := Zeros(k) + [1] + suffix + rest;
    assert DecodeUev(s) == Decoded(CodeNumber(k, suffix), 2 * k + 1) by {
      assert s == Zeros(k) + [1] + (suffix + rest);
      LeadingZerosOfCode(k, suffix + rest);
      assert s[k + 1..2 * k + 1] == suffix by {
        forall j | 0 <= j < k ensures s[k + 1 + j] == suffix[j] { }
      }
      DecodeUevAt(s, k);
    }
  }

  /** With fewer than 64 leading zeros, 2^k - 1 + v does not wrap in uint64. */
  lemma CodeFits(k: nat, suffix: seq<bit>)
    requires |suffix| == k < 64
    ensures Pow2(k) - 1 + ValueOf(suffix) < TWO_64
  {
    assert Pow2(k) - 1 + ValueOf(suffix) < TWO_64 by {
      ValueOfBound(suffix);
      Pow2Monotone(k + 1, 64);
      Pow2Values();
      assert Pow2(k + 1) == 2 * Pow2(k);
    }
  }

  lemma DecodeUevAt(s: seq<bit>, k: nat)
    requires LeadingZeros(s) == k && 2 * k + 1 <= |s|
    ensures DecodeUev(s) == Decoded(CodeNumber(k, s[k + 1..2 * k + 1]), 2 * k + 1)
  {
  }

  /** k zeros and a 1 followed by t are a truncated code exactly when the
      stream ends inside the suffix, that is when t holds fewer than k bits. */
  lemma TruncatedShape(k: nat, t: seq<bit>)
    ensures DecodeUev(Zeros(k) + [1] + t) == Truncated <==> |t| < k
  {
    LeadingZerosOfCode(k, t);
  }

  /** Every code number representable in uint64 survives encoding then decoding,
      and the decoder consumes exactly its code. */
  lemma UevRoundTrip(n: nat, rest: seq<bit>)
    requires n < TWO_64
    ensures DecodeUev(EncodeUev(n) + rest) == Decoded(n, |EncodeUev(n)|)
  {
    var k := Log2(n + 1);
    var suffix := BitsOfWidth(n + 1 - Pow2(k), k);
    ValueOfBitsOfWidth(n + 1 - Pow2(k), k);
    DecodeUevShape(k, suffix, rest);
  }

  lemma {:induction false} Log2Unique(x: nat, k: nat)
    requires Pow2(k) <= x < Pow2(k + 1)
    ensures Log2(x) == k
  {
    var j := Log2(x);
    if j < k {
      Pow2Monotone(j + 1, k);
    } else if j > k {
      Pow2Monotone(k + 1, j);
    }
  }

  /** The encoder writes k zeros, a 1 and the k-bit suffix v for n = 2^k - 1 + v. */
  lemma EncodeUevShape(k: nat, suffix: seq<bit>, n: nat)
    requires |suffix| == k && n == Pow2(k) - 1 + ValueOf(suffix)
    ensures EncodeUev(n) == Zeros(k) + [1] + suffix
  {
    Log2OfCode(k, suffix, n);
    EncodeUevUnfold(n, k, suffix);
  }

  lemma Log2OfCode(k: nat, suffix: seq<bit>, n: nat)
    requires |suffix| == k && n == Pow2(k) - 1 + ValueOf(suffix)
    ensures Log2(n + 1) == k
  {
    ValueOfBound(suffix);
    assert Pow2(k + 1) == 2 * Pow2(k);
    Log2Unique(n + 1, k);
  }

  lemma EncodeUevUnfold(n: nat, k: nat, suffix: seq<bit>)
    requires Log2(n + 1) == k && |suffix| == k && n + 1 - Pow2(k) == ValueOf(suffix)
    ensures EncodeUev(n) == Zeros(k) + [1] + suffix
  {
    var x := ValueOf(suffix);
    assert BitsOfWidth(x, k) == suffix by {
      BitsOfWidthValueOf(suffix);
    }
  }

  /** Conversely, every code with fewer than 64 leading zeros that decodes is
      the encoding of the number it decodes to: the code is a bijection. */
  lemma UevCanonical(s: seq<bit>)
    requires DecodeUev(s).Decoded? && LeadingZeros(s) < 64
    ensures s[..DecodeUev(s).length] == EncodeUev(DecodeUev(s).value)
  {
    var k := LeadingZeros(s);
    var suffix := s[k + 1..2 * k + 1];
    var n := DecodeUev(s).value;
    EncodeUevShape(k, suffix, n);
    assert s[..2 * k + 1] == Zeros(k) + [1] + suffix;
  }
}
