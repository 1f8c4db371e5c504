/** Octets, big-endian integers and two's complement, as `bacint.c` stores them (ANSI/ASHRAE Standard 135,
    sections 20.2.4 and 20.2.5), and writing them into a transmit buffer that may be absent. */
module Octets {

  type Octet = x: int | 0 <= x < 256
  type Bytes = seq<Octet>

  /** 256 to the power `n`. */
  function Pow256(n: nat): (p: int)
    ensures 1 <= p
  {
    if n == 0 then 1 else 256 * Pow256(n - 1)
  }

  /** The low `len` octets of `v`, most significant first. */
  function BigEndian(len: nat, v: nat): (s: Bytes)
    ensures |s| == len
  {
    if len == 0 then [] else BigEndian(len - 1, v / 256) + [v % 256]
  }

  function FromBigEndian(s: Bytes): nat {
    if s == [] then 0 else 256 * FromBigEndian(s[..|s| - 1]) + s[|s| - 1]
  }

  /** Reading back what was written gives the number modulo the width. */
  lemma {:induction false} BigEndianRoundTrip(len: nat, v: nat)
    ensures v < Pow256(len) ==> FromBigEndian(BigEndian(len, v)) == v
  {
    if len == 0 {
    } else {
      var s := BigEndian(len, v);
      assert s[..|s| - 1] == BigEndian(len - 1, v / 256);
      BigEndianRoundTrip(len - 1, v / 256);
      if v < Pow256(len) {
        assert v / 256 < Pow256(len - 1);
      }
    }
  }

  lemma PowerValues()
    ensures Pow256(1) == 0x100 && Pow256(2) == 0x1_0000 && Pow256(3) == 0x100_0000
    ensures Pow256(4) == 0x1_0000_0000 && Pow256(5) == 0x100_0000_0000 && Pow256(6) == 0x1_0000_0000_0000
    ensures Pow256(7) == 0x100_0000_0000_0000 && Pow256(8) == 0x1_0000_0000_0000_0000
  {
    assert Pow256(1) == 256 * Pow256(0);
    assert Pow256(2) == 256 * Pow256(1);
    assert Pow256(3) == 256 * Pow256(2);
    assert Pow256(4) == 256 * Pow256(3);
    assert Pow256(5) == 256 * Pow256(4);
    assert Pow256(6) == 256 * Pow256(5);
    assert Pow256(7) == 256 * Pow256(6);
    assert Pow256(8) == 256 * Pow256(7);
  }

  /** `bacnet_unsigned_length`: the octets an unsigned of up to 64 bits needs, at least one. */
  function UnsignedLength(v: nat): (len: nat)
    ensures 1 <= len <= 8
    ensures v < Pow256(8) ==> v < Pow256(len) && (1 < len ==> Pow256(len - 1) <= v)
  {
    PowerValues();
    if v <= 0xFF then 1
    else if v <= 0xFFFF then 2
    else if v <= 0xFF_FFFF then 3
    else
      var high := v / 0x1_0000_0000;
      if high == 0 then 4
      else if high <= 0xFF then 5
      else if high <= 0xFFFF then 6
      else if high <= 0xFF_FFFF then 7
      else 8
  }

  /** `bacnet_signed_length` on `int32_t`. */
  function SignedLength(v: int): (len: nat)
    ensures 1 <= len <= 4
    ensures -0x8000_0000 <= v < 0x8000_0000 ==> -Pow256(len) <= 2 * v < Pow256(len)
    ensures 1 < len ==> 2 * v < -Pow256(len - 1) || Pow256(len - 1) <= 2 * v
  {
    PowerValues();
    if -128 <= v < 128 then 1
    else if -32768 <= v < 32768 then 2
    else if -8388608 <= v < 8388608 then 3
    else 4
  }

  /** The unsigned number with the same low `8 * len` bits. */
  function TwosComplement(len: nat, v: int): (u: nat)
    requires -Pow256(len) <= 2 * v < Pow256(len)
    ensures u < Pow256(len)
  {
    if v < 0 then v + Pow256(len) else v
  }

  /** Sign extension, as the `decode_signed` family does it. */
  function SignExtend(len: nat, u: nat): int {
    if Pow256(len) <= 2 * u then u - Pow256(len) else u
  }

  function SignedBytes(v: int): Bytes
    requires -0x8000_0000 <= v < 0x8000_0000
  {
    BigEndian(SignedLength(v), TwosComplement(SignedLength(v), v))
  }

  lemma SignedRoundTrip(v: int)
    requires -0x8000_0000 <= v < 0x8000_0000
    ensures var s := SignedBytes(v);
      1 <= |s| <= 4 && SignExtend(|s|, FromBigEndian(s)) == v
  {
    var len := SignedLength(v);
    BigEndianRoundTrip(len, TwosComplement(len, v));
  }

  /** The low `n` bits of `v`, least significant first. */
  function Bits(n: nat, v: nat): (s: seq<bool>)
    ensures |s| == n
  {
    if n == 0 then [] else [v % 2 == 1] + Bits(n - 1, v / 2)
  }

  function Pow2(n: nat): (p: int)
    ensures 1 <= p
  {
    if n == 0 then 1 else 2 * Pow2(n - 1)
  }

  function FromBits(s: seq<bool>): (v: nat)
    ensures v < Pow2(|s|)
  {
    if s == [] then 0 else (if s[0] then 1 else 0) + 2 * FromBits(s[1..])
  }

  lemma {:induction false} BitsOfFromBits(s: seq<bool>)
    ensures Bits(|s|, FromBits(s)) == s
  {
    if s == [] {
    } else {
      BitsOfFromBits(s[1..]);
    }
  }

  lemma {:induction false} FromBitsOfBits(n: nat, v: nat)
    requires v < Pow2(n)
    ensures FromBits(Bits(n, v)) == v
  {
    if n == 0 {
    } else {
      assert Bits(n, v)[1..] == Bits(n - 1, v / 2);
      FromBitsOfBits(n - 1, v / 2);
    }
  }

  function Reversed<T>(s: seq<T>): (r: seq<T>)
    ensures |r| == |s|
  {
    seq(|s|, i requires 0 <= i < |s| => s[|s| - 1 - i])
  }

  lemma EightBits()
    ensures Pow2(8) == 256
  {
    assert Pow2(8) == 256 * Pow2(0);
  }

  /** `bacnet_byte_reverse_bits` */
  function ReverseBits(b: Octet): Octet {
    EightBits();
    FromBits(Reversed(Bits(8, b)))
  }

  /** Bit `k` counted from the low end becomes bit `k` counted from the high end. */
  lemma ReverseBitsMirrors(b: Octet, k: nat)
    requires k < 8
    ensures Bits(8, ReverseBits(b))[7 - k] == Bits(8, b)[k]
  {
    EightBits();
    BitsOfFromBits(Reversed(Bits(8, b)));
  }

  lemma ReverseBitsTwice(b: Octet)
    ensures ReverseBits(ReverseBits(b)) == b
  {
    EightBits();
    BitsOfFromBits(Reversed(Bits(8, b)));
    assert Reversed(Reversed(Bits(8, b))) == Bits(8, b);
    FromBitsOfBits(8, b);
  }

  function ReverseEach(s: Bytes): (r: Bytes)
    ensures |r| == |s| && forall i :: 0 <= i < |s| ==> r[i] == ReverseBits(s[i])
  {
    seq(|s|, i requires 0 <= i < |s| => ReverseBits(s[i]))
  }

  lemma ReverseEachTwice(s: Bytes)
    ensures ReverseEach(ReverseEach(s)) == s
  {
    forall i | 0 <= i < |s| ensures ReverseEach(ReverseEach(s))[i] == s[i] {
      ReverseBitsTwice(s[i]);
    }
  }
}
