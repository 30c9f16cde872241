/** Bytes, machine words and their bit patterns.
    Words are integers with their range spelled out; a bit pattern is a
    sequence of booleans, most significant bit first. */
module Bytes {

  type byte = x: int | 0 <= x < 0x100
  type u16 = x: int | 0 <= x < 0x1_0000
  type u32 = x: int | 0 <= x < 0x1_0000_0000

  type Bits = seq<bool>

  // ---------------------------------------------------------------- words

  function BE16(n: u16): (s: seq<byte>)
    ensures |s| == 2
  {
    [n / 0x100, n % 0x100]
  }

  function FromBE16(s: seq<byte>): u16
    requires |s| >= 2
  {
    (s[0] as int) * 0x100 + s[1]
  }

  function BE32(n: u32): (s: seq<byte>)
    ensures |s| == 4
  {
    BE16(n / 0x1_0000) + BE16(n % 0x1_0000)
  }

  function FromBE32(s: seq<byte>): u32
    requires |s| >= 4
  {
    (FromBE16(s) as int) * 0x1_0000 + FromBE16(s[2..])
  }

  lemma Bytes16(b: seq<byte>)
    requires |b| >= 2
    ensures BE16(FromBE16(b)) == b[..2]
  {
  }

  lemma Bytes32(b: seq<byte>)
    requires |b| >= 4
    ensures BE32(FromBE32(b)) == b[..4]
  {
    Bytes16(b);
    Bytes16(b[2..]);
    hide BE16, FromBE16;
    assert b[..2] + b[2..][..2] == b[..4];
  }

  function LE32(n: u32): (s: seq<byte>)
    ensures |s| == 4
  {
    [n % 0x100, n / 0x100 % 0x100, n / 0x1_0000 % 0x100, n / 0x100_0000]
  }

  function FromLE32(s: seq<byte>): u32
    requires |s| >= 4
  {
    (s[0] as int) + (s[1] as int) * 0x100 + (s[2] as int) * 0x1_0000 + (s[3] as int) * 0x100_0000
  }

  /** Reading back a big-endian half-word, whatever follows it. */
  lemma BE16RoundTrip(n: u16, rest: seq<byte>)
    ensures FromBE16(BE16(n) + rest) == n
  {
  }

  lemma BE32RoundTrip(n: u32, rest: seq<byte>)
    ensures FromBE32(BE32(n) + rest) == n
  {
    var hi, lo := BE16(n / 0x1_0000), BE16(n % 0x1_0000);
    assert BE32(n) + rest == hi + (lo + rest);
    assert (hi + (lo + rest))[2..] == lo + rest;
    BE16RoundTrip(n / 0x1_0000, lo + rest);
    BE16RoundTrip(n % 0x1_0000, rest);
  }

  function BE64(n: nat): (s: seq<byte>)
    requires n < 0x1_0000_0000_0000_0000
    ensures |s| == 8
  {
    BE32(n / 0x1_0000_0000) + BE32(n % 0x1_0000_0000)
  }

  function FromBE64(s: seq<byte>): (n: nat)
    requires |s| >= 8
    ensures n < 0x1_0000_0000_0000_0000
  {
    (FromBE32(s) as int) * 0x1_0000_0000 + FromBE32(s[4..])
  }

  lemma BE64RoundTrip(n: nat, rest: seq<byte>)
    requires n < 0x1_0000_0000_0000_0000
    ensures FromBE64(BE64(n) + rest) == n
  {
    hide BE32, FromBE32;
    var hi, lo := BE32(n / 0x1_0000_0000), BE32(n % 0x1_0000_0000);
    assert BE64(n) + rest == hi + (lo + rest);
    assert (hi + (lo + rest))[4..] == lo + rest;
    BE32RoundTrip(n / 0x1_0000_0000, lo + rest);
    BE32RoundTrip(n % 0x1_0000_0000, rest);
  }

  function BE128(n: nat): (s: seq<byte>)
    requires n < 0x1_0000_0000_0000_0000_0000_0000_0000_0000
    ensures |s| == 16
  {
    BE64(n / 0x1_0000_0000_0000_0000) + BE64(n % 0x1_0000_0000_0000_0000)
  }

  function FromBE128(s: seq<byte>): (n: nat)
    requires |s| >= 16
    ensures n < 0x1_0000_0000_0000_0000_0000_0000_0000_0000
  {
    FromBE64(s) * 0x1_0000_0000_0000_0000 + FromBE64(s[8..])
  }

  lemma BE128RoundTrip(n: nat, rest: seq<byte>)
    requires n < 0x1_0000_0000_0000_0000_0000_0000_0000_0000
    ensures FromBE128(BE128(n) + rest) == n
  {
    hide BE64, FromBE64;
    var hi, lo := BE64(n / 0x1_0000_0000_0000_0000), BE64(n % 0x1_0000_0000_0000_0000);
    assert BE128(n) + rest == hi + (lo + rest);
    assert (hi + (lo + rest))[8..] == lo + rest;
    BE64RoundTrip(n / 0x1_0000_0000_0000_0000, lo + rest);
    BE64RoundTrip(n % 0x1_0000_0000_0000_0000, rest);
  }

  lemma LE32RoundTrip(n: u32, rest: seq<byte>)
    ensures FromLE32(LE32(n) + rest) == n
  {
    var q1 := n / 0x100;
    var q2 := q1 / 0x100;
    assert n / 0x1_0000 == q2 && n / 0x100_0000 == q2 / 0x100;
    assert n == n % 0x100 + 0x100 * q1 && q1 == q1 % 0x100 + 0x100 * q2 && q2 == q2 % 0x100 + 0x100 * (q2 / 0x100);
  }

  // ----------------------------------------------------------------- bits

  /** The low n bits of v. */
  function BitsOf(v: nat, n: nat): (s: Bits)
    ensures |s| == n
  {
    if n == 0 then [] else BitsOf(v / 2, n - 1) + [v % 2 == 1]
  }

  function Value(s: Bits): nat {
    if s == [] then 0 else 2 * Value(s[..|s| - 1]) + (if s[|s| - 1] then 1 else 0)
  }

  function Pow2(n: nat): (p: nat)
    ensures p >= 1
  {
    if n == 0 then 1 else 2 * Pow2(n - 1)
  }

  lemma {:induction false} BitsOfValue(s: Bits)
    ensures BitsOf(Value(s), |s|) == s
    ensures Value(s) < Pow2(|s|)
  {
    if s != [] {
      BitsOfValue(s[..|s| - 1]);
    }
  }

  lemma {:induction false} ValueBitsOf(v: nat, n: nat)
    requires v < Pow2(n)
    ensures Value(BitsOf(v, n)) == v
  {
    if n > 0 {
      ValueBitsOf(v / 2, n - 1);
    }
  }

  /** Exclusive or of two bit patterns of the same width. */
  function XorBits(a: Bits, b: Bits): (r: Bits)
    requires |a| == |b|
    ensures |r| == |a|
  {
    seq(|a|, i requires 0 <= i < |a| => a[i] != b[i])
  }

  // ------------------------------------------------------------ byte xor

  lemma EightBits()
    ensures Pow2(8) == 0x100
  {
    assert Pow2(4) == 16;
  }

  function Xor(a: byte, b: byte): byte {
    EightBits();
    BitsOfValue(XorBits(BitsOf(a, 8), BitsOf(b, 8)));
    Value(XorBits(BitsOf(a, 8), BitsOf(b, 8)))
  }

  lemma XorBitwise(a: byte, b: byte)
    ensures BitsOf(Xor(a, b), 8) == XorBits(BitsOf(a, 8), BitsOf(b, 8))
  {
    BitsOfValue(XorBits(BitsOf(a, 8), BitsOf(b, 8)));
  }

  /** Applying the same mask twice restores the byte. */
  lemma XorCancels(a: byte, b: byte)
    ensures Xor(Xor(a, b), b) == a
  {
    EightBits();
    XorBitwise(a, b);
    assert XorBits(BitsOf(Xor(a, b), 8), BitsOf(b, 8)) == BitsOf(a, 8);
    ValueBitsOf(a, 8);
  }

  // ------------------------------------------------------------ sequences

  function Zeros(n: nat): (s: seq<byte>)
    ensures |s| == n
    ensures forall i | 0 <= i < n :: s[i] == 0
  {
    seq(n, _ => 0)
  }

  /** The bytes of a text of single-byte characters. */
  function Ascii(text: string): (s: seq<byte>)
    ensures |s| == |text|
  {
    seq(|text|, i requires 0 <= i < |text| => text[i] as int % 0x100)
  }

  /** The number of zero bytes that bring n up to a multiple of sixteen. */
  function Pad16(n: nat): (p: nat)
    ensures p < 16 && (n + p) % 16 == 0
  {
    (16 - n % 16) % 16
  }
}
