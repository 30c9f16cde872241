/** Authenticated decryption with AES-256-GCM (src/core/gcm.rs). The block
    function under the key at hand is a parameter; nothing is assumed of it. */
module Gcm {
  import opened Bytes
  import opened Field128
  import opened Wrappers

  type Block = s: seq<byte> | |s| == 16 witness Zeros(16)
  type Nonce = s: seq<byte> | |s| == 12 witness Zeros(12)
  type BlockFunction = Block -> Block

  // ------------------------------------------------------- words and bytes

  function BytesBits(s: seq<byte>): (b: Bits)
    ensures |b| == 8 * |s|
  {
    if s == [] then [] else BitsOf(s[0], 8) + BytesBits(s[1..])
  }

  function BitsBytes(b: Bits): (s: seq<byte>)
    ensures |s| == |b| / 8
    decreases |b|
  {
    if |b| < 8 then [] else
      EightBits();
      BitsOfValue(b[..8]);
      [Value(b[..8])] + BitsBytes(b[8..])
  }

  function WordOf(b: Block): Word {
    BytesBits(b)
  }

  function BlockOf(w: Word): Block {
    BitsBytes(w)
  }

  // ------------------------------------------------------------- the counter

  function Inc32(j: Block): Block {
    j[..12] + BE32(((FromBE32(j[12..]) as int) + 1) % 0x1_0000_0000)
  }

  /** The counter block k steps after J0. */
  function Counter(nonce: Nonce, k: nat): Block {
    nonce + BE32((k + 1) % 0x1_0000_0000)
  }

  function Inc32Times(j: Block, k: nat): Block {
    if k == 0 then j else Inc32(Inc32Times(j, k - 1))
  }

  /** The pre-counter block of section 7.1 of NIST SP 800-38D for a nonce of 96
      bits. */
  function J0(nonce: Nonce): Block {
    nonce + [0, 0, 0, 1]
  }

  lemma Inc32Counter(nonce: Nonce, k: nat)
    ensures Inc32(Counter(nonce, k)) == Counter(nonce, k + 1)
  {
    var n := (k + 1) % 0x1_0000_0000;
    var c := Counter(nonce, k);
    assert c[12..] == BE32(n) + [] && c[..12] == nonce;
    BE32RoundTrip(n, []);
    assert (n + 1) % 0x1_0000_0000 == (k + 2) % 0x1_0000_0000;
  }

  lemma CounterStart(nonce: Nonce)
    ensures Counter(nonce, 0) == J0(nonce)
  {
  }

  /** Stepping the counter k times from J0 gives a closed form. */
  lemma {:induction false} CounterClosedForm(nonce: Nonce, k: nat)
    ensures Inc32Times(J0(nonce), k) == Counter(nonce, k)
  {
    if k == 0 {
      CounterStart(nonce);
    } else {
      CounterClosedForm(nonce, k - 1);
      Inc32Counter(nonce, k - 1);
    }
  }

  /** Two counter blocks agree exactly when their positions differ by a
      multiple of 2^32: up to 2^32 blocks, J0 among them, no two are the same. */
  lemma CountersCollideIff(nonce: Nonce, i: nat, j: nat)
    ensures Inc32Times(J0(nonce), i) == Inc32Times(J0(nonce), j) <==> (i - j) % 0x1_0000_0000 == 0
  {
    CounterClosedForm(nonce, i);
    CounterClosedForm(nonce, j);
    var a: u32, b: u32 := (i + 1) % 0x1_0000_0000, (j + 1) % 0x1_0000_0000;
    assert a == b <==> (i - j) % 0x1_0000_0000 == 0 by { SameResidue(i + 1, j + 1); }
    hide BE32, Counter, Inc32Times;
    if a != b {
      CounterWord(nonce, i);
      CounterWord(nonce, j);
    } else {
      CounterFromWord(nonce, i, j);
    }
  }

  lemma SameResidue(a: int, b: int)
    ensures a % 0x1_0000_0000 == b % 0x1_0000_0000 <==> (a - b) % 0x1_0000_0000 == 0
  {
  }

  lemma CounterWord(nonce: Nonce, k: nat)
    ensures FromBE32(Counter(nonce, k)[12..]) == (k + 1) % 0x1_0000_0000
  {
    hide FromBE32, BE32;
    var n: u32 := (k + 1) % 0x1_0000_0000;
    assert Counter(nonce, k)[12..] == BE32(n) + [];
    BE32RoundTrip(n, []);
  }

  lemma CounterFromWord(nonce: Nonce, i: nat, j: nat)
    requires (i + 1) % 0x1_0000_0000 == (j + 1) % 0x1_0000_0000
    ensures Counter(nonce, i) == Counter(nonce, j)
  {
  }

  // ------------------------------------------------------------------ GHASH

  function Power(h: Word, n: nat): Word {
    if n == 0 then Unit(0) else Mul(Power(h, n - 1), h)
  }

  /** X_1 H^m + X_2 H^(m-1) + ... + X_m H, the expansion given in section 6.4
      of NIST SP 800-38D. */
  function PowerSum(h: Word, xs: seq<Word>): Word {
    if xs == [] then ZERO
    else XorBits(Mul(xs[0], Power(h, |xs|)), PowerSum(h, xs[1..]))
  }

  lemma PowerOne(h: Word)
    ensures Power(h, 1) == h
  {
    OneLeft(h);
    assert Power(h, 0) == Unit(0);
  }

  /** One step of the chained form extends the sum of powers by one block. */
  lemma {:induction false} PowerSumStep(h: Word, xs: seq<Word>, x: Word)
    ensures PowerSum(h, xs + [x]) == Mul(XorBits(PowerSum(h, xs), x), h)
  {
    hide XorBits, Mul, Power;
    if xs == [] {
      assert xs + [x] == [x] && [x][1..] == [];
      PowerOne(h);
      XorZero(x);
      XorZero(Mul(x, h));
    } else {
      var t := xs[1..];
      assert (xs + [x])[1..] == t + [x];
      PowerSumStep(h, t, x);
      var lead := Mul(xs[0], Power(h, |xs|));
      XorAssoc(lead, PowerSum(h, t), x);
      MulBilinear(lead, XorBits(PowerSum(h, t), x), h);
      MulAssociative(xs[0], Power(h, |xs|), h);
      PowerNext(h, |xs|);
    }
  }

  lemma PowerNext(h: Word, n: nat)
    ensures Power(h, n + 1) == Mul(Power(h, n), h)
  {
  }

  /** The length in bits as a 64-bit word. */
  function LengthWord(n: nat): (s: seq<byte>)
    ensures |s| == 8
  {
    BE64(8 * n % 0x1_0000_0000_0000_0000)
  }

  function Padded(s: seq<byte>): (r: seq<byte>)
    ensures |r| == 16 * ((|s| + 15) / 16)
  {
    s + Zeros(Pad16(|s|))
  }

  /** What section 7.1 of NIST SP 800-38D feeds to GHASH. */
  function GhashInput(aad: seq<byte>, ct: seq<byte>): (s: seq<byte>)
    ensures |s| == 16 * ((|aad| + 15) / 16 + (|ct| + 15) / 16 + 1)
  {
    Padded(aad) + Padded(ct) + LengthWord(|aad|) + LengthWord(|ct|)
  }

  function BlockAt(data: seq<byte>, i: nat): Block
    requires 16 * i + 16 <= |data|
  {
    data[16 * i..16 * i + 16]
  }

  function Words(data: seq<byte>, n: nat): (w: seq<Word>)
    requires 16 * n <= |data|
    ensures |w| == n
  {
    seq(n, i requires 0 <= i < n => WordOf(BlockAt(data, i)))
  }

  /** GHASH as a sum of powers of the hash key. */
  function Ghash(h: Word, aad: seq<byte>, ct: seq<byte>): Word {
    var data := GhashInput(aad, ct);
    PowerSum(h, Words(data, |data| / 16))
  }

  method PadFrom(data: seq<byte>, start: nat) returns (r: seq<byte>)
    requires start <= |data|
    ensures r == data + Zeros(Pad16(|data| - start))
  {
    r := data;
    ghost var n := 0;
    while (|r| - start) % 16 != 0
      invariant n <= Pad16(|data| - start)
      invariant r == data + Zeros(n)
      decreases Pad16(|data| - start) - n
    {
      r := r + [0];
      n := n + 1;
    }
  }

  /** The chained computation of GHASH. */
  method ComputeGhash(h: Word, aad: seq<byte>, ct: seq<byte>) returns (y: Word)
    ensures y == Ghash(h, aad, ct)
  {
    hide Mul, XorBits, PowerSum, BytesBits, LengthWord;
    var data := PadFrom(aad, 0);
    var ctStart := |data|;
    data := PadFrom(data + ct, ctStart);
    data := data + LengthWord(|aad|) + LengthWord(|ct|);
    assert data == GhashInput(aad, ct);
    y := ZERO;
    PowerSumNone(h);
    assert Words(data, 0) == [];
    for i := 0 to |data| / 16
      invariant y == PowerSum(h, Words(data, i))
    {
      var b := BlockAt(data, i);
      PowerSumStep(h, Words(data, i), WordOf(b));
      assert Words(data, i + 1) == Words(data, i) + [WordOf(b)];
      y := Gf128Mul(XorBits(y, WordOf(b)), h);
    }
  }

  lemma PowerSumNone(h: Word)
    ensures PowerSum(h, []) == ZERO
  {
  }

  // ------------------------------------------------------ encryption, by section 7.1

  /** The byte of key stream masking byte i of a message whose first block is
      masked with counter block number first. */
  function KeyStream(e: BlockFunction, nonce: Nonce, first: nat, i: nat): byte {
    e(Counter(nonce, first + i / 16))[i % 16]
  }

  /** Counter mode from counter block number first (section 6.5). */
  function Gctr(e: BlockFunction, nonce: Nonce, first: nat, x: seq<byte>): (r: seq<byte>)
    ensures |r| == |x|
  {
    seq(|x|, i requires 0 <= i < |x| => Xor(x[i], KeyStream(e, nonce, first, i)))
  }

  function HashKey(e: BlockFunction): Word {
    WordOf(e(Zeros(16)))
  }

  function Tag(e: BlockFunction, nonce: Nonce, aad: seq<byte>, ct: seq<byte>): Block {
    Gctr(e, nonce, 0, BlockOf(Ghash(HashKey(e), aad, ct)))
  }

  /** Authenticated encryption: the ciphertext, then its tag. */
  function Encrypt(e: BlockFunction, nonce: Nonce, aad: seq<byte>, plain: seq<byte>): seq<byte> {
    var ct := Gctr(e, nonce, 1, plain);
    ct + Tag(e, nonce, aad, ct)
  }

  function Decrypt(e: BlockFunction, nonce: Nonce, aad: seq<byte>, sealed: seq<byte>): Result<seq<byte>> {
    if |sealed| < 16 then Err("ciphertext too short for tag")
    else
      var ct, tag := sealed[..|sealed| - 16], sealed[|sealed| - 16..];
      if tag == Tag(e, nonce, aad, ct) then Ok(Gctr(e, nonce, 1, ct)) else Err("GCM tag mismatch")
  }

  lemma GctrTwice(e: BlockFunction, nonce: Nonce, first: nat, x: seq<byte>)
    ensures Gctr(e, nonce, first, Gctr(e, nonce, first, x)) == x
  {
    forall i | 0 <= i < |x| ensures Gctr(e, nonce, first, Gctr(e, nonce, first, x))[i] == x[i] {
      XorCancels(x[i], KeyStream(e, nonce, first, i));
    }
  }

  /** Decryption accepts exactly the messages encryption produces, and gives
      back what was encrypted. */
  lemma DecryptsExactlyEncrypted(e: BlockFunction, nonce: Nonce, aad: seq<byte>, plain: seq<byte>, sealed: seq<byte>)
    ensures Decrypt(e, nonce, aad, sealed) == Ok(plain) <==> sealed == Encrypt(e, nonce, aad, plain)
  {
    hide Gctr, Tag;
    GctrTwice(e, nonce, 1, plain);
    if |sealed| >= 16 {
      var ct, tag := sealed[..|sealed| - 16], sealed[|sealed| - 16..];
      assert sealed == ct + tag;
      GctrTwice(e, nonce, 1, ct);
      var made := Gctr(e, nonce, 1, plain);
      if sealed == Encrypt(e, nonce, aad, plain) {
        assert ct == made && tag == Tag(e, nonce, aad, made);
      }
    }
  }

  /** Block by block decryption, then the comparison of the tags. */
  method GcmDecrypt(e: BlockFunction, nonce: Nonce, sealed: seq<byte>, aad: seq<byte>)
    returns (r: Result<seq<byte>>)
    ensures r == Decrypt(e, nonce, aad, sealed)
  {
    hide Xor, Ghash, BytesBits, BitsBytes;
    if |sealed| < 16 {
      return Err("ciphertext too short for tag");
    }
    var ct, tag := sealed[..|sealed| - 16], sealed[|sealed| - 16..];
    var h := WordOf(e(Zeros(16)));
    var plain := DecryptBody(e, nonce, ct);
    var mask := e(J0(nonce));
    CounterStart(nonce);
    var hash := ComputeGhash(h, aad, ct);
    var s := BlockOf(hash);
    var computed := seq(16, i requires 0 <= i < 16 => Xor(s[i], mask[i]));
    assert computed == Tag(e, nonce, aad, ct);
    r := if computed != tag then Err("GCM tag mismatch") else Ok(plain);
  }

  method DecryptBody(e: BlockFunction, nonce: Nonce, ct: seq<byte>) returns (plain: seq<byte>)
    ensures plain == Gctr(e, nonce, 1, ct)
  {
    hide Xor, Counter, Inc32, J0;
    CounterStart(nonce);
    Inc32Counter(nonce, 0);
    var j := Inc32(J0(nonce));
    plain := [];
    var k := 0;
    while 16 * k < |ct|
      invariant j == Counter(nonce, k + 1)
      invariant |plain| == (if 16 * k < |ct| then 16 * k else |ct|)
      invariant forall i | 0 <= i < |plain| :: plain[i] == Xor(ct[i], KeyStream(e, nonce, 1, i))
    {
      var ks := e(j);
      var n := if 16 * k + 16 < |ct| then 16 else |ct| - 16 * k;
      var chunk := ct[16 * k..16 * k + n];
      plain := plain + seq(n, i requires 0 <= i < n => Xor(chunk[i], ks[i]));
      Inc32Counter(nonce, k + 1);
      j := Inc32(j);
      k := k + 1;
    }
  }
}
