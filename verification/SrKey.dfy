/** Segment-routing configuration and key derivation (src/core/sr.rs). */
module SrKey {
  import opened Bytes
  import opened Wrappers

  datatype KeyMode = Jhash | Raw

  datatype SrConfig = SrConfig(password: seq<byte>, links: seq<u32>, mode: byte, keyMode: KeyMode)

  // ------------------------------------------------------ 32-bit arithmetic

  const WORD: int := 0x1_0000_0000

  function WAdd(a: u32, b: u32): u32 {
    ((a as int) + b) % 0x1_0000_0000
  }

  function WSub(a: u32, b: u32): u32 {
    ((a as int) - b) % 0x1_0000_0000
  }

  /** Exclusive or of the low n bits. */
  function XorLow(a: nat, b: nat, n: nat): (r: nat)
    ensures r < Pow2(n)
  {
    if n == 0 then 0 else 2 * XorLow(a / 2, b / 2, n - 1) + if (a % 2) != (b % 2) then 1 else 0
  }

  function XorWord(a: u32, b: u32): u32 {
    WordBits();
    XorLow(a, b, WIDTH())
  }

  function WIDTH(): nat { 32 }

  lemma WordBits()
    ensures Pow2(WIDTH()) == WORD
  {
    assert Pow2(8) == 0x100 && Pow2(16) == 0x1_0000 && Pow2(24) == 0x100_0000 && Pow2(32) == WORD;
  }

  function Shl(a: u32, k: nat): u32
    decreases k
  {
    if k == 0 then a else Shl((a as int) * 2 % 0x1_0000_0000, k - 1)
  }

  function Shr(a: u32, k: nat): u32
    decreases k
  {
    if k == 0 then a else Shr(a / 2, k - 1)
  }

  // -------------------------------------------------------------- reference

  /** The three running words of the hash. */
  datatype Words = Words(a: u32, b: u32, c: u32)

  /** How far each of the nine mixing steps shifts; negative is to the right. */
  const SHIFTS: seq<int> := [-13, 8, -13, -12, 16, -5, -3, 10, -15]

  function Shift(a: u32, k: int): u32 {
    if k < 0 then Shr(a, -k) else Shl(a, k)
  }

  /** One step: the first word is mixed with the other two and goes last. */
  function MixStep(w: Words, k: int): Words {
    Words(w.b, w.c, XorWord(Shift(w.c, k), WSub(WSub(w.a, w.b), w.c)))
  }

  /** The first n mixing steps. */
  function MixSteps(w: Words, n: nat): Words
    requires n <= |SHIFTS|
  {
    if n == 0 then w else MixStep(MixSteps(w, n - 1), SHIFTS[n - 1])
  }

  function Mix(w: Words): Words {
    MixSteps(w, Steps())
  }

  function Steps(): (n: nat)
    ensures n == |SHIFTS|
  {
    |SHIFTS|
  }

  /** Adds the three little-endian words of a block, before any mixing. */
  function AddBlock(w: Words, block: seq<byte>): Words
    requires |block| == 12
  {
    Words(WAdd(w.a, FromLE32(block)), WAdd(w.b, FromLE32(block[4..])), WAdd(w.c, FromLE32(block[8..])))
  }

  function Absorb(w: Words, data: seq<byte>): Words
    requires |data| % 12 == 0
  {
    if data == [] then w
    else
      var n := |data| - 12;
      Mix(AddBlock(Absorb(w, data[..n]), data[n..]))
  }

  /** The last, partial block: zero padding, with the lowest byte of its third
      word left free for the length. */
  function FinalBlock(rest: seq<byte>): (block: seq<byte>)
    requires |rest| < 12
    ensures |block| == 12
  {
    if |rest| <= 8 then rest + Zeros(12 - |rest|)
    else rest[..8] + [0] + rest[8..] + Zeros(11 - |rest|)
  }

  const GOLDEN: u32 := 0x9e37_79b9

  /** The hash as one loop over zero-padded twelve-byte blocks. */
  function RefHash(data: seq<byte>, initval: u32): u32 {
    var full := |data| - |data| % 12;
    var w := Absorb(Words(GOLDEN, GOLDEN, initval), data[..full]);
    Mix(AddBlock(w.(c := WAdd(w.c, |data| % 0x1_0000_0000)), FinalBlock(data[full..]))).c
  }

  // ---------------------------------------------------------------- as coded

  function At(k: seq<byte>, i: nat): byte {
    if i < |k| then k[i] else 0
  }

  /** The bytes of one word added one at a time, highest first. */
  function AddBytes(x: u32, k0: byte, k1: byte, k2: byte, k3: byte): u32 {
    WAdd(WAdd(WAdd(WAdd(x, (k3 as int) * 0x100_0000), (k2 as int) * 0x1_0000), (k1 as int) * 0x100), k0)
  }

  lemma AddBytesIsAddWord(x: u32, k0: byte, k1: byte, k2: byte, k3: byte)
    ensures AddBytes(x, k0, k1, k2, k3) == WAdd(x, FromLE32([k0, k1, k2, k3]))
  {
    var s1 := (x as int) + (k3 as int) * 0x100_0000;
    var s2 := s1 + (k2 as int) * 0x1_0000;
    var s3 := s2 + (k1 as int) * 0x100;
    AddMod(s1, (k2 as int) * 0x1_0000);
    AddMod(s2, (k1 as int) * 0x100);
    AddMod(s3, k0);
  }

  /** Zero bytes can be skipped. */
  lemma SkipZeros(x: u32, k0: byte, k1: byte, k2: byte)
    ensures AddBytes(x, 0, 0, 0, 0) == x
    ensures AddBytes(x, k0, 0, 0, 0) == WAdd(x, k0)
    ensures AddBytes(x, k0, k1, 0, 0) == WAdd(WAdd(x, (k1 as int) * 0x100), k0)
    ensures AddBytes(x, k0, k1, k2, 0) == WAdd(WAdd(WAdd(x, (k2 as int) * 0x1_0000), (k1 as int) * 0x100), k0)
    ensures AddBytes(x, 0, k1, k2, 0) == WAdd(WAdd(x, (k2 as int) * 0x1_0000), (k1 as int) * 0x100)
    ensures AddBytes(x, 0, k1, 0, 0) == WAdd(x, (k1 as int) * 0x100)
  {
    AddZero(x);
  }

  lemma SkipLowZero(x: u32, k1: byte, k2: byte, k3: byte)
    ensures AddBytes(x, 0, k1, k2, k3)
         == WAdd(WAdd(WAdd(x, (k3 as int) * 0x100_0000), (k2 as int) * 0x1_0000), (k1 as int) * 0x100)
  {
    AddZero(WAdd(WAdd(WAdd(x, (k3 as int) * 0x100_0000), (k2 as int) * 0x1_0000), (k1 as int) * 0x100));
  }

  function TailWords(w: Words, k: seq<byte>): Words {
    Words(AddBytes(w.a, At(k, 0), At(k, 1), At(k, 2), At(k, 3)),
          AddBytes(w.b, At(k, 4), At(k, 5), At(k, 6), At(k, 7)),
          AddBytes(w.c, 0, At(k, 8), At(k, 9), At(k, 10)))
  }

  lemma TailWordsAddBlock(w: Words, k: seq<byte>)
    requires |k| < 12
    ensures TailWords(w, k) == AddBlock(w, FinalBlock(k))
  {
    var block := FinalBlock(k);
    assert forall i | 0 <= i < 8 :: block[i] == At(k, i);
    assert block[8] == 0 && block[9] == At(k, 8) && block[10] == At(k, 9) && block[11] == At(k, 10);
    FourBytes(block, 0);
    FourBytes(block, 4);
    FourBytes(block, 8);
    AddBytesIsAddWord(w.a, At(k, 0), At(k, 1), At(k, 2), At(k, 3));
    AddBytesIsAddWord(w.b, At(k, 4), At(k, 5), At(k, 6), At(k, 7));
    AddBytesIsAddWord(w.c, 0, At(k, 8), At(k, 9), At(k, 10));
  }

  lemma FourBytes(s: seq<byte>, i: nat)
    requires i + 4 <= |s|
    ensures FromLE32(s[i..]) == FromLE32([s[i], s[i + 1], s[i + 2], s[i + 3]])
    ensures i == 0 ==> FromLE32(s) == FromLE32(s[i..])
  {
  }

  lemma AddMod(x: int, y: int)
    ensures (x % 0x1_0000_0000 + y) % 0x1_0000_0000 == (x + y) % 0x1_0000_0000
  {
  }

  lemma AddZero(x: u32)
    ensures WAdd(x, 0) == x
  {
  }

  /** The bytes left over after the whole blocks, added case by case. */
  method AddTail(k: seq<byte>, len: nat, a: u32, b: u32, ca: u32) returns (a': u32, b': u32, ca': u32)
    requires len == |k| < 12
    ensures Words(a', b', ca') == TailWords(Words(a, b, ca), k)
  {
    a', b', ca' := a, b, ca;
    SkipZeros(a, At(k, 0), At(k, 1), At(k, 2));
    SkipZeros(b, At(k, 4), At(k, 5), At(k, 6));
    SkipZeros(ca, 0, At(k, 8), At(k, 9));
    SkipLowZero(ca, At(k, 8), At(k, 9), At(k, 10));
    if len == 11 {
      ca' := WAdd(ca', (k[10] as int) * 0x100_0000);
      ca' := WAdd(ca', (k[9] as int) * 0x1_0000);
      ca' := WAdd(ca', (k[8] as int) * 0x100);
      b' := WAdd(b', (k[7] as int) * 0x100_0000);
      b' := WAdd(b', (k[6] as int) * 0x1_0000);
      b' := WAdd(b', (k[5] as int) * 0x100);
      b' := WAdd(b', k[4]);
      a' := WAdd(a', (k[3] as int) * 0x100_0000);
      a' := WAdd(a', (k[2] as int) * 0x1_0000);
      a' := WAdd(a', (k[1] as int) * 0x100);
      a' := WAdd(a', k[0]);
    } else if len == 10 {
      ca' := WAdd(ca', (k[9] as int) * 0x1_0000);
      ca' := WAdd(ca', (k[8] as int) * 0x100);
      b' := WAdd(b', (k[7] as int) * 0x100_0000);
      b' := WAdd(b', (k[6] as int) * 0x1_0000);
      b' := WAdd(b', (k[5] as int) * 0x100);
      b' := WAdd(b', k[4]);
      a' := WAdd(a', (k[3] as int) * 0x100_0000);
      a' := WAdd(a', (k[2] as int) * 0x1_0000);
      a' := WAdd(a', (k[1] as int) * 0x100);
      a' := WAdd(a', k[0]);
    } else if len == 9 {
      ca' := WAdd(ca', (k[8] as int) * 0x100);
      b' := WAdd(b', (k[7] as int) * 0x100_0000);
      b' := WAdd(b', (k[6] as int) * 0x1_0000);
      b' := WAdd(b', (k[5] as int) * 0x100);
      b' := WAdd(b', k[4]);
      a' := WAdd(a', (k[3] as int) * 0x100_0000);
      a' := WAdd(a', (k[2] as int) * 0x1_0000);
      a' := WAdd(a', (k[1] as int) * 0x100);
      a' := WAdd(a', k[0]);
    } else if len == 8 {
      b' := WAdd(b', (k[7] as int) * 0x100_0000);
      b' := WAdd(b', (k[6] as int) * 0x1_0000);
      b' := WAdd(b', (k[5] as int) * 0x100);
      b' := WAdd(b', k[4]);
      a' := WAdd(a', (k[3] as int) * 0x100_0000);
      a' := WAdd(a', (k[2] as int) * 0x1_0000);
      a' := WAdd(a', (k[1] as int) * 0x100);
      a' := WAdd(a', k[0]);
    } else if len == 7 {
      b' := WAdd(b', (k[6] as int) * 0x1_0000);
      b' := WAdd(b', (k[5] as int) * 0x100);
      b' := WAdd(b', k[4]);
      a' := WAdd(a', (k[3] as int) * 0x100_0000);
      a' := WAdd(a', (k[2] as int) * 0x1_0000);
      a' := WAdd(a', (k[1] as int) * 0x100);
      a' := WAdd(a', k[0]);
    } else if len == 6 {
      b' := WAdd(b', (k[5] as int) * 0x100);
      b' := WAdd(b', k[4]);
      a' := WAdd(a', (k[3] as int) * 0x100_0000);
      a' := WAdd(a', (k[2] as int) * 0x1_0000);
      a' := WAdd(a', (k[1] as int) * 0x100);
      a' := WAdd(a', k[0]);
    } else if len == 5 {
      b' := WAdd(b', k[4]);
      a' := WAdd(a', (k[3] as int) * 0x100_0000);
      a' := WAdd(a', (k[2] as int) * 0x1_0000);
      a' := WAdd(a', (k[1] as int) * 0x100);
      a' := WAdd(a', k[0]);
    } else if len == 4 {
      a' := WAdd(a', (k[3] as int) * 0x100_0000);
      a' := WAdd(a', (k[2] as int) * 0x1_0000);
      a' := WAdd(a', (k[1] as int) * 0x100);
      a' := WAdd(a', k[0]);
    } else if len == 3 {
      a' := WAdd(a', (k[2] as int) * 0x1_0000);
      a' := WAdd(a', (k[1] as int) * 0x100);
      a' := WAdd(a', k[0]);
    } else if len == 2 {
      a' := WAdd(a', (k[1] as int) * 0x100);
      a' := WAdd(a', k[0]);
    } else if len == 1 {
      a' := WAdd(a', k[0]);
    }
  }

  /** The bytes of a whole word in the order the block loop adds them. */
  lemma LoopWord(x: u32, k: seq<byte>, i: nat)
    requires i + 4 <= |k|
    ensures WAdd(WAdd(WAdd(WAdd((k[i + 2] as int) * 0x1_0000, k[i]), (k[i + 1] as int) * 0x100),
                      (k[i + 3] as int) * 0x100_0000), x)
         == WAdd(x, FromLE32(k[i..]))
  {
    FourBytes(k, i);
    SumOfBytes(x, k[i], k[i + 1], k[i + 2], k[i + 3]);
  }

  lemma SumOfBytes(x: u32, k0: byte, k1: byte, k2: byte, k3: byte)
    ensures WAdd(WAdd(WAdd(WAdd((k2 as int) * 0x1_0000, k0), (k1 as int) * 0x100), (k3 as int) * 0x100_0000), x)
         == WAdd(x, FromLE32([k0, k1, k2, k3]))
  {
    var w := FromLE32([k0, k1, k2, k3]);
    assert WAdd(WAdd(WAdd((k2 as int) * 0x1_0000, k0), (k1 as int) * 0x100), (k3 as int) * 0x100_0000) == w;
    hide FromLE32;
    WAddSymmetric(w, x);
  }

  /** One whole block: its three words are added as they are mixed. */
  method MixBlock(k: seq<byte>, a0: u32, b0: u32, c0: u32) returns (a: u32, b: u32, c: u32)
    requires |k| >= 12
    ensures Words(a, b, c) == Mix(AddBlock(Words(a0, b0, c0), k[..12]))
  {
    var ba := WAdd(WAdd(WAdd(WAdd((k[6] as int) * 0x1_0000, k[4]), (k[5] as int) * 0x100),
                        (k[7] as int) * 0x100_0000), b0);
    var cb := WAdd(WAdd(WAdd(WAdd((k[10] as int) * 0x1_0000, k[8]), (k[9] as int) * 0x100),
                        (k[11] as int) * 0x100_0000), c0);
    var a1 := WAdd(WAdd(WAdd(WAdd((k[2] as int) * 0x1_0000, k[0]), (k[1] as int) * 0x100),
                        (k[3] as int) * 0x100_0000), a0);
    LoopBlock(Words(a0, b0, c0), k);
    a, b, c := MixWords(a1, ba, cb);
  }

  method MixWords(a0: u32, b0: u32, c0: u32) returns (a: u32, b: u32, c: u32)
    ensures Words(a, b, c) == Mix(Words(a0, b0, c0))
  {
    ghost var w := Words(a0, b0, c0);
    hide MixSteps, XorWord, WSub, Shr, Shl, Pow2;
    FirstMix(w);
    var aa := XorWord(Shr(c0, 13), WSub(WSub(a0, b0), c0));
    NextMix(w, 0);
    assert MixSteps(w, 1) == Words(b0, c0, aa);
    var bb := XorWord(Shl(aa, 8), WSub(WSub(b0, c0), aa));
    NextMix(w, 1);
    assert MixSteps(w, 2) == Words(c0, aa, bb);
    var cc := XorWord(Shr(bb, 13), WSub(WSub(c0, aa), bb));
    NextMix(w, 2);
    assert MixSteps(w, 3) == Words(aa, bb, cc);
    var ab := XorWord(Shr(cc, 12), WSub(WSub(aa, bb), cc));
    NextMix(w, 3);
    assert MixSteps(w, 4) == Words(bb, cc, ab);
    var bc := XorWord(Shl(ab, 16), WSub(WSub(bb, cc), ab));
    NextMix(w, 4);
    assert MixSteps(w, 5) == Words(cc, ab, bc);
    var cd := XorWord(Shr(bc, 5), WSub(WSub(cc, ab), bc));
    NextMix(w, 5);
    assert MixSteps(w, 6) == Words(ab, bc, cd);
    a := XorWord(Shr(cd, 3), WSub(WSub(ab, bc), cd));
    NextMix(w, 6);
    assert MixSteps(w, 7) == Words(bc, cd, a);
    b := XorWord(Shl(a, 10), WSub(WSub(bc, cd), a));
    NextMix(w, 7);
    assert MixSteps(w, 8) == Words(cd, a, b);
    c := XorWord(Shr(b, 15), WSub(WSub(cd, a), b));
    NextMix(w, 8);
    assert MixSteps(w, 9) == Words(a, b, c);
  }

  lemma FirstMix(w: Words)
    ensures MixSteps(w, 0) == w
  {
  }

  lemma NextMix(w: Words, n: nat)
    requires n < |SHIFTS|
    ensures MixSteps(w, n + 1) == MixStep(MixSteps(w, n), SHIFTS[n])
  {
  }

  /** The client's hash: whole blocks, then the leftover bytes. It computes the
      reference hash of its input. */
  method JhashOf(key: seq<byte>, length: u32, initval: u32) returns (h: u32)
    requires length == |key|
    ensures h == RefHash(key, initval)
  {
    hide Mix, MixSteps, Absorb, AddBlock, WAdd, TailWords, AddBytes, FinalBlock, FromLE32;
    AbsorbNone(Words(GOLDEN, GOLDEN, initval), key[..0]);
    var a, b, c := GOLDEN, GOLDEN, initval;
    var len: nat := length;
    var k := key;
    ghost var pos := 0;
    while len > 11
      invariant pos % 12 == 0 && len == |key| - pos && k == key[pos..] && pos <= |key|
      invariant Words(a, b, c) == Absorb(Words(GOLDEN, GOLDEN, initval), key[..pos])
    {
      AbsorbNext(Words(GOLDEN, GOLDEN, initval), key, pos);
      a, b, c := MixBlock(k, a, b, c);
      k := k[12..];
      len := len - 12;
      pos := pos + 12;
    }
    var ca := WAdd(length, c);
    ghost var w := Words(a, b, ca);
    a, b, ca := AddTail(k, len, a, b, ca);
    TailWordsAddBlock(w, k);
    WAddSymmetric(length, c);
    assert pos == |key| - |key| % 12;
    a, b, h := MixWords(a, b, ca);
  }

  lemma AbsorbNone(w: Words, none: seq<byte>)
    requires none == []
    ensures Absorb(w, none) == w
  {
  }

  lemma AbsorbNext(w: Words, key: seq<byte>, pos: nat)
    requires pos % 12 == 0 && pos + 12 <= |key|
    ensures Absorb(w, key[..pos + 12]) == Mix(AddBlock(Absorb(w, key[..pos]), key[pos..][..12]))
  {
    var next := key[..pos + 12];
    assert next[..pos] == key[..pos] && next[pos..] == key[pos..][..12];
  }

  lemma LoopBlock(w: Words, k: seq<byte>)
    requires |k| >= 12
    ensures AddBlock(w, k[..12]) == Words(
      WAdd(WAdd(WAdd(WAdd((k[2] as int) * 0x1_0000, k[0]), (k[1] as int) * 0x100), (k[3] as int) * 0x100_0000), w.a),
      WAdd(WAdd(WAdd(WAdd((k[6] as int) * 0x1_0000, k[4]), (k[5] as int) * 0x100), (k[7] as int) * 0x100_0000), w.b),
      WAdd(WAdd(WAdd(WAdd((k[10] as int) * 0x1_0000, k[8]), (k[9] as int) * 0x100), (k[11] as int) * 0x100_0000), w.c))
  {
    var block := k[..12];
    LoopWord(w.a, block, 0);
    LoopWord(w.b, block, 4);
    LoopWord(w.c, block, 8);
    FourBytes(block, 0);
  }

  // --------------------------------------------------------- key derivation

  function LinkBytes(links: seq<u32>): (s: seq<byte>)
    ensures |s| == 4 * |links|
  {
    if links == [] then [] else LinkBytes(links[..|links| - 1]) + BE32(links[|links| - 1])
  }

  function Reverse<T>(s: seq<T>): (r: seq<T>)
    ensures |r| == |s|
    ensures forall i | 0 <= i < |s| :: r[i] == s[|s| - 1 - i]
  {
    seq(|s|, i requires 0 <= i < |s| => s[|s| - 1 - i])
  }

  /** The hash of the links and of the links the other way round, added. */
  function LinkHash(links: seq<u32>): u32 {
    if links == [] then 0
    else WAdd(RefHash(LinkBytes(links), 0), RefHash(LinkBytes(Reverse(links)), 0))
  }

  function KeyLength(cfg: SrConfig): nat {
    if cfg.mode == 1 then 16 else 32
  }

  /** Byte i of a key: the password, then the four bytes of the link hash over
      and over; or the bare password padded with zeros. */
  function KeyByte(cfg: SrConfig, i: nat): byte {
    var n := if |cfg.password| < 32 then |cfg.password| else 32;
    if i < n then cfg.password[i]
    else if cfg.keyMode.Raw? then 0
    else LE32(LinkHash(cfg.links))[(i - n) % 4]
  }

  function Key(cfg: SrConfig): (key: seq<byte>)
    ensures |key| == KeyLength(cfg)
  {
    seq(KeyLength(cfg), i requires i >= 0 => KeyByte(cfg, i))
  }

  method LinksToBytes(links: seq<u32>) returns (s: seq<byte>)
    ensures s == LinkBytes(links)
  {
    s := [];
    for i := 0 to |links|
      invariant s == LinkBytes(links[..i])
    {
      assert links[..i + 1][..i] == links[..i];
      s := s + BE32(links[i]);
    }
    assert links[..|links|] == links;
  }

  /** Whole copies of the hash, while four more bytes fit. */
  method FillWords(buf: array<byte>, n: nat, hash: u32) returns (len: nat)
    requires buf.Length == 40 && n <= 32
    modifies buf
    ensures n <= len <= 32 && len > 28 && (len - n) % 4 == 0
    ensures forall i | 0 <= i < n :: buf[i] == old(buf[i])
    ensures forall i | n <= i < len :: buf[i] == LE32(hash)[(i - n) % 4]
  {
    len := n;
    var bytes := LE32(hash);
    while len <= 28
      invariant n <= len <= 32 && (len - n) % 4 == 0
      invariant forall i | 0 <= i < n :: buf[i] == old(buf[i])
      invariant forall i | n <= i < len :: buf[i] == bytes[(i - n) % 4]
      decreases 32 - len
    {
      buf[len], buf[len + 1], buf[len + 2], buf[len + 3] := bytes[0], bytes[1], bytes[2], bytes[3];
      len := len + 4;
    }
  }

  /** The low bytes of the hash in what room is left. */
  method FillBytes(buf: array<byte>, start: nat, hash: u32)
    requires buf.Length == 40 && 28 < start <= 32
    modifies buf
    ensures forall i | 0 <= i < start :: buf[i] == old(buf[i])
    ensures forall i | start <= i < 32 :: buf[i] == LE32(hash)[i - start]
  {
    var len, h := start, hash;
    while len <= 31
      invariant start <= len <= 32
      invariant h == hash / Pow256(len - start)
      invariant forall i | 0 <= i < start :: buf[i] == old(buf[i])
      invariant forall i | start <= i < len :: buf[i] == LE32(hash)[i - start]
      decreases 32 - len
    {
      LowByte(hash, len - start);
      buf[len] := h % 0x100;
      len := len + 1;
      h := h / 0x100;
    }
  }

  /** Copies the password and fills the rest of the user key with the hash. */
  method FillUserKey(password: seq<byte>, hash: u32) returns (userkey: seq<byte>)
    ensures |userkey| == 40
    ensures var n := if |password| < 32 then |password| else 32;
            forall i | 0 <= i < 32 :: userkey[i] == if i < n then password[i] else LE32(hash)[(i - n) % 4]
  {
    var buf := new byte[40](_ => 0);
    var n := if |password| < 32 then |password| else 32;
    forall i | 0 <= i < n { buf[i] := password[i]; }
    var len := FillWords(buf, n, hash);
    FillBytes(buf, len, hash);
    userkey := buf[..];
  }

  function Pow256(n: nat): (p: nat)
    ensures p > 0
  {
    if n == 0 then 1 else 0x100 * Pow256(n - 1)
  }

  lemma LowByte(hash: u32, k: nat)
    requires k < 4
    ensures hash / Pow256(k) % 0x100 == LE32(hash)[k]
    ensures hash / Pow256(k) / 0x100 == hash / Pow256(k + 1)
    ensures 0 <= hash / Pow256(k) <= MAX
  {
    assert Pow256(1) == 0x100 && Pow256(2) == 0x1_0000 && Pow256(3) == 0x100_0000 && Pow256(4) == 0x1_0000_0000;
  }

  const MAX: int := 0xFFFF_FFFF

  method RawKey(cfg: SrConfig) returns (key: seq<byte>)
    requires cfg.keyMode.Raw?
    ensures key == Key(cfg)
  {
    var keyLen := KeyLength(cfg);
    var buf := new byte[32](_ => 0);
    var n := if |cfg.password| < keyLen then |cfg.password| else keyLen;
    forall i | 0 <= i < n { buf[i] := cfg.password[i]; }
    key := buf[..keyLen];
  }

  method HashLinks(links: seq<u32>) returns (hash: u32)
    requires |links| < 0x1000_0000
    ensures hash == LinkHash(links)
  {
    hash := 0;
    if links != [] {
      var forward := LinksToBytes(links);
      var h1 := JhashOf(forward, |forward|, 0);
      var backward := LinksToBytes(Reverse(links));
      var h2 := JhashOf(backward, |backward|, 0);
      hash := WAdd(h1, h2);
    }
  }

  /** The key of a configuration, derived the way the server and client do. */
  method DeriveKey(cfg: SrConfig) returns (key: seq<byte>)
    requires |cfg.links| < 0x1000_0000
    ensures key == Key(cfg)
  {
    hide RefHash, LinkHash;
    if cfg.keyMode.Raw? {
      key := RawKey(cfg);
    } else {
      var hash := HashLinks(cfg.links);
      var userkey := FillUserKey(cfg.password, hash);
      key := userkey[..KeyLength(cfg)];
    }
  }

  /** What a key is made of: sixteen bytes in mode 1, else 32; the password, cut
      to that length; then zeros for a bare key, and otherwise, over and over,
      the little-endian bytes of the sum of two hashes of the links' big-endian
      bytes, in the order listed and the other way round, each from the initial
      value 0. */
  lemma KeyBytes(cfg: SrConfig, forward: seq<byte>, backward: seq<byte>, i: nat)
    requires |forward| == |backward| == 4 * |cfg.links|
    requires forall k | 0 <= k < |cfg.links| :: FromBE32(forward[4 * k..]) == cfg.links[k]
    requires forall k | 0 <= k < |cfg.links| :: FromBE32(backward[4 * k..]) == cfg.links[|cfg.links| - 1 - k]
    requires i < if cfg.mode == 1 then 16 else 32
    ensures var n := |cfg.password|;
            |Key(cfg)| == (if cfg.mode == 1 then 16 else 32)
            && Key(cfg)[i]
               == if i < n then cfg.password[i]
                  else if cfg.keyMode.Raw? || cfg.links == [] then 0
                  else LE32((RefHash(forward, 0) + RefHash(backward, 0)) % 0x1_0000_0000)[(i - n) % 4]
  {
    hide RefHash, LinkBytes, FromBE32;
    LinkBytesUnique(cfg.links, forward);
    LinkBytesUnique(Reverse(cfg.links), backward);
  }

  lemma {:induction false} LinkBytesUnique(links: seq<u32>, bytes: seq<byte>)
    requires |bytes| == 4 * |links|
    requires forall k | 0 <= k < |links| :: FromBE32(bytes[4 * k..]) == links[k]
    ensures LinkBytes(links) == bytes
  {
    if links != [] {
      var n := |links| - 1;
      var front := bytes[..4 * n];
      forall k | 0 <= k < n ensures FromBE32(front[4 * k..]) == links[..n][k] {
        WordPrefix(front[4 * k..], bytes[4 * k..]);
      }
      LinkBytesUnique(links[..n], front);
      Bytes32(bytes[4 * n..]);
      assert FromBE32(bytes[4 * n..]) == links[n];
      assert bytes == front + bytes[4 * n..];
    }
  }

  lemma WordPrefix(a: seq<byte>, b: seq<byte>)
    requires 4 <= |a| <= |b| && a[..4] == b[..4]
    ensures FromBE32(a) == FromBE32(b)
  {
    assert forall i | 0 <= i < 4 :: a[i] == a[..4][i] == b[..4][i] == b[i];
  }

  /** Two ends that list the links in opposite orders derive the same key. */
  lemma KeyIgnoresDirection(cfg: SrConfig)
    ensures Key(cfg.(links := Reverse(cfg.links))) == Key(cfg)
  {
    hide Mix, MixSteps, RefHash, LinkBytes, WAdd;
    assert Reverse(Reverse(cfg.links)) == cfg.links;
    WAddSymmetric(RefHash(LinkBytes(cfg.links), 0), RefHash(LinkBytes(Reverse(cfg.links)), 0));
    assert LinkHash(Reverse(cfg.links)) == LinkHash(cfg.links);
  }

  lemma WAddSymmetric(a: u32, b: u32)
    ensures WAdd(a, b) == WAdd(b, a)
  {
  }
}
