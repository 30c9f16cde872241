/** Payload ciphers of the tunnel (src/core/crypto.rs): a repeating xor mask
    and a block cipher applied block by block, both in place. The block cipher
    itself is a parameter. */
module Crypto {
  import opened Bytes
  import opened Wrappers

  /** A block function and its inverse, per key. */
  datatype BlockCipher = BlockCipher(
    encrypt: (seq<byte>, seq<byte>) -> seq<byte>,
    decrypt: (seq<byte>, seq<byte>) -> seq<byte>)


  ghost predicate Lawful(c: BlockCipher) {
    && (forall key, block: seq<byte> {:trigger c.encrypt(key, block)} | |block| == 16 ::
          |c.encrypt(key, block)| == 16 && c.decrypt(key, c.encrypt(key, block)) == block)
    && (forall key, block: seq<byte> {:trigger c.decrypt(key, block)} | |block| == 16 ::
          |c.decrypt(key, block)| == 16)
  }

  // -------------------------------------------------------------------- xor

  function MaskAt(key: seq<byte>, i: nat): byte {
    if key == [] then 0 else key[i % |key|]
  }

  function Xored(data: seq<byte>, key: seq<byte>): (r: seq<byte>)
    ensures |r| == |data|
  {
    if key == [] then data
    else seq(|data|, i requires 0 <= i < |data| => Xor(data[i], MaskAt(key, i)))
  }

  lemma XoredTwice(data: seq<byte>, key: seq<byte>)
    ensures Xored(Xored(data, key), key) == data
  {
    if key != [] {
      forall i | 0 <= i < |data| ensures Xored(Xored(data, key), key)[i] == data[i] {
        XorCancels(data[i], MaskAt(key, i));
      }
    }
  }

  method XorSlice(a: array<byte>, lo: nat, hi: nat, key: seq<byte>)
    requires lo <= hi <= a.Length
    modifies a
    ensures forall j | 0 <= j < a.Length ::
              a[j] == if lo <= j < hi then Xored(old(a[lo..hi]), key)[j - lo] else old(a[j])
  {
    if key == [] {
      return;
    }
    ghost var start, goal := a[..], Xored(a[lo..hi], key);
    MaskedAt(a[lo..hi], key);
    hide Xored, Xor;
    for i := 0 to hi - lo
      invariant forall j | 0 <= j < a.Length :: a[j] == if lo <= j < lo + i then goal[j - lo] else start[j]
    {
      assert goal[i] == Xor(start[lo..hi][i], key[i % |key|]);
      a[lo + i] := Xor(a[lo + i], key[i % |key|]);
    }
  }

  lemma MaskedAt(data: seq<byte>, key: seq<byte>)
    requires key != []
    ensures forall i | 0 <= i < |data| :: Xored(data, key)[i] == Xor(data[i], key[i % |key|])
  {
  }

  // ----------------------------------------------------------- block cipher

  /** The first k blocks, each encrypted on its own. */
  function EncryptChunks(c: BlockCipher, key: seq<byte>, data: seq<byte>, k: nat): seq<byte>
    requires 16 * k <= |data|
  {
    if k == 0 then []
    else EncryptChunks(c, key, data, k - 1) + c.encrypt(key, data[16 * (k - 1)..16 * k])
  }

  function DecryptChunks(c: BlockCipher, key: seq<byte>, data: seq<byte>, k: nat): seq<byte>
    requires 16 * k <= |data|
  {
    if k == 0 then []
    else DecryptChunks(c, key, data, k - 1) + c.decrypt(key, data[16 * (k - 1)..16 * k])
  }

  function EncryptBlocks(c: BlockCipher, key: seq<byte>, data: seq<byte>): seq<byte> {
    EncryptChunks(c, key, data, |data| / 16)
  }

  function DecryptBlocks(c: BlockCipher, key: seq<byte>, data: seq<byte>): seq<byte> {
    DecryptChunks(c, key, data, |data| / 16)
  }

  lemma {:induction false} ChunksLength(c: BlockCipher, key: seq<byte>, data: seq<byte>, k: nat)
    requires Lawful(c) && 16 * k <= |data|
    ensures |EncryptChunks(c, key, data, k)| == 16 * k == |DecryptChunks(c, key, data, k)|
  {
    if k > 0 { ChunksLength(c, key, data, k - 1); }
  }

  lemma {:induction false} ChunkAt(c: BlockCipher, key: seq<byte>, data: seq<byte>, k: nat, n: nat)
    requires Lawful(c) && k < n && 16 * n <= |data|
    ensures |EncryptChunks(c, key, data, n)| == 16 * n
    ensures EncryptChunks(c, key, data, n)[16 * k..16 * (k + 1)] == c.encrypt(key, data[16 * k..16 * (k + 1)])
  {
    ChunksLength(c, key, data, n);
    ChunksLength(c, key, data, n - 1);
    if k < n - 1 {
      ChunkAt(c, key, data, k, n - 1);
      var front, all := EncryptChunks(c, key, data, n - 1), EncryptChunks(c, key, data, n);
      assert all[16 * k..16 * (k + 1)] == front[16 * k..16 * (k + 1)];
    }
  }

  lemma {:induction false} DecryptsChunks(c: BlockCipher, key: seq<byte>, data: seq<byte>, k: nat, n: nat)
    requires Lawful(c) && k <= n && 16 * n <= |data|
    ensures |EncryptChunks(c, key, data, n)| == 16 * n
    ensures DecryptChunks(c, key, EncryptChunks(c, key, data, n), k) == data[..16 * k]
  {
    ChunksLength(c, key, data, n);
    if k > 0 {
      DecryptsChunks(c, key, data, k - 1, n);
      ChunkAt(c, key, data, k - 1, n);
      assert data[..16 * k] == data[..16 * (k - 1)] + data[16 * (k - 1)..16 * k];
    }
  }

  lemma BlocksLength(c: BlockCipher, key: seq<byte>, data: seq<byte>)
    requires Lawful(c) && |data| % 16 == 0
    ensures |EncryptBlocks(c, key, data)| == |data| == |DecryptBlocks(c, key, data)|
  {
    ChunksLength(c, key, data, |data| / 16);
  }

  /** Decrypting what was encrypted restores any block-aligned data. */
  lemma DecryptsBlocks(c: BlockCipher, key: seq<byte>, data: seq<byte>)
    requires Lawful(c) && |data| % 16 == 0
    ensures |EncryptBlocks(c, key, data)| == |data|
    ensures DecryptBlocks(c, key, EncryptBlocks(c, key, data)) == data
  {
    var n := |data| / 16;
    DecryptsChunks(c, key, data, n, n);
    assert data[..16 * n] == data;
  }

  predicate KeySize(key: seq<byte>) {
    |key| == 16 || |key| == 32
  }

  function EcbEncrypt(c: BlockCipher, key: seq<byte>, data: seq<byte>): Result<seq<byte>> {
    if |data| % 16 != 0 then Err("AES input is not 16-byte aligned")
    else if !KeySize(key) then Err("unsupported AES key length")
    else Ok(EncryptBlocks(c, key, data))
  }

  function EcbDecrypt(c: BlockCipher, key: seq<byte>, data: seq<byte>): Result<seq<byte>> {
    if |data| % 16 != 0 then Err("AES input is not 16-byte aligned")
    else if !KeySize(key) then Err("unsupported AES key length")
    else Ok(DecryptBlocks(c, key, data))
  }

  method EncryptSlice(c: BlockCipher, key: seq<byte>, a: array<byte>, lo: nat, hi: nat)
    requires Lawful(c) && lo <= hi <= a.Length
    modifies a
    ensures |EncryptBlocks(c, key, old(a[lo..hi]))| == (hi - lo) / 16 * 16
    ensures forall j | 0 <= j < a.Length ::
              a[j] == if lo <= j < lo + (hi - lo) / 16 * 16 then EncryptBlocks(c, key, old(a[lo..hi]))[j - lo]
                else old(a[j])
  {
    ghost var start, was := a[..], a[lo..hi];
    var at, k := lo, 0;
    ghost var done: seq<byte> := [];
    while at + 16 <= hi
      invariant at == lo + 16 * k <= hi
      invariant |done| == 16 * k && done == EncryptChunks(c, key, was, k)
      invariant forall j | 0 <= j < a.Length :: a[j] == if lo <= j < at then done[j - lo] else start[j]
    {
      var block := a[at..at + 16];
      assert block == was[16 * k..16 * (k + 1)];
      var output := c.encrypt(key, block);
      forall j | 0 <= j < 16 { a[at + j] := output[j]; }
      done := done + output;
      at, k := at + 16, k + 1;
    }
    assert k == (hi - lo) / 16;
  }

  method DecryptSlice(c: BlockCipher, key: seq<byte>, a: array<byte>, lo: nat, hi: nat)
    requires Lawful(c) && lo <= hi <= a.Length
    modifies a
    ensures |DecryptBlocks(c, key, old(a[lo..hi]))| == (hi - lo) / 16 * 16
    ensures forall j | 0 <= j < a.Length ::
              a[j] == if lo <= j < lo + (hi - lo) / 16 * 16 then DecryptBlocks(c, key, old(a[lo..hi]))[j - lo]
                else old(a[j])
  {
    ghost var start, was := a[..], a[lo..hi];
    var at, k := lo, 0;
    ghost var done: seq<byte> := [];
    while at + 16 <= hi
      invariant at == lo + 16 * k <= hi
      invariant |done| == 16 * k && done == DecryptChunks(c, key, was, k)
      invariant forall j | 0 <= j < a.Length :: a[j] == if lo <= j < at then done[j - lo] else start[j]
    {
      var block := a[at..at + 16];
      assert block == was[16 * k..16 * (k + 1)];
      var output := c.decrypt(key, block);
      forall j | 0 <= j < 16 { a[at + j] := output[j]; }
      done := done + output;
      at, k := at + 16, k + 1;
    }
    assert k == (hi - lo) / 16;
  }

  // ------------------------------------------------ the same, on a growable buffer

  method XorBuffer(data: seq<byte>, key: seq<byte>) returns (r: seq<byte>)
    ensures r == Xored(data, key)
  {
    hide Xored;
    var a := new byte[|data|](i requires 0 <= i < |data| => data[i]);
    assert a[0..a.Length] == data;
    XorSlice(a, 0, a.Length, key);
    r := a[..];
  }

  method EncryptBuffer(c: BlockCipher, key: seq<byte>, data: seq<byte>) returns (r: Result<seq<byte>>)
    requires Lawful(c)
    ensures r == EcbEncrypt(c, key, data)
  {
    hide EncryptBlocks, Lawful;
    if |data| % 16 != 0 {
      return Err("AES input is not 16-byte aligned");
    }
    if !KeySize(key) {
      return Err("unsupported AES key length");
    }
    var a := new byte[|data|](i requires 0 <= i < |data| => data[i]);
    assert a[0..a.Length] == data;
    EncryptSlice(c, key, a, 0, a.Length);
    assert a[..] == EncryptBlocks(c, key, data);
    r := Ok(a[..]);
  }

  method DecryptBuffer(c: BlockCipher, key: seq<byte>, data: seq<byte>) returns (r: Result<seq<byte>>)
    requires Lawful(c)
    ensures r == EcbDecrypt(c, key, data)
  {
    hide DecryptBlocks, Lawful;
    if |data| % 16 != 0 {
      return Err("AES input is not 16-byte aligned");
    }
    if !KeySize(key) {
      return Err("unsupported AES key length");
    }
    var a := new byte[|data|](i requires 0 <= i < |data| => data[i]);
    assert a[0..a.Length] == data;
    DecryptSlice(c, key, a, 0, a.Length);
    assert a[..] == DecryptBlocks(c, key, data);
    r := Ok(a[..]);
  }
}
