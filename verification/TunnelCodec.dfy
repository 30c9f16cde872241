/** The encoders and decoders of the data plane as they run: buffers padded,
    ciphered, truncated and extended step by step, and the receiver's table
    updated in place (src/core/tunnel.rs, src/bin/server/downlink.rs,
    src/bin/server/handler.rs). */
module TunnelCodec {
  import opened Bytes
  import opened Wrappers
  import opened Crypto
  import opened IpPacket
  import opened SrKey
  import opened Tunnel
  import opened Downlink
  import R = Reassembly

  // ----------------------------------------------------------------- uplink

  /** Encodes the packet in a[lo..lo+len] in place; the slot ends at hi. */
  method EncodeUplinkSlot(c: BlockCipher, a: array<byte>, lo: nat, hi: nat, len: nat, keys: Keys, sid: u16, token: u32)
    returns (r: Result<(seq<byte>, nat)>)
    requires Lawful(c) && lo <= hi <= a.Length && len <= hi - lo
    modifies a
    ensures forall j | 0 <= j < a.Length && !(lo <= j < hi) :: a[j] == old(a[j])
    ensures var f := EncodeUplink(c, old(a[lo..lo + len]), hi - lo, keys, sid, token);
            if f.Err? then r.Err?
            else && r.Ok? && r.value.0 == f.value.header && lo + r.value.1 <= hi
                 && a[lo..lo + r.value.1] == f.value.payload
  {
    if len == 0 {
      return Err("invalid inner packet length");
    }
    hide Lawful, Header, Xored, EcbEncrypt;
    ghost var packet := a[lo..lo + len];
    assert packet[0] == a[lo];
    if a[lo] / 16 == 6 {
      return Ok((Header(PT_DATA_IPV6, 0, sid, token), len));
    } else if a[lo] / 16 != 4 {
      return Err("not an IPv4/IPv6 packet");
    } else if keys.enc == 0 {
      return Ok((Header(PT_DATA, 0, sid, token), len));
    } else if keys.enc == 1 {
      XorSlice(a, lo, lo + len, keys.xorKey);
      assert a[lo..lo + len] == Xored(packet, keys.xorKey);
      return Ok((Header(PT_DATA_ENC, 1, sid, token), len));
    } else if keys.enc == 2 {
      var wireLen := PadAndEncrypt(c, keys.aesKey, a, lo, hi, len);
      if wireLen.Err? {
        return Err(wireLen.reason);
      }
      return Ok((Header(PT_DATA_ENC, 2, sid, token), wireLen.value));
    }
    r := Err("unsupported encryption mode");
  }

  /** Zero padding up to a whole block, then the block cipher, all in the slot. */
  method PadAndEncrypt(c: BlockCipher, key: seq<byte>, a: array<byte>, lo: nat, hi: nat, len: nat)
    returns (r: Result<nat>)
    requires Lawful(c) && lo <= hi <= a.Length && len <= hi - lo
    modifies a
    ensures forall j | 0 <= j < a.Length && !(lo <= j < hi) :: a[j] == old(a[j])
    ensures var pad := Pad16(len);
            if len + pad > hi - lo then r.Err?
            else var x := EcbEncrypt(c, key, old(a[lo..lo + len]) + Zeros(pad));
                 if x.Err? then r.Err?
                 else r == Ok(len + pad) && a[lo..lo + len + pad] == x.value
  {
    hide Lawful, EncryptBlocks;
    var pad := Pad16(len);
    if len + pad > hi - lo {
      return Err("AES padding exceeds upload slot");
    }
    ghost var padded := a[lo..lo + len] + Zeros(pad);
    forall j | lo + len <= j < lo + len + pad { a[j] := 0; }
    assert a[lo..lo + len + pad] == padded;
    if !KeySize(key) {
      return Err("unsupported AES key length");
    }
    EncryptSlice(c, key, a, lo, lo + len + pad);
    assert |padded| / 16 * 16 == |padded|;
    assert a[lo..lo + len + pad] == EncryptBlocks(c, key, padded);
    r := Ok(len + pad);
  }

  method AppendWireLinks(out: seq<byte>, links: seq<u32>) returns (r: seq<byte>)
    ensures r == out + WireLinks(links)
  {
    var reversed := Reverse(links);
    var n := LinkCount(links);
    r := out;
    for i := 0 to n
      invariant r == out + LinkBytes(reversed[..i])
    {
      assert reversed[..i + 1][..i] == reversed[..i];
      r := r + BE32(reversed[i]);
    }
  }

  /** Applies a payload cipher to a growable buffer. */
  method CipherPayload(c: BlockCipher, keys: Keys, enc: byte, payload: seq<byte>) returns (r: Result<seq<byte>>)
    requires Lawful(c)
    ensures r == Ciphered(c, keys, enc, payload)
  {
    hide Lawful, Xored, EncryptBlocks;
    var buf := payload;
    if enc == 1 {
      buf := XorBuffer(buf, keys.xorKey);
    } else if enc == 2 {
      var pad := Pad16(|buf|);
      buf := buf + Zeros(pad);
      r := EncryptBuffer(c, keys.aesKey, buf);
      return;
    }
    r := Ok(buf);
  }

  /** Pads and encrypts for segment routing. */
  method WrapOuter(c: BlockCipher, sr: SrConfig, payload: seq<byte>) returns (r: Result<seq<byte>>, pad: nat)
    requires Lawful(c)
    ensures r == OuterCiphered(c, sr, payload) && pad == OuterPad(sr, |payload|)
  {
    hide Lawful, EncryptBlocks, SrKey.Key;
    pad := if sr.mode == 0 then 0 else Pad16(|payload|);
    var buf := payload + Zeros(pad);
    if sr.mode == 0 {
      return Ok(buf), pad;
    }
    r := EncryptBuffer(c, SrKey.Key(sr), buf);
  }

  method EncodeUplinkSrPacket(c: BlockCipher, packet: seq<byte>, keys: Keys, sid: u16, token: u32, sr: SrConfig)
    returns (r: Result<seq<byte>>)
    requires Lawful(c)
    ensures r == EncodeUplinkSr(c, packet, keys, sid, token, sr)
  {
    hide Lawful, Header, Ciphered, OuterCiphered, WireLinks;
    var linkCount := LinkCount(sr.links);
    if linkCount == 0 {
      return Err("SR uplink requires at least one link");
    }
    var (typ, enc) := UplinkType(packet, keys);
    var inner := CipherPayload(c, keys, enc, packet);
    if inner.Err? {
      return Err(inner.reason);
    }
    var outer, pad := WrapOuter(c, sr, inner.value);
    if outer.Err? {
      return Err(outer.reason);
    }
    var out: seq<byte> := [PT_SEGRT, linkCount - 1, linkCount, pad * 8 + sr.mode % 8];
    out := AppendWireLinks(out, sr.links);
    out := out + Header(typ, enc, sid, token);
    out := out + outer.value;
    r := Ok(out);
  }

  // ------------------------------------------------------- server reception

  /** Deciphers, trims and writes one data payload. */
  method WriteData(c: BlockCipher, keys: Keys, typ: byte, payload: seq<byte>) returns (action: ServerAction)
    requires Lawful(c)
    ensures action == ServerData(c, keys, typ, payload)
  {
    hide Lawful, Xored, DecryptBlocks;
    var buf := payload;
    if IsEncrypted(typ) {
      if keys.enc == 1 {
        buf := XorBuffer(buf, keys.xorKey);
      } else if keys.enc == 2 {
        var plain := DecryptBuffer(c, keys.aesKey, buf);
        if plain.Err? {
          return Ignored;
        }
        buf := plain.value;
      }
    }
    buf := TrimIp(buf);
    action := if buf == [] then Ignored else Wrote(buf);
  }

  method HandleSrUplink(c: BlockCipher, raw: seq<byte>, directory: Directory, sr: Option<SrConfig>)
    returns (action: ServerAction)
    requires Lawful(c)
    ensures action == ServerSr(c, raw, directory, sr)
  {
    hide Lawful, Header, ServerData, DecryptBlocks, SrKey.Key, SidOf, TokenOf;
    if |raw| < 8 {
      return Ignored;
    }
    var outer := 4 * (raw[2] as int) + 4;
    if raw[2] == 0 || |raw| < outer + 8 {
      return Ignored;
    }
    var flags := raw[3];
    var inner := raw[outer..];
    var sid, token := SidOf(inner), TokenOf(inner);
    var keys := directory(sid, token);
    if keys.None? {
      return Ignored;
    }
    if inner[0] == PT_ECHO_REQ {
      var reply := raw[..outer];
      reply := reply[1 := 0];
      reply := reply + Header(PT_ECHO_RES, 0, sid, token);
      return Echoed(reply + inner[8..]);
    }
    var typ := inner[0];
    if sr.Some? {
      var algo: byte := flags % 8;
      if algo != 0 && algo == sr.value.mode {
        var pad := flags / 8;
        var cipher := inner[8..];
        if |cipher| % 16 != 0 || |cipher| < pad {
          return Ignored;
        }
        BlocksLength(c, SrKey.Key(sr.value), cipher);
        var plain := DecryptBuffer(c, SrKey.Key(sr.value), cipher);
        cipher := plain.value[..|plain.value| - pad];
        inner := inner[..8];
        inner := inner + cipher;
      }
    }
    if IsFragment(typ) {
      return ToFragments(inner);
    }
    if !IsData(typ) {
      return Ignored;
    }
    action := WriteData(c, keys.value, typ, inner[8..]);
  }

  method HandleUdp(c: BlockCipher, raw: seq<byte>, directory: Directory, sr: Option<SrConfig>)
    returns (action: ServerAction)
    requires Lawful(c)
    ensures action == ServerReceive(c, raw, directory, sr)
  {
    hide Lawful, ServerSr, ServerData, SidOf, TokenOf;
    if |raw| < 8 {
      return Ignored;
    }
    var sid, token := SidOf(raw), TokenOf(raw);
    if raw[0] == PT_SEGRT {
      action := HandleSrUplink(c, raw, directory, sr);
    } else if IsFragment(raw[0]) {
      action := ToFragments(raw);
    } else if IsData(raw[0]) {
      var keys := directory(sid, token);
      if keys.None? {
        return Ignored;
      }
      action := WriteData(c, keys.value, raw[0], raw[8..]);
    } else {
      action := Control;
    }
  }

  // --------------------------------------------------------------- downlink

  method SendPlainPacket(c: BlockCipher, packet: seq<byte>, keys: Keys, sid: u16, token: u32)
    returns (wire: Option<seq<byte>>)
    requires Lawful(c)
    ensures wire == SendPlain(c, packet, keys, sid, token)
  {
    hide Lawful, Header, Ciphered;
    if packet == [] {
      return None;
    }
    if Version(packet) == 4 {
      var payload := packet;
      if keys.enc > 2 {
        return None;
      }
      var x := CipherPayload(c, keys, keys.enc, payload);
      if x.Err? {
        return None;
      }
      var typ := if keys.enc == 0 then PT_DATA else PT_DATA_ENC;
      return Some(Header(typ, keys.enc, sid, token) + x.value);
    } else if Version(packet) == 6 {
      return Some(Header(PT_DATA_IPV6, 0, sid, token) + packet);
    }
    wire := None;
  }

  method SendSrPacket(c: BlockCipher, packet: seq<byte>, keys: Keys, sid: u16, token: u32, sr: SrConfig)
    returns (wire: Option<seq<byte>>)
    requires Lawful(c)
    ensures wire == SendSr(c, packet, keys, sid, token, sr)
  {
    hide Lawful, Header, Ciphered, OuterCiphered, WireLinks;
    if packet == [] || (Version(packet) != 4 && Version(packet) != 6) {
      return None;
    }
    var typ := DownType(packet, keys);
    var payload := packet;
    if Version(packet) == 4 && keys.enc != 0 {
      if keys.enc > 2 {
        return None;
      }
      var x := CipherPayload(c, keys, keys.enc, payload);
      if x.Err? {
        return None;
      }
      payload := x.value;
    }
    var outer, pad := WrapOuter(c, sr, payload);
    if outer.Err? {
      return None;
    }
    var pkt: seq<byte> := [PT_SEGRT, 0, LinkCount(sr.links), pad * 8 + sr.mode % 8];
    pkt := AppendWireLinks(pkt, sr.links);
    ghost var head := pkt;
    pkt := pkt + Header(typ, keys.enc, sid, token);
    pkt := pkt + outer.value;
    assert pkt == head + (Header(typ, keys.enc, sid, token) + outer.value);
    wire := Some(pkt);
  }

  /** One fragment, appended piece by piece to what is already in the packet. */
  method AppendFragment(start: seq<byte>, typ: byte, sid: u16, token: u32, id: u32, chunk: seq<byte>, off: nat,
                        flag: nat)
    returns (pkt: seq<byte>)
    requires flag <= 1
    ensures pkt == start + FragmentPacket(typ, sid, token, id, chunk, off, flag)
  {
    hide Header, LE32, PackWord;
    pkt := start + Header(typ, 0, sid, token);
    pkt := pkt + LE32(id);
    pkt := pkt + LE32(PackWord(|chunk|, off, flag));
    pkt := pkt + chunk;
  }

  method SendTwoFragments(packet: seq<byte>, sid: u16, token: u32, id: u32) returns (wires: seq<seq<byte>>)
    ensures wires == SendFragmented(packet, sid, token, id)
  {
    hide FragmentPacket;
    wires := [];
    if |packet| < 2 {
      return;
    }
    var half := |packet| / 2;
    var typ := FragmentType(packet);
    if half <= 0x7ff {
      var pkt := AppendFragment([], typ, sid, token, id, packet[..half], 0, 0);
      assert pkt == FragmentPacket(typ, sid, token, id, packet[..half], 0, 0);
      wires := wires + [pkt];
    }
    if |packet| - half <= 0x7ff {
      var pkt := AppendFragment([], typ, sid, token, id, packet[half..], half, 1);
      assert pkt == FragmentPacket(typ, sid, token, id, packet[half..], half, 1);
      wires := wires + [pkt];
    }
  }

  method SendTwoSrFragments(c: BlockCipher, packet: seq<byte>, sid: u16, token: u32, sr: SrConfig, id: u32)
    returns (wires: seq<seq<byte>>)
    requires Lawful(c) && packet != []
    ensures wires == SendSrFragmented(c, packet, sid, token, sr, id)
  {
    hide Lawful, OuterCiphered, FragmentPacket, WireLinks;
    wires := [];
    var cipher, pad := WrapOuter(c, sr, packet);
    if cipher.Err? || |cipher.value| < 2 {
      return;
    }
    var half := |cipher.value| / 2;
    var typ := FragmentType(packet);
    var head: seq<byte> := [PT_SEGRT, 0, LinkCount(sr.links), pad * 8 + sr.mode % 8];
    head := AppendWireLinks(head, sr.links);
    assert head == OuterHeader(0, pad, sr);
    var low := AppendFragment(head, typ, sid, token, id, cipher.value[..half], 0, 0);
    var high := AppendFragment(head, typ, sid, token, id, cipher.value[half..], half, 1);
    wires := [low, high];
  }

  // ---------------------------------------------------------- client receiver

  class TunnelRx {
    const who: Client
    var frags: Frags

    constructor (who: Client)
      ensures this.who == who && frags == map[]
    {
      this.who := who;
      frags := map[];
    }

    /** Handles one datagram; what it leads the receiver to emit is returned. */
    method Handle(c: BlockCipher, buf: seq<byte>) returns (emitted: Option<seq<byte>>, failed: bool)
      requires Lawful(c)
      modifies this`frags
      ensures Received(frags, emitted, failed) == Receive(c, who, old(frags), buf)
    {
      hide Lawful, ReceiveSr, ReceiveInner;
      if |buf| < 8 {
        return None, false;
      }
      if buf[0] == PT_SEGRT {
        emitted, failed := HandleSr(c, buf);
      } else {
        emitted, failed := HandleInner(c, buf, None);
      }
    }

    method HandleSr(c: BlockCipher, buf: seq<byte>) returns (emitted: Option<seq<byte>>, failed: bool)
      requires Lawful(c) && |buf| >= 8
      modifies this`frags
      ensures Received(frags, emitted, failed) == ReceiveSr(c, who, old(frags), buf)
    {
      hide Lawful, ReceiveInner, DecryptBlocks, SrKey.Key;
      var outer := 4 * (buf[2] as int) + 4;
      if |buf| < outer + 8 {
        return None, false;
      }
      var flags := buf[3];
      var algo, pad := flags % 8, flags / 8;
      if who.sr.None? {
        return None, false;
      }
      var sr := who.sr.value;
      if algo != sr.mode % 8 {
        return None, false;
      }
      var inner := buf[outer..];
      if IsFragment(inner[0]) {
        emitted, failed := HandleInner(c, inner, Some((sr, pad)));
        return;
      }
      if sr.mode == 0 {
        emitted, failed := HandleInner(c, inner, None);
        return;
      }
      var cipher := inner[8..];
      if cipher == [] || |cipher| % 16 != 0 {
        return None, false;
      }
      var plain := DecryptBuffer(c, SrKey.Key(sr), cipher);
      if |plain.value| < pad {
        return None, false;
      }
      cipher := plain.value[..|plain.value| - pad];
      emitted, failed := HandleInner(c, inner[..8] + cipher, None);
    }

    method HandleInner(c: BlockCipher, inner: seq<byte>, outer: Option<(SrConfig, nat)>)
      returns (emitted: Option<seq<byte>>, failed: bool)
      requires Lawful(c)
      modifies this`frags
      ensures Received(frags, emitted, failed) == ReceiveInner(c, who, old(frags), inner, outer)
    {
      hide Lawful, Xored, DecryptBlocks, SidOf, TokenOf, ReceiveFragment;
      if |inner| < 8 || SidOf(inner) != who.sid || TokenOf(inner) != who.token {
        return None, false;
      }
      var typ := inner[0];
      if IsData(typ) {
        var payload := inner[8..];
        if IsEncrypted(typ) {
          if who.keys.enc == 1 {
            payload := XorBuffer(payload, who.keys.xorKey);
          } else if who.keys.enc == 2 {
            var plain := DecryptBuffer(c, who.keys.aesKey, payload);
            if plain.Err? {
              return None, true;
            }
            payload := plain.value;
          }
        }
        if IsIp(payload) {
          payload := TrimIp(payload);
          return Some(payload), false;
        }
        return None, false;
      }
      if IsFragment(typ) {
        emitted, failed := HandleFragment(c, inner, outer);
        return;
      }
      return None, false;
    }

    method HandleFragment(c: BlockCipher, inner: seq<byte>, outer: Option<(SrConfig, nat)>)
      returns (emitted: Option<seq<byte>>, failed: bool)
      requires Lawful(c) && |inner| >= 8
      modifies this`frags
      ensures Received(frags, emitted, failed) == ReceiveFragment(c, old(frags), inner, outer)
    {
      hide Lawful, FromLE32, FinishSet, FragOffset, FragLength, R.SortParts;
      if |inner| < 16 {
        return None, false;
      }
      var id, word := FromLE32(inner[8..]), FromLE32(inner[12..]);
      var end := if 16 + FragLength(word) < |inner| then 16 + FragLength(word) else |inner|;
      var part := R.Part(FragOffset(word), inner[16..end]);
      if |frags| > 16 {
        frags := map[];
      }
      ghost var kept := frags;
      var entry := if id in frags then frags[id] else FragEntry([], None, None);
      if outer.Some? {
        entry := entry.(sr := Some(outer.value.0));
        entry := entry.(pad := Some(outer.value.1));
      }
      entry := entry.(parts := R.SortParts(entry.parts + [part]));
      assert entry == Joined(kept, id, part, outer);
      frags := frags[id := entry];
      emitted, failed := Finish(c, id, entry, kept);
    }

    /** Completes the set just stored under id, if it is complete. */
    method Finish(c: BlockCipher, id: u32, entry: FragEntry, ghost kept: Frags)
      returns (emitted: Option<seq<byte>>, failed: bool)
      requires Lawful(c) && frags == kept[id := entry]
      modifies this`frags
      ensures Received(frags, emitted, failed) == FinishSet(c, kept, id, entry)
    {
      hide Lawful, DecryptBlocks, SrKey.Key, R.Join, IsIp;
      assert frags - {id} == kept - {id};
      if |entry.parts| < 2 {
        return None, false;
      }
      var joined := R.JoinParts(entry.parts);
      if joined.None? {
        return None, false;
      }
      var packet := joined.value;
      if entry.sr.Some? && entry.sr.value.mode != 0 {
        if |packet| % 16 != 0 {
          return None, true;
        }
        var plain := DecryptBuffer(c, SrKey.Key(entry.sr.value), packet);
        packet := plain.value;
        if entry.pad.Some? {
          if |packet| < entry.pad.value {
            frags := frags - {id};
            return None, false;
          }
          packet := packet[..|packet| - entry.pad.value];
        }
      }
      frags := frags - {id};
      emitted, failed := if IsIp(packet) then Some(packet) else None, false;
    }
  }
}
