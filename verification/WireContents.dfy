/** What is on the wire, byte by byte, for the packets each side sends
    (src/core/tunnel.rs and src/bin/server/downlink.rs): which type a packet
    travels under, how its bytes are masked or encrypted, and how the segment
    routing header around it is laid out. */
module WireContents {
  import opened Bytes
  import opened Wrappers
  import opened Crypto
  import opened IpPacket
  import opened SrKey
  import opened Tunnel
  import opened Downlink
  import opened FragmentedDownlink

  // ------------------------------------------------------------ the payload

  /** Each sixteen bytes of cipher are the block function of the same sixteen
      bytes of plain. */
  ghost predicate Blockwise(c: BlockCipher, key: seq<byte>, plain: seq<byte>, cipher: seq<byte>) {
    && |cipher| == |plain| && |plain| % 16 == 0
    && forall k {:trigger c.encrypt(key, plain[16 * k..16 * k + 16])} | 0 <= k < |plain| / 16 ::
         cipher[16 * k..16 * k + 16] == c.encrypt(key, plain[16 * k..16 * k + 16])
  }

  /** How a packet travels, by its version and the session's mode: IPv6 in clear
      under 0x23; IPv4 in clear under 0x14, masked under 0x18 byte by byte, or
      padded with zeros and encrypted under 0x18 block by block. */
  ghost predicate Travels(c: BlockCipher, keys: Keys, packet: seq<byte>, typ: byte, payload: seq<byte>)
    requires packet != []
  {
    if Version(packet) == 6 then typ == 0x23 && payload == packet
    else if keys.enc == 0 then typ == 0x14 && payload == packet
    else if keys.enc == 1 then
      && typ == 0x18 && |payload| == |packet|
      && forall i | 0 <= i < |packet| ::
           payload[i] == if keys.xorKey == [] then packet[i] else Xor(packet[i], keys.xorKey[i % |keys.xorKey|])
    else
      typ == 0x18 && Blockwise(c, keys.aesKey, packet + Zeros((16 - |packet| % 16) % 16), payload)
  }

  lemma EncryptedBlockwise(c: BlockCipher, key: seq<byte>, data: seq<byte>)
    requires Lawful(c) && |data| % 16 == 0
    ensures Blockwise(c, key, data, EncryptBlocks(c, key, data))
  {
    var n := |data| / 16;
    ChunksLength(c, key, data, n);
    forall k | 0 <= k < n
      ensures EncryptBlocks(c, key, data)[16 * k..16 * k + 16] == c.encrypt(key, data[16 * k..16 * k + 16])
    {
      ChunkAt(c, key, data, k, n);
    }
  }

  lemma CipheredTravels(c: BlockCipher, keys: Keys, packet: seq<byte>)
    requires Lawful(c) && KeySize(keys.aesKey) && packet != [] && Version(packet) == 4 && 1 <= keys.enc <= 2
    ensures Ciphered(c, keys, keys.enc, packet).Ok?
    ensures Travels(c, keys, packet, 0x18, Ciphered(c, keys, keys.enc, packet).value)
  {
    if keys.enc == 2 {
      EncryptedBlockwise(c, keys.aesKey, packet + Zeros(Pad16(|packet|)));
    } else if keys.xorKey != [] {
      MaskedAt(packet, keys.xorKey);
    }
  }

  /** A packet the way down in one datagram. */
  lemma PlainOnWire(c: BlockCipher, packet: seq<byte>, keys: Keys, sid: u16, token: u32)
    requires Lawful(c) && KeySize(keys.aesKey) && IsIp(packet) && keys.enc <= 2
    ensures var wire := SendPlain(c, packet, keys, sid, token);
            && wire.Some? && |wire.value| >= 8
            && wire.value[1] == (if Version(packet) == 6 then 0 else keys.enc)
            && wire.value[2..8] == BE16(sid) + BE32(token)
            && Travels(c, keys, packet, wire.value[0], wire.value[8..])
  {
    if Version(packet) == 4 && keys.enc != 0 { CipheredTravels(c, keys, packet); }
    hide Travels, Ciphered, BE16, BE32;
  }

  /** A packet the way up in one datagram: header and payload. */
  lemma UplinkOnWire(c: BlockCipher, packet: seq<byte>, capacity: nat, keys: Keys, sid: u16, token: u32)
    requires Lawful(c) && KeySize(keys.aesKey) && IsIp(packet) && keys.enc <= 2
    requires |packet| + UplinkPad(packet, keys) <= capacity
    ensures var f := EncodeUplink(c, packet, capacity, keys, sid, token);
            && f.Ok? && |f.value.header| == 8
            && f.value.header[1] == (if Version(packet) == 6 then 0 else keys.enc)
            && f.value.header[2..] == BE16(sid) + BE32(token)
            && Travels(c, keys, packet, f.value.header[0], f.value.payload)
  {
    if Version(packet) == 4 && keys.enc != 0 { CipheredTravels(c, keys, packet); }
    hide Travels, Ciphered, BE16, BE32;
  }

  // -------------------------------------------------------- segment routing

  /** The outer header: type 0x28, a byte for the next hop, the number of links,
      the padding and mode, and the last six links at most, last one first. */
  ghost predicate OuterFor(sr: SrConfig, next: byte, pad: nat, outer: seq<byte>) {
    var n := if |sr.links| < 6 then |sr.links| else 6;
    && |outer| == 4 + 4 * n
    && outer[0] == 0x28 && outer[1] == next && outer[2] == n && outer[3] == pad * 8 + sr.mode % 8
    && forall k | 0 <= k < n :: FromBE32(outer[4 + 4 * k..]) == sr.links[|sr.links| - 1 - k]
  }

  /** The body behind the inner header: the payload as it is in mode 0, padded
      with zeros and encrypted block by block otherwise. */
  ghost predicate BodyFor(c: BlockCipher, sr: SrConfig, payload: seq<byte>, pad: nat, body: seq<byte>) {
    if sr.mode == 0 then pad == 0 && body == payload
    else pad == (16 - |payload| % 16) % 16 && Blockwise(c, Key(sr), payload + Zeros(pad), body)
  }

  lemma {:induction false} LinkAt(links: seq<u32>, k: nat, rest: seq<byte>)
    requires k < |links|
    ensures FromBE32((LinkBytes(links) + rest)[4 * k..]) == links[k]
    decreases |links|
  {
    hide BE32, FromBE32;
    var front, last := links[..|links| - 1], links[|links| - 1];
    assert LinkBytes(links) + rest == LinkBytes(front) + (BE32(last) + rest);
    if k < |front| {
      LinkAt(front, k, BE32(last) + rest);
    } else {
      assert (LinkBytes(front) + (BE32(last) + rest))[4 * k..] == BE32(last) + rest;
      BE32RoundTrip(last, rest);
    }
  }

  lemma OuterIsFor(sr: SrConfig, next: byte, pad: nat)
    requires pad < 16
    ensures OuterFor(sr, next, pad, OuterHeader(next, pad, sr))
  {
    hide FromBE32, LinkBytes;
    var n, outer := LinkCount(sr.links), OuterHeader(next, pad, sr);
    var links := Reverse(sr.links)[..n];
    assert outer == [0x28, next, n, pad * 8 + sr.mode % 8] + LinkBytes(links);
    forall k | 0 <= k < n ensures FromBE32(outer[4 + 4 * k..]) == sr.links[|sr.links| - 1 - k] {
      LinkAt(links, k, []);
      assert outer[4 + 4 * k..] == (LinkBytes(links) + [])[4 * k..];
    }
  }

  lemma BodyIsFor(c: BlockCipher, sr: SrConfig, payload: seq<byte>)
    requires Lawful(c)
    ensures OuterCiphered(c, sr, payload).Ok?
    ensures BodyFor(c, sr, payload, OuterPad(sr, |payload|), OuterCiphered(c, sr, payload).value)
  {
    if sr.mode == 0 {
      assert payload + Zeros(0) == payload;
    } else {
      EncryptedBlockwise(c, Key(sr), payload + Zeros(Pad16(|payload|)));
    }
    hide Key;
  }

  /** A whole segment routing datagram: outer header, inner header, body. */
  ghost predicate SrWire(c: BlockCipher, sr: SrConfig, keys: Keys, packet: seq<byte>, next: byte, mode: byte, sid: u16,
                         token: u32, wire: seq<byte>)
    requires packet != []
  {
    exists payload: seq<byte>, pad: nat ::
      SrWireOf(c, sr, keys, packet, next, mode, sid, token, wire, payload, pad)
  }

  ghost predicate SrWireOf(c: BlockCipher, sr: SrConfig, keys: Keys, packet: seq<byte>, next: byte, mode: byte,
                           sid: u16, token: u32, wire: seq<byte>, payload: seq<byte>, pad: nat)
    requires packet != []
  {
    var at := 4 + 4 * if |sr.links| < 6 then |sr.links| else 6;
    && |wire| >= at + 8 && OuterFor(sr, next, pad, wire[..at])
    && wire[at + 1] == mode && wire[at + 2..at + 8] == BE16(sid) + BE32(token)
    && Travels(c, keys, packet, wire[at], payload)
    && BodyFor(c, sr, payload, pad, wire[at + 8..])
  }

  lemma HeaderPlaced(outer: seq<byte>, typ: byte, mode: byte, sid: u16, token: u32, body: seq<byte>)
    ensures var wire, at := outer + (Header(typ, mode, sid, token) + body), |outer|;
            && wire[..at] == outer && wire[at] == typ && wire[at + 1] == mode
            && wire[at + 2..at + 8] == BE16(sid) + BE32(token) && wire[at + 8..] == body
  {
    hide BE16, BE32;
    var head, at := Header(typ, mode, sid, token), |outer|;
    var wire := outer + (head + body);
    assert wire[at..at + 8] == head;
    assert wire[at + 2..at + 8] == head[2..];
  }

  lemma SrWireMade(c: BlockCipher, sr: SrConfig, keys: Keys, packet: seq<byte>, next: byte, typ: byte, mode: byte,
                   sid: u16, token: u32, payload: seq<byte>)
    requires Lawful(c) && packet != [] && Travels(c, keys, packet, typ, payload)
    ensures OuterCiphered(c, sr, payload).Ok?
    ensures var wire := OuterHeader(next, OuterPad(sr, |payload|), sr)
                        + (Header(typ, mode, sid, token) + OuterCiphered(c, sr, payload).value);
            SrWire(c, sr, keys, packet, next, mode, sid, token, wire)
  {
    var pad := OuterPad(sr, |payload|);
    OuterIsFor(sr, next, pad);
    BodyIsFor(c, sr, payload);
    hide Travels, OuterFor, BodyFor, OuterCiphered, OuterPad, OuterHeader, Header, BE16, BE32, Lawful;
    var outer, body := OuterHeader(next, pad, sr), OuterCiphered(c, sr, payload).value;
    HeaderPlaced(outer, typ, mode, sid, token, body);
    var wire := outer + (Header(typ, mode, sid, token) + body);
    assert SrWireOf(c, sr, keys, packet, next, mode, sid, token, wire, payload, pad);
  }

  /** A packet the way down over segment routing. */
  lemma SrOnWire(c: BlockCipher, packet: seq<byte>, keys: Keys, sid: u16, token: u32, sr: SrConfig)
    requires Lawful(c) && KeySize(keys.aesKey) && IsIp(packet) && keys.enc <= 2
    ensures var wire := SendSr(c, packet, keys, sid, token, sr);
            wire.Some? && SrWire(c, sr, keys, packet, 0, keys.enc, sid, token, wire.value)
  {
    var typ := DownType(packet, keys);
    if IsEncrypted(typ) { CipheredTravels(c, keys, packet); }
    var payload := if IsEncrypted(typ) then Ciphered(c, keys, keys.enc, packet).value else packet;
    assert Travels(c, keys, packet, typ, payload);
    hide Travels, Ciphered, SrWire, OuterCiphered, OuterHeader, Header;
    SrWireMade(c, sr, keys, packet, 0, typ, keys.enc, sid, token, payload);
  }

  /** A packet the way up over segment routing; the next hop is the number of
      links less one. */
  lemma UplinkSrOnWire(c: BlockCipher, packet: seq<byte>, keys: Keys, sid: u16, token: u32, sr: SrConfig)
    requires Lawful(c) && KeySize(keys.aesKey) && IsIp(packet) && keys.enc <= 2 && sr.links != []
    ensures var wire := EncodeUplinkSr(c, packet, keys, sid, token, sr);
            && wire.Ok?
            && SrWire(c, sr, keys, packet, (if |sr.links| < 6 then |sr.links| else 6) - 1,
                      if Version(packet) == 6 then 0 else keys.enc, sid, token, wire.value)
  {
    UplinkTravels(c, packet, keys);
    var (typ, enc) := UplinkType(packet, keys);
    var payload := Ciphered(c, keys, enc, packet).value;
    hide Travels, Ciphered, SrWire, OuterCiphered, OuterHeader, Header, UplinkType, KeySize, Lawful;
    SrWireMade(c, sr, keys, packet, LinkCount(sr.links) - 1, typ, enc, sid, token, payload);
    var outer, head := OuterHeader(LinkCount(sr.links) - 1, OuterPad(sr, |payload|), sr), Header(typ, enc, sid, token);
    assert outer + head + OuterCiphered(c, sr, payload).value == outer + (head + OuterCiphered(c, sr, payload).value);
  }

  lemma UplinkTravels(c: BlockCipher, packet: seq<byte>, keys: Keys)
    requires Lawful(c) && KeySize(keys.aesKey) && IsIp(packet) && keys.enc <= 2
    ensures var (typ, enc) := UplinkType(packet, keys);
            && enc == (if Version(packet) == 6 then 0 else keys.enc)
            && Ciphered(c, keys, enc, packet).Ok?
            && Travels(c, keys, packet, typ, Ciphered(c, keys, enc, packet).value)
  {
    if Version(packet) == 4 && keys.enc != 0 { CipheredTravels(c, keys, packet); }
    hide KeySize, Lawful, Blockwise;
  }

  /** The two fragments the way down over segment routing: the halves of the
      whole packet, encrypted before it is split, each behind the outer header. */
  lemma SrFragmentsOnWire(c: BlockCipher, packet: seq<byte>, sid: u16, token: u32, sr: SrConfig, id: u32)
    requires Lawful(c) && IsIp(packet)
    ensures var wires := SendSrFragmented(c, packet, sid, token, sr, id);
            && |wires| == 2
            && exists body, outer, pad: nat :: SrHalves(c, packet, sid, token, sr, id, wires, body, outer, pad)
  {
    var pad := OuterPad(sr, |packet|);
    OuterIsFor(sr, 0, pad);
    BodyIsFor(c, sr, packet);
    var body, outer := OuterCiphered(c, sr, packet).value, OuterHeader(0, pad, sr);
    assert |body| >= |packet| by { BodyLong(c, sr, packet, pad, body); }
    hide OuterFor, BodyFor, OuterCiphered, OuterHeader, FragmentPacket, OuterPad;
    assert SrHalves(c, packet, sid, token, sr, id, SendSrFragmented(c, packet, sid, token, sr, id), body, outer, pad);
  }

  lemma BodyLong(c: BlockCipher, sr: SrConfig, payload: seq<byte>, pad: nat, body: seq<byte>)
    requires BodyFor(c, sr, payload, pad, body)
    ensures |body| == |payload| + pad
  {
  }

  ghost predicate SrHalves(c: BlockCipher, packet: seq<byte>, sid: u16, token: u32, sr: SrConfig, id: u32,
                           wires: seq<seq<byte>>, body: seq<byte>, outer: seq<byte>, pad: nat)
    requires packet != []
  {
    var h, typ := |body| / 2, if Version(packet) == 6 then 0x24 else 0x22;
    && OuterFor(sr, 0, pad, outer) && BodyFor(c, sr, packet, pad, body)
    && wires == [outer + FragmentPacket(typ, sid, token, id, body[..h], 0, 0),
                 outer + FragmentPacket(typ, sid, token, id, body[h..], h, 1)]
  }
}
