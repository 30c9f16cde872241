/** The data plane: what each side puts on the wire for an IP packet and what
    the other side makes of it (src/core/tunnel.rs, src/bin/server/downlink.rs,
    src/bin/server/handler.rs, src/core/protocol.rs). */
module Tunnel {
  import opened Bytes
  import opened Wrappers
  import opened Crypto
  import opened IpPacket
  import opened SrKey

  const PT_DATA: byte := 0x14
  const PT_ECHO_REQ: byte := 0x15
  const PT_ECHO_RES: byte := 0x16
  const PT_DATA_ENC: byte := 0x18
  const PT_DATA_DUP: byte := 0x19
  const PT_DATA_ENC_DUP: byte := 0x20
  const PT_IPFRAG: byte := 0x22
  const PT_DATA_IPV6: byte := 0x23
  const PT_IPFRAG_ALT: byte := 0x24
  const PT_SEGRT: byte := 0x28

  /** A session's keys and its negotiated payload mode. */
  datatype Keys = Keys(xorKey: seq<byte>, aesKey: seq<byte>, enc: byte)

  /** The keys of a session, by session id and token, if it is live. */
  type Directory = (u16, u32) -> Option<Keys>

  // ---------------------------------------------------------------- headers

  function Header(typ: byte, enc: byte, sid: u16, token: u32): (h: seq<byte>)
    ensures |h| == 8
  {
    [typ, enc] + BE16(sid) + BE32(token)
  }

  function SidOf(b: seq<byte>): u16
    requires |b| >= 8
  {
    FromBE16(b[2..])
  }

  function TokenOf(b: seq<byte>): u32
    requires |b| >= 8
  {
    FromBE32(b[4..])
  }

  /** A header is read back whatever follows it. */
  lemma HeaderRead(typ: byte, enc: byte, sid: u16, token: u32, rest: seq<byte>)
    ensures var b := Header(typ, enc, sid, token) + rest;
            b[0] == typ && b[1] == enc && SidOf(b) == sid && TokenOf(b) == token && b[8..] == rest
  {
    var b := Header(typ, enc, sid, token) + rest;
    assert b[2..] == BE16(sid) + (BE32(token) + rest);
    assert b[4..] == BE32(token) + rest;
    BE16RoundTrip(sid, BE32(token) + rest);
    BE32RoundTrip(token, rest);
  }

  predicate IsData(typ: byte) {
    typ == PT_DATA || typ == PT_DATA_ENC || typ == PT_DATA_IPV6 || typ == PT_DATA_DUP || typ == PT_DATA_ENC_DUP
  }

  predicate IsEncrypted(typ: byte) {
    typ == PT_DATA_ENC || typ == PT_DATA_ENC_DUP
  }

  predicate IsFragment(typ: byte) {
    typ == PT_IPFRAG || typ == PT_IPFRAG_ALT
  }

  /** The type under which the second copy of a packet is sent. */
  function DupType(typ: byte): byte {
    if typ == PT_DATA then PT_DATA_DUP else if typ == PT_DATA_ENC then PT_DATA_ENC_DUP else typ
  }

  // ------------------------------------------------------- payload ciphering

  /** Undoes the payload cipher of a session. */
  function Deciphered(c: BlockCipher, keys: Keys, typ: byte, payload: seq<byte>): Result<seq<byte>> {
    if !IsEncrypted(typ) then Ok(payload)
    else if keys.enc == 1 then Ok(Xored(payload, keys.xorKey))
    else if keys.enc == 2 then EcbDecrypt(c, keys.aesKey, payload)
    else Ok(payload)
  }

  /** Applies the payload cipher of mode `enc`, padding for the block cipher. */
  function Ciphered(c: BlockCipher, keys: Keys, enc: byte, payload: seq<byte>): Result<seq<byte>> {
    if enc == 1 then Ok(Xored(payload, keys.xorKey))
    else if enc == 2 then EcbEncrypt(c, keys.aesKey, payload + Zeros(Pad16(|payload|)))
    else Ok(payload)
  }

  function SrEncrypted(c: BlockCipher, sr: SrConfig, data: seq<byte>): Result<seq<byte>> {
    if |data| % 16 != 0 then Err("SR payload is not 16-byte aligned")
    else Ok(EncryptBlocks(c, Key(sr), data))
  }

  function SrDecrypted(c: BlockCipher, sr: SrConfig, data: seq<byte>): Result<seq<byte>> {
    if |data| % 16 != 0 then Err("SR payload is not 16-byte aligned")
    else Ok(DecryptBlocks(c, Key(sr), data))
  }

  /** Ciphering then deciphering restores the payload up to zero padding. */
  lemma DeciphersCiphered(c: BlockCipher, keys: Keys, typ: byte, payload: seq<byte>)
    requires Lawful(c) && KeySize(keys.aesKey) && IsEncrypted(typ)
    ensures var x := Ciphered(c, keys, keys.enc, payload);
            && x.Ok? && |x.value| >= |payload|
            && Deciphered(c, keys, typ, x.value)
               == Ok(payload + Zeros(if keys.enc == 2 then Pad16(|payload|) else 0))
  {
    if keys.enc == 1 {
      XoredTwice(payload, keys.xorKey);
      assert payload + Zeros(0) == payload;
    } else if keys.enc == 2 {
      DecryptsBlocks(c, keys.aesKey, payload + Zeros(Pad16(|payload|)));
    } else {
      assert payload + Zeros(0) == payload;
    }
  }

  lemma SrDecryptsEncrypted(c: BlockCipher, ours: SrConfig, theirs: SrConfig, data: seq<byte>)
    requires Lawful(c) && Key(ours) == Key(theirs) && |data| % 16 == 0
    ensures var x := SrEncrypted(c, ours, data);
            x.Ok? && |x.value| == |data| && SrDecrypted(c, theirs, x.value) == Ok(data)
  {
    DecryptsBlocks(c, Key(ours), data);
  }

  // -------------------------------------------------------- the outer header

  /** Wire copy of the links: reversed, at most six. */
  function WireLinks(links: seq<u32>): (s: seq<byte>)
    ensures |s| == 4 * LinkCount(links)
  {
    LinkBytes(Reverse(links)[..LinkCount(links)])
  }

  function LinkCount(links: seq<u32>): nat {
    if |links| < 6 then |links| else 6
  }

  function OuterHeader(next: byte, pad: nat, sr: SrConfig): (h: seq<byte>)
    requires pad < 16
    ensures |h| == 4 + 4 * LinkCount(sr.links)
  {
    [PT_SEGRT, next, LinkCount(sr.links), pad * 8 + sr.mode % 8] + WireLinks(sr.links)
  }

  /** The outer layer: with a cipher mode, the payload padded and encrypted. */
  function OuterPad(sr: SrConfig, n: nat): (pad: nat)
    ensures pad < 16
  {
    if sr.mode == 0 then 0 else Pad16(n)
  }

  function OuterCiphered(c: BlockCipher, sr: SrConfig, payload: seq<byte>): Result<seq<byte>> {
    var padded := payload + Zeros(OuterPad(sr, |payload|));
    if sr.mode == 0 then Ok(padded) else SrEncrypted(c, sr, padded)
  }

  // ----------------------------------------------------------------- uplink

  datatype Frame = Frame(header: seq<byte>, payload: seq<byte>)

  /** One uplink packet in a buffer of the given capacity. */
  function EncodeUplink(c: BlockCipher, packet: seq<byte>, capacity: nat, keys: Keys, sid: u16,
                        token: u32): Result<Frame> {
    if packet == [] || |packet| > capacity then Err("invalid inner packet length")
    else if Version(packet) == 6 then Ok(Frame(Header(PT_DATA_IPV6, 0, sid, token), packet))
    else if Version(packet) != 4 then Err("not an IPv4/IPv6 packet")
    else if keys.enc == 0 then Ok(Frame(Header(PT_DATA, 0, sid, token), packet))
    else if keys.enc > 2 then Err("unsupported encryption mode")
    else if keys.enc == 2 && |packet| + Pad16(|packet|) > capacity then Err("AES padding exceeds upload slot")
    else
      var x := Ciphered(c, keys, keys.enc, packet);
      if x.Err? then Err(x.reason) else Ok(Frame(Header(PT_DATA_ENC, keys.enc, sid, token), x.value))
  }

  function EncodeUplinkSr(c: BlockCipher, packet: seq<byte>, keys: Keys, sid: u16, token: u32,
                          sr: SrConfig): Result<seq<byte>> {
    if sr.links == [] then Err("SR uplink requires at least one link")
    else
      var (typ, enc) := UplinkType(packet, keys);
      var inner := Ciphered(c, keys, enc, packet);
      if inner.Err? then Err(inner.reason)
      else
        var outer := OuterCiphered(c, sr, inner.value);
        if outer.Err? then Err(outer.reason)
        else Ok(OuterHeader(LinkCount(sr.links) - 1, OuterPad(sr, |inner.value|), sr)
                + Header(typ, enc, sid, token) + outer.value)
  }

  // ------------------------------------------------------- server reception

  datatype ServerAction =
    | Ignored
    | Wrote(packet: seq<byte>)
    | Echoed(reply: seq<byte>)
    | ToFragments(inner: seq<byte>)
    | Control

  /** A data packet for a live session: decipher, trim, write to the TUN device. */
  function ServerData(c: BlockCipher, keys: Keys, typ: byte, payload: seq<byte>): ServerAction {
    var plain := Deciphered(c, keys, typ, payload);
    if plain.Err? then Ignored
    else
      var packet := TrimIp(plain.value);
      if packet == [] then Ignored else Wrote(packet)
  }

  /** Removes the outer cipher of an uplink SR packet, if there is one. */
  function ServerStrip(c: BlockCipher, sr: Option<SrConfig>, flags: byte, inner: seq<byte>): Option<seq<byte>>
    requires |inner| >= 8
  {
    if sr.None? || flags % 8 == 0 || flags % 8 != sr.value.mode then Some(inner)
    else
      var cipher, pad := inner[8..], flags / 8;
      if |cipher| % 16 != 0 || |cipher| < pad then None
      else
        var plain := DecryptBlocks(c, Key(sr.value), cipher);
        if |plain| < pad then None else Some(inner[..8] + plain[..|plain| - pad])
  }

  function ServerSr(c: BlockCipher, raw: seq<byte>, directory: Directory, sr: Option<SrConfig>): ServerAction {
    if |raw| < 8 then Ignored
    else
      var outer := 4 * (raw[2] as int) + 4;
      if raw[2] == 0 || |raw| < outer + 8 then Ignored
      else
        var inner := raw[outer..];
        var keys := directory(SidOf(inner), TokenOf(inner));
        if keys.None? then Ignored
        else if inner[0] == PT_ECHO_REQ then
          Echoed(raw[..outer][1 := 0] + Header(PT_ECHO_RES, 0, SidOf(inner), TokenOf(inner)) + inner[8..])
        else
          var stripped := ServerStrip(c, sr, raw[3], inner);
          if stripped.None? then Ignored
          else if IsFragment(inner[0]) then ToFragments(stripped.value)
          else if !IsData(inner[0]) then Ignored
          else ServerData(c, keys.value, inner[0], stripped.value[8..])
  }

  /** A datagram at the server. Control packets are not part of the data plane. */
  function ServerReceive(c: BlockCipher, raw: seq<byte>, directory: Directory, sr: Option<SrConfig>): ServerAction {
    if |raw| < 8 then Ignored
    else if raw[0] == PT_SEGRT then ServerSr(c, raw, directory, sr)
    else if IsFragment(raw[0]) then ToFragments(raw)
    else if !IsData(raw[0]) then Control
    else
      var keys := directory(SidOf(raw), TokenOf(raw));
      if keys.None? then Ignored else ServerData(c, keys.value, raw[0], raw[8..])
  }

  // --------------------------------------------------- uplink round trips

  /** The padding a packet needs on its way up: only AES over IPv4 has any. */
  function UplinkPad(packet: seq<byte>, keys: Keys): nat {
    if packet != [] && Version(packet) == 4 && keys.enc == 2 then Pad16(|packet|) else 0
  }

  /** A well-formed packet, sent once or as a duplicate, reaches the server's
      TUN device byte for byte, with all padding gone. */
  lemma UplinkRoundTrip(c: BlockCipher, packet: seq<byte>, capacity: nat, keys: Keys, sid: u16, token: u32,
                        directory: Directory, sr: Option<SrConfig>, dup: bool)
    requires Lawful(c) && WellFormed(packet) && KeySize(keys.aesKey) && keys.enc <= 2
    requires |packet| + UplinkPad(packet, keys) <= capacity
    requires directory(sid, token) == Some(keys)
    ensures var f := EncodeUplink(c, packet, capacity, keys, sid, token);
            && f.Ok? && |f.value.header| == 8
            && var header := if dup then f.value.header[0 := DupType(f.value.header[0])] else f.value.header;
               ServerReceive(c, header + f.value.payload, directory, sr) == Wrote(packet)
  {
    var (typ, enc) := UplinkType(packet, keys);
    UplinkFrame(c, packet, capacity, keys, sid, token);
    hide EncodeUplink;
    var f := EncodeUplink(c, packet, capacity, keys, sid, token).value;
    var wireType := if dup then DupType(typ) else typ;
    assert (if dup then f.header[0 := DupType(typ)] else f.header) == Header(wireType, enc, sid, token);
    hide Header;
    DataArrives(c, packet, keys, wireType, f.payload);
    DataReceived(c, wireType, enc, sid, token, f.payload, keys, directory, sr);
  }

  /** The type and mode byte under which a packet goes up. */
  function UplinkType(packet: seq<byte>, keys: Keys): (byte, byte) {
    if packet != [] && Version(packet) == 6 then (PT_DATA_IPV6, 0)
    else if keys.enc == 0 then (PT_DATA, 0)
    else (PT_DATA_ENC, keys.enc)
  }

  /** The frame of a well-formed packet: its header, and its payload ciphered
      exactly when the header says so. */
  lemma UplinkFrame(c: BlockCipher, packet: seq<byte>, capacity: nat, keys: Keys, sid: u16, token: u32)
    requires Lawful(c) && WellFormed(packet) && KeySize(keys.aesKey) && keys.enc <= 2
    requires |packet| + UplinkPad(packet, keys) <= capacity
    ensures var (typ, enc) := UplinkType(packet, keys);
            var f := EncodeUplink(c, packet, capacity, keys, sid, token);
            && f.Ok? && f.value.header == Header(typ, enc, sid, token)
            && (if IsEncrypted(typ) then Ciphered(c, keys, keys.enc, packet) == Ok(f.value.payload)
                else f.value.payload == packet)
  {
    DeciphersCiphered(c, keys, PT_DATA_ENC, packet);
    hide Ciphered, Header;
  }

  lemma DataReceived(c: BlockCipher, typ: byte, enc: byte, sid: u16, token: u32, payload: seq<byte>, keys: Keys,
                     directory: Directory, sr: Option<SrConfig>)
    requires IsData(typ) && directory(sid, token) == Some(keys)
    ensures ServerReceive(c, Header(typ, enc, sid, token) + payload, directory, sr) == ServerData(c, keys, typ, payload)
  {
    HeaderRead(typ, enc, sid, token, payload);
    hide Header, ServerData, ServerSr;
  }

  /** What the server makes of a payload that deciphers to a padded packet. */
  lemma DataArrives(c: BlockCipher, packet: seq<byte>, keys: Keys, typ: byte, payload: seq<byte>)
    requires WellFormed(packet) && Lawful(c) && KeySize(keys.aesKey)
    requires if IsEncrypted(typ) then Ciphered(c, keys, keys.enc, packet) == Ok(payload) else payload == packet
    ensures ServerData(c, keys, typ, payload) == Wrote(packet)
    ensures Deciphered(c, keys, typ, payload).Ok?
    ensures var plain := Deciphered(c, keys, typ, payload).value; IsIp(plain) && TrimIp(plain) == packet
  {
    if IsEncrypted(typ) {
      DeciphersCiphered(c, keys, typ, packet);
      TrimRestores(packet, Zeros(if keys.enc == 2 then Pad16(|packet|) else 0));
    } else {
      TrimRestores(packet, []);
      assert packet + [] == packet;
    }
  }

  /** The outer header and the inner packet behind it are told apart. */
  lemma OuterSplit(next: byte, pad: nat, sr: SrConfig, inner: seq<byte>)
    requires pad < 16
    ensures var raw := OuterHeader(next, pad, sr) + inner;
            && raw[0] == PT_SEGRT && raw[2] == LinkCount(sr.links)
            && raw[3] == pad * 8 + sr.mode % 8 && raw[3] % 8 == sr.mode % 8 && raw[3] / 8 == pad
            && raw[4 * (raw[2] as int) + 4..] == inner
  {
  }

  /** The same over segment routing, for any inner mode, any outer mode and any
      number of links, also when the server lists the links the other way. */
  lemma UplinkSrRoundTrip(c: BlockCipher, packet: seq<byte>, keys: Keys, sid: u16, token: u32,
                          directory: Directory, ours: SrConfig, theirs: Option<SrConfig>)
    requires Lawful(c) && WellFormed(packet) && KeySize(keys.aesKey) && keys.enc <= 2
    requires ours.links != [] && ours.mode < 8
    requires directory(sid, token) == Some(keys)
    requires ours.mode != 0 ==> theirs.Some? && theirs.value.mode == ours.mode && Key(theirs.value) == Key(ours)
    ensures var wire := EncodeUplinkSr(c, packet, keys, sid, token, ours);
            wire.Ok? && ServerReceive(c, wire.value, directory, theirs) == Wrote(packet)
  {
    hide OuterCiphered, OuterHeader, Header, ServerReceive, ServerData, EncodeUplinkSr, ServerStrip, Lawful, KeySize,
      Deciphered, TrimIp, Key;
    var (typ, enc) := UplinkType(packet, keys);
    DeciphersCiphered(c, keys, PT_DATA_ENC, packet);
    var inner := Ciphered(c, keys, enc, packet).value;
    SrStripped(c, ours, theirs, typ, enc, sid, token, inner);
    var body := OuterCiphered(c, ours, inner).value;
    DataArrives(c, packet, keys, typ, inner);
    SrReceived(c, OuterPad(ours, |inner|), ours, typ, enc, sid, token, body, inner, keys, directory, theirs);
    UplinkSrShape(c, packet, keys, sid, token, ours, inner, body);
  }

  lemma UplinkSrShape(c: BlockCipher, packet: seq<byte>, keys: Keys, sid: u16, token: u32, sr: SrConfig,
                      inner: seq<byte>, body: seq<byte>)
    requires sr.links != [] && Ciphered(c, keys, UplinkType(packet, keys).1, packet) == Ok(inner)
    requires OuterCiphered(c, sr, inner) == Ok(body)
    ensures var (typ, enc) := UplinkType(packet, keys);
            var head := OuterHeader(LinkCount(sr.links) - 1, OuterPad(sr, |inner|), sr);
            EncodeUplinkSr(c, packet, keys, sid, token, sr) == Ok(head + (Header(typ, enc, sid, token) + body))
  {
    hide Ciphered, OuterCiphered, OuterHeader, Header;
    var (typ, enc) := UplinkType(packet, keys);
    var head := OuterHeader(LinkCount(sr.links) - 1, OuterPad(sr, |inner|), sr);
    assert head + (Header(typ, enc, sid, token) + body) == head + Header(typ, enc, sid, token) + body;
  }

  lemma SrReceived(c: BlockCipher, pad: nat, ours: SrConfig, typ: byte, enc: byte, sid: u16, token: u32,
                   body: seq<byte>, inner: seq<byte>, keys: Keys, directory: Directory, theirs: Option<SrConfig>)
    requires pad < 16 && IsData(typ) && directory(sid, token) == Some(keys) && ours.links != []
    requires ServerStrip(c, theirs, pad * 8 + ours.mode % 8, Header(typ, enc, sid, token) + body)
          == Some(Header(typ, enc, sid, token) + inner)
    ensures ServerReceive(c, OuterHeader(LinkCount(ours.links) - 1, pad, ours)
                          + (Header(typ, enc, sid, token) + body), directory, theirs)
         == ServerData(c, keys, typ, inner)
  {
    hide Header, ServerData, ServerStrip, OuterHeader, SidOf, TokenOf, WireLinks;
    OuterSplit(LinkCount(ours.links) - 1, pad, ours, Header(typ, enc, sid, token) + body);
    HeaderRead(typ, enc, sid, token, body);
    HeaderRead(typ, enc, sid, token, inner);
  }

  lemma SrStripped(c: BlockCipher, ours: SrConfig, theirs: Option<SrConfig>, typ: byte, enc: byte, sid: u16,
                   token: u32, inner: seq<byte>)
    requires Lawful(c) && ours.mode < 8
    requires ours.mode != 0 ==> theirs.Some? && theirs.value.mode == ours.mode && Key(theirs.value) == Key(ours)
    ensures var body := OuterCiphered(c, ours, inner);
            && body.Ok?
            && ServerStrip(c, theirs, OuterPad(ours, |inner|) * 8 + ours.mode % 8,
                           Header(typ, enc, sid, token) + body.value)
               == Some(Header(typ, enc, sid, token) + inner)
  {
    var pad := OuterPad(ours, |inner|);
    if ours.mode == 0 {
      assert inner + Zeros(0) == inner;
    } else {
      var padded := inner + Zeros(pad);
      SrDecryptsEncrypted(c, ours, theirs.value, padded);
      var body := OuterCiphered(c, ours, inner).value;
      var framed := Header(typ, enc, sid, token) + body;
      assert framed[8..] == body && framed[..8] == Header(typ, enc, sid, token);
      assert padded[..|padded| - pad] == inner;
    }
  }

  // ------------------------------------------------- what the server answers

  /** An echo request is answered exactly when it comes over segment routing with
      room for a header behind the outer one and for a live session. The answer
      is the request itself but for three bytes: the next hop becomes 0, the
      type that of an echo response, and the mode 0. */
  lemma EchoAnsweredIff(c: BlockCipher, raw: seq<byte>, directory: Directory, sr: Option<SrConfig>)
    ensures var a := ServerReceive(c, raw, directory, sr);
            && (a.Echoed? <==>
                && |raw| >= 8 && raw[0] == 0x28 && raw[2] != 0 && |raw| >= 4 * (raw[2] as int) + 12
                && var at: nat := 4 * (raw[2] as int) + 4;
                   raw[at] == 0x15 && directory(FromBE16(raw[at + 2..]), FromBE32(raw[at + 4..])).Some?)
            && (a.Echoed? ==>
                  var at: nat := 4 * (raw[2] as int) + 4;
                  && |a.reply| == |raw|
                  && forall i | 0 <= i < |raw| ::
                       a.reply[i] == if i == 1 || i == at + 1 then 0 else if i == at then 0x16 else raw[i])
  {
    hide BE16, BE32, FromBE16, FromBE32, Deciphered, TrimIp, ServerStrip, Header;
    if |raw| >= 8 && raw[0] == PT_SEGRT && raw[2] != 0 && |raw| >= 4 * (raw[2] as int) + 12 {
      var at: nat := 4 * (raw[2] as int) + 4;
      var inner := raw[at..];
      assert inner[2..] == raw[at + 2..] && inner[4..] == raw[at + 4..];
      if ServerReceive(c, raw, directory, sr).Echoed? { EchoReply(raw, at); }
    }
  }

  lemma EchoReply(raw: seq<byte>, at: nat)
    requires 2 <= at && |raw| >= at + 8
    ensures var inner := raw[at..];
            var reply := raw[..at][1 := 0] + Header(PT_ECHO_RES, 0, SidOf(inner), TokenOf(inner)) + inner[8..];
            && |reply| == |raw|
            && forall i | 0 <= i < |raw| ::
                 reply[i] == if i == 1 || i == at + 1 then 0 else if i == at then 0x16 else raw[i]
  {
    var inner := raw[at..];
    var head := Header(PT_ECHO_RES, 0, SidOf(inner), TokenOf(inner));
    assert head[2..] == inner[2..8] by { HeaderBytes(inner); }
    hide Header, SidOf, TokenOf;
    forall i | 2 <= i < 8 ensures head[i] == raw[at + i] {
      assert head[i] == head[2..][i - 2] == inner[2..8][i - 2];
    }
    assert head[0] == PT_ECHO_RES && head[1] == 0 by { HeaderRead(PT_ECHO_RES, 0, SidOf(inner), TokenOf(inner), []); }
    var reply := raw[..at][1 := 0] + head + inner[8..];
    forall i | 0 <= i < |raw|
      ensures reply[i] == if i == 1 || i == at + 1 then 0 else if i == at then 0x16 else raw[i]
    {
      if i < at {
        assert reply[i] == raw[..at][1 := 0][i];
      } else if i < at + 8 {
        assert reply[i] == head[i - at];
        if i >= at + 2 { assert head[i - at] == raw[at + (i - at)]; }
      } else {
        assert reply[i] == inner[8..][i - at - 8];
      }
    }
  }

  lemma HeaderBytes(b: seq<byte>)
    requires |b| >= 8
    ensures BE16(SidOf(b)) + BE32(TokenOf(b)) == b[2..8]
  {
    Bytes32(b[4..]);
    Bytes16(b[2..]);
    hide BE16, BE32, FromBE16, FromBE32;
    assert b[2..][..2] + b[4..][..4] == b[2..8];
  }

  /** Only datagrams for a live session are written or answered, whether the
      header that names it comes first or behind a segment routing header. */
  lemma ServedOnlySessions(c: BlockCipher, raw: seq<byte>, directory: Directory, sr: Option<SrConfig>)
    ensures var a := ServerReceive(c, raw, directory, sr);
            a.Wrote? || a.Echoed? ==>
              && |raw| >= 8
              && var at: nat := if raw[0] == 0x28 then 4 * (raw[2] as int) + 4 else 0;
                 |raw| >= at + 8 && directory(FromBE16(raw[at + 2..]), FromBE32(raw[at + 4..])).Some?
  {
    hide FromBE16, FromBE32, ServerData, ServerStrip;
    if |raw| >= 8 {
      var at: nat := if raw[0] == PT_SEGRT then 4 * (raw[2] as int) + 4 else 0;
      if |raw| >= at + 8 {
        assert raw[at..][2..] == raw[at + 2..] && raw[at..][4..] == raw[at + 4..];
      }
      assert raw[0..] == raw;
    }
  }
}
