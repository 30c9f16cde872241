/** The way down: the server's encodings of a packet read from its TUN device
    (src/bin/server/downlink.rs) and the client's receiver
    (src/core/tunnel.rs, TunnelRx). */
module Downlink {
  import opened Bytes
  import opened Wrappers
  import opened Crypto
  import opened IpPacket
  import opened SrKey
  import opened Tunnel
  import opened Reassembly

  // ------------------------------------------------------- server encodings

  /** A packet as one datagram, without segment routing. */
  function SendPlain(c: BlockCipher, packet: seq<byte>, keys: Keys, sid: u16, token: u32): Option<seq<byte>> {
    if packet == [] then None
    else if Version(packet) == 6 then Some(Header(PT_DATA_IPV6, 0, sid, token) + packet)
    else if Version(packet) != 4 || keys.enc > 2 then None
    else
      var payload := Ciphered(c, keys, keys.enc, packet);
      if payload.Err? then None
      else Some(Header(if keys.enc == 0 then PT_DATA else PT_DATA_ENC, keys.enc, sid, token) + payload.value)
  }

  function DownType(packet: seq<byte>, keys: Keys): byte {
    if packet != [] && Version(packet) == 6 then PT_DATA_IPV6 else if keys.enc == 0 then PT_DATA else PT_DATA_ENC
  }

  /** A packet as one segment-routing datagram. */
  function SendSr(c: BlockCipher, packet: seq<byte>, keys: Keys, sid: u16, token: u32,
                  sr: SrConfig): Option<seq<byte>> {
    if packet == [] || (Version(packet) != 4 && Version(packet) != 6) then None
    else if Version(packet) == 4 && keys.enc > 2 then None
    else
      var typ := DownType(packet, keys);
      var inner := if IsEncrypted(typ) then Ciphered(c, keys, keys.enc, packet) else Ok(packet);
      if inner.Err? then None
      else
        var outer := OuterCiphered(c, sr, inner.value);
        if outer.Err? then None
        else Some(OuterHeader(0, OuterPad(sr, |inner.value|), sr)
                  + (Header(typ, keys.enc, sid, token) + outer.value))
  }

  function FragmentType(packet: seq<byte>): byte
    requires packet != []
  {
    if Version(packet) == 6 then PT_IPFRAG_ALT else PT_IPFRAG
  }

  /** Length, offset and end flag packed into one word: the length in bits 15 to
      25, the offset in bits 2 to 14 of a half-word, the flag in bit 0. */
  function PackWord(len: nat, off: nat, flag: nat): u32
    requires flag <= 1
  {
    var low := (off * 4) % 0x1_0000 + flag;
    OrBits(len % 0x800, low)
  }

  /** (len << 15) | low for an eleven-bit length and a sixteen-bit low part. */
  function OrBits(len: nat, low: nat): u32
    requires len < 0x800 && low < 0x1_0000
  {
    if low < 0x8000 || len % 2 == 1 then len * 0x8000 + low % 0x8000 else len * 0x8000 + low
  }

  /** One fragment datagram. */
  function FragmentPacket(typ: byte, sid: u16, token: u32, id: u32, chunk: seq<byte>, off: nat, flag: nat): seq<byte>
    requires flag <= 1
  {
    Header(typ, 0, sid, token) + (LE32(id) + (LE32(PackWord(|chunk|, off, flag)) + chunk))
  }

  /** A packet as two fragments; a half that is too long is not sent. */
  function SendFragmented(packet: seq<byte>, sid: u16, token: u32, id: u32): seq<seq<byte>> {
    if |packet| < 2 then []
    else
      var half, typ := |packet| / 2, FragmentType(packet);
      (if half > 0x7ff then [] else [FragmentPacket(typ, sid, token, id, packet[..half], 0, 0)])
      + (if |packet| - half > 0x7ff then [] else [FragmentPacket(typ, sid, token, id, packet[half..], half, 1)])
  }

  /** The same over segment routing: padded and encrypted as a whole first, and
      without a check on the length of the halves. */
  function SendSrFragmented(c: BlockCipher, packet: seq<byte>, sid: u16, token: u32, sr: SrConfig,
                            id: u32): seq<seq<byte>> {
    var cipher := OuterCiphered(c, sr, packet);
    if cipher.Err? || |cipher.value| < 2 || packet == [] then []
    else
      var half, typ := |cipher.value| / 2, FragmentType(packet);
      var head := OuterHeader(0, OuterPad(sr, |packet|), sr);
      [head + FragmentPacket(typ, sid, token, id, cipher.value[..half], 0, 0),
       head + FragmentPacket(typ, sid, token, id, cipher.value[half..], half, 1)]
  }

  // -------------------------------------------------------- client receiver

  /** A fragment set at the client, with the outer layer its pieces came in. */
  datatype FragEntry = FragEntry(parts: seq<Part>, sr: Option<SrConfig>, pad: Option<nat>)

  type Frags = map<u32, FragEntry>

  const MAX_FRAGMENTS := 16

  /** Who the client is: its keys, its session and its segment routing. */
  datatype Client = Client(keys: Keys, sid: u16, token: u32, sr: Option<SrConfig>)

  /** What handling a datagram leaves behind: the fragment table, a packet
      given to the TUN device if any, and whether an error was reported. */
  datatype Received = Received(frags: Frags, emitted: Option<seq<byte>>, failed: bool)

  /** Joins the parts of a set if there are two or more and they fit. */
  function Assembled(sorted: seq<Part>): Option<seq<byte>> {
    if |sorted| < 2 then None else Join(sorted)
  }

  /** Undoes the outer layer of a joined set, if it came in one. */
  function Unwrapped(c: BlockCipher, e: FragEntry, joined: seq<byte>): Result<Option<seq<byte>>> {
    if e.sr.None? || e.sr.value.mode == 0 then Ok(Some(joined))
    else
      var plain := SrDecrypted(c, e.sr.value, joined);
      if plain.Err? then Err(plain.reason)
      else if e.pad.None? then Ok(Some(plain.value))
      else if |plain.value| < e.pad.value then Ok(None)
      else Ok(Some(plain.value[..|plain.value| - e.pad.value]))
  }

  function FragOffset(word: u32): u16 {
    word % 0x1_0000 / 4 % 0x2000
  }

  function FragLength(word: u32): nat {
    word / 0x8000 % 0x800
  }

  /** The set a fragment joins, after it has. */
  function Joined(frags: Frags, id: u32, part: Part, outer: Option<(SrConfig, nat)>): FragEntry {
    var e := if id in frags then frags[id] else FragEntry([], None, None);
    var e1 := if outer.Some? then e.(sr := Some(outer.value.0), pad := Some(outer.value.1)) else e;
    e1.(parts := SortParts(e1.parts + [part]))
  }

  function ReceiveFragment(c: BlockCipher, frags: Frags, inner: seq<byte>, outer: Option<(SrConfig, nat)>): Received
    requires |inner| >= 8
  {
    if |inner| < 16 then Received(frags, None, false)
    else
      var id, word := FromLE32(inner[8..]), FromLE32(inner[12..]);
      var end := if 16 + FragLength(word) < |inner| then 16 + FragLength(word) else |inner|;
      var kept := if |frags| > MAX_FRAGMENTS then map[] else frags;
      var e := Joined(kept, id, Part(FragOffset(word), inner[16..end]), outer);
      FinishSet(c, kept, id, e)
  }

  /** Emits and drops a set that is complete, keeps one that is not. */
  function FinishSet(c: BlockCipher, kept: Frags, id: u32, e: FragEntry): Received {
    var joined := Assembled(e.parts);
    if joined.None? then Received(kept[id := e], None, false)
    else
      var packet := Unwrapped(c, e, joined.value);
      if packet.Err? then Received(kept[id := e], None, true)
      else Received(kept - {id}, if packet.value.Some? && IsIp(packet.value.value) then packet.value else None, false)
  }

  function ReceiveInner(c: BlockCipher, who: Client, frags: Frags, inner: seq<byte>,
                        outer: Option<(SrConfig, nat)>): Received {
    if |inner| < 8 || SidOf(inner) != who.sid || TokenOf(inner) != who.token then Received(frags, None, false)
    else if IsData(inner[0]) then
      var plain := Deciphered(c, who.keys, inner[0], inner[8..]);
      if plain.Err? then Received(frags, None, true)
      else Received(frags, if IsIp(plain.value) then Some(TrimIp(plain.value)) else None, false)
    else if IsFragment(inner[0]) then ReceiveFragment(c, frags, inner, outer)
    else Received(frags, None, false)
  }

  function ReceiveSr(c: BlockCipher, who: Client, frags: Frags, buf: seq<byte>): Received
    requires |buf| >= 8
  {
    var outer, flags := 4 * (buf[2] as int) + 4, buf[3];
    if |buf| < outer + 8 || who.sr.None? || flags % 8 != who.sr.value.mode % 8 then Received(frags, None, false)
    else
      var sr, inner, pad := who.sr.value, buf[outer..], flags / 8;
      if IsFragment(inner[0]) then ReceiveInner(c, who, frags, inner, Some((sr, pad)))
      else if sr.mode == 0 then ReceiveInner(c, who, frags, inner, None)
      else
        var cipher := inner[8..];
        if cipher == [] || |cipher| % 16 != 0 then Received(frags, None, false)
        else
          var plain := DecryptBlocks(c, Key(sr), cipher);
          if |plain| < pad then Received(frags, None, false)
          else ReceiveInner(c, who, frags, inner[..8] + plain[..|plain| - pad], None)
  }

  /** One datagram at the client. */
  function Receive(c: BlockCipher, who: Client, frags: Frags, buf: seq<byte>): Received {
    if |buf| < 8 then Received(frags, None, false)
    else if buf[0] == PT_SEGRT then ReceiveSr(c, who, frags, buf)
    else ReceiveInner(c, who, frags, buf, None)
  }

  /** Only a datagram with the client's own session id and token, in a header
      that comes first or behind a segment routing header, changes anything. */
  lemma OnlyOwnSession(c: BlockCipher, who: Client, frags: Frags, buf: seq<byte>)
    ensures Receive(c, who, frags, buf) != Received(frags, None, false) ==>
              && |buf| >= 8
              && var at: nat := if buf[0] == 0x28 then 4 * (buf[2] as int) + 4 else 0;
                 |buf| >= at + 8 && FromBE16(buf[at + 2..]) == who.sid && FromBE32(buf[at + 4..]) == who.token
  {
    if |buf| >= 8 {
      var at: nat := if buf[0] == PT_SEGRT then 4 * (buf[2] as int) + 4 else 0;
      if |buf| >= at + 8 {
        OwnInner(c, who, frags, buf, at);
        hide ReceiveInner;
      }
    }
  }

  lemma OwnInner(c: BlockCipher, who: Client, frags: Frags, buf: seq<byte>, at: nat)
    requires |buf| >= at + 8
    ensures forall rest: seq<byte>, outer ::
              ReceiveInner(c, who, frags, buf[at..][..8] + rest, outer) != Received(frags, None, false) ==>
              FromBE16(buf[at + 2..]) == who.sid && FromBE32(buf[at + 4..]) == who.token
  {
    hide Deciphered, ReceiveFragment;
  }

  /** Whatever arrives, only IP packets are given to the TUN device. */
  lemma EmittedIsIp(c: BlockCipher, who: Client, frags: Frags, buf: seq<byte>)
    ensures var out := Receive(c, who, frags, buf).emitted; out.Some? ==> IsIp(out.value)
  {
    hide ReceiveInner, IsIp;
    if |buf| >= 8 {
      InnerEmitsIp(c, who, frags, buf, None);
      var at := 4 * (buf[2] as int) + 4;
      if |buf| >= at + 8 && who.sr.Some? {
        var inner, pad := buf[at..], (buf[3] as int) / 8;
        InnerEmitsIp(c, who, frags, inner, Some((who.sr.value, pad)));
        InnerEmitsIp(c, who, frags, inner, None);
        if |inner[8..]| % 16 == 0 {
          var plain := DecryptBlocks(c, Key(who.sr.value), inner[8..]);
          if |plain| >= pad { InnerEmitsIp(c, who, frags, inner[..8] + plain[..|plain| - pad], None); }
        }
      }
    }
  }

  lemma InnerEmitsIp(c: BlockCipher, who: Client, frags: Frags, inner: seq<byte>, outer: Option<(SrConfig, nat)>)
    ensures var out := ReceiveInner(c, who, frags, inner, outer).emitted; out.Some? ==> IsIp(out.value)
  {
    hide Deciphered, TrimIp, IsIp, ReceiveFragment, SidOf, TokenOf;
    if |inner| >= 8 {
      FragmentEmitsIp(c, frags, inner, outer);
      var plain := Deciphered(c, who.keys, inner[0], inner[8..]);
      if plain.Ok? && IsIp(plain.value) { TrimmedIsIp(plain.value); }
    }
  }

  lemma FragmentEmitsIp(c: BlockCipher, frags: Frags, inner: seq<byte>, outer: Option<(SrConfig, nat)>)
    requires |inner| >= 8
    ensures var out := ReceiveFragment(c, frags, inner, outer).emitted; out.Some? ==> IsIp(out.value)
  {
    hide Joined, Assembled, Unwrapped, IsIp, FragLength, FragOffset, FromLE32;
  }

  lemma TrimmedIsIp(packet: seq<byte>)
    requires IsIp(packet)
    ensures IsIp(TrimIp(packet))
  {
  }

  // --------------------------------------------------- whole-packet round trips

  /** A well-formed packet sent down in one datagram is emitted unchanged. */
  lemma PlainRoundTrip(c: BlockCipher, packet: seq<byte>, who: Client, frags: Frags)
    requires Lawful(c) && WellFormed(packet) && KeySize(who.keys.aesKey) && who.keys.enc <= 2
    ensures var wire := SendPlain(c, packet, who.keys, who.sid, who.token);
            wire.Some? && Receive(c, who, frags, wire.value) == Received(frags, Some(packet), false)
  {
    hide Header, Ciphered, Deciphered, Lawful, KeySize, TrimIp, ReceiveSr, WellFormed, SidOf, TokenOf;
    PlainShape(c, packet, who);
    var typ := DownType(packet, who.keys);
    var enc := if IsEncrypted(typ) then who.keys.enc else 0;
    var payload := if IsEncrypted(typ) then Ciphered(c, who.keys, who.keys.enc, packet).value else packet;
    DataArrives(c, packet, who.keys, typ, payload);
    HeaderRead(typ, enc, who.sid, who.token, payload);
  }

  lemma PlainShape(c: BlockCipher, packet: seq<byte>, who: Client)
    requires Lawful(c) && WellFormed(packet) && KeySize(who.keys.aesKey) && who.keys.enc <= 2
    ensures var typ := DownType(packet, who.keys);
            && (IsEncrypted(typ) ==> Ciphered(c, who.keys, who.keys.enc, packet).Ok?)
            && var payload := if IsEncrypted(typ) then Ciphered(c, who.keys, who.keys.enc, packet).value else packet;
               SendPlain(c, packet, who.keys, who.sid, who.token)
               == Some(Header(typ, if IsEncrypted(typ) then who.keys.enc else 0, who.sid, who.token) + payload)
  {
    DeciphersCiphered(c, who.keys, PT_DATA_ENC, packet);
    hide Header, Deciphered, Lawful;
  }

  /** The same over segment routing. */
  lemma SrRoundTrip(c: BlockCipher, packet: seq<byte>, who: Client, frags: Frags, theirs: SrConfig)
    requires Lawful(c) && WellFormed(packet) && KeySize(who.keys.aesKey) && who.keys.enc <= 2
    requires who.sr.Some? && who.sr.value.mode == theirs.mode < 8 && Key(who.sr.value) == Key(theirs)
    ensures var wire := SendSr(c, packet, who.keys, who.sid, who.token, theirs);
            wire.Some? && Receive(c, who, frags, wire.value) == Received(frags, Some(packet), false)
  {
    hide Header, OuterHeader, Ciphered, Deciphered, OuterCiphered, Lawful, KeySize, TrimIp, Receive, WellFormed,
      ReceiveInner, IsIp, SendSr, OuterPad, Key;
    var typ := DownType(packet, who.keys);
    SrShape(c, packet, who.keys, who.sid, who.token, theirs);
    var inner := if IsEncrypted(typ) then Ciphered(c, who.keys, who.keys.enc, packet).value else packet;
    DataArrives(c, packet, who.keys, typ, inner);
    SrUnwrapped(c, who, frags, theirs, typ, inner, OuterCiphered(c, theirs, inner).value);
    DataEmitted(c, packet, who, frags, typ, who.keys.enc, inner);
  }

  lemma SrShape(c: BlockCipher, packet: seq<byte>, keys: Keys, sid: u16, token: u32, sr: SrConfig)
    requires Lawful(c) && WellFormed(packet) && KeySize(keys.aesKey) && keys.enc <= 2
    ensures var typ := DownType(packet, keys);
            && (IsEncrypted(typ) ==> Ciphered(c, keys, keys.enc, packet).Ok?)
            && var inner := if IsEncrypted(typ) then Ciphered(c, keys, keys.enc, packet).value else packet;
               && inner != [] && IsData(typ) && OuterCiphered(c, sr, inner).Ok?
               && SendSr(c, packet, keys, sid, token, sr)
                  == Some(OuterHeader(0, OuterPad(sr, |inner|), sr)
                          + (Header(typ, keys.enc, sid, token) + OuterCiphered(c, sr, inner).value))
  {
    hide Header, OuterHeader, Ciphered, Deciphered, Lawful, KeySize, Key;
    DeciphersCiphered(c, keys, PT_DATA_ENC, packet);
  }

  lemma DataEmitted(c: BlockCipher, packet: seq<byte>, who: Client, frags: Frags, typ: byte, enc: byte,
                    payload: seq<byte>)
    requires IsData(typ) && Deciphered(c, who.keys, typ, payload).Ok?
    requires IsIp(Deciphered(c, who.keys, typ, payload).value)
             && TrimIp(Deciphered(c, who.keys, typ, payload).value) == packet
    ensures ReceiveInner(c, who, frags, Header(typ, enc, who.sid, who.token) + payload, None)
            == Received(frags, Some(packet), false)
  {
    hide Header, Deciphered, SidOf, TokenOf;
    HeaderRead(typ, enc, who.sid, who.token, payload);
  }

  lemma SrUnwrapped(c: BlockCipher, who: Client, frags: Frags, theirs: SrConfig, typ: byte, inner: seq<byte>,
                    body: seq<byte>)
    requires Lawful(c) && IsData(typ) && inner != []
    requires who.sr.Some? && who.sr.value.mode == theirs.mode < 8 && Key(who.sr.value) == Key(theirs)
    requires OuterCiphered(c, theirs, inner) == Ok(body)
    ensures var head := OuterHeader(0, OuterPad(theirs, |inner|), theirs);
            var framed := Header(typ, who.keys.enc, who.sid, who.token) + body;
            Receive(c, who, frags, head + framed)
            == ReceiveInner(c, who, frags, Header(typ, who.keys.enc, who.sid, who.token) + inner, None)
  {
    hide ReceiveInner, Key, Lawful, Header, OuterHeader;
    var pad := OuterPad(theirs, |inner|);
    var h := Header(typ, who.keys.enc, who.sid, who.token);
    OuterSplit(0, pad, theirs, h + body);
    HeaderRead(typ, who.keys.enc, who.sid, who.token, body);
    if theirs.mode == 0 {
      assert inner + Zeros(0) == inner;
    } else {
      var padded := inner + Zeros(pad);
      SrDecryptsEncrypted(c, theirs, who.sr.value, padded);
      assert (h + body)[8..] == body && (h + body)[..8] == h;
      assert padded[..|padded| - pad] == inner;
    }
  }
}
