/** A packet read from the server's TUN device (src/bin/server/downlink.rs,
    handle): which session it belongs to, what is sent where, and who can read
    it. */
module DownlinkRouting {
  import opened Bytes
  import opened Wrappers
  import opened Crypto
  import opened IpPacket
  import opened SrKey
  import opened Tunnel
  import opened Downlink
  import S = Sessions
  import SessionTable
  import TunnelCodec

  /** A datagram and where it goes. */
  datatype Sent = Sent(addr: nat, wire: seq<byte>)

  function KeysOf(s: S.Session): Keys {
    Keys(s.xorKey, s.aesKey, s.enc)
  }

  /** Whether a session's packets go over segment routing. */
  predicate OverSr(s: S.Session, sr: Option<SrConfig>) {
    sr.Some? && sr.value.links != [] && s.srlink.Some?
  }

  function Single(wire: Option<seq<byte>>): seq<seq<byte>> {
    if wire.Some? then [wire.value] else []
  }

  /** The datagrams for a packet of this session. */
  function WiresFor(c: BlockCipher, packet: seq<byte>, s: S.Session, sr: Option<SrConfig>, fragment: bool, id: u32)
    : seq<seq<byte>>
  {
    if OverSr(s, sr) then
      if fragment then SendSrFragmented(c, packet, s.sid, s.token, sr.value, id)
      else Single(SendSr(c, packet, KeysOf(s), s.sid, s.token, sr.value))
    else if fragment then SendFragmented(packet, s.sid, s.token, id)
    else Single(SendPlain(c, packet, KeysOf(s), s.sid, s.token))
  }

  function Addressed(wires: seq<seq<byte>>, addr: nat): (sent: seq<Sent>)
    ensures |sent| == |wires|
  {
    seq(|wires|, i requires 0 <= i < |wires| => Sent(addr, wires[i]))
  }

  function Routed(c: BlockCipher, packet: seq<byte>, found: Option<S.Session>, sr: Option<SrConfig>, fragment: bool,
                  id: u32): seq<Sent>
  {
    if found.None? then [] else Addressed(WiresFor(c, packet, found.value, sr, fragment, id), found.value.addr)
  }

  function Destination4(packet: seq<byte>): u32
    requires |packet| >= 20
  {
    FromBE32(packet[16..])
  }

  function Destination6(packet: seq<byte>): S.ipv6
    requires |packet| >= 40
  {
    FromBE128(packet[24..40])
  }

  /** The session a packet is for, in whatever order the table is walked. */
  ghost predicate FoundFor(p: S.Pool, packet: seq<byte>, found: Option<S.Session>) {
    if !IsIp(packet) then found == None
    else if Version(packet) == 4 then S.FoundByIp(p, Destination4(packet), found)
    else S.FoundByIpv6(p, Destination6(packet), found)
  }

  method Handle(c: BlockCipher, table: SessionTable.SessionTable, packet: seq<byte>, sr: Option<SrConfig>,
                fragment: bool, id: u32) returns (sent: seq<Sent>, ghost found: Option<S.Session>)
    requires Lawful(c)
    ensures FoundFor(table.Contents(), packet, found)
    ensures sent == Routed(c, packet, found, sr, fragment, id)
  {
    hide Lawful, SendPlain, SendSr, SendFragmented, SendSrFragmented, FromBE32, FromBE128;
    found := None;
    if packet == [] {
      return [], None;
    }
    var holder: Option<S.Session> := None;
    if Version(packet) == 4 && |packet| >= 20 {
      holder := table.FindByIp(FromBE32(packet[16..]));
    } else if Version(packet) == 6 && |packet| >= 40 {
      holder := table.FindByIpv6(FromBE128(packet[24..40]));
    }
    found := holder;
    if holder.None? {
      return [], None;
    }
    var s := holder.value;
    var keys := Keys(s.xorKey, s.aesKey, s.enc);
    var wires := [];
    if sr.Some? && sr.value.links != [] && s.srlink.Some? {
      if fragment {
        wires := TunnelCodec.SendTwoSrFragments(c, packet, s.sid, s.token, sr.value, id);
      } else {
        var wire := TunnelCodec.SendSrPacket(c, packet, keys, s.sid, s.token, sr.value);
        wires := if wire.Some? then [wire.value] else [];
      }
    } else if fragment {
      wires := TunnelCodec.SendTwoFragments(packet, s.sid, s.token, id);
    } else {
      var wire := TunnelCodec.SendPlainPacket(c, packet, keys, s.sid, s.token);
      wires := if wire.Some? then [wire.value] else [];
    }
    sent := Addressed(wires, s.addr);
  }

  // ------------------------------------------------ who gets the packet

  /** The session that holds a packet's destination is the one found: for IPv4 in
      every reachable pool, for IPv6 as long as no client named its address. */
  lemma HolderFound(p: S.Pool, first: u32, server: S.ipv6, sid: u16, packet: seq<byte>, found: Option<S.Session>)
    requires S.Inv(p, first) && sid in p.sessions && IsIp(packet) && FoundFor(p, packet, found)
    requires if Version(packet) == 4 then Destination4(packet) == p.sessions[sid].ip
             else S.Lockstep(p, server, first) && Destination6(packet) == p.sessions[sid].ip6
    ensures found == Some(p.sessions[sid])
  {
    var s := p.sessions[sid];
    hide Destination4, Destination6;
    if Version(packet) == 4 {
      S.LookupByIpUnique(p, first, s.ip, found, Some(s));
    } else {
      HolderPaired(p, first, server, sid);
      S.LookupsAgree(p, first, server, s.ip, Some(s), found);
    }
  }

  lemma HolderPaired(p: S.Pool, first: u32, server: S.ipv6, sid: u16)
    requires S.Inv(p, first) && sid in p.sessions && S.Lockstep(p, server, first)
    ensures var s := p.sessions[sid]; first <= s.ip && s.ip6 == S.Paired(server, first, s.ip)
  {
    assert S.HoldsPair(p.sessions[sid], server, first);
  }

  /** The client of the session that holds the destination gets exactly the packet,
      from the only datagram sent, over whichever of the two ways. */
  lemma HolderReceives(c: BlockCipher, p: S.Pool, first: u32, server: S.ipv6, sid: u16, packet: seq<byte>,
                       found: Option<S.Session>, sr: Option<SrConfig>, id: u32, who: Client, frags: Frags)
    requires Lawful(c) && S.Inv(p, first) && sid in p.sessions && WellFormed(packet) && FoundFor(p, packet, found)
    requires if Version(packet) == 4 then Destination4(packet) == p.sessions[sid].ip
             else S.Lockstep(p, server, first) && Destination6(packet) == p.sessions[sid].ip6
    requires var s := p.sessions[sid];
             && KeySize(s.aesKey) && s.enc <= 2
             && who.keys == KeysOf(s) && who.sid == s.sid && who.token == s.token
             && (OverSr(s, sr) ==> who.sr.Some? && who.sr.value.mode == sr.value.mode < 8
                                   && Key(who.sr.value) == Key(sr.value))
    ensures var sent := Routed(c, packet, found, sr, false, id);
            && |sent| == 1 && sent[0].addr == p.sessions[sid].addr
            && Receive(c, who, frags, sent[0].wire) == Received(frags, Some(packet), false)
  {
    HolderFound(p, first, server, sid, packet, found);
    hide Lawful, KeySize, Receive, SendPlain, SendSr, WellFormed, IsIp, Key, S.Inv, S.Lockstep, FoundFor;
    hide Destination4, Destination6;
    if OverSr(p.sessions[sid], sr) {
      SrRoundTrip(c, packet, who, frags, sr.value);
    } else {
      PlainRoundTrip(c, packet, who, frags);
    }
  }

  /** A packet for an address that no session holds is not sent anywhere. */
  lemma UnheldDropped(c: BlockCipher, p: S.Pool, packet: seq<byte>, found: Option<S.Session>, sr: Option<SrConfig>,
                      fragment: bool, id: u32)
    requires FoundFor(p, packet, found)
    requires IsIp(packet) && Version(packet) == 4 ==>
               forall sid | sid in p.sessions :: p.sessions[sid].ip != Destination4(packet)
    requires IsIp(packet) && Version(packet) == 6 ==>
               forall sid | sid in p.sessions :: p.sessions[sid].ip6 != Destination6(packet)
    ensures Routed(c, packet, found, sr, fragment, id) == []
  {
    hide WiresFor, Destination4, Destination6;
  }

  // ---------------------------------------------------- and who does not

  /** The header that names the session, wherever it stands. */
  ghost predicate Names(wire: seq<byte>, sid: u16, token: u32) {
    && |wire| >= 8
    && var at: nat := if wire[0] == 0x28 then 4 * (wire[2] as int) + 4 else 0;
       |wire| >= at + 8 && FromBE16(wire[at + 2..]) == sid && FromBE32(wire[at + 4..]) == token
  }

  lemma DirectNames(typ: byte, enc: byte, sid: u16, token: u32, rest: seq<byte>)
    requires typ != 0x28
    ensures Names(Header(typ, enc, sid, token) + rest, sid, token)
  {
    HeaderRead(typ, enc, sid, token, rest);
    hide Header;
  }

  lemma RoutedNames(next: byte, pad: nat, sr: SrConfig, typ: byte, enc: byte, sid: u16, token: u32, rest: seq<byte>)
    requires pad < 16
    ensures Names(OuterHeader(next, pad, sr) + (Header(typ, enc, sid, token) + rest), sid, token)
  {
    hide Header, OuterHeader, FromBE16, FromBE32;
    var inner := Header(typ, enc, sid, token) + rest;
    OuterSplit(next, pad, sr, inner);
    HeaderRead(typ, enc, sid, token, rest);
    var raw, at := OuterHeader(next, pad, sr) + inner, |OuterHeader(next, pad, sr)|;
    assert raw[at..] == inner && raw[at + 2..] == inner[2..] && raw[at + 4..] == inner[4..];
  }

  lemma WiresName(c: BlockCipher, packet: seq<byte>, s: S.Session, sr: Option<SrConfig>, fragment: bool, id: u32,
                  i: nat)
    requires i < |WiresFor(c, packet, s, sr, fragment, id)|
    ensures Names(WiresFor(c, packet, s, sr, fragment, id)[i], s.sid, s.token)
  {
    hide Names, Header, OuterHeader, OuterCiphered, Ciphered, LE32, PackWord;
    forall typ: byte, enc: byte, rest: seq<byte> | typ != 0x28
      ensures Names(Header(typ, enc, s.sid, s.token) + rest, s.sid, s.token)
    {
      DirectNames(typ, enc, s.sid, s.token, rest);
    }
    if sr.Some? {
      forall next: byte, pad: nat, typ: byte, enc: byte, rest: seq<byte> | pad < 16
        ensures Names(OuterHeader(next, pad, sr.value) + (Header(typ, enc, s.sid, s.token) + rest), s.sid, s.token)
      {
        RoutedNames(next, pad, sr.value, typ, enc, s.sid, s.token, rest);
      }
    }
  }

  /** To a client of any other session, what is sent for a packet is nothing. */
  lemma NobodyElse(c: BlockCipher, packet: seq<byte>, found: Option<S.Session>, sr: Option<SrConfig>, fragment: bool,
                   id: u32, i: nat, who: Client, frags: Frags)
    requires found.Some? && (who.sid, who.token) != (found.value.sid, found.value.token)
    requires i < |Routed(c, packet, found, sr, fragment, id)|
    ensures Receive(c, who, frags, Routed(c, packet, found, sr, fragment, id)[i].wire) == Received(frags, None, false)
  {
    hide Receive, WiresFor, FromBE16, FromBE32;
    WiresName(c, packet, found.value, sr, fragment, id, i);
    OnlyOwnSession(c, who, frags, WiresFor(c, packet, found.value, sr, fragment, id)[i]);
  }
}
