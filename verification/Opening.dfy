/** The server's answer to an OPEN (src/bin/server/handler.rs, handle_open)
    and the client's reading of it (src/core/auth.rs, parse_ack). */
module Opening {
  import opened Bytes
  import opened Wrappers
  import opened Tlv
  import opened Handshake
  import T = Tunnel
  import S = Sessions
  import ST = SessionTable

  // ---------------------------------------------------- what the client reads

  datatype Auth = Auth(
    sid: u16, token: u32, tun: seq<byte>, gateway: seq<byte>, dns: seq<byte>, dns2: Option<seq<byte>>,
    mtu: u16, enc: Option<byte>, ip6: Option<S.ipv6>, dns6: Option<S.ipv6>, gateway6: Option<S.ipv6>,
    duppkt: Option<byte>, verified: Option<u32>)

  datatype Answer = Accepted(auth: Auth) | RejectedBy(message: seq<byte>) | Unusable(reason: string)

  function Unread(sid: u16, token: u32): Auth {
    Auth(sid, token, [], [], [], None, 1400, None, None, None, None, None, None)
  }

  function AckOne(a: Auth, t: Tlv, wanted: u32): Result<Auth> {
    var v := t.value;
    if t.typ == T_IP && |v| >= 4 then Ok(a.(tun := v[..4]))
    else if t.typ == T_GATEWAY && |v| >= 4 then Ok(a.(gateway := v[..4]))
    else if t.typ == T_DNS && |v| >= 4 then
      Ok(a.(dns := v[..4], dns2 := if |v| >= 8 then Some(v[4..8]) else a.dns2))
    else if t.typ == T_MTU && |v| >= 2 then Ok(a.(mtu := FromBE16(v)))
    else if t.typ == T_ENCRYPT && v != [] then Ok(a.(enc := Some(v[0])))
    else if t.typ == T_DUPPKT && v != [] then Ok(a.(duppkt := Some(v[0])))
    else if t.typ == T_AUTH_VERIFY then
      if |v| != 4 then Err("AUTH_VERIFY wrong length")
      else if FromBE32(v) != wanted then Err("AUTH_VERIFY mismatch")
      else Ok(a.(verified := Some(FromBE32(v))))
    else if t.typ == T_IPV6 && |v| >= 16 then Ok(a.(ip6 := Some(FromBE128(v))))
    else if t.typ == T_DNS6 && |v| >= 16 then Ok(a.(dns6 := Some(FromBE128(v))))
    else if t.typ == T_GATEWAY6 && |v| >= 16 then Ok(a.(gateway6 := Some(FromBE128(v))))
    else Ok(a)
  }

  function AckAll(a: Result<Auth>, ts: seq<Tlv>, wanted: u32): Result<Auth>
    decreases |ts|
  {
    if a.Err? || ts == [] then a else AckAll(AckOne(a.value, ts[0], wanted), ts[1..], wanted)
  }

  function MtuInUse(mtu: u16): u16 {
    if 576 <= mtu <= 9000 then mtu else 1400
  }

  /** The last error text of a rejection, or else the raw body. */
  function RejectText(body: seq<byte>, ts: seq<Tlv>): seq<byte>
    decreases |ts|
  {
    if ts == [] then body
    else if ts[|ts| - 1].typ == T_ERR_MSG then ts[|ts| - 1].value
    else RejectText(body, ts[..|ts| - 1])
  }

  function ParseAck(md5: Md5, buf: seq<byte>, wanted: u32): Answer {
    if |buf| < 24 then Unusable("too short")
    else if buf[0] == PT_OPEN_REJECT then RejectedBy(RejectText(buf[24..], Parse(buf[24..])))
    else if buf[0] != PT_OPEN_ACK then Unusable("unexpected type")
    else if !Signed(md5, buf) then Unusable("bad sig")
    else
      match AckAll(Ok(Unread(T.SidOf(buf), T.TokenOf(buf))), Parse(buf[24..]), wanted)
      case Err(reason) => Unusable(reason)
      case Ok(a) => Accepted(a.(mtu := MtuInUse(a.mtu)))
  }

  method ReadAck(md5: Md5, buf: seq<byte>, wanted: u32) returns (answer: Answer)
    ensures answer == ParseAck(md5, buf, wanted)
  {
    hide Parse, FromBE128, FromBE32, FromBE16;
    if |buf| < 24 {
      return Unusable("too short");
    }
    var ts := ParseTlvs(buf[24..]);
    if buf[0] == PT_OPEN_REJECT {
      var message := buf[24..];
      for i := 0 to |ts|
        invariant message == RejectText(buf[24..], ts[..i])
      {
        assert ts[..i + 1][..i] == ts[..i];
        if ts[i].typ == T_ERR_MSG {
          message := ts[i].value;
        }
      }
      assert ts[..|ts|] == ts;
      return RejectedBy(message);
    }
    if buf[0] != PT_OPEN_ACK {
      return Unusable("unexpected type");
    }
    if !Signed(md5, buf) {
      return Unusable("bad sig");
    }
    var read := ReadAckTlvs(Unread(T.SidOf(buf), T.TokenOf(buf)), ts, wanted);
    if read.Err? {
      return Unusable(read.reason);
    }
    var a := read.value;
    if !(576 <= a.mtu <= 9000) {
      a := a.(mtu := 1400);
    }
    answer := Accepted(a);
  }

  method ReadAckTlvs(start: Auth, ts: seq<Tlv>, wanted: u32) returns (read: Result<Auth>)
    ensures read == AckAll(Ok(start), ts, wanted)
  {
    hide FromBE128, FromBE32, FromBE16;
    var a := start;
    for i := 0 to |ts|
      invariant AckAll(Ok(a), ts[i..], wanted) == AckAll(Ok(start), ts, wanted)
    {
      var t, v := ts[i], ts[i].value;
      ghost var next := AckOne(a, t, wanted);
      assert ts[i..][1..] == ts[i + 1..];
      if t.typ == T_IP && |v| >= 4 {
        a := a.(tun := v[..4]);
      } else if t.typ == T_GATEWAY && |v| >= 4 {
        a := a.(gateway := v[..4]);
      } else if t.typ == T_DNS && |v| >= 4 {
        a := a.(dns := v[..4]);
        if |v| >= 8 {
          a := a.(dns2 := Some(v[4..8]));
        }
      } else if t.typ == T_MTU && |v| >= 2 {
        a := a.(mtu := FromBE16(v));
      } else if t.typ == T_ENCRYPT && v != [] {
        a := a.(enc := Some(v[0]));
      } else if t.typ == T_DUPPKT && v != [] {
        a := a.(duppkt := Some(v[0]));
      } else if t.typ == T_AUTH_VERIFY {
        if |v| != 4 {
          return Err("AUTH_VERIFY wrong length");
        }
        var echo := FromBE32(v);
        if echo != wanted {
          return Err("AUTH_VERIFY mismatch");
        }
        a := a.(verified := Some(echo));
      } else if t.typ == T_IPV6 && |v| >= 16 {
        a := a.(ip6 := Some(FromBE128(v)));
      } else if t.typ == T_DNS6 && |v| >= 16 {
        a := a.(dns6 := Some(FromBE128(v)));
      } else if t.typ == T_GATEWAY6 && |v| >= 16 {
        a := a.(gateway6 := Some(FromBE128(v)));
      }
      assert next == Ok(a);
    }
    read := Ok(a);
  }

  // ------------------------------------------------------ the server's answer

  /** The server's configuration; users by name, with their passwords. */
  datatype Config = Config(
    users: map<seq<byte>, seq<byte>>, ip: u32, ip6: S.ipv6, dns: u32, dns2: u32, dns6: S.ipv6, duppkt: byte)

  /** The password block a client must present, from password and user name. */
  type PasswordCipher = (seq<byte>, seq<byte>) -> Digest

  function Reject(md5: Md5, message: string): seq<byte> {
    Control(md5, T.Header(PT_OPEN_REJECT, 0, 0, 0), Encode(Tlv(T_ERR_MSG, Ascii(message))))
  }

  function AckTlvs(cfg: Config, mtu: u16, enc: byte, ip: u32, ip6: S.ipv6, nonce: Option<u32>): seq<Tlv> {
    [Tlv(T_MTU, BE16(mtu)), Tlv(T_IP, BE32(ip)), Tlv(T_GATEWAY, BE32(cfg.ip)),
     Tlv(T_DNS, BE32(cfg.dns) + BE32(cfg.dns2))]
    + [Tlv(T_ENCRYPT, [enc]), Tlv(T_DUPPKT, [cfg.duppkt])]
    + [Tlv(T_IPV6, BE128(ip6)), Tlv(T_DNS6, BE128(cfg.dns6)), Tlv(T_GATEWAY6, BE128(cfg.ip6))]
    + Optional(nonce, NonceTlv)
  }

  function Ack(md5: Md5, cfg: Config, mtu: u16, s: S.Session, nonce: Option<u32>): seq<byte> {
    Control(md5, T.Header(PT_OPEN_ACK, s.enc, s.sid, s.token), EncodeAll(AckTlvs(cfg, mtu, s.enc, s.ip, s.ip6, nonce)))
  }

  /** Why an OPEN is turned away before an address is taken, if it is. */
  function Objection(cfg: Config, block: PasswordCipher, r: Reading): Option<string> {
    if r.enc > 2 then Some("unsupported encrypt mode")
    else if r.user !in cfg.users then Some("unknown user")
    else if r.password != block(cfg.users[r.user], r.user) then Some("bad password")
    else None
  }

  function RequestFor(md5: Md5, cfg: Config, r: Reading, addr: nat, token: u32, now: nat): S.Request
    requires r.user in cfg.users
  {
    var key := md5(r.user + cfg.users[r.user]);
    S.Request(addr, token, key[..8], key, r.enc, r.srlink, r.ip6, now)
  }

  function RefusalText(r: S.Refusal): string {
    match r
    case CapacityReached => "session capacity reached"
    case SidCollision => "session id collision"
  }

  /** The table after an OPEN, and the packets sent back, in order. */
  function HandleOpen(md5: Md5, block: PasswordCipher, cfg: Config, p: S.Pool, raw: seq<byte>, addr: nat, token: u32,
                      now: nat)
    : (S.Pool, seq<seq<byte>>)
  {
    if !Signed(md5, raw) then (p, [])
    else
      var r := ReadOpen(raw);
      var objection := Objection(cfg, block, r);
      if objection.Some? then (p, [Reject(md5, objection.value)])
      else
        var (q, outcome) := S.Open(p, RequestFor(md5, cfg, r, addr, token, now), cfg.ip6);
        match outcome
        case NoAddress => (q, [Reject(md5, "no available tunnel IP")])
        case Opened(s) => (q, [Ack(md5, cfg, MtuInUse(r.mtu), s, r.nonce)])
        case Refused(s, reason) =>
          (q, [Ack(md5, cfg, MtuInUse(r.mtu), s, r.nonce), Reject(md5, RefusalText(reason))])
  }

  method HandleOpenPacket(md5: Md5, block: PasswordCipher, cfg: Config, table: ST.SessionTable,
                          raw: seq<byte>, addr: nat, token: u32, now: nat)
    returns (replies: seq<seq<byte>>)
    modifies table
    ensures (table.Contents(), replies) == HandleOpen(md5, block, cfg, old(table.Contents()), raw, addr, token, now)
  {
    hide Parse, S.Open, Ack, Reject;
    if |raw| < 24 || !Signed(md5, raw) {
      return [];
    }
    var ts := ParseTlvs(raw[24..]);
    var r := ReadOffer(ts);
    if r.enc > 2 {
      return [Reject(md5, "unsupported encrypt mode")];
    }
    var mtu := r.mtu;
    if !(576 <= mtu <= 9000) {
      mtu := 1400;
    }
    if r.user !in cfg.users {
      return [Reject(md5, "unknown user")];
    }
    var password := cfg.users[r.user];
    if r.password != block(password, r.user) {
      return [Reject(md5, "bad password")];
    }
    var key := md5(r.user + password);
    var outcome := ST.AdmitOpen(table, S.Request(addr, token, key[..8], key, r.enc, r.srlink, r.ip6, now), cfg.ip6);
    match outcome {
      case NoAddress =>
        replies := [Reject(md5, "no available tunnel IP")];
      case Opened(s) =>
        replies := [Ack(md5, cfg, mtu, s, r.nonce)];
      case Refused(s, reason) =>
        replies := [Ack(md5, cfg, mtu, s, r.nonce), Reject(md5, RefusalText(reason))];
    }
  }

  // ------------------------------------------------------------- round trips

  lemma {:induction false} AckAppend(a: Result<Auth>, s: seq<Tlv>, t: seq<Tlv>, wanted: u32)
    ensures AckAll(a, s + t, wanted) == AckAll(AckAll(a, s, wanted), t, wanted)
    decreases |s|
  {
    hide AckOne;
    if s == [] {
      assert s + t == t;
    } else if a.Ok? {
      assert (s + t)[1..] == s[1..] + t;
      AckAppend(AckOne(a.value, s[0], wanted), s[1..], t, wanted);
    }
  }

  lemma AckFirst(a: Auth, t: Tlv, rest: seq<Tlv>, wanted: u32)
    ensures AckAll(Ok(a), [t] + rest, wanted) == AckAll(AckOne(a, t, wanted), rest, wanted)
  {
    hide AckOne;
    assert ([t] + rest)[1..] == rest;
  }

  lemma AckLast(a: Auth, t: Tlv, wanted: u32)
    ensures AckAll(Ok(a), [t], wanted) == AckOne(a, t, wanted)
  {
    hide AckOne;
    AckFirst(a, t, [], wanted);
    assert [t] + [] == [t];
  }

  /** What an acknowledgement of a session should tell the client. */
  function Told(cfg: Config, mtu: u16, s: S.Session, nonce: Option<u32>): Auth {
    Auth(s.sid, s.token, BE32(s.ip), BE32(cfg.ip), BE32(cfg.dns), Some(BE32(cfg.dns2)), mtu, Some(s.enc),
         Some(s.ip6), Some(cfg.dns6), Some(cfg.ip6), Some(cfg.duppkt), nonce)
  }

  lemma AckReadAddresses(a: Auth, cfg: Config, mtu: u16, ip: u32, wanted: u32)
    ensures AckAll(Ok(a), [Tlv(T_MTU, BE16(mtu)), Tlv(T_IP, BE32(ip)), Tlv(T_GATEWAY, BE32(cfg.ip)),
                           Tlv(T_DNS, BE32(cfg.dns) + BE32(cfg.dns2))], wanted)
            == Ok(a.(mtu := mtu, tun := BE32(ip), gateway := BE32(cfg.ip), dns := BE32(cfg.dns),
                     dns2 := Some(BE32(cfg.dns2))))
  {
    hide AckAll, BE32;
    BE16RoundTrip(mtu, []);
    assert BE16(mtu) + [] == BE16(mtu);
    var w, x, y, z := Tlv(T_MTU, BE16(mtu)), Tlv(T_IP, BE32(ip)), Tlv(T_GATEWAY, BE32(cfg.ip)),
        Tlv(T_DNS, BE32(cfg.dns) + BE32(cfg.dns2));
    assert [w, x, y, z] == [w] + [x, y, z] && [x, y, z] == [x] + [y, z] && [y, z] == [y] + [z];
    AckFirst(a, w, [x, y, z], wanted);
    var a1 := a.(mtu := mtu);
    AckFirst(a1, x, [y, z], wanted);
    assert x.value[..4] == BE32(ip);
    var a2 := a1.(tun := BE32(ip));
    AckFirst(a2, y, [z], wanted);
    assert y.value[..4] == BE32(cfg.ip);
    var a3 := a2.(gateway := BE32(cfg.ip));
    AckLast(a3, z, wanted);
    assert z.value[..4] == BE32(cfg.dns) && z.value[4..8] == BE32(cfg.dns2);
  }

  lemma AckReadModes(a: Auth, enc: byte, duppkt: byte, wanted: u32)
    ensures AckAll(Ok(a), [Tlv(T_ENCRYPT, [enc]), Tlv(T_DUPPKT, [duppkt])], wanted)
            == Ok(a.(enc := Some(enc), duppkt := Some(duppkt)))
  {
    hide AckAll;
    var x, y := Tlv(T_ENCRYPT, [enc]), Tlv(T_DUPPKT, [duppkt]);
    assert [x, y] == [x] + [y];
    AckFirst(a, x, [y], wanted);
    AckLast(a.(enc := Some(enc)), y, wanted);
  }

  lemma AckReadIpv6(a: Auth, ip6: S.ipv6, dns6: S.ipv6, gateway6: S.ipv6, wanted: u32)
    ensures AckAll(Ok(a), [Tlv(T_IPV6, BE128(ip6)), Tlv(T_DNS6, BE128(dns6)), Tlv(T_GATEWAY6, BE128(gateway6))], wanted)
            == Ok(a.(ip6 := Some(ip6), dns6 := Some(dns6), gateway6 := Some(gateway6)))
  {
    hide AckAll, BE128, FromBE128;
    var x, y, z := Tlv(T_IPV6, BE128(ip6)), Tlv(T_DNS6, BE128(dns6)), Tlv(T_GATEWAY6, BE128(gateway6));
    assert [x, y, z] == [x] + [y, z] && [y, z] == [y] + [z];
    BE128Read(ip6);
    BE128Read(dns6);
    BE128Read(gateway6);
    AckFirst(a, x, [y, z], wanted);
    AckFirst(a.(ip6 := Some(ip6)), y, [z], wanted);
    AckLast(a.(ip6 := Some(ip6), dns6 := Some(dns6)), z, wanted);
  }

  lemma BE128Read(n: S.ipv6)
    ensures FromBE128(BE128(n)) == n
  {
    hide FromBE128, BE128;
    BE128RoundTrip(n, []);
    assert BE128(n) + [] == BE128(n);
  }

  lemma AckReadNonce(a: Auth, nonce: Option<u32>, wanted: u32)
    requires a.verified.None?
    ensures AckAll(Ok(a), Optional(nonce, NonceTlv), wanted)
            == if nonce.Some? && nonce.value != wanted then Err("AUTH_VERIFY mismatch") else Ok(a.(verified := nonce))
  {
    if nonce.Some? {
      BE32RoundTrip(nonce.value, []);
      assert BE32(nonce.value) + [] == BE32(nonce.value);
      hide AckAll;
      AckLast(a, NonceTlv(nonce.value), wanted);
    }
  }

  lemma AckTlvsReadBack(cfg: Config, mtu: u16, s: S.Session, nonce: Option<u32>, wanted: u32)
    ensures AckAll(Ok(Unread(s.sid, s.token)), AckTlvs(cfg, mtu, s.enc, s.ip, s.ip6, nonce), wanted)
            == if nonce.Some? && nonce.value != wanted then Err("AUTH_VERIFY mismatch")
               else Ok(Told(cfg, mtu, s, nonce))
  {
    hide AckAll, AckOne, BE32, BE128, BE16, Optional;
    var a := Unread(s.sid, s.token);
    var b1 := [Tlv(T_MTU, BE16(mtu)), Tlv(T_IP, BE32(s.ip)), Tlv(T_GATEWAY, BE32(cfg.ip)),
               Tlv(T_DNS, BE32(cfg.dns) + BE32(cfg.dns2))];
    var b2 := [Tlv(T_ENCRYPT, [s.enc]), Tlv(T_DUPPKT, [cfg.duppkt])];
    var b3 := [Tlv(T_IPV6, BE128(s.ip6)), Tlv(T_DNS6, BE128(cfg.dns6)), Tlv(T_GATEWAY6, BE128(cfg.ip6))];
    var b4 := Optional(nonce, NonceTlv);
    AckAppend(Ok(a), b1 + b2 + b3, b4, wanted);
    AckAppend(Ok(a), b1 + b2, b3, wanted);
    AckAppend(Ok(a), b1, b2, wanted);
    AckReadAddresses(a, cfg, mtu, s.ip, wanted);
    var a1 := AckAll(Ok(a), b1, wanted).value;
    AckReadModes(a1, s.enc, cfg.duppkt, wanted);
    var a2 := AckAll(Ok(a1), b2, wanted).value;
    AckReadIpv6(a2, s.ip6, cfg.dns6, cfg.ip6, wanted);
    var a3 := AckAll(Ok(a2), b3, wanted).value;
    AckReadNonce(a3, nonce, wanted);
  }

  lemma AckTlvsSurvive(cfg: Config, mtu: u16, s: S.Session, nonce: Option<u32>)
    ensures var ts := AckTlvs(cfg, mtu, s.enc, s.ip, s.ip6, nonce); Parse(EncodeAll(ts)) == ts
  {
    var ts := AckTlvs(cfg, mtu, s.enc, s.ip, s.ip6, nonce);
    assert forall t | t in ts :: Known(t.typ) && Fits(t);
    hide Parse, EncodeAll, Known, Fits;
    ParseRecoversIff(ts);
  }

  /** An acknowledgement tells the client its session, its addresses and its
      modes, and is refused exactly when it echoes another nonce. */
  lemma AckRoundTrip(md5: Md5, cfg: Config, mtu: u16, s: S.Session, nonce: Option<u32>, wanted: u32)
    requires 576 <= mtu <= 9000
    ensures ParseAck(md5, Ack(md5, cfg, mtu, s, nonce), wanted)
            == if nonce.Some? && nonce.value != wanted then Unusable("AUTH_VERIFY mismatch")
               else Accepted(Told(cfg, mtu, s, nonce))
  {
    hide AckAll, Parse, EncodeAll, AckTlvs, Signed, Control;
    var ts := AckTlvs(cfg, mtu, s.enc, s.ip, s.ip6, nonce);
    ControlRead(md5, PT_OPEN_ACK, s.enc, s.sid, s.token, EncodeAll(ts));
    SignedSize(md5, Ack(md5, cfg, mtu, s, nonce));
    AckTlvsSurvive(cfg, mtu, s, nonce);
    AckTlvsReadBack(cfg, mtu, s, nonce, wanted);
  }

  /** A rejection carries its text to the client. */
  lemma RejectRoundTrip(md5: Md5, message: string, wanted: u32)
    requires |message| <= 253
    ensures ParseAck(md5, Reject(md5, message), wanted) == RejectedBy(Ascii(message))
  {
    var t := Tlv(T_ERR_MSG, Ascii(message));
    ParseOne(t, []);
    ParseShort([]);
    assert Encode(t) + [] == Encode(t);
    assert Parse(Encode(t)) == [t];
    ControlRead(md5, PT_OPEN_REJECT, 0, 0, 0, Encode(t));
    hide Parse, Encode, Control;
    assert RejectText(Encode(t), [t]) == t.value;
  }

  // --------------------------------------------------- who is let in

  /** A signed OPEN in a mode there is, from a known user, with the password
      block that user must present. */
  ghost predicate Entitled(md5: Md5, block: PasswordCipher, cfg: Config, raw: seq<byte>) {
    && |raw| >= 24 && md5(raw[..8] + [0x6D, 0x77]) == raw[8..24]
    && var r := ReadOpen(raw);
       r.enc <= 2 && r.user in cfg.users && r.password == block(cfg.users[r.user], r.user)
  }

  lemma ControlType(md5: Md5, typ: byte, enc: byte, sid: u16, token: u32, payload: seq<byte>)
    ensures var p := Control(md5, T.Header(typ, enc, sid, token), payload);
            p != [] && p[0] == typ && |p| >= 8 && T.SidOf(p) == sid && T.TokenOf(p) == token
  {
    hide Signed, Control;
    ControlRead(md5, typ, enc, sid, token, payload);
    SignedSize(md5, Control(md5, T.Header(typ, enc, sid, token), payload));
  }

  lemma AckType(md5: Md5, cfg: Config, mtu: u16, s: S.Session, nonce: Option<u32>)
    ensures var p := Ack(md5, cfg, mtu, s, nonce);
            p != [] && p[0] == PT_OPEN_ACK && |p| >= 8 && T.SidOf(p) == s.sid && T.TokenOf(p) == s.token
  {
    ControlType(md5, PT_OPEN_ACK, s.enc, s.sid, s.token, EncodeAll(AckTlvs(cfg, mtu, s.enc, s.ip, s.ip6, nonce)));
    hide Control, EncodeAll, AckTlvs, T.Header, T.SidOf, T.TokenOf;
  }

  lemma RejectType(md5: Md5, message: string)
    ensures Reject(md5, message) != [] && Reject(md5, message)[0] == PT_OPEN_REJECT
  {
    ControlType(md5, PT_OPEN_REJECT, 0, 0, 0, Encode(Tlv(T_ERR_MSG, Ascii(message))));
    hide Control, Encode, T.Header, T.SidOf, T.TokenOf;
  }

  /** Only an entitled client changes anything in the table or is ever sent an
      acknowledgement. */
  lemma OnlyTheEntitled(md5: Md5, block: PasswordCipher, cfg: Config, p: S.Pool, raw: seq<byte>, addr: nat, token: u32,
                        now: nat, k: nat)
    ensures var (q, replies) := HandleOpen(md5, block, cfg, p, raw, addr, token, now);
            q != p || (k < |replies| && replies[k] != [] && replies[k][0] == PT_OPEN_ACK)
            ==> Entitled(md5, block, cfg, raw)
  {
    hide S.Open, Ack, Reject, ReadOpen;
    RejectType(md5, "unsupported encrypt mode");
    RejectType(md5, "unknown user");
    RejectType(md5, "bad password");
  }

  /** Who is not entitled is told why, by the first thing that is wrong, or not
      answered when the datagram is not signed. */
  lemma RefusedFor(md5: Md5, block: PasswordCipher, cfg: Config, p: S.Pool, raw: seq<byte>, addr: nat, token: u32,
                   now: nat)
    ensures var (q, replies) := HandleOpen(md5, block, cfg, p, raw, addr, token, now);
            if |raw| < 24 || md5(raw[..8] + [0x6D, 0x77]) != raw[8..24] then q == p && replies == []
            else
              var r := ReadOpen(raw);
              && (r.enc > 2 ==> q == p && replies == [Reject(md5, "unsupported encrypt mode")])
              && (r.enc <= 2 && r.user !in cfg.users ==> q == p && replies == [Reject(md5, "unknown user")])
              && (r.enc <= 2 && r.user in cfg.users && r.password != block(cfg.users[r.user], r.user)
                  ==> q == p && replies == [Reject(md5, "bad password")])
  {
    hide S.Open, Ack, Reject, ReadOpen;
  }

  /** Who is entitled is acknowledged exactly when an address can be had, and
      told so otherwise. */
  lemma EntitledAcknowledged(md5: Md5, block: PasswordCipher, cfg: Config, p: S.Pool, raw: seq<byte>, addr: nat,
                             token: u32, now: nat)
    requires Entitled(md5, block, cfg, raw)
    ensures var (q, replies) := HandleOpen(md5, block, cfg, p, raw, addr, token, now);
            if S.AllocateIpv4(p).1.None? then q == p && replies == [Reject(md5, "no available tunnel IP")]
            else
              && replies != [] && |replies[0]| >= 8 && replies[0][0] == PT_OPEN_ACK && T.TokenOf(replies[0]) == token
              && (|replies| == 1 ==> T.SidOf(replies[0]) in q.sessions && T.SidOf(replies[0]) !in p.sessions)
              && (|replies| > 1 ==> q.sessions == p.sessions)
  {
    var r := ReadOpen(raw);
    hide ReadOpen;
    var (q, outcome) := S.Open(p, RequestFor(md5, cfg, r, addr, token, now), cfg.ip6);
    OpenOutcome(p, RequestFor(md5, cfg, r, addr, token, now), cfg.ip6);
    hide S.Open, Ack, Reject, T.SidOf, T.TokenOf;
    if !outcome.NoAddress? { AckType(md5, cfg, MtuInUse(r.mtu), outcome.session, r.nonce); }
  }

  /** What opening does to the table, by outcome. */
  lemma OpenOutcome(p: S.Pool, r: S.Request, server: S.ipv6)
    ensures var (q, o) := S.Open(p, r, server);
            && (o.NoAddress? <==> S.AllocateIpv4(p).1.None?)
            && (o.NoAddress? ==> q == p)
            && (o.Refused? ==> q.sessions == p.sessions && o.session.token == r.token)
            && (o.Opened? ==> o.session.sid !in p.sessions && q.sessions == p.sessions[o.session.sid := o.session]
                              && o.session.token == r.token)
  {
  }

  /** A session that an OPEN adds is keyed by the digest of user name and
      password, the mask being its first eight bytes, and has the mode and link
      that were offered; no session already there changes. */
  lemma NewSession(md5: Md5, block: PasswordCipher, cfg: Config, p: S.Pool, raw: seq<byte>, addr: nat, token: u32,
                   now: nat, sid: u16)
    requires var q := HandleOpen(md5, block, cfg, p, raw, addr, token, now).0;
             sid in q.sessions && (sid !in p.sessions || q.sessions[sid] != p.sessions[sid])
    ensures Entitled(md5, block, cfg, raw) && sid !in p.sessions
    ensures var r, s := ReadOpen(raw), HandleOpen(md5, block, cfg, p, raw, addr, token, now).0.sessions[sid];
            && s.aesKey == md5(r.user + cfg.users[r.user]) && s.xorKey == md5(r.user + cfg.users[r.user])[..8]
            && s.enc == r.enc && s.srlink == r.srlink && s.token == token && s.addr == addr && s.lastSeen == now
            && s.sid == sid == s.ip % 0x1_0000 && (r.ip6.Some? ==> s.ip6 == r.ip6.value)
  {
    hide ReadOpen;
    OnlyTheEntitled(md5, block, cfg, p, raw, addr, token, now, 0);
    var r := ReadOpen(raw);
    OpenOutcome(p, RequestFor(md5, cfg, r, addr, token, now), cfg.ip6);
    OpenedSession(p, RequestFor(md5, cfg, r, addr, token, now), cfg.ip6);
    hide S.Open, Ack, Reject;
  }

  lemma OpenedSession(p: S.Pool, r: S.Request, server: S.ipv6)
    ensures var (q, o) := S.Open(p, r, server);
            o.Opened? ==>
              var s := o.session;
              && s.aesKey == r.aesKey && s.xorKey == r.xorKey && s.enc == r.enc && s.srlink == r.srlink
              && s.token == r.token && s.addr == r.addr && s.lastSeen == r.now && s.sid == s.ip % 0x1_0000
              && (r.requested6.Some? ==> s.ip6 == r.requested6.value)
  {
  }

  /** An answer is accepted only if it is a signed acknowledgement, with the
      session and token of its header; every nonce it echoes is the one sent. */
  lemma AcceptedOnlySigned(md5: Md5, buf: seq<byte>, wanted: u32)
    requires ParseAck(md5, buf, wanted).Accepted?
    ensures |buf| >= 24 && buf[0] == 0x12 && md5(buf[..8] + [0x6D, 0x77]) == buf[8..24]
    ensures var a := ParseAck(md5, buf, wanted).auth;
            a.sid == FromBE16(buf[2..]) && a.token == FromBE32(buf[4..]) && (576 <= a.mtu <= 9000)
    ensures forall t | t in Parse(buf[24..]) && t.typ == T_AUTH_VERIFY :: |t.value| == 4 && FromBE32(t.value) == wanted
  {
    hide Parse, AckOne;
    var start := Unread(T.SidOf(buf), T.TokenOf(buf));
    AckKeepsSession(start, Parse(buf[24..]), wanted);
  }

  lemma {:induction false} AckKeepsSession(a: Auth, ts: seq<Tlv>, wanted: u32)
    requires AckAll(Ok(a), ts, wanted).Ok?
    ensures AckAll(Ok(a), ts, wanted).value.sid == a.sid && AckAll(Ok(a), ts, wanted).value.token == a.token
    ensures forall t | t in ts && t.typ == T_AUTH_VERIFY :: |t.value| == 4 && FromBE32(t.value) == wanted
    decreases |ts|
  {
    if ts != [] {
      AckStepKeeps(a, ts[0], wanted);
      hide AckOne, FromBE32;
      AckKeepsSession(AckOne(a, ts[0], wanted).value, ts[1..], wanted);
      forall t | t in ts && t.typ == T_AUTH_VERIFY ensures |t.value| == 4 && FromBE32(t.value) == wanted {
        if t != ts[0] { assert t in ts[1..]; }
      }
    }
  }

  lemma AckStepKeeps(a: Auth, t: Tlv, wanted: u32)
    ensures var b := AckOne(a, t, wanted);
            && (b.Ok? ==> b.value.sid == a.sid && b.value.token == a.token)
            && (b.Ok? && t.typ == T_AUTH_VERIFY ==> |t.value| == 4 && FromBE32(t.value) == wanted)
  {
    hide FromBE128, FromBE16, FromBE32;
  }

  /** The whole exchange, for an offer with a user name of at most 253 bytes:
      what the server makes of it and what the client learns from the first
      packet that comes back. */
  lemma ClientLearns(md5: Md5, block: PasswordCipher, cfg: Config, p: S.Pool, o: Offer, addr: nat, token: u32,
                     now: nat, wanted: u32)
    requires |o.user| <= 253
    ensures var (q, replies) := HandleOpen(md5, block, cfg, p, BuildOpen(md5, o), addr, token, now);
            && replies != []
            && var learnt := ParseAck(md5, replies[0], wanted);
            if o.enc > 2 then q == p && learnt == RejectedBy(Ascii("unsupported encrypt mode"))
            else if o.user !in cfg.users then q == p && learnt == RejectedBy(Ascii("unknown user"))
            else if o.password != block(cfg.users[o.user], o.user)
            then q == p && learnt == RejectedBy(Ascii("bad password"))
            else
              var key := md5(o.user + cfg.users[o.user]);
              var request := S.Request(addr, token, key[..8], key, o.enc, o.srlink, None, now);
              var (after, outcome) := S.Open(p, request, cfg.ip6);
              && q == after
              && match outcome
                 case NoAddress => learnt == RejectedBy(Ascii("no available tunnel IP"))
                 case Opened(s) => learnt == Learnt(cfg, o, s, wanted)
                 case Refused(s, _) => learnt == Learnt(cfg, o, s, wanted)
  {
    hide Parse, S.Open, Ack, Reject, ParseAck, BuildOpen, ReadOpen, Ascii;
    OfferRecoveredIff(md5, o);
    SignedSize(md5, BuildOpen(md5, o));
    var r := ReadingOf(o);
    var objection := Objection(cfg, block, r);
    if objection.Some? {
      RejectRoundTrip(md5, objection.value, wanted);
    } else {
      var (after, outcome) := S.Open(p, RequestFor(md5, cfg, r, addr, token, now), cfg.ip6);
      match outcome {
        case NoAddress =>
          RejectRoundTrip(md5, "no available tunnel IP", wanted);
        case Opened(s) =>
          AckRoundTrip(md5, cfg, MtuInUse(o.mtu), s, o.nonce, wanted);
        case Refused(s, _) =>
          AckRoundTrip(md5, cfg, MtuInUse(o.mtu), s, o.nonce, wanted);
      }
    }
  }

  /** What a client that made an offer learns from an acknowledgement of s. */
  function Learnt(cfg: Config, o: Offer, s: S.Session, wanted: u32): Answer {
    if o.nonce.Some? && o.nonce.value != wanted then Unusable("AUTH_VERIFY mismatch")
    else Accepted(Told(cfg, if 576 <= o.mtu <= 9000 then o.mtu else 1400, s, o.nonce))
  }
}
