/** Opening a session: the client's OPEN (src/core/auth.rs, build_open), what
    the server reads from it and answers (src/bin/server/handler.rs,
    handle_open), and what the client reads from the answer (parse_ack).
    The digest and the password cipher are parameters. */
module Handshake {
  import opened Bytes
  import opened Wrappers
  import opened Tlv
  import T = Tunnel
  import S = Sessions

  const PT_OPEN_REJECT: byte := 0x11
  const PT_OPEN_ACK: byte := 0x12
  const PT_OPEN: byte := 0x13

  type Digest = s: seq<byte> | |s| == 16 witness Zeros(16)
  type Md5 = seq<byte> -> Digest

  // --------------------------------------------------------- control packets

  function Signature(md5: Md5, header: seq<byte>): Digest {
    md5(header + [0x6D, 0x77])
  }

  function Control(md5: Md5, header: seq<byte>, payload: seq<byte>): seq<byte> {
    header + Signature(md5, header) + payload
  }

  predicate Signed(md5: Md5, packet: seq<byte>) {
    |packet| >= 24 && Signature(md5, packet[..8]) == packet[8..24]
  }

  lemma ControlRead(md5: Md5, typ: byte, enc: byte, sid: u16, token: u32, payload: seq<byte>)
    ensures var p := Control(md5, T.Header(typ, enc, sid, token), payload);
            Signed(md5, p) && p[0] == typ && T.SidOf(p) == sid && T.TokenOf(p) == token && p[24..] == payload
  {
    var h := T.Header(typ, enc, sid, token);
    var p := Control(md5, h, payload);
    T.HeaderRead(typ, enc, sid, token, Signature(md5, h) + payload);
    assert p == h + (Signature(md5, h) + payload);
    assert p[..8] == h && p[8..24] == Signature(md5, h) && p[24..] == payload;
  }

  // ------------------------------------------------------------ the OPEN

  /** What a client offers. The pipe is its index and id. */
  datatype Offer = Offer(
    user: seq<byte>, password: Digest, mtu: u16, enc: byte,
    pipe: Option<(u16, u16)>, srlink: Option<u32>, nonce: Option<u32>)

  /** The pipe index shifted to the top bit, or-ed with the id, in 16 bits. */
  function PackPipe(index: u16, id: u16): u16 {
    if index % 2 == 1 && id < 0x8000 then (id as int) + 0x8000 else id
  }

  function PipeIndex(packed: u16): u16 {
    packed / 0x8000
  }

  function PipeId(packed: u16): u16 {
    packed % 0x8000
  }

  /** The packing is undone exactly when both fields are in range. */
  lemma PipeRecoveredIff(index: u16, id: u16)
    ensures PipeIndex(PackPipe(index, id)) == index && PipeId(PackPipe(index, id)) == id
       <==> index < 2 && id < 0x8000
  {
  }

  function Optional<A>(o: Option<A>, make: A -> Tlv): seq<Tlv> {
    if o.Some? then [make(o.value)] else []
  }

  function NonceTlv(n: u32): Tlv { Tlv(T_AUTH_VERIFY, BE32(n)) }

  function PipeTlv(p: (u16, u16)): Tlv { Tlv(T_PIPE, BE16(PackPipe(p.0, p.1))) }

  function LinkTlv(link: u32): Tlv { Tlv(T_PIPE, BE32(link)) }

  function OpenTlvs(o: Offer): seq<Tlv> {
    [Tlv(T_MTU, BE16(o.mtu)), Tlv(T_USERNAME, o.user), Tlv(T_PASSWORD, o.password), Tlv(T_ENCRYPT, [o.enc])]
    + Optional(o.nonce, NonceTlv) + Optional(o.pipe, PipeTlv) + Optional(o.srlink, LinkTlv)
  }

  function BuildOpen(md5: Md5, o: Offer): seq<byte> {
    Control(md5, T.Header(PT_OPEN, o.enc, 0, 0), EncodeAll(OpenTlvs(o)))
  }

  // --------------------------------------------------- what the server reads

  datatype Reading = Reading(
    user: seq<byte>, password: Digest, mtu: u16, enc: byte,
    pipe: Option<u16>, srlink: Option<u32>, nonce: Option<u32>, ip6: Option<S.ipv6>)

  function NothingRead(): Reading {
    Reading([], Zeros(16), 1400, 0, None, None, None, None)
  }

  function ReadOne(r: Reading, t: Tlv): Reading {
    var v := t.value;
    if t.typ == T_USERNAME then r.(user := v)
    else if t.typ == T_PASSWORD && |v| >= 16 then r.(password := v[..16])
    else if t.typ == T_MTU && |v| >= 2 then r.(mtu := FromBE16(v))
    else if t.typ == T_ENCRYPT && v != [] then r.(enc := v[0])
    else if t.typ == T_PIPE && |v| == 2 then r.(pipe := Some(FromBE16(v)))
    else if t.typ == T_PIPE && |v| >= 4 then r.(srlink := Some(FromBE32(v)))
    else if t.typ == T_AUTH_VERIFY && |v| >= 4 then r.(nonce := Some(FromBE32(v)))
    else if t.typ == T_IPV6 && |v| >= 16 then r.(ip6 := Some(FromBE128(v)))
    else r
  }

  function ReadAll(r: Reading, ts: seq<Tlv>): Reading
    decreases |ts|
  {
    if ts == [] then r else ReadAll(ReadOne(r, ts[0]), ts[1..])
  }

  function ReadOpen(packet: seq<byte>): Reading
    requires |packet| >= 24
  {
    ReadAll(NothingRead(), Parse(packet[24..]))
  }

  /** The entries seen so far need no second look. */
  lemma {:induction false} ReadAppend(r: Reading, a: seq<Tlv>, b: seq<Tlv>)
    ensures ReadAll(r, a + b) == ReadAll(ReadAll(r, a), b)
    decreases |a|
  {
    hide ReadOne;
    if a == [] {
      assert a + b == b;
    } else {
      assert (a + b)[1..] == a[1..] + b;
      ReadAppend(ReadOne(r, a[0]), a[1..], b);
    }
  }

  method ReadOffer(ts: seq<Tlv>) returns (r: Reading)
    ensures r == ReadAll(NothingRead(), ts)
  {
    r := NothingRead();
    for i := 0 to |ts|
      invariant ReadAll(r, ts[i..]) == ReadAll(NothingRead(), ts)
    {
      var t, v := ts[i], ts[i].value;
      ghost var next := ReadOne(r, t);
      assert ts[i..][1..] == ts[i + 1..];
      if t.typ == T_USERNAME {
        r := r.(user := v);
      } else if t.typ == T_PASSWORD && |v| >= 16 {
        r := r.(password := v[..16]);
      } else if t.typ == T_MTU && |v| >= 2 {
        r := r.(mtu := FromBE16(v));
      } else if t.typ == T_ENCRYPT && v != [] {
        r := r.(enc := v[0]);
      } else if t.typ == T_PIPE && |v| == 2 {
        r := r.(pipe := Some(FromBE16(v)));
      } else if t.typ == T_PIPE && |v| >= 4 {
        r := r.(srlink := Some(FromBE32(v)));
      } else if t.typ == T_AUTH_VERIFY && |v| >= 4 {
        r := r.(nonce := Some(FromBE32(v)));
      } else if t.typ == T_IPV6 && |v| >= 16 {
        r := r.(ip6 := Some(FromBE128(v)));
      }
      assert r == next;
    }
  }

  /** What a server should read from an offer. */
  function ReadingOf(o: Offer): Reading {
    Reading(o.user, o.password, o.mtu, o.enc,
            if o.pipe.Some? then Some(PackPipe(o.pipe.value.0, o.pipe.value.1)) else None,
            o.srlink, o.nonce, None)
  }

  lemma ReadMandatory(o: Offer, r: Reading)
    ensures ReadAll(r, [Tlv(T_MTU, BE16(o.mtu)), Tlv(T_USERNAME, o.user), Tlv(T_PASSWORD, o.password),
                        Tlv(T_ENCRYPT, [o.enc])])
            == r.(mtu := o.mtu, user := o.user, password := o.password, enc := o.enc)
  {
    hide ReadAll;
    BE16RoundTrip(o.mtu, []);
    assert BE16(o.mtu) + [] == BE16(o.mtu);
    assert o.password[..16] == o.password;
    var a, b, c, d := Tlv(T_MTU, BE16(o.mtu)), Tlv(T_USERNAME, o.user), Tlv(T_PASSWORD, o.password),
        Tlv(T_ENCRYPT, [o.enc]);
    assert [a, b, c, d] == [a] + [b, c, d] && [b, c, d] == [b] + [c, d] && [c, d] == [c] + [d] && [d] == [d] + [];
    ReadFirst(r, a, [b, c, d]);
    ReadFirst(r.(mtu := o.mtu), b, [c, d]);
    ReadFirst(r.(mtu := o.mtu, user := o.user), c, [d]);
    ReadFirst(r.(mtu := o.mtu, user := o.user, password := o.password), d, []);
    ReadNone(r.(mtu := o.mtu, user := o.user, password := o.password, enc := o.enc));
  }

  lemma ReadFirst(r: Reading, t: Tlv, rest: seq<Tlv>)
    ensures ReadAll(r, [t] + rest) == ReadAll(ReadOne(r, t), rest)
  {
    assert ([t] + rest)[1..] == rest;
  }

  lemma ReadNone(r: Reading)
    ensures ReadAll(r, []) == r
  {
  }

  lemma ReadExtras(o: Offer, r: Reading)
    requires r.nonce.None? && r.pipe.None? && r.srlink.None?
    ensures ReadAll(r, Optional(o.nonce, NonceTlv) + Optional(o.pipe, PipeTlv) + Optional(o.srlink, LinkTlv))
            == r.(nonce := o.nonce, pipe := ReadingOf(o).pipe, srlink := o.srlink)
  {
    var a, b, c := Optional(o.nonce, NonceTlv), Optional(o.pipe, PipeTlv), Optional(o.srlink, LinkTlv);
    ReadAppend(r, a + b, c);
    ReadAppend(r, a, b);
    assert ReadAll(r, a) == r.(nonce := o.nonce) by { ReadNonce(o, r); }
    var r1 := r.(nonce := o.nonce);
    assert ReadAll(r1, b) == r1.(pipe := ReadingOf(o).pipe) by { ReadPipe(o, r1); }
    var r2 := r1.(pipe := ReadingOf(o).pipe);
    assert ReadAll(r2, c) == r2.(srlink := o.srlink) by { ReadLink(o, r2); }
  }

  lemma ReadNonce(o: Offer, r: Reading)
    requires r.nonce.None?
    ensures ReadAll(r, Optional(o.nonce, NonceTlv)) == r.(nonce := o.nonce)
  {
    if o.nonce.Some? {
      BE32RoundTrip(o.nonce.value, []);
      assert BE32(o.nonce.value) + [] == BE32(o.nonce.value);
      ReadFirst(r, NonceTlv(o.nonce.value), []);
    }
  }

  lemma ReadPipe(o: Offer, r: Reading)
    requires r.pipe.None?
    ensures ReadAll(r, Optional(o.pipe, PipeTlv)) == r.(pipe := ReadingOf(o).pipe)
  {
    if o.pipe.Some? {
      var packed := PackPipe(o.pipe.value.0, o.pipe.value.1);
      BE16RoundTrip(packed, []);
      assert BE16(packed) + [] == BE16(packed);
      ReadFirst(r, PipeTlv(o.pipe.value), []);
    }
  }

  lemma ReadLink(o: Offer, r: Reading)
    requires r.srlink.None?
    ensures ReadAll(r, Optional(o.srlink, LinkTlv)) == r.(srlink := o.srlink)
  {
    if o.srlink.Some? {
      BE32RoundTrip(o.srlink.value, []);
      assert BE32(o.srlink.value) + [] == BE32(o.srlink.value);
      ReadFirst(r, LinkTlv(o.srlink.value), []);
    }
  }

  lemma OpenTlvsKnown(o: Offer)
    ensures forall t | t in OpenTlvs(o) :: Known(t.typ)
    ensures |o.user| <= 253 ==> forall t | t in OpenTlvs(o) :: Fits(t)
  {
  }

  lemma {:induction false} UserFits(r: Reading, ts: seq<Tlv>)
    requires |r.user| <= 253 && forall t | t in ts :: Fits(t)
    ensures |ReadAll(r, ts).user| <= 253
    decreases |ts|
  {
    if ts != [] {
      assert forall t | t in ts[1..] :: t in ts;
      assert Fits(ts[0]);
      UserFits(ReadOne(r, ts[0]), ts[1..]);
    }
  }

  lemma SignedSize(md5: Md5, packet: seq<byte>)
    requires Signed(md5, packet)
    ensures |packet| >= 24
  {
  }

  /** The server reads what the client offered exactly when the user name has
      at most 253 bytes. */
  lemma OfferRecoveredIff(md5: Md5, o: Offer)
    ensures Signed(md5, BuildOpen(md5, o))
    ensures ReadOpen(BuildOpen(md5, o)) == ReadingOf(o) <==> |o.user| <= 253
  {
    hide Parse, EncodeAll, ReadAll, ReadOne, Control, Signed, Optional, Known, Fits;
    ControlRead(md5, PT_OPEN, o.enc, 0, 0, EncodeAll(OpenTlvs(o)));
    SignedSize(md5, BuildOpen(md5, o));
    OpenTlvsKnown(o);
    ParseRecoversIff(OpenTlvs(o));
    var data := EncodeAll(OpenTlvs(o));
    if |o.user| <= 253 {
      var head := [Tlv(T_MTU, BE16(o.mtu)), Tlv(T_USERNAME, o.user), Tlv(T_PASSWORD, o.password),
                   Tlv(T_ENCRYPT, [o.enc])];
      var tail := Optional(o.nonce, NonceTlv) + Optional(o.pipe, PipeTlv) + Optional(o.srlink, LinkTlv);
      assert OpenTlvs(o) == head + tail;
      ReadAppend(NothingRead(), head, tail);
      ReadMandatory(o, NothingRead());
      ReadExtras(o, ReadAll(NothingRead(), head));
    } else {
      ParsedFits(data);
      UserFits(NothingRead(), Parse(data));
    }
  }
}
