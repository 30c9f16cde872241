/** The type-length-value entries of the handshake messages
    (src/core/protocol.rs, tlv and parse_tlvs). */
module Tlv {
  import opened Bytes

  datatype Tlv = Tlv(typ: byte, value: seq<byte>)

  const T_USERNAME: byte := 0x01
  const T_PASSWORD: byte := 0x02
  const T_MTU: byte := 0x03
  const T_IP: byte := 0x04
  const T_DNS: byte := 0x05
  const T_GATEWAY: byte := 0x06
  const T_ENCRYPT: byte := 0x08
  const T_DUPPKT: byte := 0x09
  const T_PIPE: byte := 0x0A
  const T_IPV6: byte := 0x0B
  const T_DNS6: byte := 0x0C
  const T_GATEWAY6: byte := 0x0D
  const T_AUTH_VERIFY: byte := 0x0F
  const T_ERR_MSG: byte := 0x10

  /** The types TlvType::from_u8 knows. */
  predicate Known(typ: byte) {
    0x01 <= typ <= 0x0D || typ == 0x0F || typ == 0x10
  }

  /** One entry on the wire; its length byte counts the two bytes of the head
      and keeps only the low eight bits. */
  function Encode(t: Tlv): seq<byte> {
    [t.typ, (|t.value| + 2) % 0x100] + t.value
  }

  function EncodeAll(ts: seq<Tlv>): seq<byte> {
    if ts == [] then [] else Encode(ts[0]) + EncodeAll(ts[1..])
  }

  /** The entries read from a message; reading stops at an entry that does not
      fit, and entries of an unknown type are passed over. */
  function Parse(data: seq<byte>): seq<Tlv>
    decreases |data|
  {
    if |data| < 2 || data[1] < 2 || (data[1] as int) > |data| then []
    else (if Known(data[0]) then [Tlv(data[0], data[2..data[1]])] else []) + Parse(data[data[1]..])
  }

  /** What one turn of the reading loop does. */
  lemma ParseTurn(data: seq<byte>, i: nat)
    requires i + 2 <= |data|
    ensures var len: int := data[i + 1];
            Parse(data[i..]) ==
            if len < 2 || i + len > |data| then []
            else (if Known(data[i]) then [Tlv(data[i], data[i + 2..i + len])] else []) + Parse(data[i + len..])
  {
    var len: int := data[i + 1];
    if len >= 2 && i + len <= |data| {
      var rest := data[i..];
      assert data[i + 2..i + len] == rest[2..len] && data[i + len..] == rest[len..];
    }
  }

  lemma ParseShort(data: seq<byte>)
    requires |data| < 2
    ensures Parse(data) == []
  {
  }

  method ParseTlvs(data: seq<byte>) returns (out: seq<Tlv>)
    ensures out == Parse(data)
  {
    hide Parse, Known;
    out := [];
    var i := 0;
    assert data[0..] == data;
    while i + 2 <= |data|
      invariant i <= |data| && out + Parse(data[i..]) == Parse(data)
      decreases |data| - i
    {
      var len: int := data[i + 1];
      ParseTurn(data, i);
      if len < 2 || i + len > |data| {
        return;
      }
      if Known(data[i]) {
        out := out + [Tlv(data[i], data[i + 2..i + len])];
      }
      i := i + len;
    }
    ParseShort(data[i..]);
  }

  function KnownOnly(ts: seq<Tlv>): seq<Tlv> {
    if ts == [] then []
    else (if Known(ts[0].typ) then [ts[0]] else []) + KnownOnly(ts[1..])
  }

  predicate Fits(t: Tlv) {
    |t.value| <= 253
  }

  lemma ParseOne(t: Tlv, rest: seq<byte>)
    requires Fits(t)
    ensures Parse(Encode(t) + rest) == (if Known(t.typ) then [t] else []) + Parse(rest)
  {
    var all := Encode(t) + rest;
    var len := |t.value| + 2;
    assert len % 0x100 == len;
    assert all[2..len] == t.value && all[len..] == rest;
  }

  /** Entries that fit their length byte are read back in order, whatever
      follows them. */
  lemma {:induction false} ParseEncoded(ts: seq<Tlv>, rest: seq<byte>)
    requires forall t | t in ts :: Fits(t)
    ensures Parse(EncodeAll(ts) + rest) == KnownOnly(ts) + Parse(rest)
  {
    hide Encode, Known, Parse;
    if ts == [] {
      assert EncodeAll(ts) + rest == rest;
    } else {
      ParseOne(ts[0], EncodeAll(ts[1..]) + rest);
      ParseEncoded(ts[1..], rest);
      assert EncodeAll(ts) + rest == Encode(ts[0]) + (EncodeAll(ts[1..]) + rest);
      var head := if Known(ts[0].typ) then [ts[0]] else [];
      assert KnownOnly(ts) + Parse(rest) == head + (KnownOnly(ts[1..]) + Parse(rest));
    }
  }

  /** No message yields an entry of more than 253 bytes. */
  lemma {:induction false} ParsedFits(data: seq<byte>)
    ensures forall t | t in Parse(data) :: Fits(t) && Known(t.typ)
    decreases |data|
  {
    if |data| >= 2 && 2 <= data[1] && (data[1] as int) <= |data| {
      ParsedFits(data[data[1]..]);
    }
  }

  lemma {:induction false} KnownOnlyAll(ts: seq<Tlv>)
    requires forall t | t in ts :: Known(t.typ)
    ensures KnownOnly(ts) == ts
  {
    if ts != [] { KnownOnlyAll(ts[1..]); }
  }

  /** Entries of known types survive the wire exactly when every value has at
      most 253 bytes: the length byte of a longer one wraps around. */
  lemma ParseRecoversIff(ts: seq<Tlv>)
    requires forall t | t in ts :: Known(t.typ)
    ensures Parse(EncodeAll(ts)) == ts <==> forall t | t in ts :: Fits(t)
  {
    hide Encode, Parse, Known, Fits;
    ParsedFits(EncodeAll(ts));
    if forall t | t in ts :: Fits(t) {
      ParseEncoded(ts, []);
      KnownOnlyAll(ts);
      assert EncodeAll(ts) + [] == EncodeAll(ts);
      ParseShort([]);
    }
  }

}
