/** Fragments at the server, datagram by datagram (src/bin/server/handler.rs,
    src/bin/server/fragment.rs): what is read from an encoded fragment, and what
    a run of datagrams writes to the TUN device for a packet sent in pieces. */
module ServerFragments {
  import opened Bytes
  import opened Wrappers
  import opened Crypto
  import opened IpPacket
  import opened SrKey
  import opened Tunnel
  import opened Reassembly
  import opened Downlink
  import opened FragmentedDownlink

  // ---------------------------------------------------- one encoded fragment

  /** What the server reads from an encoded fragment, whatever its length and
      offset. */
  lemma FragmentRead(typ: byte, sid: u16, token: u32, id: u32, chunk: seq<byte>, off: nat, flag: nat, now: nat)
    requires flag <= 1
    ensures var kept := chunk[..KeptBytes(|chunk|, off)];
            DecodeFragment(FragmentPacket(typ, sid, token, id, chunk, off, flag), now)
            == if kept == [] then None else Some((id, Fragment(off % 0x2000, flag == 1, kept, now)))
  {
    hide Header, PackWord, LengthField, LE32, FromLE32, DecodeFragment, FragLength, FragOffset;
    var word := PackWord(|chunk|, off, flag);
    var raw := FragmentPacket(typ, sid, token, id, chunk, off, flag);
    var body := LE32(id) + (LE32(word) + chunk);
    LE32RoundTrip(id, LE32(word) + chunk);
    LE32RoundTrip(word, chunk);
    assert raw[8..] == body;
    assert raw[12..] == body[4..] == LE32(word) + chunk;
    assert raw[16..] == body[8..] == chunk;
    WordFields(|chunk|, off, flag);
    OffsetField(word);
    FieldsDecoded(raw, now, word, chunk, KeptBytes(|chunk|, off));
  }

  lemma OffsetField(word: u32)
    ensures word / 4 % 0x2000 == FragOffset(word)
  {
    var k, low: int := word / 0x8000, word % 0x8000;
    FieldAt(k, low);
    FieldAt(k % 2, low);
    assert word % 0x1_0000 == 0x8000 * (k % 2) + low;
  }

  lemma FieldAt(k: int, low: int)
    requires 0 <= low < 0x8000
    ensures (0x8000 * k + low) / 4 % 0x2000 == low / 4
  {
    assert (0x8000 * k + low) / 4 == 0x2000 * k + low / 4;
  }

  lemma FieldsDecoded(raw: seq<byte>, now: nat, word: u32, chunk: seq<byte>, kept: nat)
    requires |raw| >= 16 && raw[16..] == chunk && FromLE32(raw[12..]) == word
    requires kept == if FragLength(word) < |chunk| then FragLength(word) else |chunk|
    ensures DecodeFragment(raw, now)
         == if kept == 0 then None
            else Some((FromLE32(raw[8..]), Fragment(word / 4 % 0x2000, word % 2 == 1, chunk[..kept], now)))
  {
    hide FromLE32;
    assert raw[16..16 + kept] == chunk[..kept];
  }

  /** The server reads the very fragment that was encoded exactly when its
      offset has thirteen bits and its data one to 2047 bytes. */
  lemma FragmentRecoveredIff(typ: byte, sid: u16, token: u32, id: u32, chunk: seq<byte>, off: u16, flag: nat,
                             now: nat)
    requires flag <= 1
    ensures DecodeFragment(FragmentPacket(typ, sid, token, id, chunk, off, flag), now)
         == Some((id, Fragment(off, flag == 1, chunk, now)))
       <==> off < 0x2000 && 1 <= |chunk| <= 0x7ff
  {
    FragmentRead(typ, sid, token, id, chunk, off, flag, now);
    WholeKept(|chunk|, off);
    hide FragmentPacket, DecodeFragment, KeptBytes;
    var kept := chunk[..KeptBytes(|chunk|, off)];
    assert |kept| == KeptBytes(|chunk|, off);
    assert kept == chunk <==> |kept| == |chunk|;
  }

  lemma WholeKept(len: nat, off: u16)
    ensures KeptBytes(len, off) <= len
    ensures off % 0x2000 == off && 1 <= KeptBytes(len, off) == len <==> off < 0x2000 && 1 <= len <= 0x7ff
  {
  }

  // ------------------------------------------------------- runs of datagrams

  /** What reaches the server's table of fragments: a datagram, with the sessions
      live at that moment and the set that makes room if one must, or a sweep of
      the sets that are too old. */
  datatype Arrival =
    | Datagram(raw: seq<byte>, live: Directory, now: nat, victim: Option<SetKey>)
    | Sweep(now: nat, maxAge: nat)

  /** The table afterwards, and the packet written to the TUN device if any. */
  function Arrive(c: BlockCipher, sr: Option<SrConfig>, t: Table, a: Arrival): (Table, Option<seq<byte>>) {
    match a
    case Sweep(now, maxAge) => (Young(t, now, maxAge), None)
    case Datagram(raw, live, now, victim) =>
      match ServerReceive(c, raw, live, sr)
      case ToFragments(inner) => Handled(t, inner, live, now, victim)
      case Wrote(packet) => (t, Some(packet))
      case _ => (t, None)
  }

  function Handled(t: Table, inner: seq<byte>, live: Directory, now: nat, victim: Option<SetKey>)
    : (Table, Option<seq<byte>>)
  {
    var decoded := DecodeFragment(inner, now);
    if decoded.None? || live(SidOf(inner), TokenOf(inner)).None? then (t, None)
    else Push(t, victim, (SidOf(inner), TokenOf(inner), decoded.value.0), decoded.value.1)
  }

  function TableThen(c: BlockCipher, sr: Option<SrConfig>, t: Table, arrivals: seq<Arrival>): Table {
    if arrivals == [] then t
    else Arrive(c, sr, TableThen(c, sr, t, arrivals[..|arrivals| - 1]), arrivals[|arrivals| - 1]).0
  }

  /** The segment routing of a sender that the server understands. */
  ghost predicate Understood(sr: Option<SrConfig>, ours: SrConfig) {
    && ours.links != [] && ours.mode < 8
    && (ours.mode != 0 ==> sr.Some? && sr.value.mode == ours.mode && Key(sr.value) == Key(ours))
  }

  /** The datagram is the encoded fragment: id, packed word and data behind the
      packet header, as they are or behind a segment routing header. */
  ghost predicate Encodes(c: BlockCipher, sr: Option<SrConfig>, raw: seq<byte>, key: SetKey, chunk: seq<byte>,
                          off: nat, last: bool)
  {
    var flag := if last then 1 else 0;
    exists typ: byte | IsFragment(typ) ::
      || raw == FragmentPacket(typ, key.0, key.1, key.2, chunk, off, flag)
      || exists ours | Understood(sr, ours) :: raw == SrFragment(c, ours, typ, key, chunk, off, flag)
  }

  ghost function SrFragment(c: BlockCipher, sr: SrConfig, typ: byte, key: SetKey, chunk: seq<byte>, off: nat, flag: nat)
    : seq<byte>
    requires flag <= 1 && sr.links != []
  {
    var body := LE32(key.2) + (LE32(PackWord(|chunk|, off, flag)) + chunk);
    var outer := OuterCiphered(c, sr, body);
    if outer.Err? then []
    else OuterHeader(LinkCount(sr.links) - 1, OuterPad(sr, |body|), sr) + (Header(typ, 0, key.0, key.1) + outer.value)
  }

  /** A fragment of the set of `key`: it reaches the table with that session id,
      token and fragment id. */
  predicate IsFor(c: BlockCipher, sr: Option<SrConfig>, a: Arrival, key: SetKey) {
    && a.Datagram?
    && match ServerReceive(c, a.raw, a.live, sr)
       case ToFragments(inner) => |inner| >= 16 && (SidOf(inner), TokenOf(inner), FromLE32(inner[8..])) == key
       case _ => false
  }

  /** A datagram with the given piece of the packet, or, where no piece is named,
      an arrival that is not for the packet's set. */
  ghost predicate Brings(c: BlockCipher, sr: Option<SrConfig>, a: Arrival, piece: Option<nat>, packet: seq<byte>,
                         cuts: seq<nat>, key: SetKey)
    requires Cuts(packet, cuts)
  {
    if piece.None? then !IsFor(c, sr, a, key)
    else
      var j := piece.value;
      && j < Pieces(cuts) && a.Datagram? && a.live(key.0, key.1).Some?
      && Encodes(c, sr, a.raw, key, PiecePart(packet, cuts, j).data, cuts[j], j == Pieces(cuts) - 1)
  }

  /** The set of `key` neither makes room for another nor is swept for its age. */
  ghost predicate Leaves(t: Table, a: Arrival, key: SetKey) {
    match a
    case Datagram(_, _, _, victim) => victim != Some(key)
    case Sweep(now, maxAge) => key in t ==> now < t[key].lastSeen + maxAge
  }

  /** Pieces short enough and near enough to be encoded. */
  ghost predicate Encodable(packet: seq<byte>, cuts: seq<nat>)
    requires Cuts(packet, cuts)
  {
    forall j | 0 <= j < Pieces(cuts) :: cuts[j] < 0x2000 && |PiecePart(packet, cuts, j).data| <= 0x7ff
  }

  /** The pieces named so far. */
  function Named(which: seq<Option<nat>>): set<nat> {
    set o | o in which && o.Some? :: o.value
  }

  lemma DirectFragment(c: BlockCipher, sr: Option<SrConfig>, typ: byte, sid: u16, token: u32, id: u32,
                       chunk: seq<byte>, off: nat, flag: nat, live: Directory)
    requires flag <= 1 && IsFragment(typ)
    ensures var raw := FragmentPacket(typ, sid, token, id, chunk, off, flag);
            && ServerReceive(c, raw, live, sr) == ToFragments(raw)
            && SidOf(raw) == sid && TokenOf(raw) == token
  {
    hide Header, SidOf, TokenOf, LE32, PackWord;
    HeaderRead(typ, 0, sid, token, LE32(id) + (LE32(PackWord(|chunk|, off, flag)) + chunk));
  }

  lemma RoutedFragment(c: BlockCipher, sr: Option<SrConfig>, ours: SrConfig, typ: byte, key: SetKey,
                       chunk: seq<byte>, off: nat, flag: nat, live: Directory)
    requires Lawful(c) && flag <= 1 && IsFragment(typ) && Understood(sr, ours) && live(key.0, key.1).Some?
    ensures ServerReceive(c, SrFragment(c, ours, typ, key, chunk, off, flag), live, sr)
         == ToFragments(FragmentPacket(typ, key.0, key.1, key.2, chunk, off, flag))
  {
    hide Header, SidOf, TokenOf, LE32, PackWord, OuterHeader, OuterCiphered, ServerStrip, Key, WireLinks, OuterPad;
    var body := LE32(key.2) + (LE32(PackWord(|chunk|, off, flag)) + chunk);
    SrStripped(c, ours, sr, typ, 0, key.0, key.1, body);
    var framed := Header(typ, 0, key.0, key.1) + OuterCiphered(c, ours, body).value;
    OuterSplit(LinkCount(ours.links) - 1, OuterPad(ours, |body|), ours, framed);
    HeaderRead(typ, 0, key.0, key.1, OuterCiphered(c, ours, body).value);
  }

  /** A datagram with a piece pushes that piece. */
  lemma PieceArrives(c: BlockCipher, sr: Option<SrConfig>, t: Table, a: Arrival, packet: seq<byte>, cuts: seq<nat>,
                     j: nat, key: SetKey)
    requires Lawful(c) && Cuts(packet, cuts) && Encodable(packet, cuts) && Brings(c, sr, a, Some(j), packet, cuts, key)
    ensures Arrive(c, sr, t, a) == Push(t, a.victim, key, Piece(packet, cuts, j, a.now))
  {
    var chunk, off := PiecePart(packet, cuts, j).data, cuts[j];
    assert 1 <= |chunk| by { assert cuts[j] < cuts[j + 1] <= |packet|; }
    hide Cuts, Arrive, Push, Encodes, Piece, Lawful;
    PieceFields(packet, cuts, j, a.now);
    FragmentArrives(c, sr, t, a, key, chunk, off, j == Pieces(cuts) - 1);
  }

  lemma FragmentArrives(c: BlockCipher, sr: Option<SrConfig>, t: Table, a: Arrival, key: SetKey, chunk: seq<byte>,
                        off: u16, last: bool)
    requires Lawful(c) && a.Datagram? && a.live(key.0, key.1).Some?
    requires off < 0x2000 && 1 <= |chunk| <= 0x7ff && Encodes(c, sr, a.raw, key, chunk, off, last)
    ensures Arrive(c, sr, t, a) == Push(t, a.victim, key, Fragment(off, last, chunk, a.now))
  {
    hide Lawful, Push, FragmentPacket, SrFragment, ServerReceive, DecodeFragment, SidOf, TokenOf, Key;
    var flag := if last then 1 else 0;
    var typ: byte :| IsFragment(typ)
                     && (a.raw == FragmentPacket(typ, key.0, key.1, key.2, chunk, off, flag)
                         || exists ours | Understood(sr, ours) ::
                           a.raw == SrFragment(c, ours, typ, key, chunk, off, flag));
    hide IsFragment;
    DirectFragment(c, sr, typ, key.0, key.1, key.2, chunk, off, flag, a.live);
    FragmentRecoveredIff(typ, key.0, key.1, key.2, chunk, off, flag, a.now);
    if a.raw != FragmentPacket(typ, key.0, key.1, key.2, chunk, off, flag) {
      var ours :| Understood(sr, ours) && a.raw == SrFragment(c, ours, typ, key, chunk, off, flag);
      RoutedFragment(c, sr, ours, typ, key, chunk, off, flag, a.live);
    }
  }

  lemma OtherArrival(c: BlockCipher, sr: Option<SrConfig>, t: Table, a: Arrival, key: SetKey)
    requires !IsFor(c, sr, a, key) && Leaves(t, a, key)
    ensures Lookup(Arrive(c, sr, t, a).0, key) == Lookup(t, key)
  {
    hide ServerReceive, SidOf, TokenOf, FromLE32, PushEntry;
  }

  lemma PieceFields(packet: seq<byte>, cuts: seq<nat>, j: nat, now: nat)
    requires Cuts(packet, cuts) && j < Pieces(cuts)
    ensures Piece(packet, cuts, j, now)
         == Fragment(cuts[j], j == Pieces(cuts) - 1, PiecePart(packet, cuts, j).data, now)
  {
  }

  /** What a run of arrivals keeps: they bring what is said of them, and the
      packet's set is left alone. */
  ghost predicate Delivery(c: BlockCipher, sr: Option<SrConfig>, t: Table, arrivals: seq<Arrival>,
                           which: seq<Option<nat>>, packet: seq<byte>, cuts: seq<nat>, key: SetKey)
    requires Cuts(packet, cuts)
  {
    && |which| == |arrivals|
    && forall i | 0 <= i < |arrivals| ::
         && Brings(c, sr, arrivals[i], which[i], packet, cuts, key)
         && Leaves(TableThen(c, sr, t, arrivals[..i]), arrivals[i], key)
  }

  lemma DeliveryPrefix(c: BlockCipher, sr: Option<SrConfig>, t: Table, arrivals: seq<Arrival>,
                       which: seq<Option<nat>>, packet: seq<byte>, cuts: seq<nat>, key: SetKey, n: nat)
    requires Cuts(packet, cuts) && n <= |arrivals| && Delivery(c, sr, t, arrivals, which, packet, cuts, key)
    ensures Delivery(c, sr, t, arrivals[..n], which[..n], packet, cuts, key)
  {
    hide Brings, Leaves, TableThen, Cuts;
    forall i | 0 <= i < n ensures arrivals[..n][..i] == arrivals[..i] {}
  }

  /** Until the packet is complete its set holds exactly the pieces that came. */
  lemma {:induction false} SetHoldsNamed(c: BlockCipher, sr: Option<SrConfig>, t: Table, arrivals: seq<Arrival>,
                                         which: seq<Option<nat>>, packet: seq<byte>, cuts: seq<nat>, key: SetKey)
    requires Lawful(c) && Cuts(packet, cuts) && Encodable(packet, cuts) && key !in t
    requires Delivery(c, sr, t, arrivals, which, packet, cuts, key)
    requires !All(Named(which), Pieces(cuts))
    ensures HoldsSeen(packet, cuts, Named(which), Lookup(TableThen(c, sr, t, arrivals), key))
  {
    if arrivals == [] {
      ChosenOfNothing(packet, cuts, Pieces(cuts));
      assert Named(which) == {};
    } else {
      var n := |arrivals| - 1;
      NamedGrows(which);
      DeliveryPrefix(c, sr, t, arrivals, which, packet, cuts, key, n);
      hide Cuts, Encodable, HoldsSeen, Push, PushEntry, Named, Arrive, Lookup, Lawful, Piece, IsFor, Leaves, All;
      SetHoldsNamed(c, sr, t, arrivals[..n], which[..n], packet, cuts, key);
      var before := TableThen(c, sr, t, arrivals[..n]);
      if which[n].Some? {
        var j := which[n].value;
        PieceArrives(c, sr, before, arrivals[n], packet, cuts, j, key);
        StepOwnKey(before, Pushed(key, Piece(packet, cuts, j, arrivals[n].now), arrivals[n].victim));
        PushPiece(packet, cuts, Named(which[..n]), Lookup(before, key), j, arrivals[n].now);
      } else {
        OtherArrival(c, sr, before, arrivals[n], key);
        assert Named(which) == Named(which[..n]);
      }
    }
  }

  lemma NamedGrows(which: seq<Option<nat>>)
    requires which != []
    ensures var n := |which| - 1;
            && Named(which) == Named(which[..n]) + (if which[n].Some? then {which[n].value} else {})
            && forall k | !All(Named(which), k) :: !All(Named(which[..n]), k)
  {
    var n := |which| - 1;
    assert which == which[..n] + [which[n]];
  }

  /** A packet sent in pieces, each in a datagram of its own, in any order, with
      any repetitions, directly or over segment routing, and amid any other
      traffic: nothing is written for it before the last missing piece arrives,
      and then exactly the packet is. */
  lemma DatagramsReassemble(c: BlockCipher, sr: Option<SrConfig>, t: Table, arrivals: seq<Arrival>,
                            which: seq<Option<nat>>, packet: seq<byte>, cuts: seq<nat>, key: SetKey)
    requires Lawful(c) && Cuts(packet, cuts) && Encodable(packet, cuts) && key !in t
    requires Delivery(c, sr, t, arrivals, which, packet, cuts, key)
    requires which != [] && which[|which| - 1].Some? && !All(Named(which[..|which| - 1]), Pieces(cuts))
    ensures var n := |arrivals| - 1;
            Arrive(c, sr, TableThen(c, sr, t, arrivals[..n]), arrivals[n]).1
            == if All(Named(which), Pieces(cuts)) && IsIp(packet) then Some(packet) else None
  {
    var n, j := |arrivals| - 1, which[|which| - 1].value;
    DeliveryPrefix(c, sr, t, arrivals, which, packet, cuts, key, n);
    NamedGrows(which);
    hide Cuts, Encodable, HoldsSeen, Push, PushEntry, Named, Arrive, Lookup, Lawful, IsIp, Piece, IsFor, All;
    SetHoldsNamed(c, sr, t, arrivals[..n], which[..n], packet, cuts, key);
    var before := TableThen(c, sr, t, arrivals[..n]);
    PieceArrives(c, sr, before, arrivals[n], packet, cuts, j, key);
    StepOwnKey(before, Pushed(key, Piece(packet, cuts, j, arrivals[n].now), arrivals[n].victim));
    PushPiece(packet, cuts, Named(which[..n]), Lookup(before, key), j, arrivals[n].now);
  }
}
