/** Packets sent down in two fragments: what the client's set holds after each
    half, and exactly when the packet comes out again. */
module FragmentedDownlink {
  import opened Bytes
  import opened Wrappers
  import opened Crypto
  import opened IpPacket
  import opened SrKey
  import opened Tunnel
  import opened Reassembly
  import opened Downlink

  // --------------------------------------------------------- the packed word

  /** The length field read back: eleven bits, the lowest of which shares its
      place with bit 13 of the offset. */
  function LengthField(len: nat, off: nat): (n: nat)
    ensures n < 0x800
  {
    var n := len % 0x800;
    if off % 0x4000 >= 0x2000 && n % 2 == 0 then n + 1 else n
  }

  /** What is read back from a packed word, for any length and offset. */
  lemma WordFields(len: nat, off: nat, flag: nat)
    requires flag <= 1
    ensures FragLength(PackWord(len, off, flag)) == LengthField(len, off)
    ensures FragOffset(PackWord(len, off, flag)) == off % 0x2000
    ensures PackWord(len, off, flag) % 2 == flag
  {
    WordPacked(len, off, flag);
    hide PackWord, LengthField;
    FieldsApart(LengthField(len, off), off % 0x2000, flag);
  }

  /** The packed word with its fields side by side. */
  lemma WordPacked(len: nat, off: nat, flag: nat)
    requires flag <= 1
    ensures PackWord(len, off, flag) == LengthField(len, off) * 0x8000 + (off % 0x2000 * 4 + flag)
  {
    hide OrBits;
    LowField(off);
    FlagUnderField(off, flag);
    OrFields(len % 0x800, off % 0x2000 * 4 + flag);
  }

  lemma FlagUnderField(off: nat, flag: nat)
    requires flag <= 1
    ensures off % 0x2000 * 4 + flag < 0x8000
  {
  }

  lemma OrFields(n: nat, low: nat)
    requires n < 0x800 && low < 0x8000
    ensures OrBits(n, low) == n * 0x8000 + low
    ensures OrBits(n, low + 0x8000) == (if n % 2 == 0 then n + 1 else n) * 0x8000 + low
  {
  }

  lemma FieldsApart(n: nat, off: nat, flag: nat)
    requires n < 0x800 && off < 0x2000 && flag <= 1
    ensures var word: u32 := n * 0x8000 + (off * 4 + flag);
            FragLength(word) == n && FragOffset(word) == off && word % 2 == flag
  {
    var word: u32 := n * 0x8000 + (off * 4 + flag);
    HighField(word, n, off * 4 + flag);
    LowHalf(word, n, off * 4 + flag);
    LowBits(word, n, off, flag);
    OffsetField(off + n % 2 * 0x2000, off, n % 2);
  }

  lemma HighField(word: nat, n: nat, low: nat)
    requires word == n * 0x8000 + low && low < 0x8000
    ensures word / 0x8000 == n
  {
  }

  lemma LowHalf(word: nat, n: nat, low: nat)
    requires word == n * 0x8000 + low && low < 0x8000
    ensures word % 0x1_0000 == low + n % 2 * 0x8000
  {
    assert word == n / 2 * 0x1_0000 + (low + n % 2 * 0x8000);
  }

  lemma LowBits(word: nat, n: nat, off: nat, flag: nat)
    requires word == n * 0x8000 + (off * 4 + flag) && flag <= 1
    ensures (off * 4 + flag + n % 2 * 0x8000) / 4 == off + n % 2 * 0x2000 && word % 2 == flag
  {
    Quarter(off * 4 + flag + n % 2 * 0x8000, off + n % 2 * 0x2000, flag);
    Parity(word, n * 0x4000 + off * 2, flag);
  }

  lemma Quarter(x: nat, y: nat, rest: nat)
    requires x == y * 4 + rest && rest < 4
    ensures x / 4 == y
  {
  }

  lemma Parity(x: nat, y: nat, bit: nat)
    requires x == 2 * y + bit && bit <= 1
    ensures x % 2 == bit
  {
  }

  lemma OffsetField(field: nat, off: nat, bit: nat)
    requires field == off + bit * 0x2000 && off < 0x2000
    ensures field % 0x2000 == off
  {
  }

  /** The offset shifted left by two in sixteen bits. */
  lemma LowField(off: nat)
    ensures off * 4 % 0x1_0000 == off % 0x2000 * 4 + if off % 0x4000 < 0x2000 then 0 else 0x8000
  {
    assert off * 4 % 0x1_0000 == off % 0x4000 * 4;
    assert off % 0x4000 == off % 0x2000 + if off % 0x4000 < 0x2000 then 0 else 0x2000;
  }

  /** The length and offset fields are recovered as long as they fit; the
      length read back never exceeds eleven bits. */
  lemma WordRoundTrip(len: nat, off: nat, flag: nat)
    requires flag <= 1
    ensures FragLength(PackWord(len, off, flag)) <= 0x7ff
    ensures off < 0x2000 ==> FragOffset(PackWord(len, off, flag)) == off
                             && PackWord(len, off, flag) % 2 == flag
    ensures off < 0x2000 && len <= 0x7ff ==> FragLength(PackWord(len, off, flag)) == len
  {
    hide PackWord, FragLength, FragOffset;
    WordFields(len, off, flag);
  }

  /** The part a client stores for a chunk. */
  function PartOf(chunk: seq<byte>, off: nat, flag: nat): Part
    requires flag <= 1
  {
    var word := PackWord(|chunk|, off, flag);
    Part(FragOffset(word), if FragLength(word) < |chunk| then chunk[..FragLength(word)] else chunk)
  }

  /** How many bytes of a chunk the client keeps. */
  function KeptBytes(len: nat, off: nat): nat {
    if LengthField(len, off) < len then LengthField(len, off) else len
  }

  lemma PartExact(chunk: seq<byte>, off: nat, flag: nat)
    requires flag <= 1
    ensures PartOf(chunk, off, flag) == Part(off % 0x2000, chunk[..KeptBytes(|chunk|, off)])
  {
    hide PackWord, FragLength, FragOffset;
    WordFields(|chunk|, off, flag);
  }

  // ------------------------------------------------------------ one fragment

  function Kept(frags: Frags): Frags {
    if |frags| > MAX_FRAGMENTS then map[] else frags
  }

  lemma FragmentReceived(c: BlockCipher, who: Client, frags: Frags, typ: byte, id: u32, chunk: seq<byte>, off: nat,
                         flag: nat, outer: Option<(SrConfig, nat)>)
    requires flag <= 1 && IsFragment(typ)
    ensures ReceiveInner(c, who, frags, FragmentPacket(typ, who.sid, who.token, id, chunk, off, flag), outer)
         == FinishSet(c, Kept(frags), id, Joined(Kept(frags), id, PartOf(chunk, off, flag), outer))
  {
    hide FinishSet, Joined, Header, SidOf, TokenOf, PackWord, FragLength, FragOffset, LE32, FromLE32;
    var word := PackWord(|chunk|, off, flag);
    var body := LE32(id) + (LE32(word) + chunk);
    HeaderRead(typ, 0, who.sid, who.token, body);
    var inner := FragmentPacket(typ, who.sid, who.token, id, chunk, off, flag);
    LE32RoundTrip(id, LE32(word) + chunk);
    LE32RoundTrip(word, chunk);
    assert inner[8..] == body;
    assert inner[12..] == body[4..] == LE32(word) + chunk;
    assert inner[16..] == body[8..] == chunk;
    PartRead(inner, chunk, FragLength(word));
  }

  lemma PartRead(inner: seq<byte>, chunk: seq<byte>, len: nat)
    requires |inner| >= 16 && inner[16..] == chunk
    ensures var end := if 16 + len < |inner| then 16 + len else |inner|;
            inner[16..end] == if len < |chunk| then chunk[..len] else chunk
  {
    var end := if 16 + len < |inner| then 16 + len else |inner|;
    assert inner[16..end] == inner[16..][..end - 16];
  }

  // ------------------------------------------------------------- both halves

  /** The two halves of the bytes to send; flag and offset as they are sent. */
  function Half(data: seq<byte>, low: bool): Part {
    var h := |data| / 2;
    if low then PartOf(data[..h], 0, 0) else PartOf(data[h..], h, 1)
  }

  function HalfPacket(typ: byte, who: Client, id: u32, data: seq<byte>, low: bool): seq<byte> {
    var h := |data| / 2;
    if low then FragmentPacket(typ, who.sid, who.token, id, data[..h], 0, 0)
    else FragmentPacket(typ, who.sid, who.token, id, data[h..], h, 1)
  }

  function HalfEntry(p: Part, outer: Option<(SrConfig, nat)>): FragEntry {
    FragEntry([p], if outer.Some? then Some(outer.value.0) else None, if outer.Some? then Some(outer.value.1) else None)
  }

  /** The first half to arrive, whichever it is, only opens a set. */
  lemma FirstHalf(c: BlockCipher, who: Client, frags: Frags, typ: byte, id: u32, data: seq<byte>, low: bool,
                  outer: Option<(SrConfig, nat)>)
    requires IsFragment(typ) && id !in frags
    ensures ReceiveInner(c, who, frags, HalfPacket(typ, who, id, data, low), outer)
         == Received(Kept(frags)[id := HalfEntry(Half(data, low), outer)], None, false)
  {
    hide ReceiveInner, PartOf, FragmentPacket, Unwrapped;
    var h := |data| / 2;
    if low {
      FragmentReceived(c, who, frags, typ, id, data[..h], 0, 0, outer);
    } else {
      FragmentReceived(c, who, frags, typ, id, data[h..], h, 1, outer);
    }
    var p := Half(data, low);
    hide Half, FinishSet, HalfPacket;
    SortOne(p);
    SingleFinishes(c, Kept(frags), id, HalfEntry(p, outer));
  }

  lemma SortOne(p: Part)
    ensures SortParts([] + [p]) == [p]
  {
    assert [] + [p] == [p] && [p][..0] == [];
    assert SortParts([]) == [] && InsertPart([], p) == [p];
  }

  /** The set once both halves are in. */
  function BothHalves(data: seq<byte>, low: bool, outer: Option<(SrConfig, nat)>): FragEntry {
    HalfEntry(Half(data, low), outer).(parts := SortParts([Half(data, !low), Half(data, low)]))
  }

  /** The second half finishes the set, unless the table had to be cleared. */
  lemma SecondHalf(c: BlockCipher, who: Client, frags: Frags, typ: byte, id: u32, data: seq<byte>, low: bool,
                   outer: Option<(SrConfig, nat)>)
    requires IsFragment(typ) && id in frags && frags[id] == HalfEntry(Half(data, !low), outer)
    ensures var r := ReceiveInner(c, who, frags, HalfPacket(typ, who, id, data, low), outer);
            if |frags| > MAX_FRAGMENTS then r == Received(map[id := HalfEntry(Half(data, low), outer)], None, false)
            else r == FinishSet(c, frags, id, BothHalves(data, low, outer))
  {
    hide ReceiveInner, PartOf, FragmentPacket, FinishSet;
    var h := |data| / 2;
    if low {
      FragmentReceived(c, who, frags, typ, id, data[..h], 0, 0, outer);
    } else {
      FragmentReceived(c, who, frags, typ, id, data[h..], h, 1, outer);
    }
    var p, q := Half(data, low), Half(data, !low);
    assert [q] + [p] == [q, p];
    if |frags| > MAX_FRAGMENTS {
      SortOne(p);
      SingleFinishes(c, map[], id, HalfEntry(p, outer));
    }
  }

  lemma SingleFinishes(c: BlockCipher, kept: Frags, id: u32, e: FragEntry)
    requires |e.parts| == 1
    ensures FinishSet(c, kept, id, e) == Received(kept[id := e], None, false)
  {
  }

  /** What is left of the bytes sent once both halves are cut to their length
      fields: some of the front, and some from the middle on. */
  function Rejoined(data: seq<byte>): seq<byte> {
    var h := |data| / 2;
    data[..KeptBytes(h, 0)] + data[h..h + KeptBytes(|data| - h, h)]
  }

  /** The offset field of the second half is where the first half's kept bytes
      end. */
  predicate Meets(n: nat) {
    0 < n / 2 % 0x2000 < 0x800
  }

  lemma KeptLow(h: nat)
    ensures KeptBytes(h, 0) == h % 0x800
  {
  }

  /** Which lengths meet: those that fit, one more, none up to 16383. */
  lemma MeetsRange(n: nat)
    requires n >= 2
    ensures n <= 4095 ==> Meets(n)
    ensures 4096 <= n < 16384 ==> !Meets(n)
  {
  }

  /** What joining the two halves gives, for any number of bytes: what is left
      of them if the halves meet; otherwise nothing, or a byte at most. */
  lemma HalvesJoin(data: seq<byte>, low: bool)
    requires 2 <= |data|
    ensures var parts := SortParts([Half(data, !low), Half(data, low)]);
            && |parts| == 2
            && (Meets(|data|) ==> Join(parts) == Some(Rejoined(data)))
            && (!Meets(|data|) && Join(parts).Some? ==> |Join(parts).value| <= 1)
  {
    hide PartOf, KeptBytes, Half, SortParts, Join;
    var h := |data| / 2;
    HalfParts(data);
    OffsetsMeet(h);
    if h % 0x2000 == 0 { KeptHighAtWrap(|data|); }
    JoinOrdered(Half(data, true), Half(data, false), low);
  }

  /** Joining a part at the start with another, whichever came first. */
  lemma JoinOrdered(p: Part, q: Part, swap: bool)
    requires p.off == 0
    ensures var parts := SortParts(if swap then [q, p] else [p, q]);
            && |parts| == 2
            && (0 < q.off == |p.data| ==> Join(parts) == Some(p.data + q.data))
            && (0 < q.off != |p.data| ==> Join(parts) == None)
            && (q.off == 0 && Join(parts).Some? ==> |Join(parts).value| <= |p.data| + |q.data|)
  {
    hide SortParts, Join;
    SortSome(p, q);
    SortSome(q, p);
    JoinTwo(p, q);
    JoinTwo(q, p);
  }

  /** The two parts as stored. */
  lemma HalfParts(data: seq<byte>)
    requires 2 <= |data|
    ensures var h := |data| / 2;
            && Half(data, true) == Part(0, data[..KeptBytes(h, 0)]) && KeptBytes(h, 0) == h % 0x800
            && Half(data, false) == Part(h % 0x2000, data[h..h + KeptBytes(|data| - h, h)])
  {
    var h := |data| / 2;
    PartExact(data[..h], 0, 0);
    PartExact(data[h..], h, 1);
    KeptLow(h);
    hide PartOf, KeptBytes;
    var n := KeptBytes(|data| - h, h);
    KeptSome(|data| - h, h);
    assert data[h..][..n] == data[h..h + n];
    assert data[..h][..h % 0x800] == data[..h % 0x800];
  }

  lemma KeptSome(len: nat, off: nat)
    ensures KeptBytes(len, off) <= len
  {
  }

  lemma OffsetsMeet(h: nat)
    ensures h % 0x2000 == h % 0x800 <==> h % 0x2000 < 0x800
    ensures h % 0x2000 == 0 ==> h % 0x800 == 0
  {
  }

  lemma KeptHighAtWrap(n: nat)
    requires n / 2 % 0x2000 == 0
    ensures KeptBytes(n - n / 2, n / 2) <= 1
  {
    var h := n / 2;
    var k, r := h / 0x2000 * 4, n - h - h;
    SmallRemainder(n - h, k, r);
  }

  lemma SmallRemainder(n: nat, k: nat, r: nat)
    requires n == 0x800 * k + r && r < 0x800
    ensures n % 0x800 == r
  {
  }

  /** Up to 4094 bytes everything is left; of 4095 bytes the first 2047; of
      more, never more than 4094. */
  lemma RejoinedBytes(data: seq<byte>)
    requires 2 <= |data|
    ensures |data| <= 4094 ==> Rejoined(data) == data
    ensures |data| == 4095 ==> Rejoined(data) == data[..2047]
    ensures |Rejoined(data)| <= 4094
  {
    var h := |data| / 2;
    if |data| <= 4094 {
      assert data[..h] + data[h..] == data;
    }
  }

  lemma SortSome(p: Part, q: Part)
    ensures SortParts([p, q]) == if p.off <= q.off then [p, q] else [q, p]
  {
    assert [] + [p] == [p];
    SortOne(p);
    InsertSecond(p, q);
    hide InsertPart;
    assert [p, q][..1] == [p] && [p, q][1] == q;
  }

  lemma InsertSecond(p: Part, q: Part)
    ensures InsertPart([p], q) == if p.off <= q.off then [p, q] else [q, p]
  {
    assert [p][..0] == [];
    assert InsertPart([], q) == [q];
  }

  lemma JoinTwo(p: Part, q: Part)
    ensures Join([p, q]) == if p.off == 0 && q.off == |p.data| then Some(p.data + q.data) else None
  {
    assert [p, q][..1] == [p] && [p][..0] == [] && [p, q][1] == q;
    assert Join([]) == Some([]) && [] + p.data == p.data;
    assert Join([p]) == if p.off == 0 then Some(p.data) else None;
  }

  // ------------------------------------------------------- the whole exchange

  /** How the bytes of a packet travel: as they are, or padded and encrypted
      for segment routing; and the outer layer the client records. */
  ghost predicate Carries(c: BlockCipher, packet: seq<byte>, data: seq<byte>, outer: Option<(SrConfig, nat)>) {
    if outer.None? then data == packet
    else
      var (sr, pad) := outer.value;
      && |data| == |packet| + pad
      && (sr.mode == 0 ==> pad == 0 && data == packet)
      && (sr.mode != 0 ==> |data| % 16 == 0 && DecryptBlocks(c, Key(sr), data) == packet + Zeros(pad))
  }

  lemma UnwrapsCarried(c: BlockCipher, packet: seq<byte>, data: seq<byte>, low: bool, outer: Option<(SrConfig, nat)>)
    requires Carries(c, packet, data, outer)
    ensures Unwrapped(c, BothHalves(data, low, outer), data) == Ok(Some(packet))
  {
    hide SortParts, Half, DecryptBlocks, Key;
    if outer.Some? && outer.value.0.mode != 0 {
      var plain := packet + Zeros(outer.value.1);
      assert plain[..|plain| - outer.value.1] == packet;
    }
  }

  /** Anything unwrapped from fewer bytes than were sent is shorter than the
      packet. */
  lemma UnwrappedShorter(c: BlockCipher, packet: seq<byte>, data: seq<byte>, low: bool,
                         outer: Option<(SrConfig, nat)>, joined: seq<byte>)
    requires Lawful(c) && Carries(c, packet, data, outer) && |joined| < |data|
    ensures var u := Unwrapped(c, BothHalves(data, low, outer), joined);
            u.Ok? && u.value.Some? ==> |u.value.value| < |packet|
  {
    hide SortParts, Half, Key;
    if outer.Some? && outer.value.0.mode != 0 && |joined| % 16 == 0 {
      BlocksLength(c, Key(outer.value.0), joined);
    }
  }

  /** What the client emits when both halves are in its table. */
  ghost function Delivery(c: BlockCipher, data: seq<byte>, outer: Option<(SrConfig, nat)>): Option<seq<byte>> {
    if !Meets(|data|) then None
    else
      match Unwrapped(c, HalfEntry(Part(0, []), outer), Rejoined(data))
      case Err(_) => None
      case Ok(packet) => if packet.Some? && IsIp(packet.value) then packet else None
  }

  lemma UnwrapsAlike(c: BlockCipher, p: Part, data: seq<byte>, low: bool, outer: Option<(SrConfig, nat)>,
                     joined: seq<byte>)
    ensures Unwrapped(c, BothHalves(data, low, outer), joined) == Unwrapped(c, HalfEntry(p, outer), joined)
  {
    hide SortParts, Half, SrDecrypted;
  }

  /** A byte at most is no packet, whatever is done to it. */
  lemma ScrapIsNoPacket(c: BlockCipher, e: FragEntry, joined: seq<byte>)
    requires |joined| <= 1
    ensures var u := Unwrapped(c, e, joined); u.Ok? && u.value.Some? ==> !IsIp(u.value.value)
  {
    hide Key;
  }

  /** A packet of 4095 bytes cut to 2047 still starts like an IP packet. */
  lemma LongEnough(packet: seq<byte>)
    requires IsIp(packet)
    ensures |packet| >= 4095 ==> IsIp(packet[..2047])
  {
  }

  /** The delivery of a packet, by the number of bytes it travelled as: the
      packet up to 4094; at 4095, which only unencrypted bytes can be, its
      first 2047 bytes; nothing from 4096 to 16383; never the packet beyond. */
  lemma DeliveryByLength(c: BlockCipher, packet: seq<byte>, data: seq<byte>, outer: Option<(SrConfig, nat)>)
    requires Lawful(c) && IsIp(packet) && |data| >= 2 && Carries(c, packet, data, outer)
    ensures |data| <= 4094 ==> Delivery(c, data, outer) == Some(packet)
    ensures |data| == 4095 ==> data == packet && Delivery(c, data, outer) == Some(packet[..2047])
    ensures 4096 <= |data| < 16384 ==> Delivery(c, data, outer) == None
    ensures |data| > 4094 ==> Delivery(c, data, outer) != Some(packet)
  {
    hide Meets, Rejoined, Lawful, SrDecrypted, IsIp;
    LongEnough(packet);
    MeetsRange(|data|);
    RejoinedBytes(data);
    var e := HalfEntry(Part(0, []), outer);
    if |data| <= 4094 {
      UnwrapsCarried(c, packet, data, true, outer);
      UnwrapsAlike(c, Part(0, []), data, true, outer, data);
    } else {
      UnwrappedShorter(c, packet, data, true, outer, Rejoined(data));
      UnwrapsAlike(c, Part(0, []), data, true, outer, Rejoined(data));
      if |data| == 4095 {
        assert Unwrapped(c, e, data[..2047]) == Ok(Some(data[..2047]));
      }
    }
  }

  /** What the second half makes the client emit: with more than sixteen sets
      pending nothing, otherwise the delivery, which is the packet exactly when
      the bytes sent number at most 4094. */
  lemma SecondHalfEmitsIff(c: BlockCipher, who: Client, frags: Frags, typ: byte, id: u32, packet: seq<byte>,
                           data: seq<byte>, low: bool, outer: Option<(SrConfig, nat)>)
    requires Lawful(c) && IsFragment(typ) && IsIp(packet) && |data| >= 2 && Carries(c, packet, data, outer)
    requires id in frags && frags[id] == HalfEntry(Half(data, !low), outer)
    ensures var r := ReceiveInner(c, who, frags, HalfPacket(typ, who, id, data, low), outer);
            && r.emitted == (if |frags| > MAX_FRAGMENTS then None else Delivery(c, data, outer))
            && (r.emitted == Some(packet) <==> |data| <= 4094 && |frags| <= MAX_FRAGMENTS)
            && (r.emitted.Some? ==> r.frags == frags - {id} && !r.failed)
  {
    hide ReceiveInner, HalfPacket, Carries, Unwrapped, SortParts, Half, Lawful, Join, Meets, Rejoined;
    SecondHalf(c, who, frags, typ, id, data, low, outer);
    DeliveryByLength(c, packet, data, outer);
    if |frags| <= MAX_FRAGMENTS {
      HalvesJoin(data, low);
      var e := BothHalves(data, low, outer);
      var joined := Join(e.parts);
      if joined.Some? {
        UnwrapsAlike(c, Part(0, []), data, low, outer, joined.value);
        if !Meets(|data|) { ScrapIsNoPacket(c, e, joined.value); }
      }
    }
  }

  // ---------------------------------------------------------- other traffic

  /** The fragment id a datagram would be filed under. */
  function FiledUnder(buf: seq<byte>): Option<u32> {
    if |buf| < 8 then None
    else
      var at := if buf[0] == PT_SEGRT then 4 * (buf[2] as int) + 4 else 0;
      if |buf| < at + 16 || !IsFragment(buf[at]) then None
      else Some(FromLE32(buf[at + 8..]))
  }

  ghost predicate SameSet(a: Frags, b: Frags, id: u32) {
    (id in a <==> id in b) && (id in a ==> a[id] == b[id])
  }

  /** Datagrams for other sets, or no set, leave a set alone as long as the
      table is not cleared. */
  lemma OtherTraffic(c: BlockCipher, who: Client, frags: Frags, buf: seq<byte>, id: u32)
    requires |frags| <= MAX_FRAGMENTS && FiledUnder(buf) != Some(id)
    ensures SameSet(frags, Receive(c, who, frags, buf).frags, id)
  {
    hide ReceiveInner, FromLE32, DecryptBlocks, Key;
    if |buf| >= 8 && buf[0] == PT_SEGRT {
      var at := 4 * (buf[2] as int) + 4;
      if |buf| >= at + 8 {
        var inner := buf[at..];
        assert |buf| >= at + 16 ==> inner[8..] == buf[at + 8..];
        forall outer ensures SameSet(frags, ReceiveInner(c, who, frags, inner, outer).frags, id) {
          OtherInner(c, who, frags, inner, outer, id);
        }
        if !IsFragment(inner[0]) {
          forall more: seq<byte>
            ensures SameSet(frags, ReceiveInner(c, who, frags, inner[..8] + more, None).frags, id) {
            OtherInner(c, who, frags, inner[..8] + more, None, id);
          }
        }
      }
    } else if |buf| >= 8 {
      OtherInner(c, who, frags, buf, None, id);
    }
  }

  lemma OtherInner(c: BlockCipher, who: Client, frags: Frags, inner: seq<byte>, outer: Option<(SrConfig, nat)>, id: u32)
    requires |frags| <= MAX_FRAGMENTS && |inner| >= 8
    requires |inner| >= 16 && IsFragment(inner[0]) ==> FromLE32(inner[8..]) != id
    ensures SameSet(frags, ReceiveInner(c, who, frags, inner, outer).frags, id)
  {
    hide Joined, Unwrapped, Join, Deciphered, FromLE32, FragLength, FragOffset, SidOf, TokenOf;
  }

  /** The client's table after a run of datagrams. */
  function TableAfter(c: BlockCipher, who: Client, frags: Frags, bufs: seq<seq<byte>>): Frags {
    if bufs == [] then frags
    else Receive(c, who, TableAfter(c, who, frags, bufs[..|bufs| - 1]), bufs[|bufs| - 1]).frags
  }

  /** Datagrams none of which is filed under the id. */
  ghost predicate NoneFiled(bufs: seq<seq<byte>>, id: u32) {
    forall i | 0 <= i < |bufs| :: FiledUnder(bufs[i]) != Some(id)
  }

  /** At no point of a run of datagrams, its end included, are more than
      sixteen sets pending. */
  ghost predicate NeverOverfull(c: BlockCipher, who: Client, frags: Frags, bufs: seq<seq<byte>>) {
    forall i | 0 <= i <= |bufs| :: |TableAfter(c, who, frags, bufs[..i])| <= MAX_FRAGMENTS
  }

  /** In a table that was never overfull a set outlives all other traffic. */
  lemma {:induction false} CalmKeepsSet(c: BlockCipher, who: Client, frags: Frags, bufs: seq<seq<byte>>, id: u32)
    requires NoneFiled(bufs, id) && NeverOverfull(c, who, frags, bufs)
    ensures SameSet(frags, TableAfter(c, who, frags, bufs), id)
  {
    hide Receive, FiledUnder;
    if bufs != [] {
      var n := |bufs| - 1;
      forall i | 0 <= i <= n ensures |TableAfter(c, who, frags, bufs[..n][..i])| <= MAX_FRAGMENTS {
        assert bufs[..n][..i] == bufs[..i];
      }
      CalmKeepsSet(c, who, frags, bufs[..n], id);
      OtherTraffic(c, who, TableAfter(c, who, frags, bufs[..n]), bufs[n], id);
    }
  }

  /** The set is gone, or will be cleared by the next fragment. */
  ghost predicate Doomed(frags: Frags, id: u32) {
    id !in frags || |frags| > MAX_FRAGMENTS
  }

  lemma DoomedInner(c: BlockCipher, who: Client, frags: Frags, inner: seq<byte>, outer: Option<(SrConfig, nat)>,
                    id: u32)
    requires Doomed(frags, id) && |inner| >= 8
    requires |inner| >= 16 && IsFragment(inner[0]) ==> FromLE32(inner[8..]) != id
    ensures Doomed(ReceiveInner(c, who, frags, inner, outer).frags, id)
  {
    hide Joined, Unwrapped, Join, Deciphered, FromLE32, FragLength, FragOffset, SidOf, TokenOf;
  }

  lemma DoomedStep(c: BlockCipher, who: Client, frags: Frags, buf: seq<byte>, id: u32)
    requires Doomed(frags, id) && FiledUnder(buf) != Some(id)
    ensures Doomed(Receive(c, who, frags, buf).frags, id)
  {
    hide ReceiveInner, FromLE32, DecryptBlocks, Key, Doomed;
    if |buf| >= 8 && buf[0] == PT_SEGRT {
      var at := 4 * (buf[2] as int) + 4;
      if |buf| >= at + 8 {
        var inner := buf[at..];
        assert |buf| >= at + 16 ==> inner[8..] == buf[at + 8..];
        forall outer ensures Doomed(ReceiveInner(c, who, frags, inner, outer).frags, id) {
          DoomedInner(c, who, frags, inner, outer, id);
        }
        if !IsFragment(inner[0]) {
          forall more: seq<byte> ensures Doomed(ReceiveInner(c, who, frags, inner[..8] + more, None).frags, id) {
            DoomedInner(c, who, frags, inner[..8] + more, None, id);
          }
        }
      }
    } else if |buf| >= 8 {
      DoomedInner(c, who, frags, buf, None, id);
    }
  }

  lemma {:induction false} StaysDoomed(c: BlockCipher, who: Client, frags: Frags, bufs: seq<seq<byte>>, id: u32, i: nat)
    requires NoneFiled(bufs, id) && i <= |bufs|
    requires Doomed(TableAfter(c, who, frags, bufs[..i]), id)
    ensures Doomed(TableAfter(c, who, frags, bufs), id)
    decreases |bufs|
  {
    hide Receive, FiledUnder, Doomed;
    if i == |bufs| {
      assert bufs[..i] == bufs;
    } else {
      var n := |bufs| - 1;
      assert bufs[..n][..i] == bufs[..i];
      StaysDoomed(c, who, frags, bufs[..n], id, i);
      DoomedStep(c, who, TableAfter(c, who, frags, bufs[..n]), bufs[n], id);
    }
  }

  /** Once the table has been overfull, a set not completed before is lost. */
  lemma OverfullLosesSet(c: BlockCipher, who: Client, frags: Frags, bufs: seq<seq<byte>>, id: u32)
    requires NoneFiled(bufs, id) && !NeverOverfull(c, who, frags, bufs)
    ensures Doomed(TableAfter(c, who, frags, bufs), id)
  {
    hide TableAfter;
    var i :| 0 <= i <= |bufs| && |TableAfter(c, who, frags, bufs[..i])| > MAX_FRAGMENTS;
    StaysDoomed(c, who, frags, bufs, id, i);
  }

  /** A second half that finds its set doomed brings nothing out. */
  lemma SecondHalfTooLate(c: BlockCipher, who: Client, frags: Frags, typ: byte, id: u32, data: seq<byte>, low: bool,
                          outer: Option<(SrConfig, nat)>)
    requires IsFragment(typ) && Doomed(frags, id)
    ensures ReceiveInner(c, who, frags, HalfPacket(typ, who, id, data, low), outer).emitted == None
  {
    hide ReceiveInner, PartOf, FragmentPacket, FinishSet;
    var h := |data| / 2;
    if low {
      FragmentReceived(c, who, frags, typ, id, data[..h], 0, 0, outer);
    } else {
      FragmentReceived(c, who, frags, typ, id, data[h..], h, 1, outer);
    }
    var p := Half(data, low);
    hide Half, HalfPacket;
    SortOne(p);
    SingleFinishes(c, Kept(frags), id, HalfEntry(p, outer));
  }

  /** Plain fragments reach the set directly. */
  lemma PlainArrival(c: BlockCipher, who: Client, frags: Frags, typ: byte, id: u32, data: seq<byte>, low: bool)
    requires IsFragment(typ)
    ensures var wire := HalfPacket(typ, who, id, data, low);
            Receive(c, who, frags, wire) == ReceiveInner(c, who, frags, wire, None)
  {
    hide ReceiveInner, ReceiveSr, LE32, PackWord;
  }

  /** Fragments inside segment routing bring their outer layer along. */
  lemma SrArrival(c: BlockCipher, who: Client, frags: Frags, typ: byte, id: u32, data: seq<byte>, low: bool, pad: nat,
                  theirs: SrConfig)
    requires IsFragment(typ) && pad < 16 && who.sr.Some? && who.sr.value.mode == theirs.mode
    ensures var wire := HalfPacket(typ, who, id, data, low);
            Receive(c, who, frags, OuterHeader(0, pad, theirs) + wire)
            == ReceiveInner(c, who, frags, wire, Some((who.sr.value, pad)))
  {
    hide ReceiveInner, OuterHeader;
    var wire := HalfPacket(typ, who, id, data, low);
    assert |wire| >= 8 && wire[0] == typ by { hide LE32, PackWord; }
    OuterSplit(0, pad, theirs, wire);
    hide HalfPacket;
  }

  /** The emission of the second half after other traffic, in any state the
      table may have got into. */
  lemma AfterTraffic(c: BlockCipher, who: Client, frags: Frags, between: seq<seq<byte>>, typ: byte, id: u32,
                     packet: seq<byte>, data: seq<byte>, low: bool, outer: Option<(SrConfig, nat)>)
    requires Lawful(c) && IsFragment(typ) && IsIp(packet) && |data| >= 2 && Carries(c, packet, data, outer)
    requires id in frags && frags[id] == HalfEntry(Half(data, low), outer) && NoneFiled(between, id)
    ensures var table := TableAfter(c, who, frags, between);
            ReceiveInner(c, who, table, HalfPacket(typ, who, id, data, !low), outer).emitted
            == if NeverOverfull(c, who, frags, between) then Delivery(c, data, outer) else None
  {
    hide ReceiveInner, HalfPacket, Half, Lawful, FiledUnder, TableAfter, Carries, Delivery;
    var table := TableAfter(c, who, frags, between);
    if NeverOverfull(c, who, frags, between) {
      CalmKeepsSet(c, who, frags, between, id);
      assert between[..|between|] == between;
      SecondHalfEmitsIff(c, who, table, typ, id, packet, data, !low, outer);
    } else {
      OverfullLosesSet(c, who, frags, between, id);
      SecondHalfTooLate(c, who, table, typ, id, data, !low, outer);
    }
  }

  /** A packet sent in two fragments, its halves arriving in either order with
      other traffic in between: nothing comes of the first half, and the second
      makes the client emit exactly the packet, or nothing if more than sixteen
      sets were ever pending from the first half on. Both halves are sent
      exactly when the packet is at most 4094 bytes long. */
  lemma FragmentedRoundTrip(c: BlockCipher, packet: seq<byte>, who: Client, frags: Frags, id: u32, low: bool,
                            between: seq<seq<byte>>)
    requires Lawful(c) && IsIp(packet) && id !in frags && NoneFiled(between, id)
    ensures var wires := SendFragmented(packet, who.sid, who.token, id);
            && (|wires| == 2 <==> |packet| <= 4094)
            && (|packet| <= 4094 ==>
                  var first, second := wires[if low then 0 else 1], wires[if low then 1 else 0];
                  var r := Receive(c, who, frags, first);
                  var table := TableAfter(c, who, r.frags, between);
                  && r.emitted == None && !r.failed
                  && Receive(c, who, table, second).emitted
                     == if NeverOverfull(c, who, r.frags, between) then Some(packet) else None)
  {
    hide Receive, ReceiveInner, HalfPacket, Half, Lawful, FiledUnder, NeverOverfull, NoneFiled, TableAfter, Delivery;
    PlainWires(packet, who, id);
    if |packet| <= 4094 {
      var typ := FragmentType(packet);
      PlainArrival(c, who, frags, typ, id, packet, low);
      FirstHalf(c, who, frags, typ, id, packet, low, None);
      var r := Receive(c, who, frags, HalfPacket(typ, who, id, packet, low));
      PlainArrival(c, who, TableAfter(c, who, r.frags, between), typ, id, packet, !low);
      AfterTraffic(c, who, r.frags, between, typ, id, packet, packet, low, None);
      DeliveryByLength(c, packet, packet, None);
    }
  }

  lemma PlainWires(packet: seq<byte>, who: Client, id: u32)
    requires IsIp(packet)
    ensures var wires := SendFragmented(packet, who.sid, who.token, id);
            && (|wires| == 2 <==> |packet| <= 4094)
            && (|packet| <= 4094 ==> wires == [HalfPacket(FragmentType(packet), who, id, packet, true),
                                               HalfPacket(FragmentType(packet), who, id, packet, false)])
            && IsFragment(FragmentType(packet))
  {
    hide FragmentPacket;
  }

  /** The same over segment routing, where the whole packet is padded and
      encrypted before it is split and both halves are always sent. What comes
      out is the packet exactly when the padded bytes number at most 4094; a
      packet of 4095 bytes, unencrypted, comes out cut to 2047, and nothing
      comes of 4096 to 16383. */
  lemma SrFragmentedRoundTrip(c: BlockCipher, packet: seq<byte>, who: Client, frags: Frags, id: u32, low: bool,
                              between: seq<seq<byte>>, theirs: SrConfig)
    requires Lawful(c) && IsIp(packet) && id !in frags && NoneFiled(between, id)
    requires who.sr.Some? && who.sr.value.mode == theirs.mode < 8 && Key(who.sr.value) == Key(theirs)
    ensures var wires := SendSrFragmented(c, packet, who.sid, who.token, theirs, id);
            var pad := OuterPad(theirs, |packet|);
            var n := |packet| + pad;
            && |wires| == 2 && OuterCiphered(c, theirs, packet).Ok?
            && var first, second := wires[if low then 0 else 1], wires[if low then 1 else 0];
               var r := Receive(c, who, frags, first);
               var out := Receive(c, who, TableAfter(c, who, r.frags, between), second).emitted;
               && r.emitted == None && !r.failed
               && (if NeverOverfull(c, who, r.frags, between)
                   then out == Delivery(c, OuterCiphered(c, theirs, packet).value, Some((who.sr.value, pad)))
                        && (out == Some(packet) <==> n <= 4094)
                        && (n == 4095 ==> out == Some(packet[..2047]))
                        && (4096 <= n < 16384 ==> out == None)
                   else out == None)
  {
    hide Receive, ReceiveInner, HalfPacket, Half, Lawful, FiledUnder, NeverOverfull, NoneFiled, TableAfter, OuterHeader,
      Carries, Key, Pad16, Delivery;
    var typ, pad := FragmentType(packet), OuterPad(theirs, |packet|);
    var outer := Some((who.sr.value, pad));
    SrWires(c, packet, who, id, theirs);
    var data := OuterCiphered(c, theirs, packet).value;
    hide OuterCiphered;
    SrArrival(c, who, frags, typ, id, data, low, pad, theirs);
    FirstHalf(c, who, frags, typ, id, data, low, outer);
    var r := Receive(c, who, frags, OuterHeader(0, pad, theirs) + HalfPacket(typ, who, id, data, low));
    SrArrival(c, who, TableAfter(c, who, r.frags, between), typ, id, data, !low, pad, theirs);
    AfterTraffic(c, who, r.frags, between, typ, id, packet, data, low, outer);
    DeliveryByLength(c, packet, data, outer);
  }

  /** The cut packet, for any IP packet of 4095 bytes over unencrypted segment
      routing, to a client with nothing pending. */
  lemma TruncatedAt4095(c: BlockCipher, packet: seq<byte>, who: Client, id: u32, theirs: SrConfig)
    requires Lawful(c) && IsIp(packet) && |packet| == 4095
    requires who.sr.Some? && who.sr.value.mode == theirs.mode == 0 && Key(who.sr.value) == Key(theirs)
    ensures var wires := SendSrFragmented(c, packet, who.sid, who.token, theirs, id);
            && |wires| == 2
            && Receive(c, who, Receive(c, who, map[], wires[0]).frags, wires[1]).emitted == Some(packet[..2047])
  {
    hide Receive, SendSrFragmented, Key, Lawful, Delivery, OuterCiphered;
    SrFragmentedRoundTrip(c, packet, who, map[], id, true, [], theirs);
    var r := Receive(c, who, map[], SendSrFragmented(c, packet, who.sid, who.token, theirs, id)[0]);
    OneSet(c, who, packet, id, theirs);
    assert NeverOverfull(c, who, r.frags, []);
  }

  lemma OneSet(c: BlockCipher, who: Client, packet: seq<byte>, id: u32, theirs: SrConfig)
    requires Lawful(c) && IsIp(packet)
    requires who.sr.Some? && who.sr.value.mode == theirs.mode < 8 && Key(who.sr.value) == Key(theirs)
    ensures var wires := SendSrFragmented(c, packet, who.sid, who.token, theirs, id);
            |wires| == 2 && |Receive(c, who, map[], wires[0]).frags| == 1
  {
    hide Receive, ReceiveInner, HalfPacket, Half, Lawful, OuterHeader, Carries, Key;
    SrWires(c, packet, who, id, theirs);
    var typ, pad, data := FragmentType(packet), OuterPad(theirs, |packet|), OuterCiphered(c, theirs, packet).value;
    SrArrival(c, who, map[], typ, id, data, true, pad, theirs);
    FirstHalf(c, who, map[], typ, id, data, true, Some((who.sr.value, pad)));
  }

  lemma SrWires(c: BlockCipher, packet: seq<byte>, who: Client, id: u32, theirs: SrConfig)
    requires Lawful(c) && IsIp(packet)
    requires who.sr.Some? && who.sr.value.mode == theirs.mode < 8 && Key(who.sr.value) == Key(theirs)
    ensures var data, pad := OuterCiphered(c, theirs, packet), OuterPad(theirs, |packet|);
            && data.Ok? && |data.value| == |packet| + pad && IsFragment(FragmentType(packet))
            && Carries(c, packet, data.value, Some((who.sr.value, pad)))
            && SendSrFragmented(c, packet, who.sid, who.token, theirs, id)
               == [OuterHeader(0, pad, theirs) + HalfPacket(FragmentType(packet), who, id, data.value, true),
                   OuterHeader(0, pad, theirs) + HalfPacket(FragmentType(packet), who, id, data.value, false)]
  {
    hide FragmentPacket, OuterHeader, Key, Lawful;
    if theirs.mode == 0 {
      assert packet + Zeros(0) == packet;
    } else {
      SrDecryptsEncrypted(c, theirs, who.sr.value, packet + Zeros(Pad16(|packet|)));
    }
  }
}
