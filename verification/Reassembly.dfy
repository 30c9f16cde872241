/** Server-side reassembly of fragmented IP packets
    (src/bin/server/fragment.rs): what one push does, and what runs of pushes
    give back. */
module Reassembly {
  import opened Bytes
  import opened Wrappers
  import opened IpPacket

  /** Session id, token and fragment id. */
  type SetKey = (u16, u32, u32)

  datatype Part = Part(off: u16, data: seq<byte>)

  datatype Entry = Entry(parts: seq<Part>, eop: Option<nat>, lastSeen: nat)

  type Table = map<SetKey, Entry>

  /** One fragment as it reaches the table. */
  datatype Fragment = Fragment(off: u16, last: bool, data: seq<byte>, now: nat)

  // ---------------------------------------------------------------- one push

  /** Stable insertion by offset. */
  function InsertPart(parts: seq<Part>, p: Part): (r: seq<Part>)
    ensures |r| == |parts| + 1
  {
    if parts == [] || parts[|parts| - 1].off <= p.off then parts + [p]
    else InsertPart(parts[..|parts| - 1], p) + [parts[|parts| - 1]]
  }

  /** Stable sort by offset. */
  function SortParts(parts: seq<Part>): (r: seq<Part>)
    ensures |r| == |parts|
  {
    if parts == [] then [] else InsertPart(SortParts(parts[..|parts| - 1]), parts[|parts| - 1])
  }

  /** The bytes of parts that follow each other without a gap from offset 0. */
  function Join(parts: seq<Part>): Option<seq<byte>> {
    if parts == [] then Some([])
    else
      var front, last := Join(parts[..|parts| - 1]), parts[|parts| - 1];
      if front.Some? && |front.value| == last.off then Some(front.value + last.data) else None
  }

  function FreshEntry(now: nat): Entry {
    Entry([], None, now)
  }

  function Stored(e: Entry, f: Fragment): Entry {
    Entry(SortParts(e.parts + [Part(f.off, f.data)]),
          if f.last then Some(f.off + |f.data|) else e.eop,
          f.now)
  }

  predicate HasOffset(parts: seq<Part>, off: u16) {
    exists i | 0 <= i < |parts| :: parts[i].off == off
  }

  /** What a push does to the entry of its own key, and what it returns. */
  function PushEntry(entry: Option<Entry>, f: Fragment): (Option<Entry>, Option<seq<byte>>) {
    var e := if entry.Some? then entry.value else FreshEntry(f.now);
    if HasOffset(e.parts, f.off) then (Some(e), None)
    else
      var e' := Stored(e, f);
      var out := Join(e'.parts);
      if out.None? || e'.eop != Some(|out.value|) then (Some(e'), None)
      else (None, if IsIp(out.value) then out else None)
  }

  function Lookup(t: Table, key: SetKey): Option<Entry> {
    if key in t then Some(t[key]) else None
  }

  function Update(t: Table, key: SetKey, entry: Option<Entry>): Table {
    if entry.Some? then t[key := entry.value] else t - {key}
  }

  predicate Crowded(t: Table, maxEntries: nat, key: SetKey) {
    |t| >= maxEntries && key !in t && t != map[]
  }

  /** The entry that must make room: one of the least recently touched. */
  ghost predicate Victim(t: Table, maxEntries: nat, key: SetKey, victim: Option<SetKey>) {
    && (victim.Some? <==> Crowded(t, maxEntries, key))
    && (victim.Some? ==> victim.value in t && forall k | k in t :: t[victim.value].lastSeen <= t[k].lastSeen)
  }

  function Evict(t: Table, victim: Option<SetKey>): Table {
    if victim.Some? then t - {victim.value} else t
  }

  function Push(t: Table, victim: Option<SetKey>, key: SetKey, f: Fragment): (Table, Option<seq<byte>>) {
    var t1 := Evict(t, victim);
    var (entry, out) := PushEntry(Lookup(t1, key), f);
    (Update(t1, key, entry), out)
  }

  function Young(t: Table, now: nat, maxAge: nat): Table {
    map k | k in t && (now < t[k].lastSeen || now - t[k].lastSeen < maxAge) :: t[k]
  }

  lemma YoungSmaller(t: Table, now: nat, maxAge: nat)
    ensures |Young(t, now, maxAge)| <= |t|
  {
    var y := Young(t, now, maxAge);
    assert y.Keys <= t.Keys;
    SubsetSize(y.Keys, t.Keys);
    assert |y| == |y.Keys| && |t| == |t.Keys|;
  }

  lemma {:induction false} SubsetSize<T>(a: set<T>, b: set<T>)
    requires a <= b
    ensures |a| <= |b|
  {
    if x :| x in a {
      SubsetSize(a - {x}, b - {x});
    }
  }

  // ------------------------------------------------------- wire-level header

  /** The fields of an IPFRAG datagram: id and a packed word, both
      little-endian, after the eight-byte packet header. */
  function DecodeFragment(raw: seq<byte>, now: nat): Option<(u32, Fragment)> {
    if |raw| < 16 then None
    else
      var id, word := FromLE32(raw[8..]), FromLE32(raw[12..]);
      var len := word / 0x8000 % 0x800;
      var end := if 16 + len < |raw| then 16 + len else |raw|;
      if end <= 16 then None
      else Some((id, Fragment(word / 4 % 0x2000, word % 2 == 1, raw[16..end], now)))
  }

  // ----------------------------------------------- what a result consists of

  ghost predicate SortedParts(parts: seq<Part>) {
    forall i, j | 0 <= i < j < |parts| :: parts[i].off < parts[j].off
  }

  ghost predicate Covers(p: Part, x: int) {
    p.off <= x < p.off + |p.data|
  }

  ghost predicate Covered(parts: seq<Part>, x: int) {
    exists i :: 0 <= i < |parts| && Covers(parts[i], x)
  }

  /** Each part is the stretch of `out` at its offset, and every byte of `out`
      lies in exactly one part. */
  ghost predicate Tiles(parts: seq<Part>, out: seq<byte>) {
    && (forall i | 0 <= i < |parts| ::
          parts[i].off + |parts[i].data| <= |out|
          && out[parts[i].off..parts[i].off + |parts[i].data|] == parts[i].data)
    && (forall x | 0 <= x < |out| :: Covered(parts, x))
    && (forall i, j, x | 0 <= i < j < |parts| && Covers(parts[i], x) :: !Covers(parts[j], x))
  }

  /** Tiles followed by one more part that starts where they end. */
  lemma TilesAppend(parts: seq<Part>, out: seq<byte>, p: Part)
    requires Tiles(parts, out) && p.off == |out|
    ensures Tiles(parts + [p], out + p.data)
  {
    var all, n := parts + [p], |parts|;
    forall x | 0 <= x < |out + p.data| ensures Covered(all, x) {
      if x < |out| {
        assert Covered(parts, x);
        var i :| 0 <= i < n && Covers(parts[i], x);
        assert Covers(all[i], x);
      } else {
        assert Covers(all[n], x);
      }
    }
    forall i | 0 <= i < n ensures (out + p.data)[all[i].off..all[i].off + |all[i].data|] == all[i].data {
      assert (out + p.data)[all[i].off..all[i].off + |all[i].data|] == out[all[i].off..all[i].off + |all[i].data|];
    }
  }

  lemma {:induction false} JoinTiles(parts: seq<Part>)
    requires Join(parts).Some?
    ensures Tiles(parts, Join(parts).value)
  {
    if parts != [] {
      var n := |parts| - 1;
      JoinTiles(parts[..n]);
      TilesAppend(parts[..n], Join(parts[..n]).value, parts[n]);
      assert parts == parts[..n] + [parts[n]];
    }
  }

  /** Of two non-empty tiles the earlier ends before the later begins. */
  lemma NoOverlap(parts: seq<Part>, out: seq<byte>, i: nat, j: nat)
    requires SortedParts(parts) && Tiles(parts, out) && i < j < |parts| && parts[j].data != []
    ensures parts[i].off + |parts[i].data| <= parts[j].off
  {
    var x := parts[j].off;
    var a, b := Covers(parts[i], x), Covers(parts[j], x);
    assert b && !(a && b);
    assert parts[i].off < parts[j].off;
  }

  /** Once a prefix fails to join, so does the whole. */
  lemma {:induction false} NoLaterJoin(parts: seq<Part>, n: nat)
    requires n <= |parts| && Join(parts[..n]).None?
    ensures Join(parts).None?
    decreases |parts| - n
  {
    if n == |parts| {
      assert parts[..n] == parts;
    } else {
      assert parts[..n + 1][..n] == parts[..n];
      NoLaterJoin(parts, n + 1);
    }
  }

  /** Joins sorted parts, giving up at the first that does not follow on. */
  method JoinParts(parts: seq<Part>) returns (out: Option<seq<byte>>)
    ensures out == Join(parts)
  {
    var bytes: seq<byte> := [];
    for i := 0 to |parts|
      invariant Join(parts[..i]) == Some(bytes)
    {
      assert parts[..i + 1][..i] == parts[..i];
      if parts[i].off != |bytes| {
        NoLaterJoin(parts, i + 1);
        return None;
      }
      bytes := bytes + parts[i].data;
    }
    assert parts[..|parts|] == parts;
    out := Some(bytes);
  }

  /** Dropping the last of non-empty, sorted tiles leaves tiles. */
  lemma TilesFront(parts: seq<Part>, out: seq<byte>)
    requires parts != [] && SortedParts(parts) && Tiles(parts, out)
    requires forall i | 0 <= i < |parts| :: parts[i].data != []
    ensures var last := parts[|parts| - 1];
            last.off + |last.data| == |out| && Tiles(parts[..|parts| - 1], out[..last.off])
  {
    var n := |parts| - 1;
    var last, front := parts[n], parts[..n];
    forall i | 0 <= i < n ensures parts[i].off + |parts[i].data| <= last.off {
      NoOverlap(parts, out, i, n);
    }
    assert Covered(parts, |out| - 1);
    forall i | 0 <= i < n ensures out[..last.off][front[i].off..front[i].off + |front[i].data|] == front[i].data {
      assert out[..last.off][front[i].off..front[i].off + |front[i].data|]
             == out[parts[i].off..parts[i].off + |parts[i].data|];
    }
    forall x | 0 <= x < last.off ensures Covered(front, x) {
      assert Covered(parts, x);
      var i :| 0 <= i < |parts| && Covers(parts[i], x);
      assert Covers(front[i], x);
    }
    forall i, j, x | 0 <= i < j < n && Covers(front[i], x) ensures !Covers(front[j], x) {
      assert Covers(parts[i], x) && !Covers(parts[j], x);
    }
  }

  lemma {:induction false} TilesJoin(parts: seq<Part>, out: seq<byte>)
    requires SortedParts(parts) && Tiles(parts, out)
    requires forall i | 0 <= i < |parts| :: parts[i].data != []
    ensures Join(parts) == Some(out)
  {
    if parts == [] {
      assert !Covered(parts, 0);
    } else {
      var n := |parts| - 1;
      TilesFront(parts, out);
      TilesJoin(parts[..n], out[..parts[n].off]);
      assert out == out[..parts[n].off] + out[parts[n].off..parts[n].off + |parts[n].data|];
    }
  }

  lemma {:induction false} InsertPartContents(parts: seq<Part>, p: Part)
    ensures multiset(InsertPart(parts, p)) == multiset(parts) + multiset{p}
  {
    var n := |parts| - 1;
    if parts != [] && parts[n].off > p.off {
      InsertPartContents(parts[..n], p);
      assert parts == parts[..n] + [parts[n]];
    }
  }

  /** After an insertion every part is the new one or an old one. */
  lemma InsertedFrom(parts: seq<Part>, p: Part, i: nat)
    requires i <= |parts|
    ensures var x := InsertPart(parts, p)[i]; x == p || x in parts
  {
    InsertPartContents(parts, p);
    var x := InsertPart(parts, p)[i];
    assert x in multiset(InsertPart(parts, p));
  }

  lemma {:induction false} InsertPartSorted(parts: seq<Part>, p: Part)
    requires SortedParts(parts) && !HasOffset(parts, p.off)
    ensures SortedParts(InsertPart(parts, p))
  {
    var n := |parts| - 1;
    if parts != [] && parts[n].off > p.off {
      var front := parts[..n];
      InsertPartSorted(front, p);
      var r := InsertPart(front, p);
      forall i | 0 <= i < |r| ensures r[i].off < parts[n].off {
        InsertedFrom(front, p, i);
      }
    }
  }

  lemma {:induction false} SortIsIdentity(parts: seq<Part>)
    requires SortedParts(parts)
    ensures SortParts(parts) == parts
  {
    if parts != [] {
      var n := |parts| - 1;
      SortIsIdentity(parts[..n]);
      if n > 0 { assert parts[n - 1].off < parts[n].off; }
    }
  }

  lemma SortAppended(parts: seq<Part>, p: Part)
    requires SortedParts(parts)
    ensures SortParts(parts + [p]) == InsertPart(parts, p)
  {
    assert (parts + [p])[..|parts|] == parts;
    SortIsIdentity(parts);
  }

  ghost predicate EntryInv(e: Entry) {
    && SortedParts(e.parts)
    && forall i | 0 <= i < |e.parts| :: e.parts[i].data != []
  }

  /** Every push leaves the entries it stores sorted and free of duplicates. */
  lemma PushKeepsEntry(entry: Option<Entry>, f: Fragment)
    requires entry.Some? ==> EntryInv(entry.value)
    requires f.data != []
    ensures PushEntry(entry, f).0.Some? ==> EntryInv(PushEntry(entry, f).0.value)
  {
    var e := if entry.Some? then entry.value else FreshEntry(f.now);
    if !HasOffset(e.parts, f.off) {
      var p := Part(f.off, f.data);
      SortAppended(e.parts, p);
      InsertPartSorted(e.parts, p);
      var r := InsertPart(e.parts, p);
      forall i | 0 <= i < |r| ensures r[i].data != [] {
        InsertedFrom(e.parts, p, i);
      }
    }
  }

  lemma JoinIffTiles(parts: seq<Part>, out: seq<byte>)
    requires SortedParts(parts) && forall i | 0 <= i < |parts| :: parts[i].data != []
    ensures Join(parts) == Some(out) <==> Tiles(parts, out)
  {
    if Tiles(parts, out) { TilesJoin(parts, out); }
    if Join(parts).Some? { JoinTiles(parts); }
  }

  ghost function EntryOf(entry: Option<Entry>, f: Fragment): Entry {
    if entry.Some? then entry.value else FreshEntry(f.now)
  }

  /** For arbitrary fragments: a packet is returned exactly when the parts
      stored so far and the new one together tile it without gap or overlap,
      its length is the end declared last, and its header is plausible. */
  lemma PushResultIff(entry: Option<Entry>, f: Fragment, out: seq<byte>)
    requires entry.Some? ==> EntryInv(entry.value)
    requires f.data != []
    ensures var e := EntryOf(entry, f);
            PushEntry(entry, f).1 == Some(out) <==>
              && !HasOffset(e.parts, f.off)
              && Tiles(SortParts(e.parts + [Part(f.off, f.data)]), out)
              && (if f.last then f.off + |f.data| == |out| else e.eop == Some(|out|))
              && IsIp(out)
  {
    var e := EntryOf(entry, f);
    PushResult(entry, f, out);
    hide PushEntry, IsIp, SortParts, Tiles;
    if !HasOffset(e.parts, f.off) {
      AllSortedNonEmpty(e, f);
      JoinIffTiles(Stored(e, f).parts, out);
    }
  }

  lemma PushResult(entry: Option<Entry>, f: Fragment, out: seq<byte>)
    ensures var e := EntryOf(entry, f);
            PushEntry(entry, f).1 == Some(out) <==>
              && !HasOffset(e.parts, f.off)
              && Join(Stored(e, f).parts) == Some(out) && Stored(e, f).eop == Some(|out|)
              && IsIp(out)
  {
  }

  lemma AllSortedNonEmpty(e: Entry, f: Fragment)
    requires EntryInv(e) && f.data != [] && !HasOffset(e.parts, f.off)
    ensures var all := SortParts(e.parts + [Part(f.off, f.data)]);
            SortedParts(all) && forall i | 0 <= i < |all| :: all[i].data != []
  {
    var p := Part(f.off, f.data);
    SortAppended(e.parts, p);
    InsertPartSorted(e.parts, p);
    var r := InsertPart(e.parts, p);
    forall i | 0 <= i < |r| ensures r[i].data != [] {
      InsertedFrom(e.parts, p, i);
    }
  }

  // ----------------------------------------------- pieces of one IP packet

  /** Cut positions of a packet into non-empty contiguous pieces. */
  ghost predicate Cuts(packet: seq<byte>, cuts: seq<nat>) {
    && |cuts| >= 2 && cuts[0] == 0 && cuts[|cuts| - 1] == |packet| < 0x1_0000
    && forall i, j | 0 <= i < j < |cuts| :: cuts[i] < cuts[j]
  }

  ghost function Pieces(cuts: seq<nat>): nat
    requires |cuts| >= 1
  {
    |cuts| - 1
  }

  ghost function PiecePart(packet: seq<byte>, cuts: seq<nat>, j: nat): Part
    requires Cuts(packet, cuts) && j < Pieces(cuts)
  {
    assert cuts[j] < cuts[j + 1] <= cuts[|cuts| - 1];
    Part(cuts[j], packet[cuts[j]..cuts[j + 1]])
  }

  ghost function Piece(packet: seq<byte>, cuts: seq<nat>, j: nat, now: nat): Fragment
    requires Cuts(packet, cuts) && j < Pieces(cuts)
  {
    var p := PiecePart(packet, cuts, j);
    Fragment(p.off, j == Pieces(cuts) - 1, p.data, now)
  }

  ghost predicate All(s: set<nat>, n: nat) {
    forall j: nat | j < n :: j in s
  }

  /** The pieces numbered in s, below k, in order. */
  ghost function Chosen(packet: seq<byte>, cuts: seq<nat>, s: set<nat>, k: nat): seq<Part>
    requires Cuts(packet, cuts) && k <= Pieces(cuts)
  {
    if k == 0 then []
    else Chosen(packet, cuts, s, k - 1) + if k - 1 in s then [PiecePart(packet, cuts, k - 1)] else []
  }

  lemma {:induction false} ChosenOffsets(packet: seq<byte>, cuts: seq<nat>, s: set<nat>, k: nat, j: nat)
    requires Cuts(packet, cuts) && k <= Pieces(cuts) && j < Pieces(cuts)
    ensures HasOffset(Chosen(packet, cuts, s, k), cuts[j]) <==> j in s && j < k
    ensures forall i | 0 <= i < |Chosen(packet, cuts, s, k)| ::
            k > 0 && Chosen(packet, cuts, s, k)[i].off <= cuts[k - 1]
  {
    if k > 0 {
      ChosenOffsets(packet, cuts, s, k - 1, j);
      var front, all := Chosen(packet, cuts, s, k - 1), Chosen(packet, cuts, s, k);
      assert j < k - 1 ==> cuts[j] < cuts[k - 1];
      assert j > k - 1 ==> cuts[j] > cuts[k - 1];
      assert k - 1 !in s ==> all == front;
      if k - 1 in s {
        assert all[|front|].off == cuts[k - 1];
        if HasOffset(front, cuts[j]) {
          var i :| 0 <= i < |front| && front[i].off == cuts[j];
          assert all[i].off == cuts[j];
        }
        if HasOffset(all, cuts[j]) && j != k - 1 {
          var i :| 0 <= i < |all| && all[i].off == cuts[j];
          assert front[i].off == cuts[j];
        }
      }
      forall i | 0 <= i < |all| ensures all[i].off <= cuts[k - 1] {
        if i < |front| { assert all[i] == front[i]; assert k - 1 > 0; assert cuts[k - 2] < cuts[k - 1]; }
      }
    }
  }

  lemma {:induction false} ChosenSorted(packet: seq<byte>, cuts: seq<nat>, s: set<nat>, k: nat)
    requires Cuts(packet, cuts) && k <= Pieces(cuts)
    ensures SortedParts(Chosen(packet, cuts, s, k))
  {
    if k > 0 {
      ChosenSorted(packet, cuts, s, k - 1);
      ChosenOffsets(packet, cuts, s, k - 1, k - 1);
      if k > 1 { assert cuts[k - 2] < cuts[k - 1]; }
    }
  }

  lemma {:induction false} ChosenInsert(packet: seq<byte>, cuts: seq<nat>, s: set<nat>, k: nat, j: nat)
    requires Cuts(packet, cuts) && j < k <= Pieces(cuts) && j !in s
    ensures InsertPart(Chosen(packet, cuts, s, k), PiecePart(packet, cuts, j)) == Chosen(packet, cuts, s + {j}, k)
  {
    var front := Chosen(packet, cuts, s, k - 1);
    if j == k - 1 {
      ChosenOffsets(packet, cuts, s, k - 1, j);
      if k > 1 { assert cuts[k - 2] < cuts[k - 1]; }
      ChosenSame(packet, cuts, s, j, k - 1);
      assert Chosen(packet, cuts, s, k) == front;
    } else {
      ChosenInsert(packet, cuts, s, k - 1, j);
      var all := Chosen(packet, cuts, s, k);
      if k - 1 in s {
        assert all[..|all| - 1] == front;
        assert cuts[j] < cuts[k - 1];
      } else {
        assert all == front;
        assert Chosen(packet, cuts, s + {j}, k) == Chosen(packet, cuts, s + {j}, k - 1);
      }
    }
  }

  lemma {:induction false} ChosenSame(packet: seq<byte>, cuts: seq<nat>, s: set<nat>, j: nat, k: nat)
    requires Cuts(packet, cuts) && k <= j < Pieces(cuts)
    ensures Chosen(packet, cuts, s + {j}, k) == Chosen(packet, cuts, s, k)
  {
    if k > 0 { ChosenSame(packet, cuts, s, j, k - 1); }
  }

  lemma CutsIncrease(packet: seq<byte>, cuts: seq<nat>, k: nat)
    requires Cuts(packet, cuts) && k <= Pieces(cuts)
    ensures cuts[0] == 0 && cuts[k] <= |packet|
    ensures k > 0 ==> cuts[k - 1] < cuts[k]
  {
    if k < Pieces(cuts) { assert cuts[k] < cuts[Pieces(cuts)]; }
    if k > 0 { assert cuts[k - 1] < cuts[k]; }
  }

  /** All pieces joined give the packet; fewer never reach its length. */
  lemma {:induction false} ChosenJoin(packet: seq<byte>, cuts: seq<nat>, s: set<nat>, k: nat)
    requires Cuts(packet, cuts) && k <= Pieces(cuts)
    ensures cuts[k] <= |packet|
    ensures All(s, k) ==> Join(Chosen(packet, cuts, s, k)) == Some(packet[..cuts[k]])
    ensures Join(Chosen(packet, cuts, s, k)).Some? && !All(s, k)
            ==> |Join(Chosen(packet, cuts, s, k)).value| < cuts[k]
  {
    hide Cuts, All, Join;
    CutsIncrease(packet, cuts, k);
    if k == 0 {
      NothingJoined();
    } else {
      ChosenJoin(packet, cuts, s, k - 1);
      var front := Chosen(packet, cuts, s, k - 1);
      AllStep(s, k);
      if k - 1 in s {
        JoinAppend(front, PiecePart(packet, cuts, k - 1));
        assert packet[..cuts[k]] == packet[..cuts[k - 1]] + packet[cuts[k - 1]..cuts[k]];
      } else {
        assert Chosen(packet, cuts, s, k) == front;
      }
    }
  }

  lemma NothingJoined()
    ensures Join([]) == Some([])
    ensures forall s: set<nat> :: All(s, 0)
  {
  }

  lemma AllStep(s: set<nat>, k: nat)
    requires k > 0
    ensures All(s, k) <==> All(s, k - 1) && k - 1 in s
  {
  }

  lemma JoinAppend(front: seq<Part>, p: Part)
    ensures Join(front + [p]) == if Join(front).Some? && |Join(front).value| == p.off
                                 then Some(Join(front).value + p.data) else None
  {
    assert (front + [p])[..|front|] == front;
  }

  // --------------------------------------------------------- runs of pushes

  function EntryAfter(entry: Option<Entry>, fs: seq<Fragment>): Option<Entry> {
    if fs == [] then entry
    else PushEntry(EntryAfter(entry, fs[..|fs| - 1]), fs[|fs| - 1]).0
  }

  ghost function Seen(js: seq<nat>): set<nat> {
    set j | j in js
  }

  /** js names pieces of the packet, in the order they arrive; ts the times. */
  ghost predicate Arrivals(packet: seq<byte>, cuts: seq<nat>, js: seq<nat>, fs: seq<Fragment>) {
    && Cuts(packet, cuts) && |js| == |fs|
    && forall i | 0 <= i < |js| :: js[i] < Pieces(cuts) && fs[i] == Piece(packet, cuts, js[i], fs[i].now)
  }

  /** As long as some piece is missing, the entry holds exactly the pieces seen. */
  ghost predicate HoldsSeen(packet: seq<byte>, cuts: seq<nat>, s: set<nat>, entry: Option<Entry>)
    requires Cuts(packet, cuts)
  {
    var e := if entry.Some? then entry.value else FreshEntry(0);
    && e.parts == Chosen(packet, cuts, s, Pieces(cuts))
    && e.eop == if Pieces(cuts) - 1 in s then Some(|packet|) else None
  }

  lemma StoredPiece(packet: seq<byte>, cuts: seq<nat>, s: set<nat>, e: Entry, j: nat, now: nat)
    requires Cuts(packet, cuts) && j < Pieces(cuts) && j !in s
    requires HoldsSeen(packet, cuts, s, Some(e))
    ensures !HasOffset(e.parts, cuts[j])
    ensures HoldsSeen(packet, cuts, s + {j}, Some(Stored(e, Piece(packet, cuts, j, now))))
  {
    var n := Pieces(cuts);
    ChosenOffsets(packet, cuts, s, n, j);
    ChosenSorted(packet, cuts, s, n);
    SortAppended(e.parts, PiecePart(packet, cuts, j));
    ChosenInsert(packet, cuts, s, n, j);
  }

  lemma HeldJoin(packet: seq<byte>, cuts: seq<nat>, s: set<nat>, e: Entry)
    requires Cuts(packet, cuts) && HoldsSeen(packet, cuts, s, Some(e))
    ensures All(s, Pieces(cuts)) ==> Join(e.parts) == Some(packet) && e.eop == Some(|packet|)
    ensures !All(s, Pieces(cuts)) ==> Join(e.parts).None? || e.eop != Some(|Join(e.parts).value|)
  {
    ChosenJoin(packet, cuts, s, Pieces(cuts));
    assert packet[..cuts[Pieces(cuts)]] == packet;
  }

  lemma PushPiece(packet: seq<byte>, cuts: seq<nat>, s: set<nat>, entry: Option<Entry>, j: nat, now: nat)
    requires Cuts(packet, cuts) && j < Pieces(cuts)
    requires HoldsSeen(packet, cuts, s, entry) && !All(s, Pieces(cuts))
    ensures var (entry', out) := PushEntry(entry, Piece(packet, cuts, j, now));
            if All(s + {j}, Pieces(cuts)) then out == if IsIp(packet) then Some(packet) else None
            else out == None && HoldsSeen(packet, cuts, s + {j}, entry')
  {
    var f := Piece(packet, cuts, j, now);
    var e := EntryOf(entry, f);
    if j in s {
      ChosenOffsets(packet, cuts, s, Pieces(cuts), j);
      assert s + {j} == s;
    } else {
      StoredPiece(packet, cuts, s, e, j, now);
      HeldJoin(packet, cuts, s + {j}, Stored(e, f));
      hide Join, Chosen, Stored, Cuts, IsIp;
    }
  }

  lemma {:induction false} SeenRun(packet: seq<byte>, cuts: seq<nat>, js: seq<nat>, fs: seq<Fragment>)
    requires Arrivals(packet, cuts, js, fs) && !All(Seen(js), Pieces(cuts))
    ensures HoldsSeen(packet, cuts, Seen(js), EntryAfter(None, fs))
  {
    var n := |js| - 1;
    if js == [] {
      ChosenOfNothing(packet, cuts, Pieces(cuts));
      assert Seen(js) == {};
    } else {
      assert Seen(js) == Seen(js[..n]) + {js[n]};
      assert !All(Seen(js[..n]), Pieces(cuts));
      SeenRun(packet, cuts, js[..n], fs[..n]);
      PushPiece(packet, cuts, Seen(js[..n]), EntryAfter(None, fs[..n]), js[n], fs[n].now);
    }
  }

  lemma {:induction false} ChosenOfNothing(packet: seq<byte>, cuts: seq<nat>, k: nat)
    requires Cuts(packet, cuts) && k <= Pieces(cuts)
    ensures Chosen(packet, cuts, {}, k) == []
  {
    if k > 0 { ChosenOfNothing(packet, cuts, k - 1); }
  }

  /** Pieces of a packet pushed in any order, with any repetitions: nothing is
      returned until the last missing piece, and then exactly the packet (or
      nothing, when its header is not that of an IP packet). */
  lemma Reassembles(packet: seq<byte>, cuts: seq<nat>, js: seq<nat>, fs: seq<Fragment>)
    requires Arrivals(packet, cuts, js, fs) && js != []
    requires !All(Seen(js[..|js| - 1]), Pieces(cuts))
    ensures PushEntry(EntryAfter(None, fs[..|js| - 1]), fs[|js| - 1]).1
         == if All(Seen(js), Pieces(cuts)) && IsIp(packet) then Some(packet) else None
  {
    var n := |js| - 1;
    SeenRun(packet, cuts, js[..n], fs[..n]);
    assert Seen(js) == Seen(js[..n]) + {js[n]};
    PushPiece(packet, cuts, Seen(js[..n]), EntryAfter(None, fs[..n]), js[n], fs[n].now);
  }

  // ------------------------------------------------ the table as a whole

  datatype Event =
    | Pushed(key: SetKey, fragment: Fragment, victim: Option<SetKey>)
    | Reaped(now: nat, maxAge: nat)

  function TableStep(t: Table, e: Event): Table {
    match e
    case Pushed(key, f, victim) => Push(t, victim, key, f).0
    case Reaped(now, maxAge) => Young(t, now, maxAge)
  }

  function TableAfter(t: Table, events: seq<Event>): Table {
    if events == [] then t
    else TableStep(TableAfter(t, events[..|events| - 1]), events[|events| - 1])
  }

  /** The set of `key` is neither evicted nor reaped by this event. */
  ghost predicate Spares(t: Table, e: Event, key: SetKey) {
    match e
    case Pushed(_, _, victim) => victim != Some(key)
    case Reaped(now, maxAge) => key in t ==> key in Young(t, now, maxAge)
  }

  ghost predicate Undisturbed(t: Table, events: seq<Event>, key: SetKey) {
    forall i | 0 <= i < |events| :: Spares(TableAfter(t, events[..i]), events[i], key)
  }

  /** The fragments pushed for one key, in order. */
  function ForKey(events: seq<Event>, key: SetKey): seq<Fragment> {
    if events == [] then []
    else
      var front, e := ForKey(events[..|events| - 1], key), events[|events| - 1];
      if e.Pushed? && e.key == key then front + [e.fragment] else front
  }

  lemma StepOtherKey(t: Table, e: Event, key: SetKey)
    requires Spares(t, e, key) && !(e.Pushed? && e.key == key)
    ensures Lookup(TableStep(t, e), key) == Lookup(t, key)
  {
  }

  lemma UndisturbedPrefix(t: Table, events: seq<Event>, key: SetKey, n: nat)
    requires Undisturbed(t, events, key) && n <= |events|
    ensures Undisturbed(t, events[..n], key)
  {
    forall i | 0 <= i < n ensures Spares(TableAfter(t, events[..n][..i]), events[..n][i], key) {
      assert events[..n][..i] == events[..i];
    }
  }

  lemma StepOwnKey(t: Table, e: Event)
    requires e.Pushed? && e.victim != Some(e.key)
    ensures Lookup(TableStep(t, e), e.key) == PushEntry(Lookup(t, e.key), e.fragment).0
    ensures Push(t, e.victim, e.key, e.fragment).1 == PushEntry(Lookup(t, e.key), e.fragment).1
  {
    assert Lookup(Evict(t, e.victim), e.key) == Lookup(t, e.key);
  }

  /** Isolation: pushes for other sessions or packets never change what a set
      holds; its content depends on its own fragments alone. */
  lemma {:induction false} SetDependsOnOwnFragments(t: Table, events: seq<Event>, key: SetKey)
    requires Undisturbed(t, events, key)
    ensures Lookup(TableAfter(t, events), key) == EntryAfter(Lookup(t, key), ForKey(events, key))
  {
    if events != [] {
      var n := |events| - 1;
      UndisturbedPrefix(t, events, key, n);
      SetDependsOnOwnFragments(t, events[..n], key);
      var front, e := TableAfter(t, events[..n]), events[n];
      assert Spares(front, e, key);
      hide PushEntry, Undisturbed, TableStep, Lookup;
      if e.Pushed? && e.key == key {
        var fs := ForKey(events[..n], key);
        assert (fs + [e.fragment])[..|fs|] == fs;
        StepOwnKey(front, e);
      } else {
        StepOtherKey(front, e, key);
      }
    }
  }

  /** The same, for a packet cut into pieces and mixed with any other traffic
      that does not push its set out of the table: the push that brings the
      last missing piece returns the packet and no earlier one returns anything. */
  lemma ReassemblesAmongOthers(t: Table, events: seq<Event>, e: Event, packet: seq<byte>, cuts: seq<nat>,
                               js: seq<nat>, j: nat)
    requires e.Pushed? && e.key !in t && e.victim != Some(e.key)
    requires Undisturbed(t, events, e.key)
    requires Arrivals(packet, cuts, js + [j], ForKey(events, e.key) + [e.fragment])
    requires !All(Seen(js), Pieces(cuts))
    ensures Push(TableAfter(t, events), e.victim, e.key, e.fragment).1
         == if All(Seen(js + [j]), Pieces(cuts)) && IsIp(packet) then Some(packet) else None
  {
    var fs := ForKey(events, e.key);
    SetDependsOnOwnFragments(t, events, e.key);
    assert (js + [j])[..|js|] == js && (fs + [e.fragment])[..|fs|] == fs;
    Reassembles(packet, cuts, js + [j], fs + [e.fragment]);
    StepOwnKey(TableAfter(t, events), e);
  }

  // ------------------------------------------------------------- eviction

  function Bound(maxEntries: nat): nat {
    if maxEntries == 0 then 1 else maxEntries
  }

  lemma SizeWithout(t: Table, key: SetKey)
    ensures |t - {key}| == if key in t then |t| - 1 else |t|
  {
    assert (t - {key}).Keys == t.Keys - {key};
    assert |t| == |t.Keys| && |t - {key}| == |(t - {key}).Keys|;
  }

  lemma SizeWith(t: Table, key: SetKey, entry: Entry)
    ensures |t[key := entry]| == if key in t then |t| else |t| + 1
  {
    assert t[key := entry].Keys == t.Keys + {key};
    assert |t| == |t.Keys| && |t[key := entry]| == |t[key := entry].Keys|;
  }

  lemma PushBounded(t: Table, maxEntries: nat, victim: Option<SetKey>, key: SetKey, f: Fragment)
    requires Victim(t, maxEntries, key, victim) && |t| <= Bound(maxEntries)
    ensures |Push(t, victim, key, f).0| <= Bound(maxEntries)
  {
    var t1 := Evict(t, victim);
    if victim.Some? { SizeWithout(t, victim.value); }
    var (entry, out) := PushEntry(Lookup(t1, key), f);
    if entry.Some? { SizeWith(t1, key, entry.value); } else { SizeWithout(t1, key); }
    assert t == map[] ==> |t| == 0;
  }

  function Time(e: Event): nat {
    match e
    case Pushed(_, f, _) => f.now
    case Reaped(now, _) => now
  }

  /** The table after the first n events of a run from the empty table. */
  function At(events: seq<Event>, n: nat): Table
    requires n <= |events|
  {
    TableAfter(map[], events[..n])
  }

  /** A run of the table: every eviction follows the rule, and the clock never
      goes back. */
  ghost predicate Ruled(events: seq<Event>, maxEntries: nat) {
    && (forall i | 0 <= i < |events| && events[i].Pushed? ::
          Victim(At(events, i), maxEntries, events[i].key, events[i].victim))
    && (forall i, j | 0 <= i < j < |events| :: Time(events[i]) <= Time(events[j]))
  }

  lemma AtNext(events: seq<Event>, n: nat)
    requires n < |events|
    ensures At(events, n + 1) == TableStep(At(events, n), events[n])
  {
    assert events[..n + 1][..n] == events[..n];
  }

  /** Over every run the table stays within its limit, and holds at most one
      set when the limit is 0. */
  lemma {:induction false} SizeBounded(events: seq<Event>, maxEntries: nat, n: nat)
    requires Ruled(events, maxEntries) && n <= |events|
    ensures |At(events, n)| <= Bound(maxEntries)
  {
    if n > 0 {
      SizeBounded(events, maxEntries, n - 1);
      AtNext(events, n - 1);
      var t, e := At(events, n - 1), events[n - 1];
      hide Push, Young, At, Victim;
      match e {
        case Pushed(key, f, victim) => PushBounded(t, maxEntries, victim, key, f);
        case Reaped(now, maxAge) => YoungSmaller(t, now, maxAge);
      }
    }
  }

  /** Event r stored the fragment the set of key was last touched by before
      event n: from then on the set has been there, untouched. */
  ghost predicate LastStored(events: seq<Event>, n: nat, key: SetKey, r: nat)
    requires n <= |events|
  {
    && r < n && events[r].Pushed? && events[r].key == key
    && forall j | r < j <= n :: key in At(events, j) && At(events, j)[key].lastSeen == events[r].fragment.now
  }

  /** What one event does to a set that is there afterwards. */
  lemma TouchedOrKept(t: Table, e: Event, key: SetKey)
    requires key in TableStep(t, e)
    ensures (e.Pushed? && e.key == key && TableStep(t, e)[key].lastSeen == e.fragment.now)
            || (key in t && TableStep(t, e)[key].lastSeen == t[key].lastSeen)
  {
    hide SortParts, Join, IsIp;
  }

  lemma StillStored(events: seq<Event>, n: nat, key: SetKey, r: nat)
    requires n < |events| && LastStored(events, n, key, r)
    requires key in At(events, n + 1) && key in At(events, n)
    requires At(events, n + 1)[key].lastSeen == At(events, n)[key].lastSeen
    ensures LastStored(events, n + 1, key, r)
  {
    hide At;
  }

  lemma {:induction false} WasStored(events: seq<Event>, n: nat, key: SetKey) returns (r: nat)
    requires n <= |events| && key in At(events, n)
    ensures LastStored(events, n, key, r)
  {
    assert n > 0 by { assert At(events, 0) == map[]; }
    hide At, TableStep, LastStored;
    AtNext(events, n - 1);
    var e := events[n - 1];
    TouchedOrKept(At(events, n - 1), e, key);
    if e.Pushed? && e.key == key && At(events, n)[key].lastSeen == e.fragment.now {
      r := n - 1;
      JustStored(events, n - 1, key);
    } else {
      r := WasStored(events, n - 1, key);
      StillStored(events, n - 1, key, r);
    }
  }

  lemma JustStored(events: seq<Event>, n: nat, key: SetKey)
    requires n < |events| && events[n].Pushed? && events[n].key == key
    requires key in At(events, n + 1) && At(events, n + 1)[key].lastSeen == events[n].fragment.now
    ensures LastStored(events, n + 1, key, n)
  {
    hide At;
  }

  /** The keys other than one pushed no earlier than a given time by the first
      n events. */
  function PushedSince(events: seq<Event>, n: nat, time: nat, other: SetKey): set<SetKey>
    requires n <= |events|
  {
    set i | 0 <= i < n && events[i].Pushed? && events[i].key != other && events[i].fragment.now >= time :: events[i].key
  }

  /** Over every run, when a set is evicted at least as many other sets as the
      table may hold, the one being pushed among them, have been pushed to no
      earlier than the evicted set was last touched. */
  lemma EvictedOnlyWhenCrowded(events: seq<Event>, maxEntries: nat, i: nat) returns (r: nat)
    requires Ruled(events, maxEntries) && i < |events| && events[i].Pushed? && events[i].victim.Some?
    ensures events[i].victim.value in At(events, i) && LastStored(events, i, events[i].victim.value, r)
    ensures |PushedSince(events, i + 1, events[r].fragment.now, events[i].victim.value)| >= maxEntries
  {
    var victim, key, t := events[i].victim.value, events[i].key, At(events, i);
    assert Victim(t, maxEntries, key, events[i].victim);
    r := WasStored(events, i, victim);
    var time := events[r].fragment.now;
    assert Time(events[r]) <= Time(events[i]);
    hide At, Ruled;
    var others := t.Keys - {victim} + {key};
    forall k | k in others ensures k in PushedSince(events, i + 1, time, victim) {
      if k != key {
        var q := WasStored(events, i, k);
        assert events[q].key == k && events[q].fragment.now == t[k].lastSeen;
      } else {
        assert events[i].key == k;
      }
    }
    SubsetSize(others, PushedSince(events, i + 1, time, victim));
    assert |t| == |t.Keys|;
  }
}
