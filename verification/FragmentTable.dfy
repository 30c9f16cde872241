/** The server's fragment table as an object updated in place, and the decoding
    of one fragment datagram (src/bin/server/fragment.rs). */
module FragmentTable {
  import opened Bytes
  import opened Wrappers
  import opened IpPacket
  import R = Reassembly
  import D = Downlink
  import ServerFragments

  class FragmentTable {
    var entries: R.Table
    const maxEntries: nat

    constructor (maxEntries: nat)
      ensures entries == map[] && this.maxEntries == maxEntries
    {
      entries := map[];
      this.maxEntries := maxEntries;
    }

    /** The least recently touched key, in whatever order ties are met. */
    method Oldest() returns (oldest: Option<R.SetKey>)
      ensures oldest.None? <==> entries == map[]
      ensures oldest.Some? ==> oldest.value in entries
      ensures oldest.Some? ==> forall k | k in entries :: entries[oldest.value].lastSeen <= entries[k].lastSeen
    {
      var keys := entries.Keys;
      oldest := None;
      while keys != {}
        invariant keys <= entries.Keys
        invariant oldest.None? <==> keys == entries.Keys
        invariant oldest.Some? ==> oldest.value in entries
        invariant oldest.Some? ==> forall k | k in entries && k !in keys ::
                  entries[oldest.value].lastSeen <= entries[k].lastSeen
        decreases keys
      {
        var k :| k in keys;
        if oldest.None? || entries[k].lastSeen < entries[oldest.value].lastSeen {
          oldest := Some(k);
        }
        keys := keys - {k};
      }
    }

    /** Drops the least recently touched set when a new one would be too many. */
    method MakeRoom(key: R.SetKey) returns (victim: Option<R.SetKey>)
      modifies this
      ensures R.Victim(old(entries), maxEntries, key, victim)
      ensures entries == R.Evict(old(entries), victim)
    {
      victim := None;
      if |entries| >= maxEntries && key !in entries {
        victim := Oldest();
        if victim.Some? {
          entries := entries - {victim.value};
        }
      }
    }

    method Push(key: R.SetKey, f: R.Fragment) returns (out: Option<seq<byte>>, ghost victim: Option<R.SetKey>)
      modifies this
      ensures R.Victim(old(entries), maxEntries, key, victim)
      ensures (entries, out) == R.Push(old(entries), victim, key, f)
    {
      victim := MakeRoom(key);
      ghost var t1 := entries;
      var entry := if key in entries then entries[key] else R.FreshEntry(f.now);
      if R.HasOffset(entry.parts, f.off) {
        entries := entries[key := entry];
        return None, victim;
      }
      entry := entry.(lastSeen := f.now);
      if f.last {
        entry := entry.(eop := Some(f.off + |f.data|));
      }
      entry := entry.(parts := R.SortParts(entry.parts + [R.Part(f.off, f.data)]));
      entries := entries[key := entry];
      var joined := R.JoinParts(entry.parts);
      if joined.None? || entry.eop != Some(|joined.value|) {
        return None, victim;
      }
      entries := entries - {key};
      assert entries == t1 - {key};
      out := if IsIp(joined.value) then joined else None;
    }

    method Reap(now: nat, maxAge: nat) returns (removed: nat)
      modifies this
      ensures entries == R.Young(old(entries), now, maxAge)
      ensures forall k :: k in entries <==> k in old(entries) && now < old(entries)[k].lastSeen + maxAge
      ensures forall k | k in entries :: entries[k] == old(entries)[k]
      ensures removed == |old(entries)| - |entries|
    {
      var before := |entries|;
      entries := map k | k in entries && (now < entries[k].lastSeen || now - entries[k].lastSeen < maxAge) ::
        entries[k];
      R.YoungSmaller(old(entries), now, maxAge);
      removed := before - |entries|;
    }
  }

  /** Every encoded fragment with a thirteen-bit offset and one to 2047 bytes is
      read as such. */
  lemma EncodedFragments(raw: seq<byte>, sid: u16, token: u32, now: nat)
    ensures forall typ, id: u32, chunk, off, flag |
              IsFragmentPacket(raw, typ, sid, token, id, chunk, off, flag) ::
              R.DecodeFragment(raw, now) == Some((id, R.Fragment(off, flag == 1, chunk, now)))
  {
    forall typ, id: u32, chunk, off, flag | IsFragmentPacket(raw, typ, sid, token, id, chunk, off, flag)
      ensures R.DecodeFragment(raw, now) == Some((id, R.Fragment(off, flag == 1, chunk, now)))
    {
      ServerFragments.FragmentRecoveredIff(typ, sid, token, id, chunk, off, flag, now);
    }
  }

  ghost predicate IsFragmentPacket(raw: seq<byte>, typ: byte, sid: u16, token: u32, id: u32, chunk: seq<byte>, off: u16,
                                   flag: nat)
  {
    && flag <= 1 && off < 0x2000 && 1 <= |chunk| <= 0x7ff
    && raw == D.FragmentPacket(typ, sid, token, id, chunk, off, flag)
  }

  /** One fragment datagram for a session that `known` says is live; an encoded
      fragment of one to 2047 bytes at a thirteen-bit offset is pushed as such. */
  method HandleFragment(table: FragmentTable, raw: seq<byte>, sid: u16, token: u32, known: bool, now: nat)
    returns (written: Option<seq<byte>>, ghost victim: Option<R.SetKey>)
    modifies table
    ensures var decoded := R.DecodeFragment(raw, now);
            if known && decoded.Some? then
              var key := (sid, token, decoded.value.0);
              && R.Victim(old(table.entries), table.maxEntries, key, victim)
              && (table.entries, written) == R.Push(old(table.entries), victim, key, decoded.value.1)
            else table.entries == old(table.entries) && written == None
    ensures forall typ, id: u32, chunk, off, flag |
              known && IsFragmentPacket(raw, typ, sid, token, id, chunk, off, flag) ::
              && R.Victim(old(table.entries), table.maxEntries, (sid, token, id), victim)
              && (table.entries, written) == R.Push(old(table.entries), victim, (sid, token, id),
                                                    R.Fragment(off, flag == 1, chunk, now))
  {
    hide R.Push, R.Victim, IsFragmentPacket, FromLE32;
    EncodedFragments(raw, sid, token, now);
    victim := None;
    if |raw| < 16 || !known {
      return None, None;
    }
    var id := FromLE32(raw[8..]);
    var word := FromLE32(raw[12..]);
    var offset: u16 := word / 4 % 0x2000;
    var len := word / 0x8000 % 0x800;
    var end := if 16 + len < |raw| then 16 + len else |raw|;
    if end <= 16 {
      return None, None;
    }
    written, victim := table.Push((sid, token, id), R.Fragment(offset, word % 2 == 1, raw[16..end], now));
  }
}
