/** The upload batcher of the TUN client (src/core/tun_proxy.rs): 64 slots of
    9216 bytes filled in place and handed to the kernel in one call. */
module UploadBatch {
  import opened Bytes
  import opened Wrappers
  import opened Crypto
  import opened SrKey
  import opened Tunnel
  import opened TunnelCodec
  import opened IpPacket
  import opened WireContents

  type Datagram = seq<byte>

  // ------------------------------------------------------------ the kernel

  /** One answer of sendmmsg: how many datagrams it took, or why none. */
  datatype SendResult = Sent(n: nat) | Interrupted | SendError

  /** The answers to the calls of one flush of n datagrams, up to the one that
      ends it; the kernel takes no more datagrams than it was given. */
  predicate Finishes(answers: seq<SendResult>, n: nat) {
    if n == 0 then true
    else if answers == [] then false
    else match answers[0]
         case Interrupted => Finishes(answers[1..], n)
         case SendError => true
         case Sent(m) => m == 0 || (m <= n && Finishes(answers[1..], n - m))
  }

  /** How many of n datagrams a flush with these answers gets out. */
  function Taken(answers: seq<SendResult>, n: nat): (k: nat)
    requires Finishes(answers, n)
    ensures k <= n
  {
    if n == 0 then 0
    else match answers[0]
         case Interrupted => Taken(answers[1..], n)
         case SendError => 0
         case Sent(m) => if m == 0 then 0 else m + Taken(answers[1..], n - m)
  }

  lemma FlushStep(answers: seq<SendResult>, n: nat)
    requires Finishes(answers, n) && n > 0
    ensures answers != []
    ensures match answers[0]
            case Interrupted => Finishes(answers[1..], n) && Taken(answers, n) == Taken(answers[1..], n)
            case SendError => Taken(answers, n) == 0
            case Sent(m) =>
              if m == 0 then Taken(answers, n) == 0
              else m <= n && Finishes(answers[1..], n - m) && Taken(answers, n) == m + Taken(answers[1..], n - m)
  {
  }

  // -------------------------------------------------------------- the batch

  class UploadBatch {
    const slots: array<byte>
    const iov: array<nat>
    var count: nat
    /** The datagrams queued, and those the kernel has taken so far. */
    ghost var frames: seq<Datagram>
    ghost var wire: seq<Datagram>

    ghost predicate Valid()
      reads this, slots, iov
    {
      && slots.Length == 589824 && iov.Length == 64
      && count == |frames| <= 64
      && forall i | 0 <= i < count :: Holds(i, frames[i])
    }

    /** Slot i holds this datagram. */
    ghost predicate Holds(i: nat, d: Datagram)
      requires slots.Length == 589824 && iov.Length == 64 && i < 64
      reads slots, iov
    {
      iov[i] == |d| <= 9216 && forall j | 0 <= j < |d| :: slots[i * 9216 + j] == d[j]
    }

    constructor ()
      ensures Valid() && count == 0 && frames == [] && wire == []
      ensures fresh(slots) && fresh(iov)
    {
      slots := new byte[589824](_ => 0);
      iov := new nat[64](_ => 0);
      count := 0;
      frames, wire := [], [];
    }

    /** The payload area of the next slot: bounds into the slot array. */
    function Base(): nat
      reads this
    {
      count * 9216
    }

    /** Writes bytes at the start of the next slot and records its length. */
    method Place(bytes: seq<byte>, len: nat, ghost d: Datagram)
      requires Valid() && count < 64 && |d| == len <= 9216 && |bytes| <= len
      requires forall j | 0 <= j < len :: d[j] == if j < |bytes| then bytes[j] else slots[count * 9216 + j]
      modifies this`count, this`frames, slots, iov
      ensures Valid() && count == old(count) + 1 && frames == old(frames) + [d]
    {
      WriteNext(bytes);
      iov[count] := len;
      forall i | 0 <= i < count ensures Holds(i, frames[i]) {
        assert old(Holds(i, frames[i]));
      }
      assert Holds(count, d);
      frames := frames + [d];
      count := count + 1;
    }

    method WriteNext(bytes: seq<byte>)
      requires slots.Length == 589824 && count < 64 && |bytes| <= 9216
      modifies slots
      ensures forall k | 0 <= k < count * 9216 :: slots[k] == old(slots[k])
      ensures forall j | 0 <= j < 9216 ::
                slots[count * 9216 + j] == if j < |bytes| then bytes[j] else old(slots[count * 9216 + j])
    {
      var base := count * 9216;
      forall j | 0 <= j < |bytes| { slots[base + j] := bytes[j]; }
    }

    /** Lets the TUN device write a packet into the payload area of the next slot. */
    method Receive(packet: seq<byte>)
      requires Valid() && count < 64 && |packet| <= 9208
      modifies slots
      ensures Valid()
      ensures slots[Base() + 8..Base() + 8 + |packet|] == packet
    {
      var base := count * 9216 + 8;
      forall j | 0 <= j < |packet| { slots[base + j] := packet[j]; }
      forall i | 0 <= i < count ensures Holds(i, frames[i]) {
        assert old(Holds(i, frames[i]));
      }
    }

    /** Queues the payload already in the next slot under a header. */
    method Queue(header: seq<byte>, len: nat)
      requires Valid() && count < 64 && |header| == 8 && len + 8 <= 9216
      modifies this`count, this`frames, slots, iov
      ensures Valid() && count == old(count) + 1
      ensures frames == old(frames) + [header + old(slots[Base() + 8..Base() + 8 + len])]
    {
      var base := count * 9216;
      Place(header, len + 8, header + slots[base + 8..base + 8 + len]);
    }

    /** Queues the last datagram again under another header, if there is room. */
    method QueueDuplicate(header: seq<byte>, len: nat)
      requires Valid() && |header| == 8 && len + 8 <= 9216
      requires count > 0 ==> |frames[count - 1]| == len + 8
      modifies this`count, this`frames, slots, iov
      ensures Valid()
      ensures if old(count) == 0 || old(count) >= 64 then count == old(count) && frames == old(frames)
              else count == old(count) + 1 && frames == old(frames) + [header + old(frames[count - 1])[8..]]
    {
      if count == 0 || count >= 64 {
        return;
      }
      var prev := (count - 1) * 9216;
      var total := 8 + len;
      ghost var last := frames[count - 1];
      assert Holds(count - 1, last);
      var copy := slots[prev..prev + total];
      assert copy == last;
      copy := header + copy[8..];
      Place(copy, total, copy);
    }

    /** Queues a complete datagram; one that does not fit a slot is dropped. */
    method QueuePacket(packet: Datagram)
      requires Valid() && count < 64
      modifies this`count, this`frames, slots, iov
      ensures Valid()
      ensures if |packet| > 9216 then count == old(count) && frames == old(frames)
              else count == old(count) + 1 && frames == old(frames) + [packet]
    {
      if |packet| > 9216 {
        return;
      }
      Place(packet, |packet|, packet);
    }

    method IsFull() returns (full: bool)
      ensures full <==> count == 64
    {
      full := count == 64;
    }

    /** Hands the queued datagrams to the kernel, in order, until it has taken
        them all or gives up; the rest is dropped. */
    method Flush(kernel: seq<SendResult>)
      requires Valid() && Finishes(kernel, count)
      modifies this`count, this`frames, this`wire
      ensures Valid() && count == 0 && frames == []
      ensures wire == old(wire) + old(frames)[..Taken(kernel, old(count))]
    {
      hide Finishes, Taken, Holds;
      var off: nat := 0;
      var answers := kernel;
      while off < count
        invariant count == old(count) == |frames| && frames == old(frames)
        invariant off <= count && Finishes(answers, count - off)
        invariant off + Taken(answers, count - off) == Taken(kernel, count)
        invariant wire == old(wire) + frames[..off]
        decreases |answers|
      {
        FlushStep(answers, count - off);
        var answer := answers[0];
        answers := answers[1..];
        if answer.Interrupted? {
          continue;
        }
        if answer.SendError? || answer.n == 0 {
          break;
        }
        wire := wire + frames[off..off + answer.n];
        assert frames[..off] + frames[off..off + answer.n] == frames[..off + answer.n];
        off := off + answer.n;
      }
      count := 0;
      frames := [];
    }
  }

  // ------------------------------------------------------- the upload loop

  /** The session a pump serves, and whether packets are sent twice. */
  datatype Config = Config(keys: Keys, sid: u16, token: u32, sr: Option<SrConfig>, duplicate: bool)

  /** One attempt to read from the TUN device. */
  datatype Read = Got(packet: seq<byte>) | Drained | Retry | Stop

  /** The datagrams due for one packet: its encoding and, when duplicating,
      the second copy right after it. A packet that cannot be encoded, or whose
      encoding does not fit a slot, yields none. */
  function FramesOf(c: BlockCipher, cfg: Config, packet: seq<byte>): seq<Datagram> {
    if cfg.sr.Some? then
      var w := EncodeUplinkSr(c, packet, cfg.keys, cfg.sid, cfg.token, cfg.sr.value);
      if w.Err? || |w.value| > 9216 then [] else if cfg.duplicate then [w.value, w.value] else [w.value]
    else
      var f := EncodeUplink(c, packet, 9208, cfg.keys, cfg.sid, cfg.token);
      if f.Err? then []
      else [f.value.header + f.value.payload] + if cfg.duplicate then [DupHeader(f.value.header) + f.value.payload]
        else []
  }

  function DupHeader(header: seq<byte>): seq<byte> {
    if header == [] then [] else header[0 := DupType(header[0])]
  }

  /** The datagrams due for all packets read before the device failed. */
  function AllFrames(c: BlockCipher, cfg: Config, inputs: seq<Read>): seq<Datagram> {
    if inputs == [] then []
    else
      var front, final := inputs[..|inputs| - 1], inputs[|inputs| - 1];
      AllFrames(c, cfg, front) + if final.Got? && Stop !in front then FramesOf(c, cfg, final.packet) else []
  }

  function Flat(batches: seq<seq<Datagram>>): seq<Datagram> {
    if batches == [] then [] else Flat(batches[..|batches| - 1]) + batches[|batches| - 1]
  }

  /** The kernel's answers to the f-th flush, of n datagrams. */
  type Kernel = (nat, nat) -> seq<SendResult>

  ghost predicate Responsive(kernel: Kernel) {
    forall f: nat, n: nat :: Finishes(kernel(f, n), n)
  }

  /** What gets out: of each batch the part the kernel took. */
  ghost function Delivered(kernel: Kernel, batches: seq<seq<Datagram>>): seq<Datagram>
    requires Responsive(kernel)
  {
    if batches == [] then []
    else
      var f, last := |batches| - 1, batches[|batches| - 1];
      Delivered(kernel, batches[..f]) + last[..Taken(kernel(f, |last|), |last|)]
  }

  /** Reads one packet into the next slot, encodes it there and queues it. With
      duplication on, an even count leaves room for both copies. */
  method UploadOne(c: BlockCipher, batch: UploadBatch, cfg: Config, packet: seq<byte>)
    requires Lawful(c) && batch.Valid() && batch.count < 64 && 0 < |packet| <= 9208
    requires cfg.duplicate ==> batch.count % 2 == 0
    modifies batch`count, batch`frames, batch.slots, batch.iov
    ensures batch.Valid() && batch.frames == old(batch.frames) + FramesOf(c, cfg, packet)
    ensures cfg.duplicate ==> batch.count % 2 == 0
  {
    hide Lawful, EncodeUplink, EncodeUplinkSr;
    batch.Receive(packet);
    var base := batch.Base() + 8;
    if cfg.sr.Some? {
      var wire := EncodeUplinkSrPacket(c, batch.slots[base..base + |packet|], cfg.keys, cfg.sid, cfg.token,
                                       cfg.sr.value);
      if wire.Ok? {
        batch.QueuePacket(wire.value);
        if cfg.duplicate {
          batch.QueuePacket(wire.value);
        }
      }
      return;
    }
    UploadPlain(c, batch, cfg, packet, |packet|);
  }

  method UploadPlain(c: BlockCipher, batch: UploadBatch, cfg: Config, ghost packet: seq<byte>, len: nat)
    requires Lawful(c) && batch.Valid() && batch.count < 64 && 0 < len == |packet| <= 9208 && cfg.sr.None?
    requires batch.slots[batch.Base() + 8..batch.Base() + 8 + len] == packet
    requires cfg.duplicate ==> batch.count % 2 == 0
    modifies batch`count, batch`frames, batch.slots, batch.iov
    ensures batch.Valid() && batch.frames == old(batch.frames) + FramesOf(c, cfg, packet)
    ensures cfg.duplicate ==> batch.count % 2 == 0
  {
    hide Lawful, EncodeUplink;
    var base := batch.Base() + 8;
    var r := EncodeUplinkSlot(c, batch.slots, base, base + 9208, len, cfg.keys, cfg.sid, cfg.token);
    assert batch.Valid() by {
      forall i | 0 <= i < batch.count ensures batch.Holds(i, batch.frames[i]) {
        assert old(batch.Holds(i, batch.frames[i]));
      }
    }
    if r.Err? {
      return;
    }
    HeaderLength(c, packet, cfg);
    var (header, wireLen) := r.value;
    batch.Queue(header, wireLen);
    if cfg.duplicate {
      batch.QueueDuplicate(DupHeader(header), wireLen);
    }
  }

  lemma HeaderLength(c: BlockCipher, packet: seq<byte>, cfg: Config)
    ensures var f := EncodeUplink(c, packet, 9208, cfg.keys, cfg.sid, cfg.token); f.Ok? ==> |f.value.header| == 8
  {
  }

  /** The upload loop: it returns the batches it flushed. Together they are the
      datagrams due for the packets read, in order, none skipped; and what went
      out is, of each batch, the part the kernel took. */
  method Pump(c: BlockCipher, batch: UploadBatch, cfg: Config, inputs: seq<Read>, kernel: Kernel)
    returns (ghost batches: seq<seq<Datagram>>)
    requires Lawful(c) && Responsive(kernel)
    requires batch.Valid() && batch.frames == [] && batch.wire == []
    requires forall i | 0 <= i < |inputs| :: inputs[i].Got? ==> 0 < |inputs[i].packet| <= 9208
    modifies batch`count, batch`frames, batch`wire, batch.slots, batch.iov
    ensures Flat(batches) == AllFrames(c, cfg, inputs)
    ensures batch.wire == Delivered(kernel, batches)
    ensures forall i | 0 <= i < |batches| :: |batches[i]| <= 64
  {
    hide Lawful, FramesOf, Flat, Delivered, AllFrames, Responsive;
    NothingYet(c, cfg, kernel, inputs[..0]);
    batches := [];
    var flushes, i, running := 0, 0, true;
    while i < |inputs| && running
      invariant i <= |inputs| && batch.Valid() && batch.count < 64
      invariant cfg.duplicate ==> batch.count % 2 == 0
      invariant flushes == |batches| && forall k | 0 <= k < |batches| :: |batches[k]| <= 64
      invariant Flat(batches) + batch.frames == AllFrames(c, cfg, inputs[..i])
      invariant batch.wire == Delivered(kernel, batches)
      invariant running <==> Stop !in inputs[..i]
    {
      var input := inputs[i];
      NextFrames(c, cfg, inputs, i);
      i := i + 1;
      match input {
        case Got(packet) =>
          flushes, batches := UploadNext(c, batch, cfg, packet, kernel, flushes, batches);
        case Drained =>
          batches := FlushOne(batch, kernel, flushes, batches);
          flushes := flushes + 1;
        case Retry =>
        case Stop =>
          running := false;
      }
    }
    StoppedFrames(c, cfg, inputs, i);
    batches := FlushOne(batch, kernel, flushes, batches);
  }

  /** One packet read: its datagrams are queued, and a full batch is flushed. */
  method UploadNext(c: BlockCipher, batch: UploadBatch, cfg: Config, packet: seq<byte>, kernel: Kernel, f: nat,
                    ghost batches: seq<seq<Datagram>>)
    returns (flushes: nat, ghost batches': seq<seq<Datagram>>)
    requires Lawful(c) && Responsive(kernel) && 0 < |packet| <= 9208
    requires batch.Valid() && batch.count < 64 && (cfg.duplicate ==> batch.count % 2 == 0)
    requires f == |batches| && batch.wire == Delivered(kernel, batches)
    modifies batch`count, batch`frames, batch`wire, batch.slots, batch.iov
    ensures batch.Valid() && batch.count < 64 && (cfg.duplicate ==> batch.count % 2 == 0)
    ensures flushes == |batches'| && batch.wire == Delivered(kernel, batches')
    ensures batches' == batches || exists last :: |last| <= 64 && batches' == batches + [last]
    ensures Flat(batches') + batch.frames == Flat(batches) + old(batch.frames) + FramesOf(c, cfg, packet)
  {
    hide Lawful, FramesOf, Flat, Delivered, Responsive;
    flushes, batches' := f, batches;
    UploadOne(c, batch, cfg, packet);
    var full := batch.IsFull();
    if full {
      batches' := FlushOne(batch, kernel, flushes, batches);
      flushes := flushes + 1;
    }
  }

  lemma NothingYet(c: BlockCipher, cfg: Config, kernel: Kernel, none: seq<Read>)
    requires Responsive(kernel) && none == []
    ensures Flat([]) == [] && Delivered(kernel, []) == [] && AllFrames(c, cfg, none) == []
  {
  }

  lemma NextFrames(c: BlockCipher, cfg: Config, inputs: seq<Read>, i: nat)
    requires i < |inputs|
    ensures AllFrames(c, cfg, inputs[..i + 1]) == AllFrames(c, cfg, inputs[..i])
              + if inputs[i].Got? && Stop !in inputs[..i] then FramesOf(c, cfg, inputs[i].packet) else []
    ensures Stop in inputs[..i + 1] <==> Stop in inputs[..i] || inputs[i].Stop?
  {
    assert inputs[..i + 1] == inputs[..i] + [inputs[i]];
    assert inputs[..i + 1][..i] == inputs[..i];
  }

  /** Nothing is due for what would have been read after the device failed. */
  lemma {:induction false} StoppedFrames(c: BlockCipher, cfg: Config, inputs: seq<Read>, i: nat)
    requires i <= |inputs| && (i < |inputs| ==> Stop in inputs[..i])
    ensures AllFrames(c, cfg, inputs) == AllFrames(c, cfg, inputs[..i])
    decreases |inputs| - i
  {
    if i == |inputs| {
      assert inputs[..i] == inputs;
    } else {
      assert inputs[..i + 1][..i] == inputs[..i];
      assert Stop in inputs[..i + 1] by {
        var k :| 0 <= k < i && inputs[..i][k] == Stop;
        assert inputs[..i + 1][k] == Stop;
      }
      StoppedFrames(c, cfg, inputs, i + 1);
    }
  }

  method FlushOne(batch: UploadBatch, kernel: Kernel, f: nat, ghost batches: seq<seq<Datagram>>)
    returns (ghost batches': seq<seq<Datagram>>)
    requires Responsive(kernel) && batch.Valid() && f == |batches|
    requires batch.wire == Delivered(kernel, batches)
    modifies batch`count, batch`frames, batch`wire
    ensures batch.Valid() && batch.count == 0 && batch.frames == []
    ensures batches' == batches + [old(batch.frames)] && |old(batch.frames)| <= 64
    ensures Flat(batches') == Flat(batches) + old(batch.frames)
    ensures batch.wire == Delivered(kernel, batches')
  {
    batches' := batches + [batch.frames];
    assert batches'[..|batches|] == batches;
    batch.Flush(kernel(f, batch.count));
  }

  // -------------------------------------------------- what the datagrams are

  /** A packet goes up as one datagram, in the form its version and the mode
      call for, or as two when duplicating: the second differs from the first
      in its first byte alone, 0x19 for 0x14 and 0x20 for 0x18. */
  lemma FramesOnWire(c: BlockCipher, cfg: Config, packet: seq<byte>)
    requires Lawful(c) && KeySize(cfg.keys.aesKey) && IsIp(packet) && cfg.keys.enc <= 2 && cfg.sr.None?
    requires |packet| + UplinkPad(packet, cfg.keys) <= 9208
    ensures var due := FramesOf(c, cfg, packet);
            && |due| == (if cfg.duplicate then 2 else 1) && |due[0]| >= 8
            && due[0][1] == (if Version(packet) == 6 then 0 else cfg.keys.enc)
            && due[0][2..8] == BE16(cfg.sid) + BE32(cfg.token)
            && Travels(c, cfg.keys, packet, due[0][0], due[0][8..])
            && (cfg.duplicate ==>
                  && |due[1]| == |due[0]| && due[1][1..] == due[0][1..]
                  && due[1][0] == if due[0][0] == 0x14 then 0x19 else if due[0][0] == 0x18 then 0x20 else due[0][0])
  {
    UplinkOnWire(c, packet, 9208, cfg.keys, cfg.sid, cfg.token);
    hide EncodeUplink, Travels, Lawful, KeySize, BE16, BE32;
    var f := EncodeUplink(c, packet, 9208, cfg.keys, cfg.sid, cfg.token).value;
    var first := f.header + f.payload;
    assert first[8..] == f.payload && first[..8] == f.header && first[2..8] == f.header[2..];
    if cfg.duplicate {
      assert (DupHeader(f.header) + f.payload)[1..] == f.header[1..] + f.payload == first[1..];
    }
  }

  /** Over segment routing the second copy is the first; only a datagram too
      long for a slot is not sent. */
  lemma SrFramesOnWire(c: BlockCipher, cfg: Config, packet: seq<byte>)
    requires Lawful(c) && KeySize(cfg.keys.aesKey) && IsIp(packet) && cfg.keys.enc <= 2
    requires cfg.sr.Some? && cfg.sr.value.links != []
    ensures var n, wire := |cfg.sr.value.links|, EncodeUplinkSr(c, packet, cfg.keys, cfg.sid, cfg.token, cfg.sr.value);
            && wire.Ok?
            && SrWire(c, cfg.sr.value, cfg.keys, packet, (if n < 6 then n else 6) - 1,
                      if Version(packet) == 6 then 0 else cfg.keys.enc, cfg.sid, cfg.token, wire.value)
            && FramesOf(c, cfg, packet)
               == if |wire.value| > 9216 then [] else if cfg.duplicate then [wire.value, wire.value] else [wire.value]
  {
    UplinkSrOnWire(c, packet, cfg.keys, cfg.sid, cfg.token, cfg.sr.value);
    hide EncodeUplinkSr, SrWire, Lawful, KeySize;
  }

  // ------------------------------------------------------- what gets through

  /** Places in the queued sequence of the datagrams that got out. */
  ghost predicate Embeds(out: seq<Datagram>, all: seq<Datagram>, places: seq<nat>) {
    && |places| == |out|
    && (forall i | 0 <= i < |places| :: places[i] < |all| && all[places[i]] == out[i])
    && forall i, j | 0 <= i < j < |places| :: places[i] < places[j]
  }

  /** What goes out is in the order queued and each queued datagram goes out at
      most once, whatever the kernel refuses. */
  lemma {:induction false} DeliveredInOrder(kernel: Kernel, batches: seq<seq<Datagram>>) returns (places: seq<nat>)
    requires Responsive(kernel)
    ensures Embeds(Delivered(kernel, batches), Flat(batches), places)
  {
    places := [];
    if batches != [] {
      var f, last := |batches| - 1, batches[|batches| - 1];
      var front := DeliveredInOrder(kernel, batches[..f]);
      hide Embeds, Flat, Delivered, Taken;
      places := EmbedsMore(Delivered(kernel, batches[..f]), Flat(batches[..f]), front, last,
                           Taken(kernel(f, |last|), |last|));
      UnfoldLast(kernel, batches);
    }
  }

  lemma UnfoldLast(kernel: Kernel, batches: seq<seq<Datagram>>)
    requires Responsive(kernel) && batches != []
    ensures var f, last := |batches| - 1, batches[|batches| - 1];
            && Delivered(kernel, batches) == Delivered(kernel, batches[..f]) + last[..Taken(kernel(f, |last|), |last|)]
            && Flat(batches) == Flat(batches[..f]) + last
  {
  }

  lemma EmbedsMore(out: seq<Datagram>, all: seq<Datagram>, places: seq<nat>, last: seq<Datagram>, taken: nat)
    returns (more: seq<nat>)
    requires Embeds(out, all, places) && taken <= |last|
    ensures Embeds(out + last[..taken], all + last, more)
  {
    more := places + seq(taken, i requires 0 <= i < taken => |all| + i);
  }

  /** A kernel that takes everything loses and repeats nothing. */
  lemma {:induction false} DeliveredInFull(kernel: Kernel, batches: seq<seq<Datagram>>)
    requires Responsive(kernel)
    requires forall f: nat, n: nat :: Taken(kernel(f, n), n) == n
    ensures Delivered(kernel, batches) == Flat(batches)
  {
    if batches != [] {
      var f, last := |batches| - 1, batches[|batches| - 1];
      DeliveredInFull(kernel, batches[..f]);
      assert last[..|last|] == last;
    }
  }
}
