/** What the local proxy hands on (src/core/local_proxy/flow.rs and
    connections.rs): when the client, the TCP stack and the peer do their part,
    one tick moves everything that waits, in both directions. */
module ProxyProgress {
  import opened Bytes
  import opened Wrappers
  import opened ProxySteps
  import opened ProxyFlow
  import opened ProxyEngine
  import opened HttpForward

  // ------------------------------------------------ client to TCP socket

  /** The send buffer has room for what waits and takes all it is given. */
  predicate TakesAll(f: Flow, io: PumpIo) {
    |f.input| <= io.room && |f.input| <= io.sent && 16384 <= io.sentNew
  }

  /** What a read gives: at most 16384 bytes, and at most the room left. */
  function BytesRead(io: PumpIo): seq<byte> {
    if io.read.Data? then io.read.bytes[..Min(|io.read.bytes|, Min(16384, io.roomLeft))] else []
  }

  /** The read says that the client's stream has ended. */
  predicate SaysEnd(io: PumpIo) {
    io.roomLeft > 0 && (io.read.Eof? || io.read == Data([]))
  }

  /** A socket that takes what it is given gets what waited and what was read,
      and the end of the client's stream after it; nothing is left waiting, and
      nothing changes towards the client. */
  lemma PumpSends(f: Flow, io: PumpIo)
    requires FlowInv(f) && f.state == Established && !f.localEof && TakesAll(f, io)
    ensures var g, failed := Pump(f, io).0, io.roomLeft > 0 && io.read.ReadFailed?;
            && !Pump(f, io).1 && g.input == [] && f.socket.Some? && g.socket.Some?
            && g.socket.value.accepted == f.socket.value.accepted + f.input + BytesRead(io)
            && g.fromClient == f.fromClient + BytesRead(io) && g.consumed == f.consumed && g.lead == f.lead
            && (g.clientEnded <==> SaysEnd(io)) && (g.localEof <==> SaysEnd(io) || failed)
            && g.state == (if g.localEof then Closing else Established)
            && (f.socket.value.state.TcpEstablished? && SaysEnd(io) ==> g.socket.value.state.TcpFinWait1?)
            && (!g.localEof ==> g.socket.value.state == f.socket.value.state)
            && g.socket.value.received == f.socket.value.received && g.socket.value.taken == f.socket.value.taken
            && g.toClient == f.toClient && g.output == f.output && g.peerEnded == f.peerEnded
  {
    hide FlowInv, Backlog, ReadClient;
    BacklogSent(f, io);
    ReadSent(Backlog(f, io), io);
    assert Pump(f, io) == ReadClient(Backlog(f, io), io);
  }

  lemma ReadSent(f: Flow, io: PumpIo)
    requires f.socket.Some? && f.state == Established && f.input == [] && 16384 <= io.sentNew
    ensures var (g, more) := ReadClient(f, io);
            && !more
            && if io.roomLeft > 0 && io.read.ReadFailed? then g == ClientError(f)
            else if SaysEnd(io) then g == ClientEnd(f)
            else g == f.(fromClient := f.fromClient + BytesRead(io),
                         socket := Some(f.socket.value.(accepted := f.socket.value.accepted + BytesRead(io))))
  {
    var data := BytesRead(io);
    assert f.input + data == data && data[..|data|] == data && data[|data|..] == [];
    var h := f.(fromClient := f.fromClient + data,
                socket := Some(f.socket.value.(accepted := f.socket.value.accepted + data)));
    if data == [] {
      assert f.fromClient + data == f.fromClient && f.socket.value.accepted + data == f.socket.value.accepted;
      assert h == f;
      assert io.read.Data? && io.roomLeft > 0 ==> io.read == Data([]);
    } else {
      assert h == Hand(f.(input := data, fromClient := f.fromClient + data), |data|);
    }
  }

  lemma BacklogSent(f: Flow, io: PumpIo)
    requires FlowInv(f) && f.state == Established && TakesAll(f, io)
    ensures f.socket.Some? && !f.clientEnded && !f.peerEnded
    ensures Backlog(f, io)
         == f.(input := [], socket := Some(f.socket.value.(accepted := f.socket.value.accepted + f.input)))
  {
    assert f.input[..|f.input|] == f.input;
    if f.input == [] {
      assert f.socket.value.accepted + f.input == f.socket.value.accepted;
    }
  }

  // ------------------------------------------------ TCP socket to client

  /** Every read of the socket gives something, and there are enough of them. */
  predicate GivesAll(recvs: seq<nat>, n: nat) {
    |recvs| >= n && forall i | 0 <= i < |recvs| :: recvs[i] > 0
  }

  /** Every write takes something, and there are enough of them. */
  predicate WritesAll(writes: seq<WriteResult>, n: nat) {
    |writes| >= n && forall i | 0 <= i < |writes| :: writes[i].Wrote? && writes[i].n > 0
  }

  /** How many of the peer's bytes are due: those received and not yet taken, as
      far as the write limit allows. */
  function Due(f: Flow): (m: nat)
    requires f.socket.Some? ==> f.socket.value.taken <= |f.socket.value.received|
  {
    if f.socket.None? || |f.output| >= 262144 then 0
    else Min(|f.socket.value.received| - f.socket.value.taken, 262144 - |f.output|)
  }

  lemma {:induction false} DrainTakes(f: Flow, recvs: seq<nat>)
    requires f.socket.Some? && f.socket.value.taken <= |f.socket.value.received| && GivesAll(recvs, Due(f))
    ensures Drain(f, recvs) == Take(f, Due(f))
    decreases |recvs|
  {
    hide Drain, Take;
    var m := Due(f);
    if m == 0 {
      DrainNothing(f, recvs);
    } else {
      var n := FirstRead(f, recvs);
      TakenDue(f, n);
      DrainTakes(Take(f, n), recvs[1..]);
      TakeTwice(f, n, m - n);
    }
  }

  lemma DrainNothing(f: Flow, recvs: seq<nat>)
    requires f.socket.Some? && f.socket.value.taken <= |f.socket.value.received| && Due(f) == 0
    ensures Drain(f, recvs) == f == Take(f, 0)
  {
    assert f.output + f.socket.value.received[f.socket.value.taken..f.socket.value.taken] == f.output;
  }

  lemma FirstRead(f: Flow, recvs: seq<nat>) returns (n: nat)
    requires f.socket.Some? && f.socket.value.taken <= |f.socket.value.received| && Due(f) > 0
    requires recvs != [] && recvs[0] > 0
    ensures 0 < n <= Due(f) && Drain(f, recvs) == Drain(Take(f, n), recvs[1..])
  {
    n := Min(recvs[0], Min(Min(16384, 262144 - |f.output|), |f.socket.value.received| - f.socket.value.taken));
  }

  lemma TakenDue(f: Flow, n: nat)
    requires f.socket.Some? && f.socket.value.taken <= |f.socket.value.received| && n <= Due(f)
    ensures var g := Take(f, n);
            Due(g) == Due(f) - n && g.socket.Some? && g.socket.value.taken <= |g.socket.value.received|
  {
  }

  lemma TakeTwice(f: Flow, n: nat, k: nat)
    requires f.socket.Some? && f.socket.value.taken + n + k <= |f.socket.value.received|
    ensures Take(Take(f, n), k) == Take(f, n + k)
  {
    var s := f.socket.value;
    assert f.output + s.received[s.taken..s.taken + n] + s.received[s.taken + n..s.taken + n + k]
        == f.output + s.received[s.taken..s.taken + n + k];
  }

  lemma MoreWrites(writes: seq<WriteResult>, n: nat, k: nat)
    requires WritesAll(writes, n) && 1 <= k <= n
    ensures WritesAll(writes[1..], n - k)
  {
  }

  lemma {:induction false} WriteOutAll(f: Flow, writes: seq<WriteResult>)
    requires WritesAll(writes, |f.output|)
    ensures WriteOut(f, writes) == f.(toClient := f.toClient + f.output, output := [])
    decreases |writes|
  {
    if f.output != [] {
      var k := Min(writes[0].n, |f.output|);
      hide WritesAll;
      assert WritesAll(writes[1..], |f.output| - k) by { MoreWrites(writes, |f.output|, k); }
      WriteOutAll(f.(toClient := f.toClient + f.output[..k], output := f.output[k..]), writes[1..]);
      assert f.toClient + f.output[..k] + f.output[k..] == f.toClient + f.output;
    } else {
      assert f.toClient + [] == f.toClient;
    }
  }

  /** A client that takes what it is given gets what waited and then the peer's
      bytes, up to the write limit, and the end of the peer's stream after the
      last of them; nothing changes towards the peer. */
  lemma ServeDelivers(f: Flow, recvs: seq<nat>, writes: seq<WriteResult>)
    requires f.socket.Some? && f.socket.value.taken <= |f.socket.value.received|
    requires GivesAll(recvs, Due(f)) && WritesAll(writes, |f.output| + Due(f))
    ensures var g, s, m := Serve(f, recvs, writes), f.socket.value, Due(f);
            && g.output == [] && g.toClient == f.toClient + f.output + s.received[s.taken..s.taken + m]
            && g.socket.Some? && g.socket.value.taken == s.taken + m && g.socket.value.received == s.received
            && g.socket.value.accepted == s.accepted && g.input == f.input && g.fromClient == f.fromClient
            && g.consumed == f.consumed && g.lead == f.lead
            && (if s.state.TcpCloseWait? && s.taken + m == |s.received|
                then g.peerEnded && g.state == Closing && g.socket.value.state.TcpLastAck?
                else g.peerEnded == f.peerEnded && g.state == f.state && g.socket.value.state == s.state)
  {
    hide Drain, WriteOut, GivesAll, WritesAll;
    AllHanded(f, recvs, writes);
    assert Serve(f, recvs, writes) == PeerEnd(WriteOut(Drain(f, recvs), writes));
  }

  lemma AllHanded(f: Flow, recvs: seq<nat>, writes: seq<WriteResult>)
    requires f.socket.Some? && f.socket.value.taken <= |f.socket.value.received|
    requires GivesAll(recvs, Due(f)) && WritesAll(writes, |f.output| + Due(f))
    ensures var s, m := f.socket.value, Due(f);
            WriteOut(Drain(f, recvs), writes)
            == f.(output := [], toClient := f.toClient + f.output + s.received[s.taken..s.taken + m],
                  socket := Some(s.(taken := s.taken + m)))
  {
    hide Drain, WriteOut, GivesAll, WritesAll;
    DrainTakes(f, recvs);
    WriteOutAll(Take(f, Due(f)), writes);
    var s := f.socket.value;
    assert f.toClient + (f.output + s.received[s.taken..s.taken + Due(f)])
        == f.toClient + f.output + s.received[s.taken..s.taken + Due(f)];
  }

  /** The proxy's own replies reach a client whose flow has no socket. */
  lemma RepliesDelivered(f: Flow, recvs: seq<nat>, writes: seq<WriteResult>)
    requires f.socket.None? && WritesAll(writes, |f.output|)
    ensures Serve(f, recvs, writes) == f.(toClient := f.toClient + f.output, output := [])
  {
    hide WriteOut;
    WriteOutAll(f, writes);
  }

  // ------------------------------------------------------ one whole tick

  lemma OpenTcpElsewhere(e: Engine, other: nat, ok: bool, id: nat)
    requires id in e.flows && other in e.flows && other != id
    ensures id in OpenTcp(e, other, ok).flows && OpenTcp(e, other, ok).flows[id] == e.flows[id]
  {
    hide FreePort, QueueError, Connected;
  }

  lemma InputElsewhere(e: Engine, setup: Setup, v: Visit, id: nat)
    requires id in e.flows && v.id != id
    ensures id in Input(e, setup, v).flows && Input(e, setup, v).flows[id] == e.flows[id]
  {
    hide Pump, Process, OpenTcp;
    if v.id in e.flows {
      var (h, wish) := Process(setup.lib, Pump(e.flows[v.id], v.io).0);
      OpenTcpElsewhere(Set(e, v.id, h), v.id, v.ok, id);
    }
  }

  lemma {:induction false} InputsElsewhere(e: Engine, setup: Setup, visits: seq<Visit>, id: nat)
    requires id in e.flows && forall v | v in visits :: v.id != id
    ensures id in Inputs(e, setup, visits).flows && Inputs(e, setup, visits).flows[id] == e.flows[id]
  {
    hide Input;
    if visits != [] {
      InputsElsewhere(e, setup, visits[..|visits| - 1], id);
      InputElsewhere(Inputs(e, setup, visits[..|visits| - 1]), setup, visits[|visits| - 1], id);
    }
  }

  lemma {:induction false} InputsJoined(e: Engine, setup: Setup, front: seq<Visit>, back: seq<Visit>)
    ensures Inputs(e, setup, front + back) == Inputs(Inputs(e, setup, front), setup, back)
  {
    hide Input;
    if back == [] {
      assert front + back == front;
    } else {
      var n := |back| - 1;
      assert (front + back)[..|front + back| - 1] == front + back[..n];
      InputsJoined(e, setup, front, back[..n]);
    }
  }

  lemma {:induction false} ResolvedElsewhere(e: Engine, answers: seq<Answer>, id: nat)
    requires id in e.flows && e.flows[id].state != Resolving
    ensures id in AllResolved(e, answers).flows && AllResolved(e, answers).flows[id] == e.flows[id]
  {
    if answers != [] {
      ResolvedElsewhere(e, answers[..|answers| - 1], id);
      hide OpenTcp, QueueError;
      var g, a := AllResolved(e, answers[..|answers| - 1]), answers[|answers| - 1];
      if a.id != id && a.id in g.flows { OpenTcpElsewhere(g, a.id, a.ok, id); }
    }
  }

  lemma {:induction false} AcceptsElsewhere(e: Engine, setup: Setup, n: nat, id: nat)
    requires EngineInv(e) && e.born + n < 0x1_0000_0000_0000_0000 && id in e.flows
    ensures id in Accepts(e, setup, n).flows && Accepts(e, setup, n).flows[id] == e.flows[id]
  {
    hide EngineInv, NewFlow;
    if n > 0 {
      AcceptsElsewhere(e, setup, n - 1, id);
      AcceptsKeep(e, setup, n - 1);
      NewId(Accepts(e, setup, n - 1));
    }
  }

  lemma NewId(e: Engine)
    requires EngineInv(e) && e.born + 1 < 0x1_0000_0000_0000_0000
    ensures e.nextFlow !in e.flows
  {
    hide FlowsKept, PortsKept;
  }

  /** The tick visits the flow once, whatever else it does. */
  ghost predicate VisitedOnce(t: Tick, id: nat, v: Visit) {
    && v.id == id
    && exists front, back :: t.visits == front + [v] + back && (forall u | u in front :: u.id != id)
                             && forall u | u in back :: u.id != id
  }

  lemma VisitedBefore(e: Engine, setup: Setup, t: Tick, id: nat, v: Visit)
    requires EngineInv(e) && e.born + t.accepts < 0x1_0000_0000_0000_0000 && id in e.flows
    requires VisitedOnce(t, id, v) && !Pump(e.flows[id], v.io).1 && Pump(e.flows[id], v.io).0.state != Resolving
    ensures id in BeforePoll(e, setup, t).flows
    ensures BeforePoll(e, setup, t).flows[id] == Pump(e.flows[id], v.io).0
  {
    hide EngineInv, Pump, Process, OpenTcp, Accepts, Resolved;
    var front, back :| t.visits == front + [v] + back && (forall u | u in front :: u.id != id)
                       && forall u | u in back :: u.id != id;
    var a := Accepts(e, setup, t.accepts);
    AcceptsElsewhere(e, setup, t.accepts, id);
    var b := Inputs(a, setup, front);
    InputsElsewhere(a, setup, front, id);
    InputsJoined(a, setup, front, [v]);
    InputsJoined(a, setup, front + [v], back);
    OneInput(b, setup, v);
    var c := Input(b, setup, v);
    InputsElsewhere(c, setup, back, id);
    ResolvedElsewhere(Inputs(c, setup, back), t.answers, id);
  }

  lemma OneInput(e: Engine, setup: Setup, v: Visit)
    ensures Inputs(e, setup, [v]) == Input(e, setup, v)
  {
    assert [v][..0] == [];
    assert Inputs(e, setup, []) == e;
  }

  lemma ServedAfter(e: Engine, setup: Setup, t: Tick, id: nat)
    requires id in e.flows && e.flows[id].state != Connecting && e.flows[id].socket.Some?
    requires id in t.sockets && id in t.ios
    ensures var g := Serve(e.flows[id].(socket := Some(t.sockets[id])), t.ios[id].recvs, t.ios[id].writes);
            && (id in AfterPoll(e, setup, t).flows <==> !Removable(g))
            && (id in AfterPoll(e, setup, t).flows ==> AfterPoll(e, setup, t).flows[id] == g)
  {
    hide Serve, Removable;
  }

  /** An open flow's tick in which its surroundings do their part: one visit that
      takes all that waits, reads that give something and writes that take
      something, and enough of both. */
  ghost predicate Cooperative(e: Engine, t: Tick, id: nat, v: Visit) {
    && id in e.flows && e.flows[id].state == Established && !e.flows[id].localEof
    && VisitedOnce(t, id, v) && TakesAll(e.flows[id], v.io) && id in t.sockets && id in t.ios
    && var n := |t.sockets[id].received|;
       GivesAll(t.ios[id].recvs, n) && WritesAll(t.ios[id].writes, |e.flows[id].output| + n)
  }

  /** One tick in which the send buffer, the client and the socket do their part
      leaves nothing waiting either way: the peer's socket has the rewritten
      head and every byte the client has sent after its handshake, and the
      client all that was queued for it and then the peer's bytes, up to the
      write limit, whatever the tick does with other flows. The flow stays
      unless its socket is closed. */
  lemma TickRelays(e: Engine, setup: Setup, t: Tick, id: nat, v: Visit)
    requires EngineInv(e) && e.born + t.accepts < 0x1_0000_0000_0000_0000 && Possible(e, setup, t)
    requires Cooperative(e, t, id, v)
    ensures !t.sockets[id].state.TcpClosed? ==> id in TickStep(e, setup, t).flows
    ensures id in TickStep(e, setup, t).flows ==>
              Relayed(e.flows[id], TickStep(e, setup, t).flows[id], BytesRead(v.io), t.sockets[id])
  {
    hide EngineInv, FlowInv, Pump, Serve, AfterPoll, NetStep, VisitedOnce, BytesRead;
    var f := e.flows[id];
    FlowOf(e, id);
    PumpSends(f, v.io);
    PumpKeeps(f, v.io);
    VisitedBefore(e, setup, t, id, v);
    var g, s := Pump(f, v.io).0, t.sockets[id];
    ServedAfter(BeforePoll(e, setup, t), setup, t, id);
    hide BeforePoll;
    PolledStreams(g, s);
    var p := g.(socket := Some(s));
    ServeDelivers(p, t.ios[id].recvs, t.ios[id].writes);
    OpenStays(Serve(p, t.ios[id].recvs, t.ios[id].writes));
  }

  lemma OpenStays(f: Flow)
    ensures f.socket.Some? && !f.socket.value.state.TcpClosed? ==> !Removable(f)
  {
  }

  /** All that was waiting has been handed on, with the bytes just read and, as
      far as the write limit allows, those the socket has received. */
  ghost predicate Relayed(f: Flow, g: Flow, read: seq<byte>, s: Socket) {
    && f.socket.Some? && f.socket.value.taken <= |s.received|
    && var taken, room := f.socket.value.taken, if |f.output| < 262144 then 262144 - |f.output| else 0;
       var m := Min(|s.received| - taken, room);
       && g.input == [] && g.output == [] && g.fromClient == f.fromClient + read
       && g.consumed <= |g.fromClient| && Upstream(g) == g.lead + g.fromClient[g.consumed..]
       && g.toClient == f.toClient + f.output + s.received[taken..taken + m]
       && (s.state.TcpCloseWait? && taken + m == |s.received| ==> g.peerEnded)
  }

  lemma PolledStreams(g: Flow, s: Socket)
    requires FlowInv(g) && g.socket.Some? && NetStep(g.socket.value, s) && g.input == []
    ensures s.accepted == g.lead + g.fromClient[g.consumed..] && g.consumed <= |g.fromClient|
    ensures s.taken == g.socket.value.taken <= |s.received|
  {
    assert Upstream(g) + [] == Upstream(g);
  }

  /** At any moment of any run, the next tick in which the surroundings do their
      part hands on all that waits for the flow. */
  lemma RunRelays(setup: Setup, ticks: seq<Tick>, t: Tick, id: nat, v: Visit)
    requires AllPossible(setup, ticks + [t]) && Clients(ticks + [t]) < 0x1_0000_0000_0000_0000
    requires Cooperative(After(setup, ticks), t, id, v)
    ensures var e, g := After(setup, ticks), After(setup, ticks + [t]);
            && id in e.flows && id in t.sockets
            && (!t.sockets[id].state.TcpClosed? ==> id in g.flows)
            && (id in g.flows ==> Relayed(e.flows[id], g.flows[id], BytesRead(v.io), t.sockets[id]))
  {
    RunNext(setup, ticks, t);
    CooperativeFlow(After(setup, ticks), t, id, v);
    hide After, AllPossible, Clients, TickStep, Possible, EngineInv, Relayed, Cooperative, BytesRead;
    TickRelays(After(setup, ticks), setup, t, id, v);
  }

  lemma CooperativeFlow(e: Engine, t: Tick, id: nat, v: Visit)
    requires Cooperative(e, t, id, v)
    ensures id in e.flows && id in t.sockets
  {
  }

  lemma RunNext(setup: Setup, ticks: seq<Tick>, t: Tick)
    requires AllPossible(setup, ticks + [t]) && Clients(ticks + [t]) < 0x1_0000_0000_0000_0000
    ensures var e := After(setup, ticks);
            && EngineInv(e) && e.born + t.accepts < 0x1_0000_0000_0000_0000 && Possible(e, setup, t)
            && After(setup, ticks + [t]) == TickStep(e, setup, t)
  {
    hide TickStep, Possible, EngineInv;
    var all := ticks + [t];
    assert all[..|all| - 1] == ticks;
    RunInv(setup, ticks);
  }

  // -------------------------------------------------------- the handshake

  /** A greeting that offers no authentication is answered and used up; any
      other is refused. */
  lemma GreetingTaken(lib: Library, f: Flow, methods: seq<byte>, rest: seq<byte>)
    requires f.state == SocksGreeting && |methods| <= 255 && f.input == [5, |methods|] + methods + rest
    ensures Process(lib, f)
         == (if 0 in methods
             then f.(state := SocksRequest, input := rest, consumed := f.consumed + 2 + |methods|,
                     output := f.output + [5, 0], replies := f.replies + [5, 0])
             else f.(state := Closing, output := f.output + [5, 0xFF], replies := f.replies + [5, 0xFF],
                     outcomes := f.outcomes + [Failed]),
             Nothing)
  {
    GreetingUsedUp(methods, rest);
    assert f.input[2 + |methods|..] == rest && f.input[0..] == f.input;
    hide Greeting, Process;
    if 0 in methods {
      ReplyTaken(lib, f, [5, 0], 2 + |methods|, SocksRequest);
    } else {
      ReplyTaken(lib, f, [5, 0xFF], 0, Closing);
    }
  }

  lemma ReplyTaken(lib: Library, f: Flow, bytes: seq<byte>, n: nat, next: State)
    requires NextStep(lib, f) == Reply(bytes, n, next) && n <= |f.input|
    ensures Process(lib, f)
         == (f.(state := next, input := f.input[n..], consumed := f.consumed + n, output := f.output + bytes,
                replies := f.replies + bytes,
                outcomes := if next == Closing then f.outcomes + [Failed] else f.outcomes),
             Nothing)
  {
    hide NextStep;
    assert f.outcomes + [] == f.outcomes;
  }

  /** A request for an address, or for a name that is one, is used up and asks
      for that connection; any other name is resolved first, except that one
      with a colon in it is refused. */
  lemma RequestTaken(lib: Library, f: Flow, reserved: byte, target: Target, port: u16, rest: seq<byte>)
    requires f.state == SocksRequest && SocksTarget(target) && (target.Text? ==> lib.utf8(target.name))
    requires f.input == SocksEncoded(reserved, target, port) + rest
    ensures var n := |SocksEncoded(reserved, target, port)|;
            var left := f.(input := rest, consumed := f.consumed + n);
            var (g, wish) := Process(lib, f);
            match target
            case Address(ip) => g == left && wish == ConnectTo4(ip, port)
            case Text(name) =>
              if lib.ipv4(name).Some? then g == left && wish == ConnectTo4(lib.ipv4(name).value, port)
              else if 0x3A in name then
                && wish == Nothing && g.state == Closing && g.outcomes == f.outcomes + [Failed]
                && (f.protocol.Socks5? ==> g.output == f.output + [5, 8, 0, 1, 0, 0, 0, 0, 0, 0])
              else g == left.(state := Resolving) && wish == Resolve(name, port)
  {
    RequestAims(lib, f, reserved, target, port, rest);
    hide SocksEncoded, Process, QueueError;
    ColonRefused(f.(input := rest, consumed := f.consumed + |SocksEncoded(reserved, target, port)|));
  }

  lemma ColonRefused(f: Flow)
    ensures var g := QueueError(f, AddressNotSupported);
            && g.state == Closing && g.outcomes == f.outcomes + [Failed]
            && (f.protocol.Socks5? ==> g.output == f.output + [5, 8, 0, 1, 0, 0, 0, 0, 0, 0])
  {
  }

  lemma RequestAims(lib: Library, f: Flow, reserved: byte, target: Target, port: u16, rest: seq<byte>)
    requires f.state == SocksRequest && SocksTarget(target) && (target.Text? ==> lib.utf8(target.name))
    requires f.input == SocksEncoded(reserved, target, port) + rest
    ensures var n := |SocksEncoded(reserved, target, port)|;
            Process(lib, f) == Aim(lib, f.(input := rest, consumed := f.consumed + n), target, port)
  {
    SocksUsedUp(lib, reserved, target, port, rest);
    var request := SocksEncoded(reserved, target, port);
    assert f.input[|request|..] == rest;
    hide SocksConnect, SocksEncoded, Aim, Process;
    OpenProcessed(lib, f, target, port, |request|);
  }

  lemma OpenProcessed(lib: Library, f: Flow, target: Target, port: u16, n: nat)
    requires NextStep(lib, f) == Open(target, port, n, None, None) && n <= |f.input|
    ensures Process(lib, f) == Aim(lib, f.(input := f.input[n..], consumed := f.consumed + n), target, port)
  {
    hide NextStep, Aim;
  }

  /** A connection opens exactly when the stack agrees and some port from 49152
      up is free; otherwise the client is told of the failure. */
  lemma OpensIff(e: Engine, id: nat, ok: bool)
    requires id in e.flows
    ensures var f, g := e.flows[id], OpenTcp(e, id, ok).flows;
            && id in g
            && if ok && (exists p: u16 :: 49152 <= p && p !in e.ports)
               then g[id].state == Connecting && g[id].socket.Some? && g[id].opens == f.opens + 1
                    && g[id].port !in e.ports && g[id].port >= 49152
               else g[id].state == Closing && g[id].socket == f.socket && g[id].outcomes == f.outcomes + [Failed]
  {
    hide FreePort, ErrorReply;
    FreePortIsFirst(e.ports, e.nextPort);
  }

  /** What a flow that waits for its connection makes of its socket's state: the
      client of an open one is told so, except in a forwarded HTTP request, and
      the client of a refused or overdue one is told that. */
  lemma UpdateDecides(f: Flow, elapsed: bool, innerIp: u32)
    requires FlowInv(f) && f.state == Connecting
    ensures var g, s := Update(f, elapsed, innerIp), f.socket.value.state;
            var refused := s.TcpClosed? || s.TcpCloseWait? || s.TcpTimeWait?;
            if s.TcpEstablished? then
              && g.state == Established && g.outcomes == [Succeeded]
              && g.output == f.output
                             + (if f.protocol.Socks5? then [5, 0, 0, 1] + BE32(innerIp) + BE16(f.port)
                                else if f.mode == Some(ByConnect)
                                then Ascii("HTTP/1.1 200 Connection Established\r\n\r\n") else [])
            else if refused || elapsed then
              && g.state == Closing && g.outcomes == [Failed]
              && g.output == f.output
                             + (if f.protocol.Socks5? then [5, if refused then 5 else 4, 0, 1, 0, 0, 0, 0, 0, 0]
                                else ErrorReply(Http, if refused then ConnectionRefused else GatewayTimeout))
              && (!refused ==> g.socket.Some? && g.socket.value.state.TcpClosed?)
            else g == f
  {
    hide BE32, BE16, Ascii;
  }

  /** An answer of the resolver counts for a flow that is still resolving and for
      no other: with an address it connects as `OpensIff` says, without one the
      client is told. */
  lemma ResolvedDecides(e: Engine, a: Answer)
    ensures var g := Resolved(e, a);
            if a.id in e.flows && e.flows[a.id].state == Resolving then
              && a.id in g.flows
              && (g.flows[a.id].state == Connecting
                  <==> a.ip.Some? && a.ok && exists p: u16 :: 49152 <= p && p !in e.ports)
              && (g.flows[a.id].state != Connecting
                  ==> g.flows[a.id].state == Closing && g.flows[a.id].outcomes == e.flows[a.id].outcomes + [Failed])
              && forall id | id != a.id ::
                   (id in g.flows <==> id in e.flows) && (id in e.flows ==> g.flows[id] == e.flows[id])
            else g == e
  {
    hide ErrorReply, FreePort;
    if a.id in e.flows {
      OpensIff(e, a.id, a.ok);
    }
  }

  /** After a tick no flow is left that has nothing to write and either a closed
      socket, or none and nothing to read or do. */
  lemma NoDeadFlows(e: Engine, setup: Setup, t: Tick, id: nat)
    requires id in TickStep(e, setup, t).flows
    ensures var f := TickStep(e, setup, t).flows[id];
            f.output != []
            || (if f.socket.Some? then !f.socket.value.state.TcpClosed? else f.state != Closing && !f.localEof)
  {
    hide BeforePoll, Serve, Update;
  }

  // ------------------------------------------------------- HTTP replies

  /** What an HTTP client is told of a failure is one complete head of three
      lines without a body: the status of the error, and that the connection
      closes. */
  lemma ErrorIsOneHead(e: ProxyError, rest: seq<byte>)
    ensures var reply := ErrorReply(Http, e);
            && |reply| >= 4 && FindHeaderEnd(reply + rest) == Some(|reply| - 4)
            && Lines(reply[..|reply| - 4]) == [Ascii("HTTP/1.1 ") + HttpStatus(e), Ascii("Content-Length: 0"),
                                               Ascii("Connection: close")]
  {
    hide Ascii, Lines, FindHeaderEnd, JoinLines, HttpStatus;
    StatusLine(e);
    AsciiLine("Content-Length: 0");
    AsciiLine("Connection: close");
    var lines := [Ascii("HTTP/1.1 ") + HttpStatus(e), Ascii("Content-Length: 0"), Ascii("Connection: close")];
    ReplyJoined(e);
    BlankLineAfter(lines, rest);
    LinesJoined(lines);
    var reply, joined := ErrorReply(Http, e), JoinLines(lines);
    hide ErrorReply, OneLine;
    assert reply[..|reply| - 4] == joined[..|joined| - 2];
  }

  lemma StatusLine(e: ProxyError)
    ensures OneLine(Ascii("HTTP/1.1 ") + HttpStatus(e)) && Ascii("HTTP/1.1 ") + HttpStatus(e) != []
  {
    match e {
      case GatewayTimeout => StatusText("504 Gateway Timeout");
      case CommandNotSupported => StatusText("501 Not Implemented");
      case AddressNotSupported => StatusText("501 Not Implemented");
      case BadRequest => StatusText("400 Bad Request");
      case _ => StatusText("502 Bad Gateway");
    }
  }

  lemma StatusText(text: string)
    requires forall i | 0 <= i < |text| :: 0x20 <= text[i] as int < 0x80
    ensures OneLine(Ascii("HTTP/1.1 ") + Ascii(text)) && Ascii("HTTP/1.1 ") + Ascii(text) != []
  {
    var all := "HTTP/1.1 " + text;
    assert Ascii(all) == Ascii("HTTP/1.1 ") + Ascii(text);
    hide Ascii, OneLine;
    AsciiLine(all);
  }

  lemma ReplyJoined(e: ProxyError)
    ensures ErrorReply(Http, e)
         == JoinLines([Ascii("HTTP/1.1 ") + HttpStatus(e), Ascii("Content-Length: 0"), Ascii("Connection: close")])
            + [CR, LF]
  {
    hide Ascii, HttpStatus, JoinLines;
    var a, b, d := Ascii("HTTP/1.1 ") + HttpStatus(e), Ascii("Content-Length: 0"), Ascii("Connection: close");
    JoinFirst([a, b, d]);
    JoinFirst([b, d]);
    JoinFirst([d]);
    assert [a, b, d][1..] == [b, d] && [b, d][1..] == [d];
    NoLines([d][1..]);
    assert ErrorReply(Http, e) == a + ([CR, LF] + b + [CR, LF] + d + [CR, LF] + [CR, LF]);
  }

  lemma NoLines(lines: seq<seq<byte>>)
    requires lines == []
    ensures JoinLines(lines) == []
  {
  }
}
