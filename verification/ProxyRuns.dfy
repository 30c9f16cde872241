/** What runs of the local proxy show of two limits of its code
    (src/core/local_proxy/connections.rs and flow.rs): waiting handshake bytes
    are not looked at again by themselves, and a flow that closes keeps what it
    had not yet handed on. */
module ProxyRuns {
  import opened Bytes
  import opened Wrappers
  import opened ProxySteps
  import opened ProxyFlow
  import opened ProxyEngine

  // ------------------------------------------------ following one flow

  /** What to watch a flow for: staying as it was in its handshake, or as it
      was when it had closed. */
  datatype Watch = Stalled(since: Flow) | Closed(since: Flow)

  /** Still where it was, or closed for a failed write: nothing more was read,
      decided or opened. */
  ghost predicate StillWaiting(f: Flow, g: Flow) {
    && g.socket.None? && g.opens == 0 && g.input == f.input && g.fromClient == f.fromClient
    && (g.state == f.state || (g.state == Closing && g.lost))
  }

  /** Closed, with nothing more read from the client or handed on. */
  ghost predicate StillClosed(f: Flow, g: Flow) {
    && g.state == Closing && g.input == f.input && g.fromClient == f.fromClient
    && g.consumed == f.consumed && g.lead == f.lead && Upstream(g) == Upstream(f)
  }

  ghost predicate Keeps(w: Watch, g: Flow) {
    match w
    case Stalled(f) => InHandshake(f.state) && f.opens == 0 && StillWaiting(f, g)
    case Closed(f) => StillClosed(f, g)
  }

  /** A visit that brings a flow nothing to read. */
  predicate NoData(v: Visit) {
    v.io.read.Data? ==> v.io.read.bytes == []
  }

  /** What a tick must not do for the watch to hold. */
  ghost predicate Quiet(w: Watch, t: Tick, id: nat) {
    w.Stalled? ==> forall v | v in t.visits && v.id == id :: NoData(v)
  }

  lemma PumpKept(w: Watch, f: Flow, io: PumpIo)
    requires Keeps(w, f) && (w.Stalled? && io.read.Data? ==> io.read.bytes == [])
    ensures Keeps(w, Pump(f, io).0) && !Pump(f, io).1
  {
    if f.state == Closing {
      ClosingEndsUpstream(f, io);
    } else {
      HandshakeNeedsData(f, io);
    }
  }

  lemma PolledKept(w: Watch, f: Flow, id: nat, sockets: map<nat, Socket>)
    requires Keeps(w, f)
    requires f.socket.Some? && id in sockets ==> NetStep(f.socket.value, sockets[id])
    ensures Keeps(w, Polled(f, id, sockets))
  {
  }

  lemma UpdateKept(w: Watch, f: Flow, elapsed: bool, innerIp: u32)
    requires Keeps(w, f)
    ensures Update(f, elapsed, innerIp) == f
  {
  }

  lemma {:induction false} DrainKept(w: Watch, f: Flow, recvs: seq<nat>)
    requires Keeps(w, f)
    ensures Keeps(w, Drain(f, recvs))
    decreases |recvs|
  {
    if !(f.socket.None? || recvs == [] || !CanRecv(f.socket.value) || |f.output| >= 262144) {
      var s := f.socket.value;
      var n := Min(recvs[0], Min(Min(16384, 262144 - |f.output|), |s.received| - s.taken));
      if n != 0 { DrainKept(w, Take(f, n), recvs[1..]); }
    }
  }

  lemma WriteErrorKept(w: Watch, f: Flow)
    requires Keeps(w, f)
    ensures Keeps(w, WriteError(f))
  {
  }

  lemma {:induction false} WriteOutKept(w: Watch, f: Flow, writes: seq<WriteResult>)
    requires Keeps(w, f)
    ensures Keeps(w, WriteOut(f, writes))
    decreases |writes|
  {
    WriteErrorKept(w, f);
    if f.output != [] && writes != [] && writes[0].Wrote? && writes[0].n != 0 {
      var k := Min(writes[0].n, |f.output|);
      WriteOutKept(w, f.(toClient := f.toClient + f.output[..k], output := f.output[k..]), writes[1..]);
    }
  }

  lemma PeerEndKept(w: Watch, f: Flow)
    requires Keeps(w, f)
    ensures Keeps(w, PeerEnd(f))
  {
  }

  lemma ServeKept(w: Watch, f: Flow, recvs: seq<nat>, writes: seq<WriteResult>)
    requires Keeps(w, f)
    ensures Keeps(w, Serve(f, recvs, writes))
  {
    hide Keeps, Drain, WriteOut, PeerEnd;
    DrainKept(w, f, recvs);
    WriteOutKept(w, Drain(f, recvs), writes);
    PeerEndKept(w, WriteOut(Drain(f, recvs), writes));
  }

  // -------------------------------------------------------- through a tick

  /** The flow is in the table and kept. */
  ghost predicate Watched(w: Watch, e: Engine, id: nat) {
    id in e.flows && Keeps(w, e.flows[id])
  }

  lemma OpenTcpOther(w: Watch, e: Engine, id: nat, other: nat, ok: bool)
    requires Watched(w, e, id) && other in e.flows && other != id
    ensures Watched(w, OpenTcp(e, other, ok), id)
  {
    hide FreePort, Keeps, QueueError, Connected;
  }

  lemma SetOther(w: Watch, e: Engine, id: nat, other: nat, f: Flow)
    requires Watched(w, e, id) && other != id
    ensures Watched(w, Set(e, other, f), id)
  {
  }

  lemma InputKept(w: Watch, e: Engine, setup: Setup, v: Visit, id: nat)
    requires Watched(w, e, id) && (w.Stalled? && v.id == id ==> NoData(v))
    ensures Watched(w, Input(e, setup, v), id)
  {
    hide Keeps, Pump, Process, OpenTcp;
    if v.id == id {
      PumpKept(w, e.flows[id], v.io);
    } else if v.id in e.flows {
      var (g, handshake) := Pump(e.flows[v.id], v.io);
      SetOther(w, e, id, v.id, g);
      if handshake {
        var (h, wish) := Process(setup.lib, g);
        SetOther(w, e, id, v.id, h);
        if wish.ConnectTo4? { OpenTcpOther(w, Set(e, v.id, h), id, v.id, v.ok); }
      }
    }
  }

  lemma {:induction false} InputsKept(w: Watch, e: Engine, setup: Setup, visits: seq<Visit>, id: nat)
    requires Watched(w, e, id) && (w.Stalled? ==> forall v | v in visits && v.id == id :: NoData(v))
    ensures Watched(w, Inputs(e, setup, visits), id)
    decreases |visits|
  {
    hide Watched, Input, NoData;
    if visits != [] {
      InputsKept(w, e, setup, visits[..|visits| - 1], id);
      InputKept(w, Inputs(e, setup, visits[..|visits| - 1]), setup, visits[|visits| - 1], id);
    }
  }

  lemma ResolvedKept(w: Watch, e: Engine, a: Answer, id: nat)
    requires Watched(w, e, id)
    ensures Watched(w, Resolved(e, a), id)
  {
    NotResolving(w, e.flows[id]);
    hide Keeps, OpenTcp, QueueError;
    if a.id != id && a.id in e.flows {
      SetOther(w, e, id, a.id, QueueError(e.flows[a.id], HostUnreachable));
      OpenTcpOther(w, e, id, a.id, a.ok);
    }
  }

  lemma NotResolving(w: Watch, f: Flow)
    requires Keeps(w, f)
    ensures f.state != Resolving
  {
  }

  lemma {:induction false} AllResolvedKept(w: Watch, e: Engine, answers: seq<Answer>, id: nat)
    requires Watched(w, e, id)
    ensures Watched(w, AllResolved(e, answers), id)
    decreases |answers|
  {
    hide Watched, Resolved;
    if answers != [] {
      AllResolvedKept(w, e, answers[..|answers| - 1], id);
      ResolvedKept(w, AllResolved(e, answers[..|answers| - 1]), answers[|answers| - 1], id);
    }
  }

  lemma {:induction false} AcceptsKept(w: Watch, e: Engine, setup: Setup, n: nat, id: nat)
    requires EngineInv(e) && e.born + n < 0x1_0000_0000_0000_0000 && Watched(w, e, id)
    ensures Watched(w, Accepts(e, setup, n), id)
  {
    hide Keeps, EngineInv, NewFlow;
    if n > 0 {
      AcceptsKept(w, e, setup, n - 1, id);
      AcceptsKeep(e, setup, n - 1);
      FreshId(Accepts(e, setup, n - 1));
    }
  }

  lemma FreshId(e: Engine)
    requires EngineInv(e) && e.born + 1 < 0x1_0000_0000_0000_0000
    ensures e.nextFlow !in e.flows
  {
    hide FlowsKept, PortsKept;
  }

  /** One tick keeps a watched flow as it is watched, as long as it is there. */
  lemma TickKept(w: Watch, e: Engine, setup: Setup, t: Tick, id: nat)
    requires EngineInv(e) && e.born + t.accepts < 0x1_0000_0000_0000_0000 && Possible(e, setup, t)
    requires Watched(w, e, id) && Quiet(w, t, id)
    requires id in TickStep(e, setup, t).flows
    ensures Watched(w, TickStep(e, setup, t), id)
  {
    hide EngineInv, Keeps, NetStep, Update, Serve, Removable, NoData;
    AcceptsKept(w, e, setup, t.accepts, id);
    InputsKept(w, Accepts(e, setup, t.accepts), setup, t.visits, id);
    AllResolvedKept(w, Inputs(Accepts(e, setup, t.accepts), setup, t.visits), t.answers, id);
    var b := BeforePoll(e, setup, t);
    hide BeforePoll;
    var f := b.flows[id];
    PolledKept(w, f, id, t.sockets);
    var g := Polled(f, id, t.sockets);
    UpdateKept(w, g, id in t.elapsed, setup.innerIp);
    ServeKept(w, g, [], []);
    if id in t.ios { ServeKept(w, g, t.ios[id].recvs, t.ios[id].writes); }
    hide Polled;
    assert TickStep(e, setup, t).flows[id] == Served(Update(g, id in t.elapsed, setup.innerIp), id, t.ios);
  }

  /** From moment k of a run on, a watched flow is kept to the end, if it is
      still there. */
  lemma {:induction false} RunKept(w: Watch, setup: Setup, ticks: seq<Tick>, k: nat, id: nat)
    requires k <= |ticks| && AllPossible(setup, ticks) && Clients(ticks) < 0x1_0000_0000_0000_0000
    requires Watched(w, After(setup, ticks[..k]), id)
    requires forall i | k <= i < |ticks| :: Quiet(w, ticks[i], id)
    requires id in After(setup, ticks).flows
    ensures Watched(w, After(setup, ticks), id)
    decreases |ticks|
  {
    hide EngineInv, TickStep, Possible, Onward, Watched, Quiet;
    if k == |ticks| {
      assert ticks[..k] == ticks;
    } else {
      var n := |ticks| - 1;
      var front := ticks[..n];
      assert front[..k] == ticks[..k];
      RunInv(setup, front);
      BornEarly(w, setup, ticks, k, id);
      StillThere(setup, ticks, id);
      RunKept(w, setup, front, k, id);
      TickKept(w, After(setup, front), setup, ticks[n], id);
    }
  }

  lemma BornEarly(w: Watch, setup: Setup, ticks: seq<Tick>, k: nat, id: nat)
    requires k < |ticks| && AllPossible(setup, ticks) && Clients(ticks) < 0x1_0000_0000_0000_0000
    requires Watched(w, After(setup, ticks[..k]), id)
    ensures id <= After(setup, ticks[..|ticks| - 1]).born
  {
    hide Keeps, TickStep, Possible, Onward;
    var front := ticks[..|ticks| - 1];
    assert front[..k] == ticks[..k];
    RunOnward(setup, front, k);
    PrefixPossible(setup, front, k);
    RunInv(setup, ticks[..k]);
    OnwardBorn(After(setup, ticks[..k]), After(setup, front));
    IdBorn(After(setup, ticks[..k]), id);
  }

  lemma IdBorn(e: Engine, id: nat)
    requires EngineInv(e) && id in e.flows
    ensures id <= e.born
  {
    hide FlowsKept, PortsKept;
  }

  lemma OnwardBorn(e: Engine, g: Engine)
    requires Onward(e, g)
    ensures e.born <= g.born
  {
    hide Forward;
  }

  lemma {:induction false} PrefixPossible(setup: Setup, ticks: seq<Tick>, k: nat)
    requires k <= |ticks| && AllPossible(setup, ticks)
    ensures AllPossible(setup, ticks[..k]) && Clients(ticks[..k]) <= Clients(ticks)
    decreases |ticks|
  {
    hide Possible, After;
    if k == |ticks| {
      assert ticks[..k] == ticks;
    } else {
      assert ticks[..|ticks| - 1][..k] == ticks[..k];
      PrefixPossible(setup, ticks[..|ticks| - 1], k);
    }
  }

  /** A flow that is there after the last tick and was born before it was there
      before it. */
  lemma StillThere(setup: Setup, ticks: seq<Tick>, id: nat)
    requires ticks != [] && AllPossible(setup, ticks) && Clients(ticks) < 0x1_0000_0000_0000_0000
    requires id in After(setup, ticks).flows && id <= After(setup, ticks[..|ticks| - 1]).born
    ensures id in After(setup, ticks[..|ticks| - 1]).flows
  {
    hide TickStep, Possible, Forward, EngineInv;
    RunOnward(setup, ticks, |ticks| - 1);
  }

  // ----------------------------------------------------------- the results

  /** Handshake bytes that wait stay waiting: a flow in its handshake decides
      nothing and opens no connection over any run whose later visits bring it
      no data, whatever its waiting bytes ask for. */
  lemma HandshakeStalls(setup: Setup, ticks: seq<Tick>, k: nat, id: nat)
    requires k <= |ticks| && AllPossible(setup, ticks) && Clients(ticks) < 0x1_0000_0000_0000_0000
    requires id in After(setup, ticks[..k]).flows && InHandshake(After(setup, ticks[..k]).flows[id].state)
    requires forall i | k <= i < |ticks| :: Quiet(Stalled(After(setup, ticks[..k]).flows[id]), ticks[i], id)
    requires id in After(setup, ticks).flows
    ensures StillWaiting(After(setup, ticks[..k]).flows[id], After(setup, ticks).flows[id])
  {
    hide TickStep, Possible, Quiet, StillWaiting, EngineInv;
    PrefixPossible(setup, ticks, k);
    RunInv(setup, ticks[..k]);
    FlowOf(After(setup, ticks[..k]), id);
    var f := After(setup, ticks[..k]).flows[id];
    WaitsAtFirst(f);
    RunKept(Stalled(f), setup, ticks, k, id);
  }

  lemma WaitsAtFirst(f: Flow)
    requires FlowInv(f) && InHandshake(f.state)
    ensures Keeps(Stalled(f), f)
  {
    hide UpstreamKept, DownstreamKept, EndsKept;
  }

  /** All of the client's bytes past the handshake, behind the rewritten head,
      have been handed to the peer's socket. */
  ghost predicate HandedOver(f: Flow) {
    f.consumed <= |f.fromClient| && Upstream(f) == f.lead + f.fromClient[f.consumed..]
  }

  lemma HandedOverIff(f: Flow)
    requires FlowInv(f)
    ensures HandedOver(f) <==> f.input == []
  {
    assert Upstream(f) + [] == Upstream(f);
    if HandedOver(f) {
      assert |Upstream(f) + f.input| == |Upstream(f)|;
    }
  }

  /** A flow that has closed never hands on another byte, and has handed over
      every byte it read exactly when nothing was waiting as it closed. */
  lemma ClosedIsFinal(setup: Setup, ticks: seq<Tick>, k: nat, id: nat)
    requires k <= |ticks| && AllPossible(setup, ticks) && Clients(ticks) < 0x1_0000_0000_0000_0000
    requires id in After(setup, ticks[..k]).flows && After(setup, ticks[..k]).flows[id].state == Closing
    requires id in After(setup, ticks).flows
    ensures StillClosed(After(setup, ticks[..k]).flows[id], After(setup, ticks).flows[id])
    ensures HandedOver(After(setup, ticks).flows[id]) <==> After(setup, ticks[..k]).flows[id].input == []
  {
    hide TickStep, Possible, EngineInv, FlowInv, HandedOver, Upstream;
    var f := After(setup, ticks[..k]).flows[id];
    RunKept(Closed(f), setup, ticks, k, id);
    RunInv(setup, ticks);
    FlowOf(After(setup, ticks), id);
    HandedOverIff(After(setup, ticks).flows[id]);
  }

  // -------------------------------------------------------- concrete runs

  /** An engine with one client, the first. */
  function OneFlow(f: Flow, ports: set<u16>, nextPort: u16): Engine {
    Engine(map[1 := f], ports, 2, nextPort, 1)
  }

  function ReadIo(bytes: seq<byte>, room: nat): PumpIo {
    PumpIo(0, 0, room, Data(bytes), 0)
  }

  function OneVisit(accepts: nat, io: PumpIo, sockets: map<nat, Socket>, written: nat): Tick {
    Tick(accepts, [Visit(1, io, true)], [], sockets, {}, map[1 := ServeIo([], [Wrote(written)])])
  }

  lemma OneVisitBefore(e: Engine, setup: Setup, io: PumpIo, sockets: map<nat, Socket>, written: nat)
    ensures BeforePoll(e, setup, OneVisit(0, io, sockets, written)) == Input(e, setup, Visit(1, io, true))
  {
    hide Input;
    var v := Visit(1, io, true);
    assert [v][..0] == [];
    assert Inputs(e, setup, []) == e;
    assert Inputs(e, setup, [v]) == Input(e, setup, v);
    assert Accepts(e, setup, 0) == e;
  }

  lemma OneFlowAfter(f: Flow, ports: set<u16>, nextPort: u16, setup: Setup, t: Tick)
    requires 1 in t.ios && 1 !in t.elapsed
    ensures var g := Serve(Update(Polled(f, 1, t.sockets), false, setup.innerIp), t.ios[1].recvs, t.ios[1].writes);
            !Removable(g) ==> AfterPoll(OneFlow(f, ports, nextPort), setup, t) == OneFlow(g, ports, nextPort)
  {
    hide Serve, Update, Polled, Removable;
    var g := Serve(Update(Polled(f, 1, t.sockets), false, setup.innerIp), t.ios[1].recvs, t.ios[1].writes);
    if !Removable(g) {
      var e := OneFlow(f, ports, nextPort);
      var c := PollAll(e, t.sockets);
      assert c.flows == map[1 := Polled(f, 1, t.sockets)];
      var d := UpdateAll(c, setup, t.elapsed);
      assert d.flows == map[1 := Update(Polled(f, 1, t.sockets), false, setup.innerIp)];
      var h := ServeAll(d, t.ios);
      assert h.flows == map[1 := g];
      assert Reap(h).flows == map[1 := g] && Reap(h).ports == ports;
    }
  }

  /** One tick with one visit, from the flow after the visit on. */
  lemma OneVisitRuns(e: Engine, setup: Setup, io: PumpIo, sockets: map<nat, Socket>, written: nat, f: Flow, g: Flow,
                     ports: set<u16>, nextPort: u16)
    requires Input(e, setup, Visit(1, io, true)) == OneFlow(f, ports, nextPort)
    requires Serve(Update(Polled(f, 1, sockets), false, setup.innerIp), [], [Wrote(written)]) == g && !Removable(g)
    requires f.socket.Some? && 1 in sockets ==> NetStep(f.socket.value, sockets[1])
    ensures TickStep(e, setup, OneVisit(0, io, sockets, written)) == OneFlow(g, ports, nextPort)
    ensures Possible(e, setup, OneVisit(0, io, sockets, written))
  {
    hide Input, Serve, Update, Polled, Removable, NetStep, BeforePoll, AfterPoll;
    OneVisitBefore(e, setup, io, sockets, written);
    OneFlowAfter(f, ports, nextPort, setup, OneVisit(0, io, sockets, written));
  }

  /** The flow of a client whose first read gave a greeting and then rest. */
  function Greeted(rest: seq<byte>): Flow {
    NewFlow(Socks5).(state := SocksRequest, input := rest, fromClient := [5, 1, 0] + rest, consumed := 3,
                     replies := [5, 0], toClient := [5, 0])
  }

  function FirstTick(rest: seq<byte>): Tick {
    OneVisit(1, ReadIo([5, 1, 0] + rest, 0), map[], 2)
  }

  lemma HandshakeRead(f: Flow, bytes: seq<byte>)
    requires InHandshake(f.state) && f.socket.None? && !f.localEof && f.input == []
    requires 0 < |bytes| <= 16384
    ensures Pump(f, ReadIo(bytes, 0)) == (f.(input := bytes, fromClient := f.fromClient + bytes), true)
  {
    assert bytes[..|bytes|] == bytes && [] + bytes == bytes;
  }

  lemma ReplyProcessed(lib: Library, f: Flow, bytes: seq<byte>, n: nat, next: State)
    requires NextStep(lib, f) == Reply(bytes, n, next) && next != Closing && n <= |f.input|
    ensures Process(lib, f) == (Queue(Consume(f, n), bytes).(state := next), Nothing)
  {
    hide NextStep;
    assert f.outcomes + [] == f.outcomes;
  }

  lemma AddressProcessed(lib: Library, f: Flow, ip: seq<byte>, port: u16, n: nat)
    requires NextStep(lib, f) == Open(Address(ip), port, n, None, None) && n <= |f.input|
    ensures Process(lib, f) == (Consume(f, n), ConnectTo4(ip, port))
  {
    hide NextStep;
  }

  lemma GreetingRead(setup: Setup, rest: seq<byte>)
    requires |rest| <= 16000
    ensures var f := NewFlow(Socks5);
            var g := f.(input := [5, 1, 0] + rest, fromClient := [5, 1, 0] + rest);
            && Pump(f, ReadIo([5, 1, 0] + rest, 0)) == (g, true)
            && Process(setup.lib, g) == (Greeted(rest).(output := [5, 0], toClient := []), Nothing)
  {
    var data := [5, 1, 0] + rest;
    HandshakeRead(NewFlow(Socks5), data);
    assert [] + data == data;
    GreetingUsedUp([0], rest);
    assert [5, 1] + [0] + rest == data && data[3..] == rest;
    var g := NewFlow(Socks5).(input := data, fromClient := data);
    assert NextStep(setup.lib, g) == Reply([5, 0], 3, SocksRequest) by { hide Greeting; }
    hide NextStep, Process, Pump, Greeting;
    ReplyProcessed(setup.lib, g, [5, 0], 3, SocksRequest);
    assert [] + [5, 0] == [5, 0];
  }

  lemma Start1(setup: Setup)
    requires setup.protocol == Socks5
    ensures Accepts(Start(), setup, 1) == OneFlow(NewFlow(Socks5), {}, 49152)
  {
    assert Accepts(Start(), setup, 0) == Start();
  }

  lemma FirstTickRuns(setup: Setup, rest: seq<byte>)
    requires setup.protocol == Socks5 && |rest| <= 16000
    ensures TickStep(Start(), setup, FirstTick(rest)) == OneFlow(Greeted(rest), {}, 49152)
    ensures Possible(Start(), setup, FirstTick(rest))
  {
    var t, f, io := FirstTick(rest), NewFlow(Socks5), ReadIo([5, 1, 0] + rest, 0);
    Start1(setup);
    GreetingRead(setup, rest);
    var g := Greeted(rest).(output := [5, 0], toClient := []);
    hide Pump, Process, NewFlow, Accepts, OpenTcp;
    var v := Visit(1, io, true);
    var e := OneFlow(f, {}, 49152);
    assert Inputs(e, setup, [v][..0]) == e;
    assert BeforePoll(Start(), setup, t).flows == map[1 := g];
    assert BeforePoll(Start(), setup, t) == OneFlow(g, {}, 49152);
    GreetingServed(setup, rest);
    OneFlowAfter(g, {}, 49152, setup, t);
  }

  lemma GreetingServed(setup: Setup, rest: seq<byte>)
    ensures var g := Greeted(rest).(output := [5, 0], toClient := []);
            Serve(Update(Polled(g, 1, map[]), false, setup.innerIp), [], [Wrote(2)]) == Greeted(rest)
            && !Removable(Greeted(rest))
  {
    var g := Greeted(rest).(output := [5, 0], toClient := []);
    assert [5, 0][2..] == [] && [] + [5, 0][..2] == [5, 0];
    assert WriteOut(Greeted(rest), [Wrote(2)][1..]) == Greeted(rest);
    assert WriteOut(g, [Wrote(2)]) == Greeted(rest);
  }

  /** A client that sends its request together with its greeting, in one read,
      is kept waiting over every run that brings it no more data, although the
      request is there, complete. */
  lemma PipelinedRequestStalls(setup: Setup, ip: seq<byte>, port: u16, later: seq<Tick>)
    requires setup.protocol == Socks5 && |ip| == 4
    requires var ticks := [FirstTick(SocksEncoded(0, Address(ip), port))] + later;
             AllPossible(setup, ticks) && Clients(ticks) < 0x1_0000_0000_0000_0000 && 1 in After(setup, ticks).flows
    requires forall t | t in later :: forall v | v in t.visits && v.id == 1 :: NoData(v)
    ensures var request := SocksEncoded(0, Address(ip), port);
            var f := After(setup, [FirstTick(request)] + later).flows[1];
            && SocksConnect(setup.lib, request) == Open(Address(ip), port, |request|, None, None)
            && f.input == request && f.opens == 0 && (f.state == SocksRequest || f.lost)
  {
    var request := SocksEncoded(0, Address(ip), port);
    var ticks := [FirstTick(request)] + later;
    SocksUsedUp(setup.lib, 0, Address(ip), port, []);
    assert request + [] == request;
    hide TickStep, Possible, SocksEncoded, SocksConnect, NoData, AllPossible, Clients;
    FirstTickRuns(setup, request);
    assert ticks[..1] == [FirstTick(request)] && [FirstTick(request)][..0] == [];
    assert After(setup, []) == Start();
    assert After(setup, ticks[..1]) == OneFlow(Greeted(request), {}, 49152);
    forall i | 1 <= i < |ticks| ensures Quiet(Stalled(Greeted(request)), ticks[i], 1) {
      assert ticks[i] in later;
    }
    hide After;
    HandshakeStalls(setup, ticks, 1, 1);
  }

  /** The flow once its connection is established, and its client told so. */
  function Linked(setup: Setup, request: seq<byte>): Flow {
    var reply := [5, 0, 0, 1] + BE32(setup.innerIp) + BE16(49152);
    Greeted([]).(state := Established, socket := Some(Socket(TcpEstablished, [], [], 0)), port := 49152,
                 fromClient := [5, 1, 0] + request, consumed := 3 + |request|, opens := 1, outcomes := [Succeeded],
                 replies := [5, 0] + reply, toClient := [5, 0] + reply)
  }

  /** The flow with its request used up, about to connect. */
  function Requested(request: seq<byte>): Flow {
    Greeted([]).(fromClient := [5, 1, 0] + request, consumed := 3 + |request|)
  }

  function SecondTick(request: seq<byte>): Tick {
    OneVisit(0, ReadIo(request, 0), map[1 := Socket(TcpEstablished, [], [], 0)], 10)
  }

  lemma FirstFree(taken: set<u16>, start: u16)
    requires start >= 49152 && start !in taken
    ensures FreePort(taken, start) == Some(start)
  {
    hide PortCount;
    var n := PortCount();
    assert n > 0 by { Some16384(); }
  }

  lemma Some16384()
    ensures PortCount() == 16384
  {
  }

  lemma RequestRead(setup: Setup, ip: seq<byte>, port: u16)
    requires |ip| == 4
    ensures var request := SocksEncoded(0, Address(ip), port);
            var f := Greeted([]);
            var g := f.(input := request, fromClient := [5, 1, 0] + request);
            && Pump(f, ReadIo(request, 0)) == (g, true)
            && Process(setup.lib, g) == (Requested(request), ConnectTo4(ip, port))
  {
    var request := SocksEncoded(0, Address(ip), port);
    assert |request| == 10;
    SocksUsedUp(setup.lib, 0, Address(ip), port, []);
    assert request + [] == request && request[|request|..] == [];
    hide SocksConnect, SocksEncoded;
    var g := Greeted([]).(input := request, fromClient := [5, 1, 0] + request);
    assert NextStep(setup.lib, g) == Open(Address(ip), port, |request|, None, None);
    assert [5, 1, 0] + [] == [5, 1, 0];
    hide NextStep, Pump, Process;
    HandshakeRead(Greeted([]), request);
    AddressProcessed(setup.lib, g, ip, port, |request|);
  }

  lemma LinkServed(setup: Setup, request: seq<byte>)
    ensures var sockets := map[1 := Socket(TcpEstablished, [], [], 0)];
            && Serve(Update(Polled(Connected(Requested(request), 49152), 1, sockets), false, setup.innerIp), [],
                     [Wrote(10)])
               == Linked(setup, request)
            && !Removable(Linked(setup, request))
  {
    var g := Requested(request);
    var reply := [5, 0, 0, 1] + BE32(setup.innerIp) + BE16(49152);
    var u := Update(Polled(Connected(g, 49152), 1, map[1 := Socket(TcpEstablished, [], [], 0)]), false, setup.innerIp);
    assert [] + reply == reply;
    assert u == Linked(setup, request).(output := reply, toClient := [5, 0]);
    assert |reply| == 10 && reply[..10] == reply && reply[10..] == [];
    hide Update, Polled, BE32, BE16;
    assert WriteOut(Linked(setup, request), [Wrote(10)][1..]) == Linked(setup, request);
    assert WriteOut(u, [Wrote(10)]) == Linked(setup, request);
    assert Drain(u, []) == u;
  }

  /** One visit that ends in a connection, from an engine with one client. */
  lemma VisitConnects(setup: Setup, f: Flow, io: PumpIo, g: Flow, h: Flow, ip: seq<byte>, port: u16)
    requires Pump(f, io) == (g, true) && Process(setup.lib, g) == (h, ConnectTo4(ip, port))
    ensures Input(OneFlow(f, {}, 49152), setup, Visit(1, io, true)) == OneFlow(Connected(h, 49152), {49152}, 49153)
  {
    FirstFree({}, 49152);
    hide Pump, Process, FreePort, Connected;
    var e := OneFlow(f, {}, 49152);
    assert Set(e, 1, h) == OneFlow(h, {}, 49152);
    assert OpenTcp(OneFlow(h, {}, 49152), 1, true).flows == map[1 := Connected(h, 49152)];
    assert {} + {49152 as u16} == {49152};
  }

  lemma SecondTickRuns(setup: Setup, ip: seq<byte>, port: u16)
    requires |ip| == 4
    ensures var request := SocksEncoded(0, Address(ip), port);
            var e := OneFlow(Greeted([]), {}, 49152);
            && TickStep(e, setup, SecondTick(request)) == OneFlow(Linked(setup, request), {49152}, 49153)
            && Possible(e, setup, SecondTick(request))
  {
    hide Pump, Process, SocksEncoded, Serve, Update, Polled, Linked, Greeted, Connected, Requested, Removable,
      TickStep, Possible;
    hide Input, NetStep;
    var request := SocksEncoded(0, Address(ip), port);
    var f, io, h := Greeted([]), ReadIo(request, 0), Requested(request);
    RequestRead(setup, ip, port);
    VisitConnects(setup, f, io, f.(input := request, fromClient := [5, 1, 0] + request), h, ip, port);
    LinkServed(setup, request);
    LinkPossible(h);
    var sockets := map[1 := Socket(TcpEstablished, [], [], 0)];
    OneVisitRuns(OneFlow(f, {}, 49152), setup, io, sockets, 10, Connected(h, 49152), Linked(setup, request), {49152},
                 49153);
  }

  lemma LinkPossible(f: Flow)
    ensures Connected(f, 49152).socket.Some?
    ensures NetStep(Connected(f, 49152).socket.value, Socket(TcpEstablished, [], [], 0))
  {
  }

  function ThirdTick(b: byte): Tick {
    OneVisit(0, ReadIo([b], 1), map[1 := Socket(TcpCloseWait, [], [], 0)], 0)
  }

  /** The flow closed by its peer's end of stream with a byte still waiting. */
  function CutShort(setup: Setup, request: seq<byte>, b: byte): Flow {
    Linked(setup, request).(state := Closing, socket := Some(Socket(TcpLastAck, [], [], 0)), input := [b],
                            fromClient := [5, 1, 0] + request + [b], peerEnded := true)
  }

  lemma ThirdTickRuns(setup: Setup, request: seq<byte>, b: byte)
    ensures var e := OneFlow(Linked(setup, request), {49152}, 49153);
            && TickStep(e, setup, ThirdTick(b)) == OneFlow(CutShort(setup, request, b), {49152}, 49153)
            && Possible(e, setup, ThirdTick(b))
  {
    var f, io, t := Linked(setup, request), ReadIo([b], 1), ThirdTick(b);
    var g := f.(input := [b], fromClient := f.fromClient + [b]);
    ByteWaits(f, b);
    ByteStays(setup, request, b);
    assert f.socket == Some(Socket(TcpEstablished, [], [], 0));
    hide Pump, Serve, Update, Polled, Linked, CutShort, Removable, TickStep, Possible;
    var e := OneFlow(f, {49152}, 49153);
    assert Input(e, setup, Visit(1, io, true)).flows == map[1 := g];
    OneVisitRuns(e, setup, io, t.sockets, 0, g, CutShort(setup, request, b), {49152}, 49153);
  }

  /** A byte read while the socket takes nothing waits. */
  lemma ByteWaits(f: Flow, b: byte)
    requires f.state == Established && f.socket.Some? && f.input == [] && !f.localEof
    ensures Pump(f, ReadIo([b], 1)) == (f.(input := [b], fromClient := f.fromClient + [b]), false)
  {
    assert [b][..1] == [b] && [] + [b] == [b] && [b][..0] == [] && [b][0..] == [b];
    assert f.socket.value.accepted + [] == f.socket.value.accepted;
  }

  lemma ByteStays(setup: Setup, request: seq<byte>, b: byte)
    ensures var f := Linked(setup, request);
            var g := f.(input := [b], fromClient := f.fromClient + [b]);
            var sockets := map[1 := Socket(TcpCloseWait, [], [], 0)];
            && Serve(Update(Polled(g, 1, sockets), false, setup.innerIp), [], [Wrote(0)]) == CutShort(setup, request, b)
            && !Removable(CutShort(setup, request, b))
  {
    hide BE32, BE16;
  }

  /** A run of three ticks in which a byte the client sent is lost: it was read
      while the socket took nothing, and the peer's end of stream closed the
      flow before the next turn. */
  lemma UploadCutShort(setup: Setup, ip: seq<byte>, port: u16, b: byte)
    requires setup.protocol == Socks5 && |ip| == 4
    ensures var request := SocksEncoded(0, Address(ip), port);
            var ticks := [FirstTick([]), SecondTick(request), ThirdTick(b)];
            && AllPossible(setup, ticks) && Clients(ticks) == 1 && 1 in After(setup, ticks).flows
            && var f := After(setup, ticks).flows[1];
               f.state == Closing && f.peerEnded && f.input == [b] && Upstream(f) == [] && !HandedOver(f)
  {
    var request := SocksEncoded(0, Address(ip), port);
    var t1, t2, t3 := FirstTick([]), SecondTick(request), ThirdTick(b);
    FirstTickRuns(setup, []);
    SecondTickRuns(setup, ip, port);
    ThirdTickRuns(setup, request, b);
    assert t1.accepts == 1 && t2.accepts == 0 && t3.accepts == 0;
    var f := CutShort(setup, request, b);
    assert f.state == Closing && f.peerEnded && f.input == [b] && Upstream(f) == [] && !HandedOver(f);
    hide TickStep, Possible, FirstTick, SecondTick, ThirdTick, SocksEncoded, CutShort, Linked, Greeted;
    assert [t1, t2, t3][..2] == [t1, t2] && [t1, t2][..1] == [t1] && [t1][..0] == [];
    assert After(setup, []) == Start();
    assert After(setup, [t1]) == OneFlow(Greeted([]), {}, 49152);
    assert After(setup, [t1, t2]) == OneFlow(Linked(setup, request), {49152}, 49153);
    assert AllPossible(setup, []) && Clients([]) == 0;
    assert AllPossible(setup, [t1]) && Clients([t1]) == 1;
    assert AllPossible(setup, [t1, t2]) && Clients([t1, t2]) == 1;
  }
}
