/** All connections of the local proxy and its local ports
    (src/core/local_proxy/connections.rs), in the order in which the engine
    drives them (src/core/local_proxy/engine.rs, tick). */
module ProxyEngine {
  import opened Bytes
  import opened Wrappers
  import opened ProxySteps
  import opened ProxyFlow

  // ---------------------------------------------------------- local ports

  /** The number of ports from 49152 up. */
  function PortCount(): nat {
    16384
  }

  function NextPort(p: u16): (q: u16)
    ensures q >= 49152
  {
    if p == 65535 then 49152 else if p < 49152 then 49152 else (p as int) + 1
  }

  function PortFrom(taken: set<u16>, candidate: u16, tries: nat): Option<u16>
    decreases tries
  {
    if tries == 0 then None
    else if candidate !in taken then Some(candidate)
    else PortFrom(taken, NextPort(candidate), tries - 1)
  }

  function FreePort(taken: set<u16>, start: u16): Option<u16> {
    PortFrom(taken, if start < 49152 then 49152 else start, PortCount())
  }

  /** The port d places after start, going round from 65535 to 49152. */
  function Around(start: u16, d: nat): (p: u16)
    requires start >= 49152
    ensures p >= 49152
  {
    49152 + ((start as int) - 49152 + d) % 16384
  }

  lemma AroundNext(start: u16, d: nat)
    requires start >= 49152
    ensures Around(start, 0) == start
    ensures Around(NextPort(start), d) == Around(start, d + 1)
  {
  }

  lemma {:induction false} PortFromFirst(taken: set<u16>, start: u16, tries: nat)
    requires start >= 49152
    ensures match PortFrom(taken, start, tries)
            case Some(p) =>
              && p !in taken
              && exists d | 0 <= d < tries ::
                   p == Around(start, d) && forall k | 0 <= k < d :: Around(start, k) in taken
            case None => forall k | 0 <= k < tries :: Around(start, k) in taken
    decreases tries
  {
    if tries > 0 {
      AroundNext(start, 0);
      if start in taken {
        var next := NextPort(start);
        PortFromFirst(taken, next, tries - 1);
        forall k | 0 < k < tries ensures Around(next, k - 1) == Around(start, k) {
          AroundNext(start, k - 1);
        }
        hide Around, NextPort, PortFrom;
        PortFromNext(taken, start, tries);
        match PortFrom(taken, next, tries - 1) {
          case Some(p) =>
            var d :| 0 <= d < tries - 1 && p == Around(next, d) && forall k | 0 <= k < d :: Around(next, k) in taken;
            assert p == Around(start, d + 1);
            forall k | 0 <= k < d + 1 ensures Around(start, k) in taken {
              if k > 0 { assert Around(next, k - 1) in taken; }
            }
          case None =>
            forall k | 0 <= k < tries ensures Around(start, k) in taken {
              if k > 0 { assert Around(next, k - 1) in taken; }
            }
        }
      } else {
        assert PortFrom(taken, start, tries) == Some(Around(start, 0));
      }
    }
  }

  lemma PortFromNext(taken: set<u16>, start: u16, tries: nat)
    requires tries > 0 && start in taken
    ensures PortFrom(taken, start, tries) == PortFrom(taken, NextPort(start), tries - 1)
  {
  }

  /** Every port from 49152 up is some number of places after start. */
  lemma AroundReaches(start: u16, p: u16)
    requires start >= 49152 && p >= 49152
    ensures exists d | 0 <= d < 16384 :: Around(start, d) == p
  {
    var d := ((p as int) - (start as int)) % 16384;
    assert Around(start, d) == p;
  }

  /** The port chosen is the first free one in cyclic order; none is found
      exactly when all of them are taken. */
  lemma FreePortIsFirst(taken: set<u16>, start: u16)
    ensures match FreePort(taken, start)
            case Some(p) =>
              var s: u16 := if start < 49152 then 49152 else start;
              && p !in taken
              && exists d | 0 <= d < 16384 :: p == Around(s, d) && forall k | 0 <= k < d :: Around(s, k) in taken
            case None => true
    ensures FreePort(taken, start).None? <==> forall p: u16 | 49152 <= p :: p in taken
  {
    var s: u16 := if start < 49152 then 49152 else start;
    PortFromFirst(taken, s, PortCount());
    hide PortFrom, Around;
    if FreePort(taken, start).None? {
      forall p: u16 | 49152 <= p ensures p in taken {
        AroundReaches(s, p);
      }
    }
  }

  // ------------------------------------------------------------- the engine

  /** The fixed surroundings: library code, the protocol spoken, the address
      inside the tunnel. */
  datatype Setup = Setup(lib: Library, protocol: Protocol, innerIp: u32)

  /** The proxy's tables; born counts the clients accepted so far. */
  datatype Engine = Engine(flows: map<nat, Flow>, ports: set<u16>, nextFlow: nat, nextPort: u16, born: nat)

  function Start(): Engine {
    Engine(map[], {}, 1, 49152, 0)
  }

  function Set(e: Engine, id: nat, f: Flow): Engine {
    e.(flows := e.flows[id := f])
  }

  function Accept(e: Engine, setup: Setup): Engine {
    Set(e, e.nextFlow, NewFlow(setup.protocol)).(nextFlow := (e.nextFlow + 1) % 0x1_0000_0000_0000_0000,
                                                 born := e.born + 1)
  }

  function Accepts(e: Engine, setup: Setup, n: nat): Engine {
    if n == 0 then e else Accept(Accepts(e, setup, n - 1), setup)
  }

  /** Opens the TCP connection of a flow; ok says whether the stack agrees. */
  function OpenTcp(e: Engine, id: nat, ok: bool): Engine
    requires id in e.flows
  {
    match FreePort(e.ports, e.nextPort)
    case None => Set(e, id, QueueError(e.flows[id], GeneralFailure))
    case Some(p) =>
      var g := e.(nextPort := NextPort(p));
      if ok then Set(g, id, Connected(g.flows[id], p)).(ports := g.ports + {p})
      else Set(g, id, QueueError(g.flows[id], GeneralFailure))
  }

  /** One flow's turn at service_inputs. */
  datatype Visit = Visit(id: nat, io: PumpIo, ok: bool)

  function Input(e: Engine, setup: Setup, v: Visit): Engine {
    if v.id !in e.flows then e
    else
      var (g, handshake) := Pump(e.flows[v.id], v.io);
      if !handshake then Set(e, v.id, g)
      else
        var (h, wish) := Process(setup.lib, g);
        if wish.ConnectTo4? then OpenTcp(Set(e, v.id, h), v.id, v.ok) else Set(e, v.id, h)
  }

  function Inputs(e: Engine, setup: Setup, visits: seq<Visit>): Engine {
    if visits == [] then e
    else Input(Inputs(e, setup, visits[..|visits| - 1]), setup, visits[|visits| - 1])
  }

  /** An answer of the resolver for a flow. */
  datatype Answer = Answer(id: nat, ip: Option<seq<byte>>, ok: bool)

  function Resolved(e: Engine, a: Answer): Engine {
    if a.id !in e.flows || e.flows[a.id].state != Resolving then e
    else if a.ip.Some? then OpenTcp(e, a.id, a.ok)
    else Set(e, a.id, QueueError(e.flows[a.id], HostUnreachable))
  }

  function AllResolved(e: Engine, answers: seq<Answer>): Engine {
    if answers == [] then e
    else Resolved(AllResolved(e, answers[..|answers| - 1]), answers[|answers| - 1])
  }

  function Polled(f: Flow, id: nat, sockets: map<nat, Socket>): Flow {
    if f.socket.Some? && id in sockets then f.(socket := Some(sockets[id])) else f
  }

  function PollAll(e: Engine, sockets: map<nat, Socket>): Engine {
    e.(flows := map id | id in e.flows :: Polled(e.flows[id], id, sockets))
  }

  function UpdateAll(e: Engine, setup: Setup, elapsed: set<nat>): Engine {
    e.(flows := map id | id in e.flows :: Update(e.flows[id], id in elapsed, setup.innerIp))
  }

  /** The answers of the sockets of one flow in service_outputs. */
  datatype ServeIo = ServeIo(recvs: seq<nat>, writes: seq<WriteResult>)

  function Served(f: Flow, id: nat, ios: map<nat, ServeIo>): Flow {
    if id in ios then Serve(f, ios[id].recvs, ios[id].writes) else Serve(f, [], [])
  }

  function ServeAll(e: Engine, ios: map<nat, ServeIo>): Engine {
    e.(flows := map id | id in e.flows :: Served(e.flows[id], id, ios))
  }

  predicate Removable(f: Flow) {
    f.output == [] && match f.socket
                      case Some(s) => s.state.TcpClosed?
                      case None => f.state == Closing || f.localEof
  }

  function Reap(e: Engine): Engine {
    e.(flows := map id | id in e.flows && !Removable(e.flows[id]) :: e.flows[id],
       ports := e.ports - set id | id in e.flows && Removable(e.flows[id]) :: e.flows[id].port)
  }

  /** Everything outside the proxy's own control in one tick. */
  datatype Tick = Tick(
    accepts: nat, visits: seq<Visit>, answers: seq<Answer>, sockets: map<nat, Socket>,
    elapsed: set<nat>, ios: map<nat, ServeIo>)

  function BeforePoll(e: Engine, setup: Setup, t: Tick): Engine {
    AllResolved(Inputs(Accepts(e, setup, t.accepts), setup, t.visits), t.answers)
  }

  function AfterPoll(e: Engine, setup: Setup, t: Tick): Engine {
    Reap(ServeAll(UpdateAll(PollAll(e, t.sockets), setup, t.elapsed), t.ios))
  }

  function TickStep(e: Engine, setup: Setup, t: Tick): Engine {
    AfterPoll(BeforePoll(e, setup, t), setup, t)
  }

  /** The TCP stack changes sockets only as it may. */
  ghost predicate Possible(e: Engine, setup: Setup, t: Tick) {
    var b := BeforePoll(e, setup, t);
    forall id | id in b.flows && b.flows[id].socket.Some? && id in t.sockets ::
      NetStep(b.flows[id].socket.value, t.sockets[id])
  }

  // -------------------------------------------------------------- invariant

  predicate Holds(f: Flow, p: u16) {
    f.socket.Some? && f.port == p
  }

  /** The allocated ports are those of the flows with a socket, one each. */
  ghost predicate PortsKept(e: Engine) {
    && (forall id | id in e.flows && e.flows[id].socket.Some? :: e.flows[id].port in e.ports)
    && (forall p | p in e.ports :: exists id :: id in e.flows && Holds(e.flows[id], p))
    && (forall i, j | i in e.flows && j in e.flows && i != j && e.flows[i].socket.Some? && e.flows[j].socket.Some? ::
          e.flows[i].port != e.flows[j].port)
  }

  ghost predicate IdsKept(e: Engine) {
    && e.nextFlow == (e.born + 1) % 0x1_0000_0000_0000_0000
    && forall id | id in e.flows :: 1 <= id <= e.born
  }

  ghost predicate FlowsKept(e: Engine) {
    forall id | id in e.flows :: FlowInv(e.flows[id])
  }

  ghost predicate EngineInv(e: Engine) {
    FlowsKept(e) && PortsKept(e) && IdsKept(e)
  }

  /** Every flow still there has gone forward. */
  ghost predicate Onward(e: Engine, g: Engine) {
    && e.born <= g.born
    && forall id | id in g.flows && id <= e.born :: id in e.flows && Forward(e.flows[id], g.flows[id])
  }

  lemma StartInv()
    ensures EngineInv(Start())
  {
  }

  lemma OnwardSelf(e: Engine)
    ensures Onward(e, e)
  {
  }

  lemma OnwardTransitive(e: Engine, g: Engine, h: Engine)
    requires Onward(e, g) && Onward(g, h)
    ensures Onward(e, h)
  {
    hide Forward;
    forall id | id in h.flows && id <= e.born ensures id in e.flows && Forward(e.flows[id], h.flows[id]) {
      ForwardTransitive(e.flows[id], g.flows[id], h.flows[id]);
    }
  }

  predicate SamePort(f: Flow, g: Flow) {
    (f.socket.Some? <==> g.socket.Some?) && f.port == g.port
  }

  lemma ReplacePorts(e: Engine, flows: map<nat, Flow>)
    requires PortsKept(e) && flows.Keys == e.flows.Keys
    requires forall id | id in flows :: SamePort(e.flows[id], flows[id])
    ensures PortsKept(e.(flows := flows))
  {
    forall p | p in e.ports ensures exists id :: id in flows && Holds(flows[id], p) {
      var id :| id in e.flows && Holds(e.flows[id], p);
      assert Holds(flows[id], p);
    }
  }

  /** Replacing flows by later selves with the same ports. */
  lemma ReplaceKeeps(e: Engine, flows: map<nat, Flow>)
    requires EngineInv(e) && flows.Keys == e.flows.Keys
    requires forall id | id in flows ::
             FlowInv(flows[id]) && Forward(e.flows[id], flows[id]) && SamePort(e.flows[id], flows[id])
    ensures EngineInv(e.(flows := flows)) && Onward(e, e.(flows := flows))
  {
    hide FlowInv, Forward, PortsKept, SamePort;
    ReplacePorts(e, flows);
  }

  lemma SetKeeps(e: Engine, id: nat, f: Flow)
    requires EngineInv(e) && id in e.flows
    requires FlowInv(f) && Forward(e.flows[id], f) && SamePort(e.flows[id], f)
    ensures EngineInv(Set(e, id, f)) && Onward(e, Set(e, id, f))
  {
    hide FlowInv, Forward, PortsKept;
    forall j | j in e.flows ensures Forward(e.flows[j], e.flows[j]) { ForwardSelf(e.flows[j]); }
    ReplaceKeeps(e, e.flows[id := f]);
  }

  lemma AcceptPorts(e: Engine, id: nat, f: Flow)
    requires PortsKept(e) && id !in e.flows && f.socket.None?
    ensures PortsKept(Set(e, id, f))
  {
    var flows := e.flows[id := f];
    forall p | p in e.ports ensures exists j :: j in flows && Holds(flows[j], p) {
      var j :| j in e.flows && Holds(e.flows[j], p);
      assert Holds(flows[j], p);
    }
  }

  lemma AcceptIds(e: Engine, setup: Setup)
    requires IdsKept(e) && e.born + 1 < 0x1_0000_0000_0000_0000
    ensures e.nextFlow == e.born + 1 && e.nextFlow !in e.flows && IdsKept(Accept(e, setup))
  {
    hide NewFlow;
  }

  lemma AcceptKeeps(e: Engine, setup: Setup)
    requires EngineInv(e) && e.born + 1 < 0x1_0000_0000_0000_0000
    ensures EngineInv(Accept(e, setup)) && Onward(e, Accept(e, setup))
  {
    hide FlowInv, Forward, NewFlow, PortsKept, IdsKept;
    NewFlowInv(setup.protocol);
    NewFlowPlain(setup.protocol);
    var g := Accept(e, setup);
    AcceptIds(e, setup);
    AcceptPorts(e, e.nextFlow, NewFlow(setup.protocol));
    SamePorts(Set(e, e.nextFlow, NewFlow(setup.protocol)), g);
    forall id | id in e.flows ensures Forward(e.flows[id], g.flows[id]) { ForwardSelf(e.flows[id]); }
  }

  lemma SamePorts(e: Engine, g: Engine)
    requires PortsKept(e) && g.flows == e.flows && g.ports == e.ports
    ensures PortsKept(g)
  {
  }

  lemma NewFlowPlain(protocol: Protocol)
    ensures NewFlow(protocol).socket.None?
  {
  }

  lemma {:induction false} AcceptsKeep(e: Engine, setup: Setup, n: nat)
    requires EngineInv(e) && e.born + n < 0x1_0000_0000_0000_0000
    ensures EngineInv(Accepts(e, setup, n)) && Onward(e, Accepts(e, setup, n))
    ensures Accepts(e, setup, n).born == e.born + n
  {
    hide EngineInv, Onward;
    OnwardSelf(e);
    if n > 0 {
      AcceptsKeep(e, setup, n - 1);
      var g := Accepts(e, setup, n - 1);
      AcceptKeeps(g, setup);
      OnwardTransitive(e, g, Accept(g, setup));
    }
  }

  lemma ErrorState(f: Flow, err: ProxyError)
    ensures SamePort(f, QueueError(f, err))
  {
  }

  lemma ConnectPorts(e: Engine, id: nat, f: Flow, p: u16)
    requires PortsKept(e) && id in e.flows && e.flows[id].socket.None? && Holds(f, p) && p !in e.ports
    ensures PortsKept(Set(e, id, f).(ports := e.ports + {p}))
  {
    var g := Set(e, id, f).(ports := e.ports + {p});
    forall q | q in g.ports ensures exists j :: j in g.flows && Holds(g.flows[j], q) {
      if q == p {
        assert Holds(g.flows[id], q);
      } else {
        var j :| j in e.flows && Holds(e.flows[j], q);
        assert j != id;
        assert Holds(g.flows[j], q);
      }
    }
  }

  /** A fresh port for a resolving flow. */
  lemma ConnectKeeps(e: Engine, id: nat, p: u16)
    requires EngineInv(e) && id in e.flows && e.flows[id].state == Resolving
    requires p >= 49152 && p !in e.ports
    ensures var g := Set(e, id, Connected(e.flows[id], p)).(ports := e.ports + {p});
            EngineInv(g) && Onward(e, g)
  {
    hide FlowInv, Forward, Connected, PortsKept;
    var f := e.flows[id];
    FlowOf(e, id);
    ResolvingBare(f);
    ConnectedKeeps(f, p);
    ConnectedPort(f, p);
    ConnectPorts(e, id, Connected(f, p), p);
    var g := Set(e, id, Connected(f, p)).(ports := e.ports + {p});
    forall j | j in e.flows ensures Forward(e.flows[j], g.flows[j]) { ForwardSelf(e.flows[j]); }
  }

  lemma ResolvingBare(f: Flow)
    requires FlowInv(f) && f.state == Resolving
    ensures f.socket.None?
  {
  }

  lemma ConnectedPort(f: Flow, p: u16)
    ensures Holds(Connected(f, p), p)
  {
  }

  lemma OpenTcpKeeps(e: Engine, id: nat, ok: bool)
    requires EngineInv(e) && id in e.flows && e.flows[id].state == Resolving
    ensures EngineInv(OpenTcp(e, id, ok)) && Onward(e, OpenTcp(e, id, ok))
  {
    var f := e.flows[id];
    assert FlowInv(f);
    QueueErrorKeeps(f, GeneralFailure);
    ErrorState(f, GeneralFailure);
    hide FlowInv, Forward, QueueError, Connected;
    SetKeeps(e, id, QueueError(f, GeneralFailure));
    FreePortIsFirst(e.ports, e.nextPort);
    hide FreePort;
    match FreePort(e.ports, e.nextPort) {
      case None =>
      case Some(p) =>
        NextPortKeeps(e, Set(e, id, QueueError(f, GeneralFailure)), NextPort(p));
        ConnectKeeps(e, id, p);
        NextPortKeeps(e, Set(e, id, Connected(f, p)).(ports := e.ports + {p}), NextPort(p));
    }
  }

  lemma NextPortKeeps(e: Engine, g: Engine, next: u16)
    requires EngineInv(g) && Onward(e, g)
    ensures EngineInv(g.(nextPort := next)) && Onward(e, g.(nextPort := next))
  {
  }

  /** Connecting right out of the handshake is connecting a resolving flow. */
  lemma OpenTcpPending(e: Engine, id: nat, f: Flow, ok: bool)
    requires id in e.flows
    ensures OpenTcp(Set(e, id, f), id, ok) == OpenTcp(Set(e, id, Pending(f)), id, ok)
  {
    hide FreePort, ErrorReply;
    match FreePort(e.ports, e.nextPort) {
      case None => SetTwice(e, id, f, QueueError(f, GeneralFailure));
      case Some(p) =>
        SetTwice(e, id, f, QueueError(f, GeneralFailure));
        SetTwice(e, id, f, Connected(f, p));
    }
  }

  lemma SetTwice(e: Engine, id: nat, f: Flow, g: Flow)
    ensures Set(e, id, f).flows[id := g] == e.flows[id := g] == Set(e, id, Pending(f)).flows[id := g]
  {
  }

  lemma AimedPort(lib: Library, f: Flow, target: Target, port: u16)
    ensures SamePort(f, Aim(lib, f, target, port).0)
  {
    hide ErrorReply;
  }

  lemma LedPort(f: Flow, n: nat, rewritten: Option<seq<byte>>, mode: Option<HttpMode>)
    requires n <= |f.input|
    ensures SamePort(f, Led(Consume(f, n), rewritten, mode))
  {
  }

  lemma ProcessedPort(lib: Library, f: Flow)
    ensures SamePort(f, Process(lib, f).0) && SamePort(f, Pending(Process(lib, f).0))
  {
    StepFits(lib, f);
    var step := NextStep(lib, f);
    match step {
      case Wait =>
      case Fail(error) => ErrorState(f, error);
      case Reply(bytes, consumed, next) =>
      case Open(target, port, consumed, mode, rewritten) =>
        hide NextStep, Aim, Led;
        LedPort(f, consumed, rewritten, mode);
        AimedPort(lib, Led(Consume(f, consumed), rewritten, mode), target, port);
    }
    hide NextStep, QueueError, Aim, Led;
  }

  lemma HandedPort(f: Flow, n: nat)
    requires f.socket.Some? && n <= |f.input|
    ensures SamePort(f, Hand(f, n))
  {
  }

  lemma ReadPort(f: Flow, io: PumpIo)
    ensures SamePort(f, ReadClient(f, io).0)
  {
  }

  lemma PumpedPort(f: Flow, io: PumpIo)
    ensures SamePort(f, Pump(f, io).0)
  {
    hide Hand, ReadClient;
    ReadPort(Backlog(f, io), io);
    if Backlog(f, io) != f {
      HandedPort(f, Min(io.sent, Min(io.room, |f.input|)));
    }
  }

  lemma InputKeeps(e: Engine, setup: Setup, v: Visit)
    requires EngineInv(e)
    ensures EngineInv(Input(e, setup, v)) && Onward(e, Input(e, setup, v))
  {
    hide EngineInv, Onward, FlowInv, Forward, Pump, Process, OpenTcp, Pending;
    OnwardSelf(e);
    if v.id in e.flows {
      var f := e.flows[v.id];
      FlowOf(e, v.id);
      var (g, handshake) := Pump(f, v.io);
      PumpKeeps(f, v.io);
      PumpedPort(f, v.io);
      SetKeeps(e, v.id, g);
      if handshake {
        var (h, wish) := Process(setup.lib, g);
        ProcessKeeps(setup.lib, g);
        ProcessedPort(setup.lib, g);
        var k := if wish.ConnectTo4? then Pending(h) else h;
        ForwardTransitive(f, g, k);
        SetKeeps(e, v.id, k);
        if wish.ConnectTo4? {
          OpenTcpPending(e, v.id, h, v.ok);
          PendingState(h);
          OpenTcpKeeps(Set(e, v.id, k), v.id, v.ok);
          OnwardTransitive(e, Set(e, v.id, k), OpenTcp(Set(e, v.id, k), v.id, v.ok));
        }
      }
    }
  }

  lemma PendingState(f: Flow)
    ensures Pending(f).state == Resolving
  {
  }

  lemma FlowOf(e: Engine, id: nat)
    requires EngineInv(e) && id in e.flows
    ensures FlowInv(e.flows[id])
  {
  }

  lemma {:induction false} InputsKeep(e: Engine, setup: Setup, visits: seq<Visit>)
    requires EngineInv(e)
    ensures EngineInv(Inputs(e, setup, visits)) && Onward(e, Inputs(e, setup, visits))
    decreases |visits|
  {
    hide EngineInv, Onward, Input;
    OnwardSelf(e);
    if visits != [] {
      var front, v := visits[..|visits| - 1], visits[|visits| - 1];
      InputsKeep(e, setup, front);
      InputKeeps(Inputs(e, setup, front), setup, v);
      OnwardTransitive(e, Inputs(e, setup, front), Inputs(e, setup, visits));
    }
  }

  lemma ResolvedKeeps(e: Engine, a: Answer)
    requires EngineInv(e)
    ensures EngineInv(Resolved(e, a)) && Onward(e, Resolved(e, a))
  {
    hide EngineInv, Onward, FlowInv, Forward, OpenTcp, QueueError;
    OnwardSelf(e);
    if a.id in e.flows && e.flows[a.id].state == Resolving {
      var f := e.flows[a.id];
      FlowOf(e, a.id);
      OpenTcpKeeps(e, a.id, a.ok);
      QueueErrorKeeps(f, HostUnreachable);
      ErrorState(f, HostUnreachable);
      SetKeeps(e, a.id, QueueError(f, HostUnreachable));
    }
  }

  lemma {:induction false} AllResolvedKeep(e: Engine, answers: seq<Answer>)
    requires EngineInv(e)
    ensures EngineInv(AllResolved(e, answers)) && Onward(e, AllResolved(e, answers))
    decreases |answers|
  {
    hide EngineInv, Onward, Resolved;
    OnwardSelf(e);
    if answers != [] {
      var front := answers[..|answers| - 1];
      AllResolvedKeep(e, front);
      ResolvedKeeps(AllResolved(e, front), answers[|answers| - 1]);
      OnwardTransitive(e, AllResolved(e, front), AllResolved(e, answers));
    }
  }

  lemma PollAllKeeps(e: Engine, sockets: map<nat, Socket>)
    requires EngineInv(e)
    requires forall id | id in e.flows && e.flows[id].socket.Some? && id in sockets ::
               NetStep(e.flows[id].socket.value, sockets[id])
    ensures EngineInv(PollAll(e, sockets)) && Onward(e, PollAll(e, sockets))
  {
    hide EngineInv, Onward, FlowInv, Forward, NetStep;
    var flows := PollAll(e, sockets).flows;
    forall id | id in flows
      ensures FlowInv(flows[id]) && Forward(e.flows[id], flows[id]) && SamePort(e.flows[id], flows[id]) {
      FlowOf(e, id);
      ForwardSelf(e.flows[id]);
      if e.flows[id].socket.Some? && id in sockets { NetStepKeeps(e.flows[id], sockets[id]); }
    }
    ReplaceKeeps(e, flows);
  }

  ghost predicate AllSettled(e: Engine) {
    forall id | id in e.flows :: Settled(e.flows[id])
  }

  lemma UpdatedPort(f: Flow, elapsed: bool, innerIp: u32)
    ensures SamePort(f, Update(f, elapsed, innerIp))
  {
    hide ErrorReply, SuccessReply;
  }

  lemma UpdateAllKeeps(e: Engine, setup: Setup, elapsed: set<nat>)
    requires EngineInv(e)
    ensures var g := UpdateAll(e, setup, elapsed); EngineInv(g) && Onward(e, g) && AllSettled(g)
  {
    hide EngineInv, Onward, FlowInv, Forward, Update, Settled, SamePort;
    var flows := UpdateAll(e, setup, elapsed).flows;
    forall id | id in flows
      ensures FlowInv(flows[id]) && Forward(e.flows[id], flows[id]) && SamePort(e.flows[id], flows[id])
              && Settled(flows[id])
    {
      FlowOf(e, id);
      UpdateKeeps(e.flows[id], id in elapsed, setup.innerIp);
      UpdatedPort(e.flows[id], id in elapsed, setup.innerIp);
    }
    ReplaceKeeps(e, flows);
  }

  lemma {:induction false} DrainedPort(f: Flow, recvs: seq<nat>)
    ensures SamePort(f, Drain(f, recvs))
    decreases |recvs|
  {
    if !(f.socket.None? || recvs == [] || !CanRecv(f.socket.value) || |f.output| >= 262144) {
      var s := f.socket.value;
      var n := Min(recvs[0], Min(Min(16384, 262144 - |f.output|), |s.received| - s.taken));
      if n != 0 { DrainedPort(Take(f, n), recvs[1..]); }
    }
  }

  lemma {:induction false} WrittenPort(f: Flow, writes: seq<WriteResult>)
    ensures SamePort(f, WriteOut(f, writes))
    decreases |writes|
  {
    if f.output != [] && writes != [] && writes[0].Wrote? && writes[0].n != 0 {
      var k := Min(writes[0].n, |f.output|);
      WrittenPort(f.(toClient := f.toClient + f.output[..k], output := f.output[k..]), writes[1..]);
    }
  }

  lemma ServedPort(f: Flow, recvs: seq<nat>, writes: seq<WriteResult>)
    ensures SamePort(f, Serve(f, recvs, writes))
  {
    hide Drain, WriteOut;
    DrainedPort(f, recvs);
    WrittenPort(Drain(f, recvs), writes);
  }

  lemma ServeAllKeeps(e: Engine, ios: map<nat, ServeIo>)
    requires EngineInv(e) && AllSettled(e)
    ensures EngineInv(ServeAll(e, ios)) && Onward(e, ServeAll(e, ios))
  {
    hide EngineInv, Onward, FlowInv, Forward, Serve, Settled, SamePort;
    var flows := ServeAll(e, ios).flows;
    forall id | id in flows
      ensures FlowInv(flows[id]) && Forward(e.flows[id], flows[id]) && SamePort(e.flows[id], flows[id]) {
      FlowOf(e, id);
      var io := if id in ios then ios[id] else ServeIo([], []);
      ServeKeeps(e.flows[id], io.recvs, io.writes);
      ServedPort(e.flows[id], io.recvs, io.writes);
    }
    ReplaceKeeps(e, flows);
  }

  lemma ReapKeeps(e: Engine)
    requires EngineInv(e)
    ensures EngineInv(Reap(e)) && Onward(e, Reap(e))
  {
    hide Removable, Forward;
    var g := Reap(e);
    forall id | id in e.flows ensures Forward(e.flows[id], e.flows[id]) { ForwardSelf(e.flows[id]); }
    assert FlowsKept(g) && IdsKept(g);
    forall id | id in e.flows && e.flows[id].socket.None? ensures e.flows[id].port == 0 { StateOf(e.flows[id]); }
    forall id | id in e.flows && e.flows[id].socket.Some? ensures e.flows[id].port != 0 { StateOf(e.flows[id]); }
    hide FlowInv;
    forall p | p in g.ports ensures exists id :: id in g.flows && Holds(g.flows[id], p) {
      var id :| id in e.flows && Holds(e.flows[id], p);
      assert id in g.flows && Holds(g.flows[id], p);
    }
  }

  lemma BeforePollKeeps(e: Engine, setup: Setup, t: Tick)
    requires EngineInv(e) && e.born + t.accepts < 0x1_0000_0000_0000_0000
    ensures EngineInv(BeforePoll(e, setup, t)) && Onward(e, BeforePoll(e, setup, t))
  {
    hide EngineInv, Onward, Inputs, AllResolved;
    var a := Accepts(e, setup, t.accepts);
    var b := Inputs(a, setup, t.visits);
    AcceptsKeep(e, setup, t.accepts);
    InputsKeep(a, setup, t.visits);
    AllResolvedKeep(b, t.answers);
    OnwardTransitive(e, a, b);
    OnwardTransitive(e, b, AllResolved(b, t.answers));
  }

  /** One tick of the engine keeps everything and only moves flows forward. */
  lemma TickKeeps(e: Engine, setup: Setup, t: Tick)
    requires EngineInv(e) && e.born + t.accepts < 0x1_0000_0000_0000_0000 && Possible(e, setup, t)
    ensures EngineInv(TickStep(e, setup, t)) && Onward(e, TickStep(e, setup, t))
  {
    hide EngineInv, Onward, BeforePoll, NetStep, PollAll, UpdateAll, ServeAll, Reap;
    var b := BeforePoll(e, setup, t);
    BeforePollKeeps(e, setup, t);
    var c := PollAll(b, t.sockets);
    PollAllKeeps(b, t.sockets);
    var d := UpdateAll(c, setup, t.elapsed);
    UpdateAllKeeps(c, setup, t.elapsed);
    var f := ServeAll(d, t.ios);
    ServeAllKeeps(d, t.ios);
    ReapKeeps(f);
    OnwardTransitive(e, b, c);
    OnwardTransitive(e, c, d);
    OnwardTransitive(e, d, f);
    OnwardTransitive(e, f, Reap(f));
  }

  // ------------------------------------------------------------------- runs

  function After(setup: Setup, ticks: seq<Tick>): Engine {
    if ticks == [] then Start() else TickStep(After(setup, ticks[..|ticks| - 1]), setup, ticks[|ticks| - 1])
  }

  function Clients(ticks: seq<Tick>): nat {
    if ticks == [] then 0 else Clients(ticks[..|ticks| - 1]) + ticks[|ticks| - 1].accepts
  }

  ghost predicate AllPossible(setup: Setup, ticks: seq<Tick>) {
    ticks == [] || (AllPossible(setup, ticks[..|ticks| - 1])
                    && Possible(After(setup, ticks[..|ticks| - 1]), setup, ticks[|ticks| - 1]))
  }

  lemma Born(e: Engine, setup: Setup, t: Tick)
    ensures TickStep(e, setup, t).born == e.born + t.accepts
  {
    hide Pump, Process, FreePort;
    AcceptsBorn(e, setup, t.accepts);
    var a := Accepts(e, setup, t.accepts);
    InputsBorn(a, setup, t.visits);
    ResolvedBorn(Inputs(a, setup, t.visits), t.answers);
  }

  lemma {:induction false} AcceptsBorn(e: Engine, setup: Setup, n: nat)
    ensures Accepts(e, setup, n).born == e.born + n
  {
    if n > 0 { AcceptsBorn(e, setup, n - 1); }
  }

  lemma {:induction false} InputsBorn(e: Engine, setup: Setup, visits: seq<Visit>)
    ensures Inputs(e, setup, visits).born == e.born
    decreases |visits|
  {
    hide Pump, Process, FreePort;
    if visits != [] { InputsBorn(e, setup, visits[..|visits| - 1]); }
  }

  lemma {:induction false} ResolvedBorn(e: Engine, answers: seq<Answer>)
    ensures AllResolved(e, answers).born == e.born
    decreases |answers|
  {
    hide FreePort;
    if answers != [] { ResolvedBorn(e, answers[..|answers| - 1]); }
  }

  /** Over every run with fewer than 2^64 clients: every flow conserves its two
      streams, opens at most one connection and announces at most one outcome,
      and the allocated ports are exactly those of the flows with a socket. */
  lemma {:induction false} RunInv(setup: Setup, ticks: seq<Tick>)
    requires AllPossible(setup, ticks) && Clients(ticks) < 0x1_0000_0000_0000_0000
    ensures EngineInv(After(setup, ticks)) && After(setup, ticks).born == Clients(ticks)
    decreases |ticks|
  {
    hide EngineInv, TickStep, Possible, Onward;
    if ticks == [] {
      StartInv();
    } else {
      var front := ticks[..|ticks| - 1];
      RunInv(setup, front);
      TickKeeps(After(setup, front), setup, ticks[|ticks| - 1]);
      Born(After(setup, front), setup, ticks[|ticks| - 1]);
    }
  }

  /** From any moment of a run to its end, every flow still there has only
      gone forward: through the states in order, adding to what it has sent. */
  lemma {:induction false} RunOnward(setup: Setup, ticks: seq<Tick>, k: nat)
    requires k <= |ticks| && AllPossible(setup, ticks) && Clients(ticks) < 0x1_0000_0000_0000_0000
    ensures Onward(After(setup, ticks[..k]), After(setup, ticks))
    decreases |ticks|
  {
    hide EngineInv, TickStep, Possible, Onward;
    if k == |ticks| {
      assert ticks[..k] == ticks;
      OnwardSelf(After(setup, ticks));
    } else {
      var front := ticks[..|ticks| - 1];
      assert front[..k] == ticks[..k];
      RunOnward(setup, front, k);
      RunInv(setup, front);
      TickKeeps(After(setup, front), setup, ticks[|ticks| - 1]);
      OnwardTransitive(After(setup, ticks[..k]), After(setup, front), After(setup, ticks));
    }
  }

  /** The client's bytes past the handshake go to the peer behind the rewritten
      head, all of them before the client's end of stream does; the client gets
      the proxy's replies and then the peer's bytes, all of them before the
      peer's end of stream, as long as no write to it failed. */
  ghost predicate Conserved(f: Flow) {
    && f.consumed <= |f.fromClient|
    && Upstream(f) + f.input == f.lead + f.fromClient[f.consumed..]
    && (f.clientEnded ==> Upstream(f) == f.lead + f.fromClient[f.consumed..])
    && (!f.lost ==> f.toClient <= f.replies + FromPeer(f))
    && (f.peerEnded ==> f.socket.Some? && (!f.lost ==> f.toClient == f.replies + f.socket.value.received))
  }

  lemma FlowStreams(f: Flow)
    requires FlowInv(f)
    ensures Conserved(f)
  {
    if f.clientEnded {
      assert Upstream(f) + [] == Upstream(f);
    }
    if !f.lost {
      assert f.toClient <= f.toClient + f.output;
      if f.peerEnded {
        var s := f.socket.value;
        assert s.received[..s.taken] == s.received;
        assert f.toClient + [] == f.toClient;
      }
    }
  }

  /** Both streams of every flow are conserved over every run. */
  lemma StreamsConserved(setup: Setup, ticks: seq<Tick>, id: nat)
    requires AllPossible(setup, ticks) && Clients(ticks) < 0x1_0000_0000_0000_0000 && id in After(setup, ticks).flows
    ensures Conserved(After(setup, ticks).flows[id])
  {
    hide TickStep, FlowInv, Conserved, AllPossible, Clients;
    RunInv(setup, ticks);
    FlowOf(After(setup, ticks), id);
    FlowStreams(After(setup, ticks).flows[id]);
  }

  /** One connection at most, one outcome at most, and success announced when
      and only when the connection was established. */
  ghost predicate AnsweredOnce(f: Flow) {
    && f.opens <= 1 && |f.outcomes| <= 1
    && (f.state == Established ==> f.outcomes == [Succeeded])
    && (f.state != Established && f.state != Closing ==> f.outcomes == [])
  }

  /** A flow never opens a second connection nor answers its client twice. */
  lemma OneConnectionOneOutcome(setup: Setup, ticks: seq<Tick>, id: nat)
    requires AllPossible(setup, ticks) && Clients(ticks) < 0x1_0000_0000_0000_0000 && id in After(setup, ticks).flows
    ensures AnsweredOnce(After(setup, ticks).flows[id])
  {
    hide TickStep, FlowInv, AllPossible, Clients;
    RunInv(setup, ticks);
    FlowOf(After(setup, ticks), id);
    StateOf(After(setup, ticks).flows[id]);
  }

  /** The allocated ports over a run, and that no two flows share one. */
  lemma PortsOfFlows(setup: Setup, ticks: seq<Tick>)
    requires AllPossible(setup, ticks) && Clients(ticks) < 0x1_0000_0000_0000_0000
    ensures var e := After(setup, ticks);
            && e.ports == (set id | id in e.flows && e.flows[id].socket.Some? :: e.flows[id].port)
            && (forall i, j | i in e.flows && j in e.flows && i != j
                              && e.flows[i].socket.Some? && e.flows[j].socket.Some? ::
                  e.flows[i].port != e.flows[j].port)
            && forall p | p in e.ports :: p >= 49152
  {
    hide TickStep, EngineInv, AllPossible, Clients;
    RunInv(setup, ticks);
    PortsSet(After(setup, ticks));
  }

  lemma PortsSet(e: Engine)
    requires EngineInv(e)
    ensures e.ports == (set id | id in e.flows && e.flows[id].socket.Some? :: e.flows[id].port)
    ensures forall i, j | i in e.flows && j in e.flows && i != j
                          && e.flows[i].socket.Some? && e.flows[j].socket.Some? ::
              e.flows[i].port != e.flows[j].port
    ensures forall p | p in e.ports :: p >= 49152
  {
    hide UpstreamKept, DownstreamKept, EndsKept;
    forall p | p in e.ports ensures p >= 49152 && exists id :: id in e.flows && Holds(e.flows[id], p) {
      var id :| id in e.flows && Holds(e.flows[id], p);
      StateOf(e.flows[id]);
    }
  }

  /** One turn at a closing flow hands nothing on. */
  lemma ClosingEndsUpstream(f: Flow, io: PumpIo)
    requires f.state == Closing
    ensures Upstream(Pump(f, io).0) == Upstream(f) && Pump(f, io).0.input == f.input
  {
  }

  /** One turn at a flow in its handshake looks at its bytes only when more
      arrive. */
  lemma HandshakeNeedsData(f: Flow, io: PumpIo)
    requires InHandshake(f.state) && f.socket.None?
    ensures Pump(f, io).1 <==> !f.localEof && io.read.Data? && io.read.bytes != []
  {
  }
}
