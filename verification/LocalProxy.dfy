/** The local proxy as it runs (src/core/local_proxy/flow.rs and
    connections.rs): flows and tables updated in place. */
module LocalProxy {
  import opened Bytes
  import opened Wrappers
  import opened ProxySteps
  import F = ProxyFlow
  import E = ProxyEngine

  class LocalFlow {
    const protocol: F.Protocol
    var state: State
    var input: seq<byte>
    var output: seq<byte>
    var socket: Option<F.Socket>
    var port: u16
    var localEof: bool
    var mode: Option<HttpMode>
    ghost var fromClient: seq<byte>
    ghost var consumed: nat
    ghost var lead: seq<byte>
    ghost var replies: seq<byte>
    ghost var toClient: seq<byte>
    ghost var lost: bool
    ghost var outcomes: seq<F.Outcome>
    ghost var opens: nat
    ghost var clientEnded: bool
    ghost var peerEnded: bool

    ghost function Contents(): F.Flow
      reads this
    {
      F.Flow(protocol, state, input, output, socket, port, localEof, mode,
             fromClient, consumed, lead, replies, toClient, lost, outcomes, opens, clientEnded, peerEnded)
    }

    constructor (protocol: F.Protocol)
      ensures Contents() == F.NewFlow(protocol)
    {
      this.protocol := protocol;
      state := if protocol == F.Socks5 then SocksGreeting else HttpHead;
      input, output, socket, port, localEof, mode := [], [], None, 0, false, None;
      fromClient, consumed, lead, replies, toClient := [], 0, [], [], [];
      lost, outcomes, opens, clientEnded, peerEnded := false, [], 0, false, false;
    }

    method Enqueue(bytes: seq<byte>)
      modifies this
      ensures Contents() == F.Queue(old(Contents()), bytes)
    {
      output := output + bytes;
      replies := replies + bytes;
    }

    method QueueProxyError(e: ProxyError)
      modifies this
      ensures Contents() == F.QueueError(old(Contents()), e)
    {
      hide F.ErrorReply;
      Enqueue(F.ErrorReply(protocol, e));
      state := Closing;
      outcomes := outcomes + [F.Failed];
    }

    /** Gives waiting bytes to the socket. */
    method Send(n: nat)
      requires socket.Some? && n <= |input|
      modifies this
      ensures Contents() == F.Hand(old(Contents()), n)
      ensures socket.Some? && state == old(state)
    {
      socket := Some(socket.value.(accepted := socket.value.accepted + input[..n]));
      input := input[n..];
    }

    /** Moves bytes from the client to the socket; true when there are new
        handshake bytes to look at. */
    method PumpInput(io: F.PumpIo) returns (handshake: bool)
      modifies this
      ensures (Contents(), handshake) == F.Pump(old(Contents()), io)
    {
      hide F.Hand, F.ReadClient;
      if localEof {
        return false;
      }
      if socket.Some? && state == Established && input != [] {
        var count := F.Min(io.room, |input|);
        Send(F.Min(io.sent, count));
        if input != [] {
          return false;
        }
      }
      handshake := TakeRead(io);
    }

    method TakeRead(io: F.PumpIo) returns (handshake: bool)
      modifies this
      ensures (Contents(), handshake) == F.ReadClient(old(Contents()), io)
    {
      hide F.Hand, F.ClientEnd, F.ClientError;
      var maxRead := if socket.Some? then (if state == Established then io.roomLeft else 0)
                     else if F.InHandshake(state) then 16384 else 0;
      if maxRead == 0 {
        return false;
      }
      match io.read {
        case ReadBlocked => handshake := false;
        case Eof => StopReading(); handshake := false;
        case ReadFailed =>
          FailReading();
          handshake := false;
        case Data(bytes) =>
          var data := bytes[..F.Min(|bytes|, F.Min(16384, maxRead))];
          if data == [] {
            StopReading();
            return false;
          }
          input := input + data;
          fromClient := fromClient + data;
          if socket.None? {
            return true;
          }
          Send(F.Min(io.sentNew, |data|));
          handshake := false;
      }
    }

    method FailReading()
      modifies this
      ensures Contents() == F.ClientError(old(Contents()))
    {
      localEof := true;
      if socket.Some? {
        socket := Some(F.Abort(socket.value));
        state := Closing;
      }
    }

    method StopReading()
      modifies this
      ensures Contents() == F.ClientEnd(old(Contents()))
    {
      localEof := true;
      if socket.Some? {
        socket, state, clientEnded := Some(F.Close(socket.value)), Closing, true;
      }
    }

    /** Moves bytes from the socket to the client. */
    method ServiceOutputs(recvs: seq<nat>, writes: seq<F.WriteResult>)
      modifies this
      ensures Contents() == F.Serve(old(Contents()), recvs, writes)
    {
      ReceiveAll(recvs);
      WriteAll(writes);
      if socket.Some? && socket.value.state.TcpCloseWait? && !F.CanRecv(socket.value) && output == [] {
        socket := Some(F.Close(socket.value));
        state := Closing;
        peerEnded := true;
      }
    }

    method ReceiveAll(recvs: seq<nat>)
      modifies this
      ensures Contents() == F.Drain(old(Contents()), recvs)
    {
      hide F.Drain;
      ghost var goal := F.Drain(Contents(), recvs);
      var i := 0;
      assert recvs[0..] == recvs;
      while socket.Some? && i < |recvs| && F.CanRecv(socket.value) && |output| < 262144
        invariant i <= |recvs| && F.Drain(Contents(), recvs[i..]) == goal
      {
        DrainTurn(Contents(), recvs, i);
        var s := socket.value;
        var room := 262144 - |output|;
        var n := F.Min(recvs[i], F.Min(F.Min(16384, room), |s.received| - s.taken));
        if n == 0 {
          return;
        }
        ghost var next := F.Take(Contents(), n);
        output := output + s.received[s.taken..s.taken + n];
        socket := Some(s.(taken := s.taken + n));
        assert Contents() == next;
        i := i + 1;
      }
      DrainTurn(Contents(), recvs, i);
    }

    method FailWrite()
      modifies this
      ensures Contents() == F.WriteError(old(Contents()))
    {
      if socket.Some? {
        socket := Some(F.Abort(socket.value));
      }
      localEof, output, lost, state := true, [], true, Closing;
    }

    method WriteAll(writes: seq<F.WriteResult>)
      modifies this
      ensures Contents() == F.WriteOut(old(Contents()), writes)
    {
      hide F.WriteOut, F.WriteError;
      ghost var goal := F.WriteOut(Contents(), writes);
      var i := 0;
      assert writes[0..] == writes;
      while output != [] && i < |writes|
        invariant i <= |writes| && F.WriteOut(Contents(), writes[i..]) == goal
      {
        WriteTurn(Contents(), writes, i);
        match writes[i] {
          case WriteBlocked => return;
          case WriteFailed =>
            FailWrite();
            return;
          case Wrote(n) =>
            if n == 0 {
              return;
            }
            var k := F.Min(n, |output|);
            toClient := toClient + output[..k];
            output := output[k..];
            i := i + 1;
        }
      }
      WriteTurn(Contents(), writes, i);
    }
  }

  /** One turn of the loop that reads the socket. */
  lemma DrainTurn(f: F.Flow, recvs: seq<nat>, i: nat)
    requires i <= |recvs|
    ensures F.Drain(f, recvs[i..])
            == if f.socket.None? || i == |recvs| || !F.CanRecv(f.socket.value) || |f.output| >= 262144 then f
               else
                 var s := f.socket.value;
                 var n := F.Min(recvs[i], F.Min(F.Min(16384, 262144 - |f.output|), |s.received| - s.taken));
                 if n == 0 then f else F.Drain(F.Take(f, n), recvs[i + 1..])
  {
    if i < |recvs| {
      assert recvs[i..][1..] == recvs[i + 1..];
    }
  }

  /** One turn of the loop that writes to the client. */
  lemma WriteTurn(f: F.Flow, writes: seq<F.WriteResult>, i: nat)
    requires i <= |writes|
    ensures F.WriteOut(f, writes[i..])
            == if f.output == [] || i == |writes| then f
               else match writes[i]
                    case WriteBlocked => f
                    case WriteFailed => F.WriteError(f)
                    case Wrote(n) =>
                      if n == 0 then f
                      else
                        var k := F.Min(n, |f.output|);
                        F.WriteOut(f.(toClient := f.toClient + f.output[..k], output := f.output[k..]), writes[i + 1..])
  {
    if i < |writes| {
      assert writes[i..][1..] == writes[i + 1..];
    }
  }

  /** The first free port from start on, going round once. */
  method AllocatePort(taken: set<u16>, start: u16) returns (port: Option<u16>)
    ensures port == E.FreePort(taken, start)
    ensures port.None? <==> forall p: u16 | 49152 <= p :: p in taken
  {
    E.FreePortIsFirst(taken, start);
    ghost var goal := E.FreePort(taken, start);
    var candidate: u16 := if start < 49152 then 49152 else start;
    hide E.FreePort, E.PortFrom;
    assert goal == E.PortFrom(taken, candidate, E.PortCount()) by { FreePortFrom(taken, start); }
    var tries := E.PortCount();
    while tries > 0
      invariant E.PortFrom(taken, candidate, tries) == goal
    {
      PortTurn(taken, candidate, tries);
      if candidate !in taken {
        return Some(candidate);
      }
      candidate := E.NextPort(candidate);
      tries := tries - 1;
    }
    PortTurn(taken, candidate, tries);
    port := None;
  }

  lemma FreePortFrom(taken: set<u16>, start: u16)
    ensures E.FreePort(taken, start) == E.PortFrom(taken, if start < 49152 then 49152 else start, E.PortCount())
  {
  }

  lemma PortTurn(taken: set<u16>, candidate: u16, tries: nat)
    ensures E.PortFrom(taken, candidate, tries)
            == if tries == 0 then None
               else if candidate !in taken then Some(candidate)
               else E.PortFrom(taken, E.NextPort(candidate), tries - 1)
  {
  }

  lemma MapTwice(flows: map<nat, F.Flow>, id: nat, f: F.Flow, g: F.Flow)
    ensures flows[id := f][id := g] == flows[id := g]
  {
  }

  class Connections {
    const setup: E.Setup
    var flows: map<nat, F.Flow>
    var allocatedPorts: set<u16>
    var nextFlow: nat
    var nextPort: u16
    ghost var born: nat

    ghost function Contents(): E.Engine
      reads this
    {
      E.Engine(flows, allocatedPorts, nextFlow, nextPort, born)
    }

    constructor (setup: E.Setup)
      ensures Contents() == E.Start() && this.setup == setup
    {
      this.setup := setup;
      flows, allocatedPorts, nextFlow, nextPort, born := map[], {}, 1, 49152, 0;
    }

    method Accept(clients: nat)
      modifies this
      ensures Contents() == E.Accepts(old(Contents()), setup, clients)
    {
      for i := 0 to clients
        invariant Contents() == E.Accepts(old(Contents()), setup, i)
      {
        flows := flows[nextFlow := F.NewFlow(setup.protocol)];
        nextFlow := (nextFlow + 1) % 0x1_0000_0000_0000_0000;
        born := born + 1;
      }
    }

    method OpenTcpConnection(id: nat, ok: bool)
      requires id in flows
      modifies this
      ensures Contents() == E.OpenTcp(old(Contents()), id, ok)
    {
      hide F.QueueError, F.Connected, E.FreePort;
      var port := AllocatePort(allocatedPorts, nextPort);
      if port.None? {
        flows := flows[id := F.QueueError(flows[id], GeneralFailure)];
        return;
      }
      nextPort := E.NextPort(port.value);
      if ok {
        allocatedPorts := allocatedPorts + {port.value};
        flows := flows[id := F.Connected(flows[id], port.value)];
      } else {
        flows := flows[id := F.QueueError(flows[id], GeneralFailure)];
      }
    }

    method ServiceInputs(visits: seq<E.Visit>)
      modifies this
      ensures Contents() == E.Inputs(old(Contents()), setup, visits)
    {
      hide F.Pump, F.Process, E.OpenTcp;
      for i := 0 to |visits|
        invariant Contents() == E.Inputs(old(Contents()), setup, visits[..i])
      {
        var v := visits[i];
        assert visits[..i + 1][..i] == visits[..i];
        if v.id in flows {
          ghost var before := Contents();
          var pumped := F.Pump(flows[v.id], v.io);
          flows := flows[v.id := pumped.0];
          if pumped.1 {
            ProcessRequest(v.id, v.ok);
            MapTwice(before.flows, v.id, pumped.0, F.Process(setup.lib, pumped.0).0);
          }
        }
      }
      assert visits[..|visits|] == visits;
    }

    method ProcessRequest(id: nat, ok: bool)
      requires id in flows
      modifies this
      ensures var (g, wish) := F.Process(setup.lib, old(flows[id]));
              var e := E.Set(old(Contents()), id, g);
              Contents() == if wish.ConnectTo4? then E.OpenTcp(e, id, ok) else e
    {
      hide F.Process, E.OpenTcp;
      var processed := F.Process(setup.lib, flows[id]);
      flows := flows[id := processed.0];
      if processed.1.ConnectTo4? {
        OpenTcpConnection(id, ok);
      }
    }

    method HandleDns(answers: seq<E.Answer>)
      modifies this
      ensures Contents() == E.AllResolved(old(Contents()), answers)
    {
      hide E.OpenTcp, F.QueueError;
      for i := 0 to |answers|
        invariant Contents() == E.AllResolved(old(Contents()), answers[..i])
      {
        var a := answers[i];
        assert answers[..i + 1][..i] == answers[..i];
        if a.id !in flows || flows[a.id].state != Resolving {
          continue;
        }
        if a.ip.Some? {
          OpenTcpConnection(a.id, a.ok);
        } else {
          flows := flows[a.id := F.QueueError(flows[a.id], HostUnreachable)];
        }
      }
      assert answers[..|answers|] == answers;
    }

    /** The TCP stack is polled: sockets change under the flows. */
    method Poll(sockets: map<nat, F.Socket>)
      modifies this
      ensures Contents() == E.PollAll(old(Contents()), sockets)
    {
      flows := map id | id in flows :: E.Polled(flows[id], id, sockets);
    }

    method UpdateStates(elapsed: set<nat>)
      modifies this
      ensures Contents() == E.UpdateAll(old(Contents()), setup, elapsed)
    {
      hide F.Update;
      var todo := flows.Keys;
      while todo != {}
        invariant todo <= flows.Keys == old(flows).Keys
        invariant forall id | id in flows ::
                    flows[id] == if id in todo then old(flows[id])
                      else F.Update(old(flows[id]), id in elapsed, setup.innerIp)
        invariant Contents() == old(Contents()).(flows := flows)
        decreases todo
      {
        var id :| id in todo;
        flows := flows[id := F.Update(flows[id], id in elapsed, setup.innerIp)];
        todo := todo - {id};
      }
      assert flows == E.UpdateAll(old(Contents()), setup, elapsed).flows;
    }

    method ServiceOutputs(ios: map<nat, E.ServeIo>)
      modifies this
      ensures Contents() == E.ServeAll(old(Contents()), ios)
    {
      hide E.Served;
      var todo := flows.Keys;
      while todo != {}
        invariant todo <= flows.Keys == old(flows).Keys
        invariant forall id | id in flows ::
                  flows[id] == if id in todo then old(flows[id]) else E.Served(old(flows[id]), id, ios)
        invariant Contents() == old(Contents()).(flows := flows)
        decreases todo
      {
        var id :| id in todo;
        flows := flows[id := E.Served(flows[id], id, ios)];
        todo := todo - {id};
      }
      assert flows == E.ServeAll(old(Contents()), ios).flows;
    }

    method ReapDeadFlows()
      modifies this
      ensures Contents() == E.Reap(old(Contents()))
    {
      hide E.Removable;
      var dead := set id | id in flows && E.Removable(flows[id]);
      ghost var all := dead;
      while dead != {}
        invariant dead <= all
        invariant flows == old(flows) - (all - dead)
        invariant allocatedPorts == old(allocatedPorts) - set id | id in all - dead :: old(flows)[id].port
        invariant Contents() == old(Contents()).(flows := flows, ports := allocatedPorts)
        decreases dead
      {
        var id :| id in dead;
        ghost var done := all - dead;
        allocatedPorts := allocatedPorts - {flows[id].port};
        flows := flows - {id};
        dead := dead - {id};
        assert all - dead == done + {id};
      }
      assert all - dead == all;
      assert flows == E.Reap(old(Contents())).flows;
      assert allocatedPorts == E.Reap(old(Contents())).ports;
    }

    method RunTick(t: E.Tick)
      modifies this
      ensures Contents() == E.TickStep(old(Contents()), setup, t)
    {
      hide E.Inputs, E.AllResolved, E.PollAll, E.UpdateAll, E.ServeAll, E.Reap;
      Accept(t.accepts);
      ServiceInputs(t.visits);
      HandleDns(t.answers);
      Poll(t.sockets);
      UpdateStates(t.elapsed);
      ServiceOutputs(t.ios);
      ReapDeadFlows();
    }
  }
}
