/** One connection of the local proxy (src/core/local_proxy/flow.rs and the
    per-flow parts of connections.rs): a handshake, then two byte streams
    between the local client and a userspace TCP socket. The outcomes of
    reading, writing and of the TCP stack are parameters. */
module ProxyFlow {
  import opened Bytes
  import opened Wrappers
  import opened ProxySteps

  // ------------------------------------------------------- the TCP socket

  datatype TcpState =
    | TcpClosed | TcpListen | TcpSynSent | TcpSynReceived | TcpEstablished
    | TcpFinWait1 | TcpFinWait2 | TcpCloseWait | TcpClosing | TcpLastAck | TcpTimeWait

  /** The socket as the flow sees it: its state, all bytes it has taken over
      for the peer, all bytes it has received, and how many were read. */
  datatype Socket = Socket(state: TcpState, accepted: seq<byte>, received: seq<byte>, taken: nat)

  predicate Handshaking(s: TcpState) {
    s.TcpListen? || s.TcpSynSent? || s.TcpSynReceived?
  }

  /** The peer will send nothing more. */
  predicate PeerDone(s: TcpState) {
    s.TcpCloseWait? || s.TcpClosing? || s.TcpLastAck? || s.TcpTimeWait? || s.TcpClosed?
  }

  /** This side has closed its own direction. */
  predicate LocalDone(s: TcpState) {
    s.TcpFinWait1? || s.TcpFinWait2? || s.TcpClosing? || s.TcpLastAck?
  }

  predicate CanRecv(s: Socket) {
    s.taken < |s.received|
  }

  /** What the TCP stack may do to a socket while it is polled. */
  predicate NetStep(s: Socket, t: Socket) {
    && t.accepted == s.accepted && t.taken == s.taken && s.received <= t.received
    && (Handshaking(t.state) ==> Handshaking(s.state) && t.received == s.received)
    && (PeerDone(s.state) ==> PeerDone(t.state) && t.received == s.received)
    && (LocalDone(t.state) ==> LocalDone(s.state))
  }

  function Abort(s: Socket): Socket {
    s.(state := TcpClosed)
  }

  function Close(s: Socket): Socket {
    match s.state
    case TcpListen => s.(state := TcpClosed)
    case TcpSynSent => s.(state := TcpClosed)
    case TcpSynReceived => s.(state := TcpFinWait1)
    case TcpEstablished => s.(state := TcpFinWait1)
    case TcpCloseWait => s.(state := TcpLastAck)
    case _ => s
  }

  // -------------------------------------------------------------- the flow

  datatype Protocol = Socks5 | Http

  datatype Outcome = Succeeded | Failed

  /** A flow. Past the first line are records of what has happened: the bytes
      read from the client and how many of them the handshake used up, the
      rewritten head, the proxy's own replies, the bytes written to the client,
      whether a failed write dropped some, the outcomes announced, and whether
      the end of the client's or of the peer's stream was passed on. */
  datatype Flow = Flow(
    protocol: Protocol, state: State, input: seq<byte>, output: seq<byte>, socket: Option<Socket>, port: u16,
    localEof: bool, mode: Option<HttpMode>,
    fromClient: seq<byte>, consumed: nat, lead: seq<byte>, replies: seq<byte>, toClient: seq<byte>, lost: bool,
    outcomes: seq<Outcome>, opens: nat, clientEnded: bool, peerEnded: bool)

  function NewFlow(protocol: Protocol): Flow {
    Flow(protocol, if protocol == Socks5 then SocksGreeting else HttpHead, [], [], None, 0, false, None,
         [], 0, [], [], [], false, [], 0, false, false)
  }

  predicate InHandshake(s: State) {
    s == SocksGreeting || s == SocksRequest || s == HttpHead
  }

  function Rank(s: State): nat {
    match s
    case SocksGreeting => 0
    case SocksRequest => 1
    case HttpHead => 1
    case Resolving => 2
    case Connecting => 3
    case Established => 4
    case Closing => 5
  }

  /** The bytes given to the TCP socket, and the peer's bytes taken from it. */
  function Upstream(f: Flow): seq<byte> {
    if f.socket.Some? then f.socket.value.accepted else []
  }

  function FromPeer(f: Flow): seq<byte> {
    if f.socket.Some? && f.socket.value.taken <= |f.socket.value.received|
    then f.socket.value.received[..f.socket.value.taken] else []
  }

  // ------------------------------------------------- client to TCP socket

  datatype ReadResult = Eof | Data(bytes: seq<byte>) | ReadBlocked | ReadFailed

  /** The answers one call of pump_input gets: room in the send buffer and how
      much of the backlog it takes, the room left, what reading the client
      gives, and how much of that is taken. */
  datatype PumpIo = PumpIo(room: nat, sent: nat, roomLeft: nat, read: ReadResult, sentNew: nat)

  function Min(a: nat, b: nat): nat {
    if a <= b then a else b
  }

  /** Hands the first n waiting bytes to the socket. */
  function Hand(f: Flow, n: nat): Flow
    requires f.socket.Some? && n <= |f.input|
  {
    f.(socket := Some(f.socket.value.(accepted := f.socket.value.accepted + f.input[..n])), input := f.input[n..])
  }

  function Backlog(f: Flow, io: PumpIo): Flow {
    if f.socket.Some? && f.state == Established && f.input != []
    then Hand(f, Min(io.sent, Min(io.room, |f.input|))) else f
  }

  function MaxRead(f: Flow, io: PumpIo): nat {
    if f.socket.Some? then (if f.state == Established then io.roomLeft else 0)
    else if InHandshake(f.state) then 16384 else 0
  }

  function Pump(f: Flow, io: PumpIo): (Flow, bool) {
    if f.localEof then (f, false)
    else
      var g := Backlog(f, io);
      if g.socket.Some? && g.state == Established && g.input != [] then (g, false)
      else ReadClient(g, io)
  }

  /** One read from the client, when there is anywhere to put what it gives;
      says whether there are new handshake bytes. */
  function ReadClient(g: Flow, io: PumpIo): (Flow, bool) {
    if MaxRead(g, io) == 0 then (g, false)
    else
      match io.read
      case ReadBlocked => (g, false)
      case Eof => (ClientEnd(g), false)
      case ReadFailed => (ClientError(g), false)
      case Data(bytes) =>
        var data := bytes[..Min(|bytes|, Min(16384, MaxRead(g, io)))];
        if data == [] then (ClientEnd(g), false)
        else
          var h := g.(input := g.input + data, fromClient := g.fromClient + data);
          if h.socket.None? then (h, true) else (Hand(h, Min(io.sentNew, |data|)), false)
  }

  /** The client's stream has ended: the socket is closed in its turn. */
  function ClientEnd(f: Flow): Flow {
    if f.socket.None? then f.(localEof := true)
    else f.(localEof := true, socket := Some(Close(f.socket.value)), state := Closing, clientEnded := true)
  }

  function ClientError(f: Flow): Flow {
    if f.socket.None? then f.(localEof := true)
    else f.(localEof := true, socket := Some(Abort(f.socket.value)), state := Closing)
  }

  // ------------------------------------------------- TCP socket to client

  datatype WriteResult = Wrote(n: nat) | WriteBlocked | WriteFailed

  /** Takes n of the peer's bytes. */
  function Take(f: Flow, n: nat): Flow
    requires f.socket.Some? && f.socket.value.taken + n <= |f.socket.value.received|
  {
    var s := f.socket.value;
    f.(socket := Some(s.(taken := s.taken + n)), output := f.output + s.received[s.taken..s.taken + n])
  }

  /** Reads the socket up to the write limit; recvs says how much each read
      gives. */
  function Drain(f: Flow, recvs: seq<nat>): Flow
    decreases |recvs|
  {
    if f.socket.None? || recvs == [] || !CanRecv(f.socket.value) || |f.output| >= 262144 then f
    else
      var s := f.socket.value;
      var n := Min(recvs[0], Min(Min(16384, 262144 - |f.output|), |s.received| - s.taken));
      if n == 0 then f else Drain(Take(f, n), recvs[1..])
  }

  function WriteError(f: Flow): Flow {
    f.(localEof := true, socket := if f.socket.Some? then Some(Abort(f.socket.value)) else None,
       output := [], lost := true, state := Closing)
  }

  function WriteOut(f: Flow, writes: seq<WriteResult>): Flow
    decreases |writes|
  {
    if f.output == [] || writes == [] then f
    else
      match writes[0]
      case WriteBlocked => f
      case WriteFailed => WriteError(f)
      case Wrote(n) =>
        if n == 0 then f
        else
          var k := Min(n, |f.output|);
          WriteOut(f.(toClient := f.toClient + f.output[..k], output := f.output[k..]), writes[1..])
  }

  /** Passes the peer's end of stream on once everything is written. */
  function PeerEnd(f: Flow): Flow {
    if f.socket.Some? && f.socket.value.state.TcpCloseWait? && !CanRecv(f.socket.value) && f.output == []
    then f.(socket := Some(Close(f.socket.value)), state := Closing, peerEnded := true)
    else f
  }

  function Serve(f: Flow, recvs: seq<nat>, writes: seq<WriteResult>): Flow {
    PeerEnd(WriteOut(Drain(f, recvs), writes))
  }

  // ----------------------------------------------------- the proxy's replies

  function Queue(f: Flow, bytes: seq<byte>): Flow {
    f.(output := f.output + bytes, replies := f.replies + bytes)
  }

  function SocksCode(e: ProxyError): byte {
    match e
    case GeneralFailure => 1
    case HostUnreachable => 4
    case GatewayTimeout => 4
    case ConnectionRefused => 5
    case CommandNotSupported => 7
    case AddressNotSupported => 8
    case BadRequest => 8
  }

  function HttpStatus(e: ProxyError): seq<byte> {
    match e
    case GatewayTimeout => Ascii("504 Gateway Timeout")
    case CommandNotSupported => Ascii("501 Not Implemented")
    case AddressNotSupported => Ascii("501 Not Implemented")
    case BadRequest => Ascii("400 Bad Request")
    case _ => Ascii("502 Bad Gateway")
  }

  function ErrorReply(p: Protocol, e: ProxyError): seq<byte> {
    match p
    case Socks5 => [5, SocksCode(e), 0, 1, 0, 0, 0, 0, 0, 0]
    case Http => Ascii("HTTP/1.1 ") + HttpStatus(e) + [CR, LF] + Ascii("Content-Length: 0") + [CR, LF]
                 + Ascii("Connection: close") + [CR, LF, CR, LF]
  }

  function QueueError(f: Flow, e: ProxyError): Flow {
    Queue(f, ErrorReply(f.protocol, e)).(state := Closing, outcomes := f.outcomes + [Failed])
  }

  function SuccessReply(f: Flow, innerIp: u32): seq<byte> {
    match f.protocol
    case Socks5 => [5, 0, 0, 1] + BE32(innerIp) + BE16(f.port)
    case Http => if f.mode == Some(ByConnect) then Ascii("HTTP/1.1 200 Connection Established\r\n\r\n") else []
  }

  /** What the socket's state means for a flow waiting for its connection. */
  function Update(f: Flow, elapsed: bool, innerIp: u32): Flow {
    if f.socket.None? || f.state != Connecting then f
    else
      var s := f.socket.value;
      if s.state.TcpEstablished? then
        Queue(f, SuccessReply(f, innerIp)).(state := Established, outcomes := f.outcomes + [Succeeded])
      else if s.state.TcpClosed? || s.state.TcpCloseWait? || s.state.TcpTimeWait? then QueueError(f, ConnectionRefused)
      else if elapsed then QueueError(f.(socket := Some(Abort(s))), GatewayTimeout)
      else f
  }

  // ---------------------------------------------------------- the handshake

  function NextStep(lib: Library, f: Flow): Step {
    match f.state
    case SocksGreeting => Greeting(f.input)
    case SocksRequest => SocksConnect(lib, f.input)
    case HttpHead => HttpRequest(lib, f.input)
    case _ => Wait
  }

  datatype Wish = Nothing | Resolve(name: seq<byte>, port: u16) | ConnectTo4(ip: seq<byte>, port: u16)

  /** Uses up the first n waiting bytes. */
  function Consume(f: Flow, n: nat): Flow
    requires n <= |f.input|
  {
    f.(input := f.input[n..], consumed := f.consumed + n)
  }

  lemma StepFits(lib: Library, f: Flow)
    ensures var step := NextStep(lib, f);
            && (step.Reply? ==> step.consumed <= |f.input|)
            && (step.Open? ==> step.consumed <= |f.input|)
  {
    hide ParseHead, FindHeaderEnd;
    match f.state {
      case SocksGreeting => if Greeting(f.input) != Wait { GreetingStable(f.input, []); }
      case SocksRequest => if SocksConnect(lib, f.input) != Wait { SocksConnectStable(lib, f.input, []); }
      case HttpHead => if FindHeaderEnd(f.input).Some? { HttpRequestStable(lib, f.input, []); }
      case _ =>
    }
  }

  /** Puts the rewritten head, if there is one, before what is left. */
  function Led(f: Flow, rewritten: Option<seq<byte>>, mode: Option<HttpMode>): Flow {
    var g := match rewritten
             case None => f
             case Some(head) => f.(input := head + f.input, lead := head);
    if mode.Some? then g.(mode := mode) else g
  }

  /** Where a flow with its request read goes from here. */
  function Aim(lib: Library, f: Flow, target: Target, port: u16): (Flow, Wish) {
    match target
    case Address(ip) => (f, ConnectTo4(ip, port))
    case Text(name) =>
      if lib.ipv4(name).Some? then (f, ConnectTo4(lib.ipv4(name).value, port))
      else if COLON in name then (QueueError(f, AddressNotSupported), Nothing)
      else (f.(state := Resolving), Resolve(name, port))
  }

  /** Applies what the handshake bytes ask for, short of connecting. */
  function Process(lib: Library, f: Flow): (Flow, Wish) {
    StepFits(lib, f);
    match NextStep(lib, f)
    case Wait => (f, Nothing)
    case Fail(error) => (QueueError(f, error), Nothing)
    case Reply(bytes, consumed, next) =>
      var g := Queue(Consume(f, consumed), bytes);
      (g.(state := next, outcomes := f.outcomes + if next == Closing then [Failed] else []), Nothing)
    case Open(target, port, consumed, mode, rewritten) =>
      Aim(lib, Led(Consume(f, consumed), rewritten, mode), target, port)
  }

  /** A socket for the flow, bound to a local port. */
  function Connected(f: Flow, port: u16): Flow {
    f.(socket := Some(Socket(TcpSynSent, [], [], 0)), port := port, state := Connecting, opens := f.opens + 1)
  }

  // ------------------------------------------------------------- invariant

  /** The client's bytes after the handshake follow the rewritten head, if any,
      into the socket; what is not there yet waits. */
  ghost predicate UpstreamKept(f: Flow) {
    f.consumed <= |f.fromClient| && Upstream(f) + f.input == f.lead + f.fromClient[f.consumed..]
  }

  /** The client gets the proxy's replies and then the peer's bytes, in order,
      unless a write to it failed. */
  ghost predicate DownstreamKept(f: Flow) {
    !f.lost ==> f.toClient + f.output == f.replies + FromPeer(f)
  }

  /** The two ends of stream are passed on only when everything before them
      has been. */
  ghost predicate EndsKept(f: Flow) {
    && (f.clientEnded ==> f.state == Closing && f.input == [])
    && (f.peerEnded ==> f.state == Closing && f.socket.Some? && PeerDone(f.socket.value.state)
                        && f.output == [] && !CanRecv(f.socket.value))
  }

  ghost predicate StateKept(f: Flow) {
    && f.opens == (if f.socket.Some? then 1 else 0)
    && (if f.socket.Some? then f.port >= 49152 else f.port == 0)
    && (InHandshake(f.state) || f.state == Resolving ==> f.socket.None?)
    && (InHandshake(f.state) ==> f.lead == [])
    && (f.state == Connecting || f.state == Established ==> f.socket.Some?)
    && (f.socket.Some? ==> f.socket.value.taken <= |f.socket.value.received|)
    && (f.socket.Some? && Handshaking(f.socket.value.state) ==> f.socket.value.received == [])
    && (f.state == Connecting ==> f.socket.value.taken == 0 && !LocalDone(f.socket.value.state))
    && (f.state == Established ==> f.outcomes == [Succeeded])
    && (Rank(f.state) < 4 ==> f.outcomes == [])
    && |f.outcomes| <= 1
  }

  ghost predicate FlowInv(f: Flow) {
    UpstreamKept(f) && DownstreamKept(f) && EndsKept(f) && StateKept(f)
  }

  /** A flow goes forward only: its rank, its records and its choice of port
      and outcome. */
  ghost predicate Forward(f: Flow, g: Flow) {
    && Rank(f.state) <= Rank(g.state)
    && f.fromClient <= g.fromClient && f.toClient <= g.toClient && f.outcomes <= g.outcomes
    && Upstream(f) <= Upstream(g)
    && f.opens <= g.opens && (f.socket.Some? ==> g.socket.Some? && g.port == f.port)
    && f.protocol == g.protocol && (f.lost ==> g.lost)
  }

  lemma NewFlowInv(protocol: Protocol)
    ensures FlowInv(NewFlow(protocol))
  {
  }

  /** Whether the flow's state has caught up with its socket's. */
  predicate Settled(f: Flow) {
    f.state == Connecting && f.socket.Some? ==> Handshaking(f.socket.value.state)
  }

  // --------------------------------------------------- every step keeps it

  lemma HandKeeps(f: Flow, n: nat)
    requires FlowInv(f) && f.state == Established && n <= |f.input|
    ensures FlowInv(Hand(f, n)) && Forward(f, Hand(f, n))
  {
    assert f.input == f.input[..n] + f.input[n..];
  }

  lemma ClientEndKeeps(f: Flow)
    requires FlowInv(f) && (f.socket.Some? ==> f.state == Established && f.input == [])
    ensures FlowInv(ClientEnd(f)) && Forward(f, ClientEnd(f))
  {
  }

  lemma ClientErrorKeeps(f: Flow)
    requires FlowInv(f) && (f.socket.Some? ==> f.state == Established)
    ensures FlowInv(ClientError(f)) && Forward(f, ClientError(f))
  {
  }

  lemma ReadKeeps(f: Flow, data: seq<byte>)
    requires FlowInv(f) && f.state != Closing
    ensures var g := f.(input := f.input + data, fromClient := f.fromClient + data); FlowInv(g) && Forward(f, g)
  {
    assert (f.fromClient + data)[f.consumed..] == f.fromClient[f.consumed..] + data;
    assert Upstream(f) + (f.input + data) == (Upstream(f) + f.input) + data;
  }

  lemma ForwardTransitive(f: Flow, g: Flow, h: Flow)
    requires Forward(f, g) && Forward(g, h)
    ensures Forward(f, h)
  {
  }

  lemma PumpKeeps(f: Flow, io: PumpIo)
    requires FlowInv(f)
    ensures FlowInv(Pump(f, io).0) && Forward(f, Pump(f, io).0)
    ensures Pump(f, io).1 ==> InHandshake(Pump(f, io).0.state)
  {
    hide UpstreamKept, DownstreamKept, EndsKept, FlowInv, Forward, Hand, ClientEnd, ClientError;
    ForwardSelf(f);
    if !f.localEof {
      var g := Backlog(f, io);
      assert FlowInv(g) && Forward(f, g) && g.state == f.state && (g.socket.Some? <==> f.socket.Some?)
             && (f.socket.None? ==> g == f) by {
        BacklogKeeps(f, io);
      }
      StateOf(g);
      if !(g.socket.Some? && g.state == Established && g.input != []) && MaxRead(g, io) != 0 {
        ClientEndKeeps(g);
        ClientErrorKeeps(g);
        match io.read {
          case ReadBlocked =>
          case Eof => ForwardTransitive(f, g, ClientEnd(g));
          case ReadFailed => ForwardTransitive(f, g, ClientError(g));
          case Data(bytes) =>
            var data := bytes[..Min(|bytes|, Min(16384, MaxRead(g, io)))];
            if data == [] {
              ForwardTransitive(f, g, ClientEnd(g));
            } else {
              ReadKeeps(g, data);
              var h := g.(input := g.input + data, fromClient := g.fromClient + data);
              ForwardTransitive(f, g, h);
              if h.socket.Some? {
                HandKeeps(h, Min(io.sentNew, |data|));
                ForwardTransitive(f, h, Hand(h, Min(io.sentNew, |data|)));
              }
            }
        }
      }
    }
  }

  lemma StateOf(f: Flow)
    requires FlowInv(f)
    ensures StateKept(f)
  {
  }

  lemma ForwardSelf(f: Flow)
    ensures Forward(f, f)
  {
  }

  lemma BacklogKeeps(f: Flow, io: PumpIo)
    requires FlowInv(f)
    ensures var g := Backlog(f, io);
            FlowInv(g) && Forward(f, g) && g.state == f.state && (g.socket.Some? <==> f.socket.Some?)
              && (f.socket.None? ==> g == f)
  {
    if f.socket.Some? && f.state == Established && f.input != [] {
      HandKeeps(f, Min(io.sent, Min(io.room, |f.input|)));
    }
  }

  lemma TakenBytes(f: Flow, n: nat)
    requires f.socket.Some? && f.socket.value.taken + n <= |f.socket.value.received|
    ensures var s := f.socket.value;
            FromPeer(Take(f, n)) == FromPeer(f) + s.received[s.taken..s.taken + n]
  {
  }

  lemma TakeDownstream(f: Flow, n: nat)
    requires DownstreamKept(f) && f.socket.Some? && f.socket.value.taken + n <= |f.socket.value.received|
    ensures DownstreamKept(Take(f, n))
  {
    TakenBytes(f, n);
    var more := f.socket.value.received[f.socket.value.taken..f.socket.value.taken + n];
    hide FromPeer;
    assert f.toClient + (f.output + more) == (f.toClient + f.output) + more;
    assert f.replies + (FromPeer(f) + more) == (f.replies + FromPeer(f)) + more;
  }

  lemma TakeKeeps(f: Flow, n: nat)
    requires FlowInv(f) && f.socket.Some? && f.state != Connecting && !f.peerEnded
    requires f.socket.value.taken + n <= |f.socket.value.received|
    ensures FlowInv(Take(f, n)) && Forward(f, Take(f, n))
  {
    TakeDownstream(f, n);
    hide DownstreamKept;
  }

  lemma {:induction false} DrainKeeps(f: Flow, recvs: seq<nat>)
    requires FlowInv(f) && Settled(f)
    ensures FlowInv(Drain(f, recvs)) && Forward(f, Drain(f, recvs)) && Settled(Drain(f, recvs))
    decreases |recvs|
  {
    ForwardSelf(f);
    if !(f.socket.None? || recvs == [] || !CanRecv(f.socket.value) || |f.output| >= 262144) {
      var s := f.socket.value;
      var n := Min(recvs[0], Min(Min(16384, 262144 - |f.output|), |s.received| - s.taken));
      if n != 0 {
        assert f.state != Connecting && !f.peerEnded;
        hide UpstreamKept, DownstreamKept, EndsKept, StateKept, FlowInv, Forward;
        TakeKeeps(f, n);
        DrainKeeps(Take(f, n), recvs[1..]);
        ForwardTransitive(f, Take(f, n), Drain(f, recvs));
      }
    }
  }

  /** However much the peer sends, what waits for the client stays within the
      write limit, unless replies alone exceed it. */
  lemma {:induction false} OutputBounded(f: Flow, recvs: seq<nat>)
    ensures |Drain(f, recvs).output| <= if |f.output| < 262144 then 262144 else |f.output|
    decreases |recvs|
  {
    if !(f.socket.None? || recvs == [] || !CanRecv(f.socket.value) || |f.output| >= 262144) {
      var s := f.socket.value;
      var n := Min(recvs[0], Min(Min(16384, 262144 - |f.output|), |s.received| - s.taken));
      if n != 0 { OutputBounded(Take(f, n), recvs[1..]); }
    }
  }

  lemma WriteErrorKeeps(f: Flow)
    requires FlowInv(f)
    ensures FlowInv(WriteError(f)) && Forward(f, WriteError(f))
  {
  }

  lemma WrittenKeeps(f: Flow, k: nat)
    requires FlowInv(f) && k <= |f.output|
    ensures var g := f.(toClient := f.toClient + f.output[..k], output := f.output[k..]); FlowInv(g) && Forward(f, g)
  {
    assert f.toClient + f.output == (f.toClient + f.output[..k]) + f.output[k..];
  }

  lemma {:induction false} WriteOutKeeps(f: Flow, writes: seq<WriteResult>)
    requires FlowInv(f)
    ensures FlowInv(WriteOut(f, writes)) && Forward(f, WriteOut(f, writes))
    decreases |writes|
  {
    hide FlowInv, Forward;
    ForwardSelf(f);
    if f.output != [] && writes != [] {
      match writes[0] {
        case WriteBlocked =>
        case WriteFailed => WriteErrorKeeps(f);
        case Wrote(n) =>
          if n != 0 {
            var k := Min(n, |f.output|);
            WrittenKeeps(f, k);
            var g := f.(toClient := f.toClient + f.output[..k], output := f.output[k..]);
            WriteOutKeeps(g, writes[1..]);
            ForwardTransitive(f, g, WriteOut(f, writes));
          }
      }
    }
  }

  lemma PeerEndKeeps(f: Flow)
    requires FlowInv(f)
    ensures FlowInv(PeerEnd(f)) && Forward(f, PeerEnd(f))
  {
    if PeerEnd(f) != f {
      ClosedFromWait(f.socket.value);
      hide Close;
      var g := PeerEnd(f);
      assert FromPeer(g) == FromPeer(f) && Upstream(g) == Upstream(f);
      hide FromPeer, Upstream;
    }
  }

  lemma ClosedFromWait(s: Socket)
    requires s.state.TcpCloseWait?
    ensures Close(s) == s.(state := TcpLastAck)
  {
  }

  lemma ServeKeeps(f: Flow, recvs: seq<nat>, writes: seq<WriteResult>)
    requires FlowInv(f) && Settled(f)
    ensures FlowInv(Serve(f, recvs, writes)) && Forward(f, Serve(f, recvs, writes))
  {
    hide FlowInv, Forward, Drain, WriteOut, PeerEnd, Settled;
    var g := Drain(f, recvs);
    var h := WriteOut(g, writes);
    DrainKeeps(f, recvs);
    WriteOutKeeps(g, writes);
    PeerEndKeeps(h);
    ForwardTransitive(f, g, h);
    ForwardTransitive(f, h, PeerEnd(h));
  }

  lemma QueueKeeps(f: Flow, bytes: seq<byte>)
    requires FlowInv(f) && Rank(f.state) < 4
    ensures FlowInv(Queue(f, bytes)) && Forward(f, Queue(f, bytes))
  {
    assert FromPeer(f) == [];
    if !f.lost {
      assert f.toClient + (f.output + bytes) == (f.toClient + f.output) + bytes;
      assert f.replies + FromPeer(f) == f.replies && f.replies + bytes + FromPeer(f) == f.replies + bytes;
    }
  }

  lemma QueueErrorKeeps(f: Flow, e: ProxyError)
    requires FlowInv(f) && Rank(f.state) < 4
    ensures FlowInv(QueueError(f, e)) && Forward(f, QueueError(f, e))
  {
    hide ErrorReply;
    QueueKeeps(f, ErrorReply(f.protocol, e));
  }

  lemma UpdateKeeps(f: Flow, elapsed: bool, innerIp: u32)
    requires FlowInv(f)
    ensures var g := Update(f, elapsed, innerIp); FlowInv(g) && Forward(f, g) && Settled(g)
    ensures Update(f, elapsed, innerIp).state == Established
       <==> f.state == Established || (f.state == Connecting && f.socket.value.state.TcpEstablished?)
  {
    hide ErrorReply, SuccessReply, QueueError, FlowInv, Forward;
    ForwardSelf(f);
    if f.state == Connecting {
      ConnectingSocket(f);
      SuccessKeeps(f, SuccessReply(f, innerIp));
      QueueErrorKeeps(f, ConnectionRefused);
      ErrorCloses(f, ConnectionRefused);
      var g := f.(socket := Some(Abort(f.socket.value)));
      AbortKeeps(f);
      QueueErrorKeeps(g, GatewayTimeout);
      ErrorCloses(g, GatewayTimeout);
      ForwardTransitive(f, g, QueueError(g, GatewayTimeout));
    }
  }

  lemma ConnectingSocket(f: Flow)
    requires FlowInv(f) && f.state == Connecting
    ensures f.socket.Some? && !LocalDone(f.socket.value.state)
  {
  }

  lemma SuccessKeeps(f: Flow, bytes: seq<byte>)
    requires FlowInv(f) && f.state == Connecting
    ensures var g := Queue(f, bytes).(state := Established, outcomes := f.outcomes + [Succeeded]);
            FlowInv(g) && Forward(f, g)
  {
    QueueKeeps(f, bytes);
  }

  lemma AbortKeeps(f: Flow)
    requires FlowInv(f) && f.state == Connecting
    ensures var g := f.(socket := Some(Abort(f.socket.value))); FlowInv(g) && Forward(f, g)
  {
  }

  lemma ErrorCloses(f: Flow, e: ProxyError)
    ensures QueueError(f, e).state == Closing
  {
  }

  lemma ConsumeKeeps(f: Flow, n: nat)
    requires FlowInv(f) && InHandshake(f.state) && n <= |f.input|
    ensures FlowInv(Consume(f, n)) && Forward(f, Consume(f, n))
  {
    assert [] + f.input == f.input && [] + f.fromClient[f.consumed..] == f.fromClient[f.consumed..];
    assert f.fromClient[f.consumed + n..] == f.fromClient[f.consumed..][n..];
  }

  lemma ReplyKeeps(lib: Library, f: Flow)
    requires FlowInv(f) && NextStep(lib, f).Reply?
    ensures FlowInv(Process(lib, f).0) && Forward(f, Process(lib, f).0)
  {
    hide ParseHead, FindHeaderEnd;
    StepFits(lib, f);
    var step := NextStep(lib, f);
    assert f.state == SocksGreeting;
    var g := Consume(f, step.consumed);
    ConsumeKeeps(f, step.consumed);
    QueueKeeps(g, step.bytes);
  }

  /** A flow that is about to connect, as if it had been resolving. */
  function Pending(f: Flow): Flow {
    f.(state := Resolving)
  }

  /** The rewritten head goes in front of what is left. */
  lemma LeadUpstream(f: Flow, head: seq<byte>)
    requires UpstreamKept(f) && f.lead == [] && f.socket.None?
    ensures UpstreamKept(f.(input := head + f.input, lead := head))
  {
    assert [] + f.input == f.input && [] + f.fromClient[f.consumed..] == f.fromClient[f.consumed..];
    assert [] + (head + f.input) == head + f.input;
  }

  lemma LedKeeps(f: Flow, rewritten: Option<seq<byte>>, mode: Option<HttpMode>)
    requires FlowInv(f) && InHandshake(f.state)
    ensures FlowInv(Pending(Led(f, rewritten, mode))) && Forward(f, Pending(Led(f, rewritten, mode)))
  {
    if rewritten.Some? {
      var g := f.(input := rewritten.value + f.input, lead := rewritten.value);
      assert UpstreamKept(g) by { LeadUpstream(f, rewritten.value); }
      SameUpstream(g, Pending(Led(f, rewritten, mode)));
    } else {
      SameUpstream(f, Pending(Led(f, rewritten, mode)));
    }
    hide UpstreamKept;
  }

  lemma SameUpstream(f: Flow, g: Flow)
    requires UpstreamKept(f)
    requires g.input == f.input && g.lead == f.lead && g.fromClient == f.fromClient && g.consumed == f.consumed
             && g.socket == f.socket
    ensures UpstreamKept(g)
  {
  }

  lemma Decides(lib: Library, f: Flow)
    requires NextStep(lib, f) != Wait
    ensures InHandshake(f.state)
  {
  }

  lemma AimKeeps(lib: Library, f: Flow, target: Target, port: u16)
    requires FlowInv(Pending(f))
    ensures var (g, wish) := Aim(lib, f, target, port);
            if wish.ConnectTo4? then g == f else FlowInv(g) && Forward(Pending(f), g)
  {
    hide FlowInv, Forward, ErrorReply;
    QueueErrorKeeps(Pending(f), AddressNotSupported);
    assert QueueError(f, AddressNotSupported) == QueueError(Pending(f), AddressNotSupported);
    ForwardSelf(Pending(f));
  }

  lemma OpenKeeps(lib: Library, f: Flow)
    requires FlowInv(f) && NextStep(lib, f).Open?
    ensures var (g, wish) := Process(lib, f);
            if wish.ConnectTo4? then FlowInv(Pending(g)) && Forward(f, Pending(g))
            else FlowInv(g) && Forward(f, g)
  {
    hide NextStep, FlowInv, Forward, Aim, Led, Consume;
    StepFits(lib, f);
    Decides(lib, f);
    var step := NextStep(lib, f);
    var g := Consume(f, step.consumed);
    ConsumeKeeps(f, step.consumed);
    ConsumeState(f, step.consumed);
    LedKeeps(g, step.rewritten, step.mode);
    var k := Led(g, step.rewritten, step.mode);
    ForwardTransitive(f, g, Pending(k));
    AimKeeps(lib, k, step.target, step.port);
    var aimed := Aim(lib, k, step.target, step.port);
    if !aimed.1.ConnectTo4? {
      ForwardTransitive(f, Pending(k), aimed.0);
    }
  }

  lemma ConsumeState(f: Flow, n: nat)
    requires n <= |f.input|
    ensures Consume(f, n).state == f.state
  {
  }

  /** Handling the handshake bytes keeps the invariant, taking a flow that now
      wants a connection as resolving. */
  lemma ProcessKeeps(lib: Library, f: Flow)
    requires FlowInv(f)
    ensures var (g, wish) := Process(lib, f);
            if wish.ConnectTo4? then FlowInv(Pending(g)) && Forward(f, Pending(g))
            else FlowInv(g) && Forward(f, g)
  {
    var step := NextStep(lib, f);
    if step.Reply? {
      ReplyKeeps(lib, f);
      Replies(lib, f);
    } else if step.Open? {
      OpenKeeps(lib, f);
    } else {
      hide NextStep, FlowInv, Forward, ErrorReply;
      ForwardSelf(f);
      if step.Fail? {
        Decides(lib, f);
        QueueErrorKeeps(f, step.error);
      }
    }
  }

  lemma Replies(lib: Library, f: Flow)
    requires NextStep(lib, f).Reply?
    ensures Process(lib, f).1 == Nothing
  {
  }

  /** Connecting a flow that was resolving. */
  lemma ConnectedKeeps(f: Flow, port: u16)
    requires FlowInv(f) && f.state == Resolving && port >= 49152
    ensures FlowInv(Connected(f, port)) && Forward(f, Connected(f, port))
  {
    assert Upstream(f) == [] && Upstream(Connected(f, port)) == [] && FromPeer(Connected(f, port)) == [];
  }

  /** Polling the TCP stack keeps the invariant. */
  lemma NetStepKeeps(f: Flow, t: Socket)
    requires FlowInv(f) && f.socket.Some? && NetStep(f.socket.value, t)
    ensures FlowInv(f.(socket := Some(t))) && Forward(f, f.(socket := Some(t)))
  {
    var s := f.socket.value;
    assert t.received[..s.taken] == s.received[..s.taken];
  }
}
