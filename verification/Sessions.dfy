/** The server's address pool and session table (src/bin/server/session.rs)
    and the order in which the OPEN handler drives it
    (src/bin/server/handler.rs, handle_open). */
module Sessions {
  import opened Bytes
  import opened Wrappers

  type ipv6 = x: int | 0 <= x < IPV6_SPACE

  const IPV6_SPACE: int := 0x1_0000_0000_0000_0000_0000_0000_0000_0000
  const SIDS: int := 0x1_0000
  const MAX_U32: int := 0xFFFF_FFFF

  datatype Session = Session(
    sid: u16, token: u32, addr: nat, ip: u32, ip6: ipv6,
    xorKey: seq<byte>, aesKey: seq<byte>, enc: byte, srlink: Option<u32>, lastSeen: nat)

  datatype Pool = Pool(
    sessions: map<u16, Session>,
    free4: seq<u32>, free6: seq<ipv6>,
    next4: u32, next6: u32, last4: u32,
    maxSessions: nat)

  // ------------------------------------------------------- single operations

  function SatAdd(a: u32, b: u32): u32 {
    if (a as int) + b > MAX_U32 then MAX_U32 else (a as int) + b
  }

  function SatSub(a: u32, b: u32): u32 {
    if b > a then 0 else a - b
  }

  /** The address with its low n bits cleared: the network address. */
  function ClearLow(a: nat, n: nat): (r: nat)
    ensures r <= a
  {
    if n == 0 then a else 2 * ClearLow(a / 2, n - 1)
  }

  /** The address with its low n bits set: the broadcast address. */
  function SetLow(a: nat, n: nat): (r: nat)
    ensures r == ClearLow(a, n) + Pow2(n) - 1
  {
    if n == 0 then a else 2 * SetLow(a / 2, n - 1) + 1
  }

  lemma {:induction false} SetLowBound(a: nat, n: nat, width: nat)
    requires n <= width && a < Pow2(width)
    ensures SetLow(a, n) < Pow2(width)
  {
    if n > 0 {
      SetLowBound(a / 2, n - 1, width - 1);
    }
  }

  lemma Pow2At32()
    ensures Pow2(32) == 0x1_0000_0000
  {
    assert Pow2(8) == 0x100 && Pow2(16) == 0x1_0000 && Pow2(24) == 0x100_0000;
  }

  function NewPool(maxSessions: nat, subnet: u32, prefix: nat): Pool
    requires prefix <= 32
  {
    Pow2At32();
    SetLowBound(subnet, 32 - prefix, 32);
    var network: u32 := ClearLow(subnet, 32 - prefix);
    var broadcast: u32 := SetLow(subnet, 32 - prefix);
    Pool(map[], [], [], SatAdd(network, 2), 1, SatSub(broadcast, 1), maxSessions)
  }

  function AllocateIpv4(p: Pool): (Pool, Option<u32>) {
    if p.free4 != [] then
      (p.(free4 := p.free4[..|p.free4| - 1]), Some(p.free4[|p.free4| - 1]))
    else if p.next4 > p.last4 then (p, None)
    else (p.(next4 := SatAdd(p.next4, 1)), Some(p.next4))
  }

  /** A client may name its own IPv6 address; it is taken as it is. */
  function AllocateIpv6(p: Pool, requested: Option<ipv6>, server: ipv6): (Pool, ipv6) {
    if requested.Some? then (p, requested.value)
    else if p.free6 != [] then
      (p.(free6 := p.free6[..|p.free6| - 1]), p.free6[|p.free6| - 1])
    else (p.(next6 := SatAdd(p.next6, 1)), Offset6(server, p.next6))
  }

  /** Addition of 128-bit addresses, wrapping as the release build does. */
  function Offset6(server: ipv6, n: int): ipv6
    requires 0 <= n
  {
    ((server as int) + n) % 0x1_0000_0000_0000_0000_0000_0000_0000_0000
  }

  function ReleaseIpv4(p: Pool, ip: u32): Pool {
    p.(free4 := p.free4 + [ip])
  }

  function ReleaseIpv6(p: Pool, ip: ipv6): Pool {
    p.(free6 := p.free6 + [ip])
  }

  datatype Refusal = CapacityReached | SidCollision

  function Insert(p: Pool, s: Session): (Pool, Option<Refusal>) {
    if |p.sessions| >= p.maxSessions then (p, Some(CapacityReached))
    else if s.sid in p.sessions then (p, Some(SidCollision))
    else (p.(sessions := p.sessions[s.sid := s]), None)
  }

  function Remove(p: Pool, sid: u16, token: u32): (Pool, Option<Session>) {
    if sid in p.sessions && p.sessions[sid].token == token then
      (DropSession(p, sid), Some(p.sessions[sid]))
    else (p, None)
  }

  function DropSession(p: Pool, sid: u16): Pool
    requires sid in p.sessions
  {
    p.(sessions := p.sessions - {sid},
       free4 := p.free4 + [p.sessions[sid].ip],
       free6 := p.free6 + [p.sessions[sid].ip6])
  }

  /** Dropping the listed sessions one after the other. */
  function DropAll(p: Pool, order: seq<u16>): Pool {
    if order == [] then p
    else
      var q := DropAll(p, order[..|order| - 1]);
      var sid := order[|order| - 1];
      if sid in q.sessions then DropSession(q, sid) else q
  }

  predicate Stale(s: Session, now: nat, idle: nat) {
    now >= s.lastSeen && now - s.lastSeen >= idle
  }

  /** One arbitrary listing of the sessions idle for too long. */
  ghost predicate ListsStale(p: Pool, order: seq<u16>, now: nat, idle: nat) {
    && (forall i, j | 0 <= i < j < |order| :: order[i] != order[j])
    && (forall sid :: sid in order <==> sid in p.sessions && Stale(p.sessions[sid], now, idle))
  }

  function Touch(p: Pool, sid: u16, token: u32, now: nat): Pool {
    if sid in p.sessions && p.sessions[sid].token == token
    then p.(sessions := p.sessions[sid := p.sessions[sid].(lastSeen := now)])
    else p
  }

  // -------------------------------------------------------- the OPEN handler

  /** An authenticated OPEN, with the token drawn for it. */
  datatype Request = Request(
    addr: nat, token: u32, xorKey: seq<byte>, aesKey: seq<byte>, enc: byte,
    srlink: Option<u32>, requested6: Option<ipv6>, now: nat)

  datatype Outcome = NoAddress | Opened(session: Session) | Refused(session: Session, reason: Refusal)

  function SessionFor(r: Request, ip: u32, ip6: ipv6): Session {
    Session(ip % 0x1_0000, r.token, r.addr, ip, ip6, r.xorKey, r.aesKey, r.enc, r.srlink, r.now)
  }

  function Open(p: Pool, r: Request, server: ipv6): (Pool, Outcome) {
    var (p1, ip) := AllocateIpv4(p);
    if ip.None? then (p1, NoAddress)
    else
      var (p2, ip6) := AllocateIpv6(p1, r.requested6, server);
      var s := SessionFor(r, ip.value, ip6);
      var (p3, refusal) := Insert(p2, s);
      if refusal.None? then (p3, Opened(s))
      else (ReleaseIpv6(ReleaseIpv4(p3, ip.value), ip6), Refused(s, refusal.value))
  }

  // ------------------------------------------------------------------- runs

  datatype Event =
    | EvOpen(request: Request)
    | EvClose(sid: u16, token: u32)
    | EvTouch(sid: u16, token: u32, now: nat)
    | EvReap(order: seq<u16>, now: nat, idle: nat)

  function Step(p: Pool, e: Event, server: ipv6): Pool {
    match e
    case EvOpen(request) => Open(p, request, server).0
    case EvClose(sid, token) => Remove(p, sid, token).0
    case EvTouch(sid, token, now) => Touch(p, sid, token, now)
    case EvReap(order, _, _) => DropAll(p, order)
  }

  function After(p: Pool, events: seq<Event>, server: ipv6): Pool {
    if events == [] then p
    else Step(After(p, events[..|events| - 1], server), events[|events| - 1], server)
  }

  // -------------------------------------------------------------- invariant

  predicate Live(p: Pool, ip: u32) {
    ip % 0x1_0000 in p.sessions && p.sessions[ip % 0x1_0000].ip == ip
  }

  ghost predicate Distinct<T>(s: seq<T>) {
    forall i, j | 0 <= i < j < |s| :: s[i] != s[j]
  }

  /** The addresses from first up to next4 are the ones ever handed out; each
      of them is either live or on the free stack, never both, never twice.
      The last one that can be needed stays at the bottom of the stack. */
  ghost predicate Inv(p: Pool, first: u32) {
    && first <= p.next4 && (p.next4 == first || p.next4 <= p.last4 + 1)
    && p.last4 < MAX_U32
    && (forall sid | sid in p.sessions ::
          var s := p.sessions[sid];
          s.sid == sid == s.ip % 0x1_0000 && first <= s.ip < p.next4 && s.ip < first + p.maxSessions)
    && Distinct(p.free4)
    && (forall i | 0 <= i < |p.free4| :: first <= p.free4[i] < p.next4 && !Live(p, p.free4[i]))
    && (forall ip | first <= ip < p.next4 :: Live(p, ip) || ip in p.free4)
    && |p.sessions| + |p.free4| == p.next4 - first
    && |p.sessions| <= p.maxSessions
    && p.next4 - first <= p.maxSessions + 1
    && (p.next4 - first == p.maxSessions + 1 ==> p.free4 != [] && p.free4[0] == first + p.maxSessions)
  }

  lemma NewPoolInv(maxSessions: nat, subnet: u32, prefix: nat)
    requires prefix <= 32
    ensures var p := NewPool(maxSessions, subnet, prefix); Inv(p, p.next4)
  {
    Pow2At32();
    SetLowBound(subnet, 32 - prefix, 32);
  }

  /** The pool as handle_open sees it between allocating and inserting. */
  ghost predicate InvTaken(p: Pool, first: u32, ip: u32) {
    && first <= ip < p.next4 <= p.last4 + 1 && p.last4 < MAX_U32
    && (forall sid | sid in p.sessions ::
          var s := p.sessions[sid];
          s.sid == sid == s.ip % 0x1_0000 && first <= s.ip < p.next4 && s.ip < first + p.maxSessions)
    && Distinct(p.free4) && ip !in p.free4 && !Live(p, ip)
    && (forall i | 0 <= i < |p.free4| :: first <= p.free4[i] < p.next4 && !Live(p, p.free4[i]))
    && (forall a | first <= a < p.next4 :: a == ip || Live(p, a) || a in p.free4)
    && |p.sessions| + |p.free4| + 1 == p.next4 - first
    && |p.sessions| <= p.maxSessions
    && p.next4 - first <= p.maxSessions + 1
    && (p.next4 - first == p.maxSessions + 1 ==> (p.free4 + [ip])[0] == first + p.maxSessions)
  }

  lemma PopInv(p: Pool, first: u32)
    requires Inv(p, first) && p.free4 != []
    ensures var n := |p.free4| - 1; InvTaken(p.(free4 := p.free4[..n]), first, p.free4[n])
  {
    var n := |p.free4| - 1;
    var q, ip := p.(free4 := p.free4[..n]), p.free4[n];
    assert q.free4 + [ip] == p.free4;
    forall a | first <= a < q.next4 ensures a == ip || Live(q, a) || a in q.free4 {
      assert Live(p, a) || a in p.free4;
    }
  }

  lemma BumpInv(p: Pool, first: u32)
    requires Inv(p, first) && p.free4 == [] && p.next4 <= p.last4
    ensures InvTaken(p.(next4 := SatAdd(p.next4, 1)), first, p.next4)
  {
    var q := p.(next4 := SatAdd(p.next4, 1));
    forall a | first <= a < q.next4 ensures a == p.next4 || Live(q, a) {
      if a < p.next4 { assert Live(p, a) || a in p.free4; }
    }
  }

  lemma AllocateInv(p: Pool, first: u32)
    requires Inv(p, first)
    ensures var (q, ip) := AllocateIpv4(p);
            && (ip.None? ==> q == p && p.free4 == [] && p.next4 > p.last4)
            && (ip.Some? ==> InvTaken(q, first, ip.value))
            && q.sessions == p.sessions && q.maxSessions == p.maxSessions && q.last4 == p.last4
  {
    if p.free4 != [] {
      PopInv(p, first);
    } else if p.next4 <= p.last4 {
      BumpInv(p, first);
    }
  }

  lemma InsertInv(p: Pool, first: u32, ip: u32, s: Session)
    requires InvTaken(p, first, ip) && s.ip == ip && s.sid == ip % 0x1_0000
    requires Insert(p, s).1.None?
    ensures Inv(Insert(p, s).0, first)
  {
    var q := Insert(p, s).0;
    assert ip < first + p.maxSessions;
    assert |q.sessions| == |p.sessions| + 1;
    forall a | first <= a < q.next4 ensures Live(q, a) || a in q.free4 {
      assert a == ip || Live(p, a) || a in p.free4;
    }
  }

  lemma ReleaseInv(p: Pool, first: u32, ip: u32)
    requires InvTaken(p, first, ip)
    ensures Inv(ReleaseIpv4(p, ip), first)
  {
    var r := ReleaseIpv4(p, ip);
    forall a | first <= a < r.next4 ensures Live(r, a) || a in r.free4 {
      assert a == ip || Live(p, a) || a in p.free4;
      assert r.free4[|p.free4|] == ip;
      if a in p.free4 { assert a in r.free4; }
    }
    forall a: u32 ensures Live(r, a) == Live(p, a) {}
  }

  /** A refused OPEN hands its address back; an accepted one keeps it. */
  lemma InsertOrRelease(p: Pool, first: u32, ip: u32, s: Session)
    requires InvTaken(p, first, ip) && s.ip == ip && s.sid == ip % 0x1_0000
    ensures var (q, refusal) := Insert(p, s);
            Inv(if refusal.None? then q else ReleaseIpv4(q, ip), first)
  {
    if Insert(p, s).1.None? {
      InsertInv(p, first, ip, s);
    } else {
      ReleaseInv(p, first, ip);
    }
  }

  /** The IPv6 half of a pool does not matter to the IPv4 invariant. */
  lemma Ipv6Irrelevant(p: Pool, q: Pool, first: u32, ip: u32)
    requires q == p.(free6 := q.free6, next6 := q.next6)
    ensures Inv(p, first) ==> Inv(q, first)
    ensures InvTaken(p, first, ip) ==> InvTaken(q, first, ip)
  {
    assert forall a: u32 :: Live(q, a) == Live(p, a);
  }

  lemma OpenInv(p: Pool, r: Request, server: ipv6, first: u32)
    requires Inv(p, first)
    ensures Inv(Open(p, r, server).0, first)
  {
    AllocateInv(p, first);
    var (p1, ip) := AllocateIpv4(p);
    if ip.Some? {
      var (p2, ip6) := AllocateIpv6(p1, r.requested6, server);
      Ipv6Irrelevant(p1, p2, first, ip.value);
      var s := SessionFor(r, ip.value, ip6);
      InsertOrRelease(p2, first, ip.value, s);
      var (p3, refusal) := Insert(p2, s);
      if refusal.Some? {
        Ipv6Irrelevant(ReleaseIpv4(p3, ip.value), ReleaseIpv6(ReleaseIpv4(p3, ip.value), ip6), first, ip.value);
      }
    }
  }

  lemma DropInv(p: Pool, sid: u16, first: u32)
    requires Inv(p, first) && sid in p.sessions
    ensures Inv(DropSession(p, sid), first)
  {
    var q := DropSession(p, sid);
    var ip := p.sessions[sid].ip;
    assert Live(p, ip);
    assert |q.sessions| == |p.sessions| - 1 by { assert q.sessions.Keys == p.sessions.Keys - {sid}; }
    assert q.free4[|p.free4|] == ip;
    forall a | first <= a < q.next4 ensures Live(q, a) || a in q.free4 {
      assert Live(p, a) || a in p.free4;
      if a in p.free4 { assert a in q.free4; }
    }
    forall i | 0 <= i < |q.free4| ensures !Live(q, q.free4[i]) {
      if i < |p.free4| { assert !Live(p, p.free4[i]); }
    }
  }

  lemma {:induction false} DropAllInv(p: Pool, order: seq<u16>, first: u32)
    requires Inv(p, first)
    ensures Inv(DropAll(p, order), first)
  {
    if order != [] {
      var q := DropAll(p, order[..|order| - 1]);
      DropAllInv(p, order[..|order| - 1], first);
      if order[|order| - 1] in q.sessions { DropInv(q, order[|order| - 1], first); }
    }
  }

  lemma TouchInv(p: Pool, sid: u16, token: u32, now: nat, first: u32)
    requires Inv(p, first)
    ensures Inv(Touch(p, sid, token, now), first)
  {
    var q := Touch(p, sid, token, now);
    assert q.sessions.Keys == p.sessions.Keys;
    assert |q.sessions| == |p.sessions| by {
      assert |q.sessions| == |q.sessions.Keys| && |p.sessions| == |p.sessions.Keys|;
    }
    assert forall ip: u32 :: Live(q, ip) == Live(p, ip);
  }

  lemma StepInv(p: Pool, e: Event, server: ipv6, first: u32)
    requires Inv(p, first)
    ensures Inv(Step(p, e, server), first)
  {
    match e
    case EvOpen(r) => OpenInv(p, r, server, first);
    case EvClose(sid, token) => if Remove(p, sid, token).1.Some? { DropInv(p, sid, first); }
    case EvTouch(sid, token, now) => TouchInv(p, sid, token, now, first);
    case EvReap(order, _, _) => DropAllInv(p, order, first);
  }

  // ------------------------------------------------- conservation over runs

  /** In every reachable state each address ever handed out is either live or
      free, and none is both or held twice. */
  lemma {:induction false} PoolConserved(maxSessions: nat, subnet: u32, prefix: nat, events: seq<Event>, server: ipv6)
    requires prefix <= 32
    ensures var p := NewPool(maxSessions, subnet, prefix);
            Inv(After(p, events, server), p.next4)
    ensures After(NewPool(maxSessions, subnet, prefix), events, server).maxSessions == maxSessions
    ensures After(NewPool(maxSessions, subnet, prefix), events, server).last4
            == NewPool(maxSessions, subnet, prefix).last4
  {
    var p := NewPool(maxSessions, subnet, prefix);
    if events == [] {
      NewPoolInv(maxSessions, subnet, prefix);
    } else {
      var n := |events| - 1;
      PoolConserved(maxSessions, subnet, prefix, events[..n], server);
      StepInv(After(p, events[..n], server), events[n], server, p.next4);
      StepKeepsBounds(After(p, events[..n], server), events[n], server);
    }
  }

  lemma StepKeepsBounds(p: Pool, e: Event, server: ipv6)
    ensures Step(p, e, server).maxSessions == p.maxSessions && Step(p, e, server).last4 == p.last4
  {
    if e.EvReap? { DropAllKeepsBounds(p, e.order); }
  }

  lemma {:induction false} DropAllKeepsBounds(p: Pool, order: seq<u16>)
    ensures DropAll(p, order).maxSessions == p.maxSessions && DropAll(p, order).last4 == p.last4
  {
    if order != [] { DropAllKeepsBounds(p, order[..|order| - 1]); }
  }

  lemma FreeAddressIsNotLive(p: Pool, first: u32)
    requires Inv(p, first) && (p.free4 != [] || p.next4 <= p.last4)
    ensures exists ip: u32 :: first <= ip <= p.last4 && !Live(p, ip)
  {
    var ip := if p.free4 != [] then p.free4[0] else p.next4;
    assert first <= ip <= p.last4 && !Live(p, ip);
  }

  /** An OPEN is turned away for lack of an address exactly when every host
      address of the subnet is held by a live session. */
  lemma NoAddressIff(p: Pool, first: u32, r: Request, server: ipv6)
    requires Inv(p, first)
    ensures Open(p, r, server).1 == NoAddress <==> forall ip: u32 | first <= ip <= p.last4 :: Live(p, ip)
  {
    AllocateInv(p, first);
    if AllocateIpv4(p).1.Some? { FreeAddressIsNotLive(p, first); }
  }

  // ------------------------------------------------------ session identifiers

  lemma SameSidFarApart(a: u32, b: u32)
    requires a % 0x1_0000 == b % 0x1_0000 && a != b
    ensures a >= b + SIDS || b >= a + SIDS
  {
  }

  /** An OPEN never meets a session with its identifier while the table is not
      full, provided sixteen bits can number either the sessions allowed or the
      addresses there are. */
  lemma NoCollision(p: Pool, first: u32, r: Request, server: ipv6)
    requires Inv(p, first)
    requires p.maxSessions <= SIDS || p.last4 - first < SIDS
    ensures var o := Open(p, r, server).1; !(o.Refused? && o.reason == SidCollision)
  {
    AllocateInv(p, first);
    var (p1, ip) := AllocateIpv4(p);
    if ip.Some? && |p1.sessions| < p1.maxSessions && ip.value % 0x1_0000 in p1.sessions {
      var other := p1.sessions[ip.value % 0x1_0000];
      SameSidFarApart(ip.value, other.ip);
    }
  }

  function Opens(rs: seq<Request>): (events: seq<Event>)
    ensures |events| == |rs|
  {
    seq(|rs|, i requires 0 <= i < |rs| => EvOpen(rs[i]))
  }

  /** With nothing on the free stack, an OPEN takes the next address. */
  lemma OpenTakesNext(p: Pool, first: u32, r: Request, server: ipv6)
    requires Inv(p, first) && p.free4 == [] && p.next4 <= p.last4
    requires |p.sessions| < p.maxSessions && p.next4 - first < SIDS
    ensures var q := Open(p, r, server).0;
            && q.next4 == p.next4 + 1 && q.free4 == [] && |q.sessions| == |p.sessions| + 1
            && q.maxSessions == p.maxSessions && q.last4 == p.last4
  {
    var ip := p.next4;
    if ip % 0x1_0000 in p.sessions {
      SameSidFarApart(ip, p.sessions[ip % 0x1_0000].ip);
    }
  }

  /** Opening n sessions on a fresh pool hands out the first n addresses. */
  lemma {:induction false} FreshOpens(p: Pool, first: u32, rs: seq<Request>, server: ipv6)
    requires Inv(p, first) && p.next4 == first && p.sessions == map[] && p.free4 == []
    requires |rs| <= p.maxSessions && |rs| <= SIDS && first + |rs| <= p.last4 + 1
    ensures var q := After(p, Opens(rs), server);
            && Inv(q, first) && q.next4 == first + |rs| && q.free4 == [] && |q.sessions| == |rs|
            && q.maxSessions == p.maxSessions && q.last4 == p.last4
  {
    hide Inv, Open;
    if rs != [] {
      var n := |rs| - 1;
      assert Opens(rs)[..n] == Opens(rs[..n]);
      FreshOpens(p, first, rs[..n], server);
      var q := After(p, Opens(rs[..n]), server);
      OpenInv(q, rs[n], server, first);
      OpenTakesNext(q, first, rs[n], server);
    }
  }

  /** The address 65536 places after the first has the first one's identifier. */
  lemma WrappedSid(p: Pool, first: u32, last: Request, server: ipv6)
    requires Inv(p, first) && p.free4 == [] && p.next4 == first + SIDS && p.next4 <= p.last4
    requires |p.sessions| < p.maxSessions
    ensures var o := Open(p, last, server).1; o.Refused? && o.reason == SidCollision
  {
    assert Live(p, first);
    SidWraps(first);
    hide Inv, Offset6;
  }

  lemma SidWraps(first: u32)
    ensures (first + SIDS) % 0x1_0000 == first % 0x1_0000
  {
  }

  /** With more than 65536 sessions allowed and more than 65536 addresses, the
      65537th OPEN in a row is refused for an identifier collision. */
  lemma CollisionReachable(p: Pool, first: u32, rs: seq<Request>, last: Request, server: ipv6)
    requires Inv(p, first) && p.next4 == first && p.sessions == map[] && p.free4 == []
    requires p.maxSessions > SIDS && p.last4 - first >= SIDS && |rs| == SIDS
    ensures var o := Open(After(p, Opens(rs), server), last, server).1;
            o.Refused? && o.reason == SidCollision
  {
    FreshOpens(p, first, rs, server);
    WrappedSid(After(p, Opens(rs), server), first, last, server);
  }

  lemma Pow2At16()
    ensures Pow2(16) == 0x1_0000 && Pow2(17) == 0x2_0000
  {
    assert Pow2(8) == 0x100;
  }

  /** How many addresses a fresh pool can hand out. */
  function Hosts(p: Pool): nat {
    if p.next4 <= p.last4 then p.last4 - p.next4 + 1 else 0
  }

  /** The assignable addresses of a subnet: all of its 2^(32 - prefix) but the
      network, the server's and the broadcast address, and none where these
      are all there is, also where the bounds saturate at either end of the
      address space. */
  lemma HostCount(maxSessions: nat, subnet: u32, prefix: nat)
    requires prefix <= 32
    ensures var p, all := NewPool(maxSessions, subnet, prefix), Pow2(32 - prefix);
            && Hosts(p) == (if all >= 3 then all - 3 else 0)
            && (p.last4 - p.next4 >= SIDS <==> prefix <= 15)
  {
    Pow2At32();
    SetLowBound(subnet, 32 - prefix, 32);
    Pow2At16();
    if prefix <= 15 {
      Pow2Monotone(17, 32 - prefix);
    } else {
      Pow2Monotone(32 - prefix, 16);
    }
    hide Pow2, ClearLow, SetLow;
  }

  lemma {:induction false} Pow2Monotone(a: nat, b: nat)
    requires a <= b
    ensures Pow2(a) <= Pow2(b)
  {
    if a < b { Pow2Monotone(a, b - 1); }
  }

  /** A run can end in an identifier collision exactly when the configuration
      allows more than 65536 sessions on a subnet of prefix 15 or shorter. */
  lemma CollisionIff(maxSessions: nat, subnet: u32, prefix: nat, server: ipv6, r: Request)
    requires prefix <= 32
    ensures var p := NewPool(maxSessions, subnet, prefix);
            (exists events :: var o := Open(After(p, events, server), r, server).1;
                              o.Refused? && o.reason == SidCollision)
            <==> maxSessions > SIDS && prefix <= 15
  {
    var p := NewPool(maxSessions, subnet, prefix);
    NewPoolInv(maxSessions, subnet, prefix);
    HostCount(maxSessions, subnet, prefix);
    if maxSessions > SIDS && prefix <= 15 {
      var rs := seq(SIDS, _ => r);
      CollisionReachable(p, p.next4, rs, r, server);
      var o := Open(After(p, Opens(rs), server), r, server).1;
      assert o.Refused? && o.reason == SidCollision;
    } else {
      forall events ensures var o := Open(After(p, events, server), r, server).1;
                            !(o.Refused? && o.reason == SidCollision)
      {
        PoolConserved(maxSessions, subnet, prefix, events, server);
        NoCollision(After(p, events, server), p.next4, r, server);
      }
    }
  }

  // ------------------------------------------------------ IPv4/IPv6 pairing

  /** The IPv6 address that goes with an IPv4 address of the pool. */
  function Paired(server: ipv6, first: u32, ip: u32): ipv6
    requires first <= ip
  {
    Offset6(server, (ip as int) - first + 1)
  }

  lemma PairedInjective(server: ipv6, first: u32, a: u32, b: u32)
    requires first <= a && first <= b && Paired(server, first, a) == Paired(server, first, b)
    ensures a == b
  {
  }

  /** The two free stacks correspond entry by entry, and every session holds
      the IPv6 address that goes with its IPv4 address. */
  ghost predicate Lockstep(p: Pool, server: ipv6, first: u32) {
    && (forall sid | sid in p.sessions :: HoldsPair(p.sessions[sid], server, first))
    && |p.free6| == |p.free4|
    && (forall i | 0 <= i < |p.free4| :: p.free4[i] >= first && p.free6[i] == Paired(server, first, p.free4[i]))
    && p.next4 >= first && p.next6 == p.next4 - first + 1
  }

  ghost predicate HoldsPair(s: Session, server: ipv6, first: u32) {
    s.ip >= first && s.ip6 == Paired(server, first, s.ip)
  }

  lemma AllocateLockstep(p: Pool, server: ipv6, first: u32)
    requires Inv(p, first) && Lockstep(p, server, first) && first >= 2
    ensures var (p1, ip) := AllocateIpv4(p);
            var (p2, ip6) := AllocateIpv6(p1, None, server);
            ip.Some? ==> ip.value >= first && ip6 == Paired(server, first, ip.value) && Lockstep(p2, server, first)
  {
  }

  lemma InsertLockstep(p: Pool, s: Session, server: ipv6, first: u32)
    requires Lockstep(p, server, first) && HoldsPair(s, server, first)
    ensures Lockstep(Insert(p, s).0, server, first)
  {
    hide Paired;
  }

  lemma ReleaseLockstep(p: Pool, ip: u32, ip6: ipv6, server: ipv6, first: u32)
    requires Lockstep(p, server, first) && ip >= first && ip6 == Paired(server, first, ip)
    ensures Lockstep(ReleaseIpv6(ReleaseIpv4(p, ip), ip6), server, first)
  {
    hide Paired;
  }

  lemma OpenLockstep(p: Pool, r: Request, server: ipv6, first: u32)
    requires Inv(p, first) && Lockstep(p, server, first) && r.requested6.None? && first >= 2
    ensures Lockstep(Open(p, r, server).0, server, first)
  {
    AllocateLockstep(p, server, first);
    hide Inv, AllocateIpv4, AllocateIpv6, Paired, Lockstep, Insert;
    var (p1, ip) := AllocateIpv4(p);
    if ip.Some? {
      var (p2, ip6) := AllocateIpv6(p1, r.requested6, server);
      InsertLockstep(p2, SessionFor(r, ip.value, ip6), server, first);
      var (p3, _) := Insert(p2, SessionFor(r, ip.value, ip6));
      ReleaseLockstep(p3, ip.value, ip6, server, first);
    } else {
      assert p1 == p by { NoAddressKeepsPool(p); }
    }
  }

  lemma NoAddressKeepsPool(p: Pool)
    ensures AllocateIpv4(p).1.None? ==> AllocateIpv4(p).0 == p
  {
  }

  lemma DropLockstep(p: Pool, sid: u16, server: ipv6, first: u32)
    requires Lockstep(p, server, first) && sid in p.sessions
    ensures Lockstep(DropSession(p, sid), server, first)
  {
    assert HoldsPair(p.sessions[sid], server, first);
  }

  lemma {:induction false} DropAllLockstep(p: Pool, order: seq<u16>, server: ipv6, first: u32)
    requires Lockstep(p, server, first)
    ensures Lockstep(DropAll(p, order), server, first)
  {
    if order != [] {
      var q := DropAll(p, order[..|order| - 1]);
      DropAllLockstep(p, order[..|order| - 1], server, first);
      if order[|order| - 1] in q.sessions { DropLockstep(q, order[|order| - 1], server, first); }
    }
  }

  lemma StepLockstep(p: Pool, e: Event, server: ipv6, first: u32)
    requires Inv(p, first) && Lockstep(p, server, first) && first >= 2
    requires e.EvOpen? ==> e.request.requested6.None?
    ensures Lockstep(Step(p, e, server), server, first)
  {
    match e
    case EvOpen(r) => OpenLockstep(p, r, server, first);
    case EvClose(sid, token) => if Remove(p, sid, token).1.Some? { DropLockstep(p, sid, server, first); }
    case EvTouch(sid, token, now) =>
      if sid in p.sessions { assert HoldsPair(p.sessions[sid], server, first); }
    case EvReap(order, _, _) => DropAllLockstep(p, order, server, first);
  }

  ghost predicate NoneRequested(events: seq<Event>) {
    forall i | 0 <= i < |events| :: events[i].EvOpen? ==> events[i].request.requested6.None?
  }

  /** In runs where no client names its own IPv6 address the two halves of the
      pool stay aligned. */
  lemma {:induction false} PoolsInLockstep(maxSessions: nat, subnet: u32, prefix: nat, events: seq<Event>, server: ipv6)
    requires prefix <= 32 && NoneRequested(events)
    ensures var p := NewPool(maxSessions, subnet, prefix);
            Lockstep(After(p, events, server), server, p.next4)
  {
    if events != [] {
      var p, n := NewPool(maxSessions, subnet, prefix), |events| - 1;
      PoolsInLockstep(maxSessions, subnet, prefix, events[..n], server);
      PoolConserved(maxSessions, subnet, prefix, events[..n], server);
      StepLockstep(After(p, events[..n], server), events[n], server, p.next4);
    }
  }

  // ---------------------------------------------------------------- lookups

  /** r is what some order of walking the table yields for an IPv4 address. */
  ghost predicate FoundByIp(p: Pool, ip: u32, r: Option<Session>) {
    match r
    case Some(s) => s.ip == ip && exists sid :: sid in p.sessions && p.sessions[sid] == s
    case None => forall sid | sid in p.sessions :: p.sessions[sid].ip != ip
  }

  ghost predicate FoundByIpv6(p: Pool, ip6: ipv6, r: Option<Session>) {
    match r
    case Some(s) => s.ip6 == ip6 && exists sid :: sid in p.sessions && p.sessions[sid] == s
    case None => forall sid | sid in p.sessions :: p.sessions[sid].ip6 != ip6
  }

  /** The lookup by IPv4 address does not depend on the order of the walk. */
  lemma LookupByIpUnique(p: Pool, first: u32, ip: u32, a: Option<Session>, b: Option<Session>)
    requires Inv(p, first) && FoundByIp(p, ip, a) && FoundByIp(p, ip, b)
    ensures a == b
  {
  }

  /** Both lookups name the same session, whatever the order of the walks. */
  lemma LookupsAgree(p: Pool, first: u32, server: ipv6, ip: u32, a: Option<Session>, b: Option<Session>)
    requires Inv(p, first) && Lockstep(p, server, first) && first <= ip
    requires FoundByIp(p, ip, a) && FoundByIpv6(p, Paired(server, first, ip), b)
    ensures a == b
  {
    forall sid | sid in p.sessions && p.sessions[sid].ip6 == Paired(server, first, ip)
      ensures p.sessions[sid].ip == ip
    {
      assert HoldsPair(p.sessions[sid], server, first);
      PairedInjective(server, first, p.sessions[sid].ip, ip);
    }
  }

  /** Two clients that both ask for the same IPv6 address both get it, so the
      lookup by that address depends on the order of the walk. */
  lemma RequestedAddressShared(maxSessions: nat, subnet: u32, prefix: nat, r1: Request, r2: Request, server: ipv6)
    requires prefix <= 29 && maxSessions >= 2
    requires r1.requested6.Some? && r2.requested6 == r1.requested6
    ensures var p := After(NewPool(maxSessions, subnet, prefix), [EvOpen(r1), EvOpen(r2)], server);
            exists a, b :: a != b && FoundByIpv6(p, r1.requested6.value, Some(a))
                                  && FoundByIpv6(p, r1.requested6.value, Some(b))
  {
    var p0 := NewPool(maxSessions, subnet, prefix);
    SmallestUsefulSubnet(maxSessions, subnet, prefix);
    hide NewPool;
    var p1, p2 := Open(p0, r1, server).0, Open(Open(p0, r1, server).0, r2, server).0;
    assert [EvOpen(r1), EvOpen(r2)][..1] == [EvOpen(r1)] && [EvOpen(r1)][..0] == [];
    assert After(p0, [], server) == p0;
    assert After(p0, [EvOpen(r1)], server) == p1;
    var a, b := SessionFor(r1, p0.next4, r1.requested6.value), SessionFor(r2, p0.next4 + 1, r2.requested6.value);
    assert p1.sessions == map[a.sid := a] && p2.sessions == map[a.sid := a][b.sid := b];
    assert p2.sessions[a.sid] == a && p2.sessions[b.sid] == b;
    assert After(p0, [EvOpen(r1), EvOpen(r2)], server) == p2;
    assert FoundByIpv6(p2, r1.requested6.value, Some(a)) && FoundByIpv6(p2, r1.requested6.value, Some(b));
    assert a.ip != b.ip;
  }

  lemma SmallestUsefulSubnet(maxSessions: nat, subnet: u32, prefix: nat)
    requires prefix <= 29
    ensures var p := NewPool(maxSessions, subnet, prefix);
            p.next4 < p.last4 && p.sessions == map[] && p.free4 == [] && p.free6 == [] && p.maxSessions == maxSessions
  {
    Pow2At32();
    SetLowBound(subnet, 32 - prefix, 32);
    Pow2Monotone(3, 32 - prefix);
    assert Pow2(3) == 8;
  }
}
