/** The session table as the server holds it: fields updated in place. */
module SessionTable {
  import opened Bytes
  import opened Wrappers
  import S = Sessions

  class SessionTable {
    var sessions: map<u16, S.Session>
    var free4: seq<u32>
    var free6: seq<S.ipv6>
    var next4: u32
    var next6: u32
    const last4: u32
    const maxSessions: nat

    ghost function Contents(): S.Pool
      reads this
    {
      S.Pool(sessions, free4, free6, next4, next6, last4, maxSessions)
    }

    constructor (maxSessions: nat, subnet: u32, prefix: nat)
      requires prefix <= 32
      ensures Contents() == S.NewPool(maxSessions, subnet, prefix)
    {
      S.Pow2At32();
      S.SetLowBound(subnet, 32 - prefix, 32);
      var network: u32 := S.ClearLow(subnet, 32 - prefix);
      var broadcast: u32 := S.SetLow(subnet, 32 - prefix);
      sessions := map[];
      free4, free6 := [], [];
      next4, next6 := S.SatAdd(network, 2), 1;
      last4 := S.SatSub(broadcast, 1);
      this.maxSessions := maxSessions;
    }

    method AllocateIpv4() returns (ip: Option<u32>)
      modifies this
      ensures (Contents(), ip) == S.AllocateIpv4(old(Contents()))
    {
      if free4 != [] {
        ip := Some(free4[|free4| - 1]);
        free4 := free4[..|free4| - 1];
        return;
      }
      if next4 > last4 {
        return None;
      }
      ip := Some(next4);
      next4 := S.SatAdd(next4, 1);
    }

    method AllocateIpv6(requested: Option<S.ipv6>, server: S.ipv6) returns (ip6: S.ipv6)
      modifies this
      ensures (Contents(), ip6) == S.AllocateIpv6(old(Contents()), requested, server)
    {
      if requested.Some? {
        return requested.value;
      }
      if free6 != [] {
        ip6 := free6[|free6| - 1];
        free6 := free6[..|free6| - 1];
        return;
      }
      ip6 := S.Offset6(server, next6);
      next6 := S.SatAdd(next6, 1);
    }

    method ReleaseIpv4(ip: u32)
      modifies this
      ensures Contents() == S.ReleaseIpv4(old(Contents()), ip)
    {
      free4 := free4 + [ip];
    }

    method ReleaseIpv6(ip6: S.ipv6)
      modifies this
      ensures Contents() == S.ReleaseIpv6(old(Contents()), ip6)
    {
      free6 := free6 + [ip6];
    }

    method Insert(s: S.Session) returns (refusal: Option<S.Refusal>)
      modifies this
      ensures (Contents(), refusal) == S.Insert(old(Contents()), s)
    {
      if |sessions| >= maxSessions {
        return Some(S.CapacityReached);
      }
      if s.sid in sessions {
        return Some(S.SidCollision);
      }
      sessions := sessions[s.sid := s];
      refusal := None;
    }

    /** A session's data for a matching token; being looked up counts as activity. */
    method Snapshot(sid: u16, token: u32, now: nat) returns (r: Option<S.Session>)
      modifies this
      ensures Contents() == S.Touch(old(Contents()), sid, token, now)
      ensures r.Some? <==> sid in old(sessions) && old(sessions)[sid].token == token
      ensures r.Some? ==> r.value == old(sessions)[sid].(lastSeen := now)
    {
      if sid !in sessions || sessions[sid].token != token {
        return None;
      }
      sessions := sessions[sid := sessions[sid].(lastSeen := now)];
      r := Some(sessions[sid]);
    }

    method FindByIp(ip: u32) returns (r: Option<S.Session>)
      ensures S.FoundByIp(Contents(), ip, r)
    {
      var keys := sessions.Keys;
      while keys != {}
        invariant keys <= sessions.Keys
        invariant forall sid | sid in sessions && sid !in keys :: sessions[sid].ip != ip
        decreases keys
      {
        var sid :| sid in keys;
        if sessions[sid].ip == ip {
          return Some(sessions[sid]);
        }
        keys := keys - {sid};
      }
      r := None;
    }

    method FindByIpv6(ip6: S.ipv6) returns (r: Option<S.Session>)
      ensures S.FoundByIpv6(Contents(), ip6, r)
    {
      var keys := sessions.Keys;
      while keys != {}
        invariant keys <= sessions.Keys
        invariant forall sid | sid in sessions && sid !in keys :: sessions[sid].ip6 != ip6
        decreases keys
      {
        var sid :| sid in keys;
        if sessions[sid].ip6 == ip6 {
          return Some(sessions[sid]);
        }
        keys := keys - {sid};
      }
      r := None;
    }

    method Remove(sid: u16, token: u32) returns (r: Option<S.Session>)
      modifies this
      ensures (Contents(), r) == S.Remove(old(Contents()), sid, token)
    {
      if sid !in sessions || sessions[sid].token != token {
        return None;
      }
      r := Some(sessions[sid]);
      sessions := sessions - {sid};
      free4 := free4 + [r.value.ip];
      free6 := free6 + [r.value.ip6];
    }

    /** Drops one session and frees its addresses. */
    method Drop(sid: u16)
      requires sid in sessions
      modifies this
      ensures Contents() == S.DropSession(old(Contents()), sid)
      ensures sessions == old(sessions) - {sid}
    {
      var session := sessions[sid];
      sessions := sessions - {sid};
      free4 := free4 + [session.ip];
      free6 := free6 + [session.ip6];
    }

    /** Drops the idle sessions in whatever order the table lists them. */
    method Reap(now: nat, idle: nat) returns (count: nat, ghost order: seq<u16>)
      modifies this
      ensures S.ListsStale(old(Contents()), order, now, idle)
      ensures Contents() == S.DropAll(old(Contents()), order)
      ensures count == |order|
    {
      var stale := set sid | sid in sessions && S.Stale(sessions[sid], now, idle);
      hide S.Stale;
      order := [];
      count := |stale|;
      ghost var was := Contents();
      while stale != {}
        invariant Contents() == S.DropAll(was, order)
        invariant forall sid :: sid in stale ==> sid in sessions && sessions[sid] == was.sessions[sid]
        invariant forall sid :: sid in stale ==> sid in was.sessions && S.Stale(was.sessions[sid], now, idle)
        invariant forall sid :: sid in order ==>
                  sid in was.sessions && S.Stale(was.sessions[sid], now, idle) && sid !in stale
        invariant forall sid :: sid in was.sessions && S.Stale(was.sessions[sid], now, idle) ==>
                  sid in stale || sid in order
        invariant forall i, j | 0 <= i < j < |order| :: order[i] != order[j]
        invariant count == |order| + |stale|
        decreases stale
      {
        var sid :| sid in stale;
        Drop(sid);
        stale := stale - {sid};
        ghost var before := order;
        order := order + [sid];
        assert order[..|order| - 1] == before;
      }
    }
  }

  /** The second half of handle_open: allocate, acknowledge, insert, and hand
      the addresses back when the table refuses. The acknowledgement is sent
      before the insertion, so it does not imply a live session. */
  method AdmitOpen(table: SessionTable, r: S.Request, server: S.ipv6) returns (outcome: S.Outcome)
    modifies table
    ensures (table.Contents(), outcome) == S.Open(old(table.Contents()), r, server)
  {
    var ip := table.AllocateIpv4();
    if ip.None? {
      return S.NoAddress;
    }
    var ip6 := table.AllocateIpv6(r.requested6, server);
    var session := S.SessionFor(r, ip.value, ip6);
    var refusal := table.Insert(session);
    if refusal.None? {
      return S.Opened(session);
    }
    table.ReleaseIpv4(ip.value);
    table.ReleaseIpv6(ip6);
    outcome := S.Refused(session, refusal.value);
  }
}
