/** Activity and expiry of sessions (src/bin/server/session.rs): which sessions
    a sweep drops, and how long one that is looked up stays. */
module SessionActivity {
  import opened Bytes
  import opened Wrappers
  import opened Sessions

  /** A sweep drops exactly the sessions idle for the given time or longer and
      leaves the others as they are. */
  lemma ReapKeepsIff(p: Pool, order: seq<u16>, now: nat, idle: nat)
    requires ListsStale(p, order, now, idle)
    ensures var q := DropAll(p, order);
            && (forall sid :: sid in q.sessions <==> sid in p.sessions && now < p.sessions[sid].lastSeen + idle)
            && (forall sid | sid in q.sessions :: q.sessions[sid] == p.sessions[sid])
  {
    DroppedAre(p, order);
  }

  lemma {:induction false} DroppedAre(p: Pool, order: seq<u16>)
    ensures var q := DropAll(p, order);
            && (forall sid :: sid in q.sessions <==> sid in p.sessions && sid !in order)
            && (forall sid | sid in q.sessions :: q.sessions[sid] == p.sessions[sid])
  {
    if order != [] {
      var n := |order| - 1;
      DroppedAre(p, order[..n]);
      assert order == order[..n] + [order[n]];
    }
  }

  /** Each sweep of a run drops, in some order, the sessions idle at that time. */
  ghost predicate Sweeps(p: Pool, events: seq<Event>, server: ipv6) {
    forall i | 0 <= i < |events| && events[i].EvReap? ::
      ListsStale(After(p, events[..i], server), events[i].order, events[i].now, events[i].idle)
  }

  /** Nothing ends a session last looked up at t or later: it is not closed, no
      lookup of it is earlier than t, and each sweep comes before t plus its
      idle time. */
  ghost predicate Spared(e: Event, sid: u16, token: u32, t: nat) {
    match e
    case EvOpen(_) => true
    case EvClose(s, k) => (s, k) != (sid, token)
    case EvTouch(s, k, now) => (s, k) == (sid, token) ==> t <= now
    case EvReap(_, now, idle) => now < t + idle
  }

  /** The session is there as it was, but for the time it was last looked up. */
  ghost predicate SameSession(p: Pool, s: Session, t: nat) {
    && s.sid in p.sessions && t <= p.sessions[s.sid].lastSeen
    && p.sessions[s.sid] == s.(lastSeen := p.sessions[s.sid].lastSeen)
  }

  lemma SparedStep(p: Pool, e: Event, server: ipv6, s: Session, t: nat)
    requires SameSession(p, s, t) && Spared(e, s.sid, s.token, t)
    requires e.EvReap? ==> ListsStale(p, e.order, e.now, e.idle)
    ensures SameSession(Step(p, e, server), s, t)
  {
    match e
    case EvReap(order, now, idle) => ReapKeepsIff(p, order, now, idle);
    case _ =>
  }

  /** Over every run: a session looked up at time t outlives every sweep before
      t plus the idle time, unless its client closes it, whatever else opens,
      closes or is looked up. */
  lemma {:induction false} UsedSessionSurvives(p: Pool, s: Session, t: nat, events: seq<Event>, server: ipv6)
    requires s.sid in p.sessions && p.sessions[s.sid] == s
    requires Sweeps(p, [EvTouch(s.sid, s.token, t)] + events, server)
    requires forall i | 0 <= i < |events| :: Spared(events[i], s.sid, s.token, t)
    ensures SameSession(After(p, [EvTouch(s.sid, s.token, t)] + events, server), s, t)
  {
    var all, n := [EvTouch(s.sid, s.token, t)] + events, |events|;
    if n == 0 {
      assert all[..0] == [];
    } else {
      assert all[..n] == [EvTouch(s.sid, s.token, t)] + events[..n - 1];
      forall i | 0 <= i < n && all[..n][i].EvReap? ensures all[..n][..i] == all[..i] {}
      UsedSessionSurvives(p, s, t, events[..n - 1], server);
      hide Sweeps, SameSession, Spared, ListsStale, Step;
      assert Spared(events[n - 1], s.sid, s.token, t) && all[n] == events[n - 1];
      SparedStep(After(p, all[..n], server), all[n], server, s, t);
    }
  }
}
