/** The hub's in-memory connection registry and the monitor pass over it. */
module Registry {

  type AgentId = string
  type Socket = nat  // identity of one accepted WebSocket

  /** `active` and `last_seen` of the connection manager. */
  datatype Registry = Registry(active: map<AgentId, Socket>, lastSeen: map<AgentId, nat>)

  /** Everything other coroutines can do to the registry. */
  datatype Event =
    | Connect(agent: AgentId, ws: Socket, at: nat)
    | Heard(agent: AgentId, at: nat)
    | Disconnect(agent: AgentId, ws: Socket)

  function Apply(r: Registry, e: Event): Registry {
    match e
    case Connect(a, ws, at) => Registry(r.active[a := ws], r.lastSeen[a := at])
    case Heard(a, at) => r.(lastSeen := r.lastSeen[a := at])
    case Disconnect(a, ws) =>
      if a in r.active && r.active[a] == ws then Registry(r.active - {a}, r.lastSeen - {a}) else r
  }

  function ApplyAll(r: Registry, es: seq<Event>): Registry
    decreases |es|
  {
    if es == [] then r else ApplyAll(Apply(r, es[0]), es[1..])
  }

  /** Every registered agent has a last-seen time. */
  ghost predicate Tracked(r: Registry) {
    r.active.Keys <= r.lastSeen.Keys
  }

  /** The monotonic clock never hands out a time before `now`. */
  ghost predicate NotBefore(es: seq<Event>, now: nat) {
    forall e :: e in es && !e.Disconnect? ==> now <= e.at
  }

  // ── The monitor pass ───────────────────────────────────────────────────────

  /** One close issued by the pass, with the registry as it was at that moment. */
  datatype Closing = Closing(agent: AgentId, ws: Socket, at: Registry)

  function LastHeard(r: Registry, a: AgentId): nat {
    if a in r.lastSeen then r.lastSeen[a] else 0
  }

  /**
   * One pass over the snapshot `items`, started at `now`. Each close is an await,
   * at which the next element of `env` runs; entries that are not closed do not await.
   */
  function Pass(items: seq<(AgentId, Socket)>, r: Registry, now: nat, timeout: nat, env: seq<seq<Event>>)
    : (seq<Closing>, Registry)
  {
    if items == [] then
      ([], r)
    else
      var (a, ws) := items[0];
      if now - LastHeard(r, a) > timeout then
        var meanwhile := if env == [] then [] else env[0];
        var rest := Pass(items[1..], ApplyAll(r, meanwhile), now, timeout, if env == [] then [] else env[1..]);
        ([Closing(a, ws, r)] + rest.0, rest.1)
      else
        Pass(items[1..], r, now, timeout, env)
  }

  /** `a` has been neither heard nor moved since before the pass began. */
  ghost predicate Untouched(before: Registry, after: Registry, a: AgentId) {
    && a in before.lastSeen && a in after.lastSeen
    && before.lastSeen[a] == after.lastSeen[a]
    && (a in before.active <==> a in after.active)
    && (a in before.active ==> before.active[a] == after.active[a])
  }

  /** A last-seen time older than the pass proves that nothing happened to the agent meanwhile. */
  lemma {:induction false} OldStampMeansUntouched(r: Registry, es: seq<Event>, now: nat, a: AgentId)
    requires NotBefore(es, now)
    ensures var after := ApplyAll(r, es);
            a in after.lastSeen && after.lastSeen[a] < now ==> Untouched(r, after, a)
    decreases |es|
  {
    if es != [] {
      assert es[0] in es;
      OldStampMeansUntouched(Apply(r, es[0]), es[1..], now, a);
    }
  }

  lemma {:induction false} TrackedStays(r: Registry, es: seq<Event>)
    requires Tracked(r)
    ensures Tracked(ApplyAll(r, es))
    decreases |es|
  {
    if es != [] {
      TrackedStays(Apply(r, es[0]), es[1..]);
    }
  }

  lemma {:induction false} PassUntouched(items: seq<(AgentId, Socket)>, r: Registry, now: nat, timeout: nat,
                                         env: seq<seq<Event>>, a: AgentId)
    requires forall es :: es in env ==> NotBefore(es, now)
    ensures var end := Pass(items, r, now, timeout, env).1;
            a in end.lastSeen && end.lastSeen[a] < now ==> Untouched(r, end, a)
  {
    if items != [] {
      var (b, ws) := items[0];
      if now - LastHeard(r, b) > timeout {
        var meanwhile := if env == [] then [] else env[0];
        PassUntouched(items[1..], ApplyAll(r, meanwhile), now, timeout, if env == [] then [] else env[1..], a);
        OldStampMeansUntouched(r, meanwhile, now, a);
      } else {
        PassUntouched(items[1..], r, now, timeout, env, a);
      }
    }
  }

  /**
   * Soundness: a socket that is closed while still registered belongs to an agent that had
   * already been silent for longer than the timeout when the pass began.
   */
  lemma {:induction false} MonitorClosesOnlySilent(items: seq<(AgentId, Socket)>, r: Registry, now: nat, timeout: nat,
                                                   env: seq<seq<Event>>, c: Closing)
    requires Tracked(r)
    requires forall es :: es in env ==> NotBefore(es, now)
    requires c in Pass(items, r, now, timeout, env).0
    ensures (c.agent, c.ws) in items
    ensures c.agent in c.at.active && c.at.active[c.agent] == c.ws
            ==> && c.agent in r.active && r.active[c.agent] == c.ws
                && c.agent in r.lastSeen && now - r.lastSeen[c.agent] > timeout
  {
    var (a, ws) := items[0];
    if now - LastHeard(r, a) > timeout {
      var meanwhile := if env == [] then [] else env[0];
      var next := ApplyAll(r, meanwhile);
      var rest := Pass(items[1..], next, now, timeout, if env == [] then [] else env[1..]).0;
      if c in rest {
        TrackedStays(r, meanwhile);
        MonitorClosesOnlySilent(items[1..], next, now, timeout, if env == [] then [] else env[1..], c);
        OldStampMeansUntouched(r, meanwhile, now, c.agent);
      } else {
        assert c == Closing(a, ws, r);
      }
    } else {
      MonitorClosesOnlySilent(items[1..], r, now, timeout, env, c);
    }
  }

  /**
   * Completeness: a socket that was stale when the pass began, and is still registered and
   * still silent when it ends, has been closed.
   */
  lemma {:induction false} MonitorClosesEverySilent(items: seq<(AgentId, Socket)>, r: Registry, now: nat, timeout: nat,
                                                    env: seq<seq<Event>>, a: AgentId, ws: Socket)
    requires forall es :: es in env ==> NotBefore(es, now)
    requires (a, ws) in items
    requires a in r.lastSeen && now - r.lastSeen[a] > timeout
    requires var end := Pass(items, r, now, timeout, env).1;
             a in end.lastSeen && end.lastSeen[a] == r.lastSeen[a]
    ensures exists c :: c in Pass(items, r, now, timeout, env).0 && c.agent == a && c.ws == ws
  {
    var (b, w) := items[0];
    var closed := Pass(items, r, now, timeout, env).0;
    if (b, w) == (a, ws) {
      assert closed[0] == Closing(a, ws, r);
    } else if now - LastHeard(r, b) > timeout {
      var meanwhile := if env == [] then [] else env[0];
      var later := if env == [] then [] else env[1..];
      var next := ApplyAll(r, meanwhile);
      PassUntouched(items[1..], next, now, timeout, later, a);
      MonitorClosesEverySilent(items[1..], next, now, timeout, later, a, ws);
      var c :| c in Pass(items[1..], next, now, timeout, later).0 && c.agent == a && c.ws == ws;
      assert c in closed;
    } else {
      MonitorClosesEverySilent(items[1..], r, now, timeout, env, a, ws);
    }
  }
}
