/** The hub's ConnectionManager object, method by method, against the registry and limiter specifications. */
module ConnectionManagement {
  import opened Common
  import R = Registry
  import L = RateLimit

  class ConnectionManager {
    const authRateWindow: nat
    const authRateLimit: nat
    var active: map<R.AgentId, R.Socket>
    var lastSeen: map<R.AgentId, nat>
    var authFailures: L.Failures
    ghost var attempts: seq<L.Event>  // every check made and failure recorded

    /** The failure lists are what is left of the attempts. */
    ghost predicate Valid()
      reads this
    {
      authFailures == L.Run(attempts, authRateWindow)
    }

    function Registry(): R.Registry
      reads this
    {
      R.Registry(active, lastSeen)
    }

    constructor (window: nat, limit: nat)
      ensures Valid() && attempts == [] && authRateWindow == window && authRateLimit == limit
      ensures Registry() == R.Registry(map[], map[])
    {
      authRateWindow, authRateLimit := window, limit;
      active, lastSeen, authFailures, attempts := map[], map[], map[], [];
    }

    /**
     * Under a monotonic clock the answer is that of counting every failure ever recorded for the IP
     * inside the window, although the kept list is pruned.
     */
    method IsRateLimited(ip: L.Ip, now: nat) returns (limited: bool)
      requires Valid()
      modifies this`authFailures, this`attempts
      ensures Valid() && attempts == old(attempts) + [L.Check(ip, now)]
      ensures limited <==> L.LimitedAt(old(attempts), ip, now, authRateWindow, authRateLimit)
      ensures L.Monotone(old(attempts)) && L.UpTo(old(attempts), now) ==>
        (limited <==> L.InWindow(L.Log(old(attempts), ip), now, authRateWindow) >= authRateLimit)
    {
      authFailures := authFailures[ip := L.Pruned(L.Of(authFailures, ip), now, authRateWindow)];
      limited := |authFailures[ip]| >= authRateLimit;
      if L.Monotone(attempts) && L.UpTo(attempts, now) {
        L.LimitedIff(attempts, ip, now, authRateWindow, authRateLimit);
      }
      L.RunOfOneMore(attempts, L.Check(ip, now), authRateWindow);
      attempts := attempts + [L.Check(ip, now)];
    }

    /** The failure joins the log of its IP and no other. */
    method RecordAuthFailure(ip: L.Ip, now: nat)
      requires Valid()
      modifies this`authFailures, this`attempts
      ensures Valid() && attempts == old(attempts) + [L.Failure(ip, now)]
      ensures L.Log(attempts, ip) == L.Log(old(attempts), ip) + [now]
      ensures forall other :: other != ip ==> L.Log(attempts, other) == L.Log(old(attempts), other)
    {
      authFailures := authFailures[ip := L.Of(authFailures, ip) + [now]];
      L.RunOfOneMore(attempts, L.Failure(ip, now), authRateWindow);
      forall other {
        L.LogOfOneMore(attempts, L.Failure(ip, now), other);
      }
      attempts := attempts + [L.Failure(ip, now)];
    }

    /** Up to its first await: the new socket is stored before the old one is closed. */
    method Connect(agent: R.AgentId, ws: R.Socket, now: nat) returns (superseded: Option<R.Socket>)
      modifies this`active, this`lastSeen
      ensures Registry() == R.Apply(old(Registry()), R.Connect(agent, ws, now))
      ensures superseded == if agent in old(active) then Some(old(active[agent])) else None
    {
      superseded := None;
      if agent in active {
        superseded := Some(active[agent]);
        active := active - {agent};
      }
      active := active[agent := ws];
      lastSeen := lastSeen[agent := now];
    }

    method Disconnect(agent: R.AgentId, ws: R.Socket)
      modifies this`active, this`lastSeen
      ensures Registry() == R.Apply(old(Registry()), R.Disconnect(agent, ws))
    {
      if agent in active && active[agent] == ws {
        active := active - {agent};
        lastSeen := lastSeen - {agent};
      }
    }

    /** Receipt of any message. */
    method Hear(agent: R.AgentId, now: nat)
      modifies this`lastSeen
      ensures Registry() == R.Apply(old(Registry()), R.Heard(agent, now))
    {
      lastSeen := lastSeen[agent := now];
    }

    /** What other coroutines do while this one awaits. */
    method Interleave(es: seq<R.Event>)
      modifies this`active, this`lastSeen
      ensures Registry() == R.ApplyAll(old(Registry()), es)
    {
      for i := 0 to |es|
        invariant R.ApplyAll(Registry(), es[i..]) == R.ApplyAll(old(Registry()), es)
      {
        assert es[i..][0] == es[i] && es[i..][1..] == es[i + 1..];
        match es[i]
        case Connect(a, ws, at) => var _ := Connect(a, ws, at);
        case Heard(a, at) => Hear(a, at);
        case Disconnect(a, ws) => Disconnect(a, ws);
      }
    }

    /**
     * `es` runs while the send is awaited; `delivered` says how the send ended. A failed send
     * unregisters the socket it used, never a replacement registered meanwhile.
     */
    method SendScanTrigger(agent: R.AgentId, es: seq<R.Event>, delivered: bool) returns (sent: bool)
      modifies this`active, this`lastSeen
      ensures agent !in old(active) ==> !sent && Registry() == old(Registry())
      ensures agent in old(active) ==>
        && sent == delivered
        && var after := R.ApplyAll(old(Registry()), es);
           Registry() == if delivered then after else R.Apply(after, R.Disconnect(agent, old(active[agent])))
    {
      if agent !in active {
        return false;
      }
      var ws := active[agent];
      Interleave(es);
      if !delivered {
        Disconnect(agent, ws);
      }
      return delivered;
    }

    /** One monitor pass; `items` is list(self.active.items()), `env` what runs at each close. */
    method MonitorAgentsOnce(items: seq<(R.AgentId, R.Socket)>, now: nat, timeout: nat, env: seq<seq<R.Event>>)
      returns (closed: seq<R.Closing>)
      requires forall a, ws :: (a, ws) in items <==> a in active && active[a] == ws
      modifies this`active, this`lastSeen
      ensures (closed, Registry()) == R.Pass(items, old(Registry()), now, timeout, env)
      ensures R.Tracked(old(Registry())) && (forall es :: es in env ==> R.NotBefore(es, now)) ==>
        forall c :: c in closed ==>
          || c.agent !in c.at.active || c.at.active[c.agent] != c.ws
          || (c.agent in old(lastSeen) && now - old(lastSeen)[c.agent] > timeout)
      ensures (forall es :: es in env ==> R.NotBefore(es, now)) ==>
        forall a :: && a in old(active) && a in old(lastSeen) && now - old(lastSeen)[a] > timeout
                    && a in lastSeen && lastSeen[a] == old(lastSeen)[a] ==>
          exists c :: c in closed && c.agent == a && c.ws == old(active)[a]
    {
      closed := [];
      ghost var start := Registry();
      ghost var whole := R.Pass(items, start, now, timeout, env);
      var e := 0;
      for i := 0 to |items|
        invariant 0 <= e <= |env|
        invariant var rest := R.Pass(items[i..], Registry(), now, timeout, env[e..]);
                  closed + rest.0 == whole.0 && rest.1 == whole.1
      {
        var (agent, ws) := items[i];
        assert items[i..][1..] == items[i + 1..];
        var last := if agent in lastSeen then lastSeen[agent] else 0;
        if now - last > timeout {
          closed := closed + [R.Closing(agent, ws, Registry())];
          if e < |env| {
            assert env[e..][1..] == env[e + 1..];
            Interleave(env[e]);
            e := e + 1;
          } else {
            Interleave([]);
          }
        }
      }
      assert items[|items|..] == [];
      assert closed == whole.0;
      if forall es :: es in env ==> R.NotBefore(es, now) {
        if R.Tracked(start) {
          forall c | c in closed
            ensures || c.agent !in c.at.active || c.at.active[c.agent] != c.ws
                    || (c.agent in start.lastSeen && now - start.lastSeen[c.agent] > timeout)
          {
            R.MonitorClosesOnlySilent(items, start, now, timeout, env, c);
          }
        }
        forall a | && a in start.active && a in start.lastSeen && now - start.lastSeen[a] > timeout
                   && a in lastSeen && lastSeen[a] == start.lastSeen[a]
          ensures exists c :: c in closed && c.agent == a && c.ws == start.active[a]
        {
          R.MonitorClosesEverySilent(items, start, now, timeout, env, a, start.active[a]);
        }
      }
    }
  }
}
