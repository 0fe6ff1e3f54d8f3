/** The per-IP limiter on failed authentications: a pruned list that stands for the whole log. */
module RateLimit {

  type Ip = string
  type Failures = map<Ip, seq<nat>>  // defaultdict(list) of monotonic timestamps

  function Of(m: Failures, ip: Ip): seq<nat> {
    if ip in m then m[ip] else []
  }

  /** The list comprehension of the check: entries younger than the window at `now`. */
  function Pruned(ts: seq<nat>, now: int, window: nat): seq<nat> {
    if ts == [] then []
    else
      var n := |ts| - 1;
      Pruned(ts[..n], now, window) + (if now - ts[n] < window then [ts[n]] else [])
  }

  /** A connection attempt checks the limit and, if admitted, ends in a recorded failure or a success. */
  datatype Event = Check(ip: Ip, at: nat) | Failure(ip: Ip, at: nat) | Success(ip: Ip, at: nat)

  function Apply(m: Failures, e: Event, window: nat): Failures {
    match e
    case Check(ip, at) => m[ip := Pruned(Of(m, ip), at, window)]
    case Failure(ip, at) => m[ip := Of(m, ip) + [at]]
    case Success(_, _) => m
  }

  function Run(es: seq<Event>, window: nat): Failures {
    if es == [] then map[] else Apply(Run(es[..|es| - 1], window), es[|es| - 1], window)
  }

  /** Reference: every failure ever recorded for `ip`, never pruned. */
  function Log(es: seq<Event>, ip: Ip): seq<nat> {
    if es == [] then []
    else
      var n := |es| - 1;
      Log(es[..n], ip) + (if es[n].Failure? && es[n].ip == ip then [es[n].at] else [])
  }

  lemma RunOfOneMore(es: seq<Event>, e: Event, window: nat)
    ensures Run(es + [e], window) == Apply(Run(es, window), e, window)
  {
    assert (es + [e])[..|es|] == es;
  }

  lemma LogOfOneMore(es: seq<Event>, e: Event, ip: Ip)
    ensures Log(es + [e], ip) == if e.Failure? && e.ip == ip then Log(es, ip) + [e.at] else Log(es, ip)
  {
    assert (es + [e])[..|es|] == es;
    assert Log(es, ip) + [] == Log(es, ip);
  }

  ghost predicate Monotone(es: seq<Event>) {
    forall i, j :: 0 <= i < j < |es| ==> es[i].at <= es[j].at
  }

  ghost predicate UpTo(es: seq<Event>, now: int) {
    forall i :: 0 <= i < |es| ==> es[i].at <= now
  }

  lemma {:induction false} PruneAgain(ts: seq<nat>, earlier: int, now: int, window: nat)
    requires earlier <= now
    ensures Pruned(Pruned(ts, earlier, window), now, window) == Pruned(ts, now, window)
  {
    if ts != [] {
      var n := |ts| - 1;
      PruneAgain(ts[..n], earlier, now, window);
      var front := Pruned(ts[..n], earlier, window);
      if earlier - ts[n] < window {
        assert (front + [ts[n]])[..|front|] == front;
      } else {
        assert front + [] == front;
      }
    }
  }

  lemma PrunedOfOneMore(ts: seq<nat>, t: nat, now: int, window: nat)
    ensures Pruned(ts + [t], now, window) == Pruned(ts, now, window) + (if now - t < window then [t] else [])
  {
    assert (ts + [t])[..|ts|] == ts;
  }

  /**
   * The list the manager keeps answers every later check exactly as the unpruned log would,
   * whatever other IPs do in between.
   */
  lemma {:induction false} PrunedListAgreesWithLog(es: seq<Event>, ip: Ip, now: int, window: nat)
    requires Monotone(es) && UpTo(es, now)
    ensures Pruned(Of(Run(es, window), ip), now, window) == Pruned(Log(es, ip), now, window)
  {
    if es != [] {
      var n := |es| - 1;
      PrunedListAgreesWithLog(es[..n], ip, now, window);
      var kept, log := Of(Run(es[..n], window), ip), Log(es[..n], ip);
      assert log + [] == log;
      if es[n].ip == ip && es[n].Check? {
        PruneAgain(kept, es[n].at, now, window);
      } else if es[n].ip == ip && es[n].Failure? {
        PrunedOfOneMore(kept, es[n].at, now, window);
        PrunedOfOneMore(log, es[n].at, now, window);
      }
    }
  }

  /** A check leaves exactly the failures of the IP that lie in the window, in their order. */
  lemma CheckKeepsWindow(es: seq<Event>, ip: Ip, now: nat, window: nat)
    requires Monotone(es) && UpTo(es, now)
    ensures Of(Run(es + [Check(ip, now)], window), ip) == Pruned(Log(es, ip), now, window)
  {
    PrunedListAgreesWithLog(es, ip, now, window);
    RunOfOneMore(es, Check(ip, now), window);
  }

  // ── The cap ────────────────────────────────────────────────────────────────

  /** is_rate_limited() after the events `es`. */
  predicate LimitedAt(es: seq<Event>, ip: Ip, now: nat, window: nat, limit: nat) {
    |Pruned(Of(Run(es, window), ip), now, window)| >= limit
  }

  /** Event `k` is admitted by the check at `j`, and nothing else happened for the IP in between. */
  ghost predicate AdmittedBy(es: seq<Event>, k: nat, j: nat, window: nat, limit: nat)
    requires j < k < |es|
  {
    && es[j] == Check(es[k].ip, es[j].at)
    && !LimitedAt(es[..j], es[k].ip, es[j].at, window, limit)
    && forall m :: j < m < k ==> es[m].ip != es[k].ip
  }

  /** Each recorded failure of `ip` follows its own passed check with no overlap. */
  ghost predicate Serial(es: seq<Event>, ip: Ip, window: nat, limit: nat) {
    forall k: nat :: k < |es| && es[k].Failure? && es[k].ip == ip ==>
      exists j: nat :: j < k && AdmittedBy(es, k, j, window, limit)
  }

  /** Failures in the window of that length ending at `end`. */
  function InWindow(ts: seq<nat>, end: int, window: nat): nat {
    if ts == [] then 0
    else
      var n := |ts| - 1;
      InWindow(ts[..n], end, window) + (if ts[n] <= end && end - ts[n] < window then 1 else 0)
  }

  lemma {:induction false} WindowWithinPruned(ts: seq<nat>, now: int, end: int, window: nat)
    requires now <= end
    ensures InWindow(ts, end, window) <= |Pruned(ts, now, window)|
  {
    if ts != [] {
      WindowWithinPruned(ts[..|ts| - 1], now, end, window);
    }
  }

  lemma {:induction false} PrunedCountsWindow(ts: seq<nat>, now: int, window: nat)
    requires forall i :: 0 <= i < |ts| ==> ts[i] <= now
    ensures |Pruned(ts, now, window)| == InWindow(ts, now, window)
  {
    if ts != [] {
      PrunedCountsWindow(ts[..|ts| - 1], now, window);
    }
  }

  lemma {:induction false} LogUpTo(es: seq<Event>, ip: Ip, now: int)
    requires UpTo(es, now)
    ensures forall i :: 0 <= i < |Log(es, ip)| ==> Log(es, ip)[i] <= now
  {
    if es != [] {
      LogUpTo(es[..|es| - 1], ip, now);
    }
  }

  /** An IP is limited exactly when at least `limit` of all its recorded failures are younger than the window. */
  lemma LimitedIff(es: seq<Event>, ip: Ip, now: nat, window: nat, limit: nat)
    requires Monotone(es) && UpTo(es, now)
    ensures LimitedAt(es, ip, now, window, limit) <==> InWindow(Log(es, ip), now, window) >= limit
  {
    PrunedListAgreesWithLog(es, ip, now, window);
    LogUpTo(es, ip, now);
    PrunedCountsWindow(Log(es, ip), now, window);
  }

  /** Events of other IPs leave the log of `ip` alone. */
  lemma {:induction false} QuietLog(es: seq<Event>, j: nat, k: nat, ip: Ip)
    requires j <= k <= |es|
    requires forall m :: j <= m < k ==> es[m].ip != ip || !es[m].Failure?
    ensures Log(es[..k], ip) == Log(es[..j], ip)
    decreases k
  {
    if j < k {
      QuietLog(es, j, k - 1, ip);
      assert es[..k][..k - 1] == es[..k - 1];
    }
  }

  lemma SerialPrefix(es: seq<Event>, n: nat, ip: Ip, window: nat, limit: nat)
    requires n <= |es| && Serial(es, ip, window, limit)
    ensures Serial(es[..n], ip, window, limit)
  {
    var front := es[..n];
    forall k: nat | k < n && front[k].Failure? && front[k].ip == ip
      ensures exists j: nat :: j < k && AdmittedBy(front, k, j, window, limit)
    {
      var j: nat :| j < k && AdmittedBy(es, k, j, window, limit);
      assert front[..j] == es[..j];
      assert AdmittedBy(front, k, j, window, limit);
    }
  }

  /** An admitted failure finds room: every window ending at or after it holds fewer than the limit so far. */
  lemma AdmittedFindsRoom(es: seq<Event>, k: nat, j: nat, end: int, window: nat, limit: nat)
    requires j < k < |es| && es[k].at <= end
    requires Monotone(es) && AdmittedBy(es, k, j, window, limit)
    ensures InWindow(Log(es[..k], es[k].ip), end, window) < limit
  {
    var ip := es[k].ip;
    QuietLog(es, j + 1, k, ip);
    QuietLog(es, j, j + 1, ip);
    PrunedListAgreesWithLog(es[..j], ip, es[j].at, window);
    WindowWithinPruned(Log(es[..j], ip), es[j].at, end, window);
  }

  lemma WindowOfOneMore(ts: seq<nat>, t: nat, end: int, window: nat)
    ensures InWindow(ts + [t], end, window)
            == InWindow(ts, end, window) + (if t <= end && end - t < window then 1 else 0)
  {
    assert (ts + [t])[..|ts|] == ts;
  }

  /** With serial attempts no window of that length ever holds more failures than the limit. */
  lemma {:induction false} NoWindowExceedsLimit(es: seq<Event>, ip: Ip, end: int, window: nat, limit: nat)
    requires Monotone(es) && Serial(es, ip, window, limit)
    ensures InWindow(Log(es, ip), end, window) <= limit
    decreases |es|
  {
    if es != [] {
      var n := |es| - 1;
      SerialPrefix(es, n, ip, window, limit);
      NoWindowExceedsLimit(es[..n], ip, end, window, limit);
      if es[n].Failure? && es[n].ip == ip {
        WindowOfOneMore(Log(es[..n], ip), es[n].at, end, window);
        if es[n].at <= end {
          var j: nat :| j < n && AdmittedBy(es, n, j, window, limit);
          AdmittedFindsRoom(es, n, j, end, window, limit);
        }
      } else {
        assert Log(es[..n], ip) + [] == Log(es[..n], ip);
      }
    }
  }

  // ── The cap under overlap ──────────────────────────────────────────────────

  /** Attempts of `ip` that passed their check and have not ended. */
  function Outstanding(es: seq<Event>, ip: Ip, window: nat, limit: nat): int {
    if es == [] then 0
    else
      var front, e := es[..|es| - 1], es[|es| - 1];
      Outstanding(front, ip, window, limit)
      + (if e.ip != ip then 0
         else if !e.Check? then -1
         else if LimitedAt(front, ip, e.at, window, limit) then 0 else 1)
  }

  /** Every end belongs to an admitted attempt, and no more than `m` attempts are under way at once. */
  ghost predicate OverlapAtMost(es: seq<Event>, ip: Ip, window: nat, limit: nat, m: nat) {
    forall n :: 0 <= n <= |es| ==> 0 <= Outstanding(es[..n], ip, window, limit) <= m
  }

  lemma OverlapPrefix(es: seq<Event>, k: nat, ip: Ip, window: nat, limit: nat, m: nat)
    requires k <= |es| && OverlapAtMost(es, ip, window, limit, m)
    ensures OverlapAtMost(es[..k], ip, window, limit, m) && 0 <= Outstanding(es[..k], ip, window, limit) <= m
  {
    forall n | 0 <= n <= k ensures 0 <= Outstanding(es[..k][..n], ip, window, limit) <= m {
      assert es[..k][..n] == es[..n];
    }
  }

  /** An admitted check finds fewer failures than the limit in every window that ends at or after it. */
  lemma PassedFindsRoom(es: seq<Event>, ip: Ip, at: nat, end: int, window: nat, limit: nat)
    requires Monotone(es) && UpTo(es, at) && at <= end && !LimitedAt(es, ip, at, window, limit)
    ensures InWindow(Log(es, ip), end, window) < limit
  {
    PrunedListAgreesWithLog(es, ip, at, window);
    WindowWithinPruned(Log(es, ip), at, end, window);
  }

  /** Failures already in the window and attempts that may still add one. */
  lemma {:induction false} RoomLeft(es: seq<Event>, ip: Ip, end: int, window: nat, limit: nat, m: nat)
    requires Monotone(es) && UpTo(es, end) && m >= 1 && OverlapAtMost(es, ip, window, limit, m)
    ensures InWindow(Log(es, ip), end, window) + Outstanding(es, ip, window, limit) <= limit + m - 1
    decreases |es|
  {
    if es != [] {
      var n := |es| - 1;
      var front, e := es[..n], es[n];
      OverlapPrefix(es, n, ip, window, limit, m);
      OverlapPrefix(es, n + 1, ip, window, limit, m);
      assert es[..n + 1] == es;
      RoomLeft(front, ip, end, window, limit, m);
      assert Log(front, ip) + [] == Log(front, ip);
      if e.ip == ip && e.Failure? {
        WindowOfOneMore(Log(front, ip), e.at, end, window);
      } else if e.ip == ip && e.Check? && !LimitedAt(front, ip, e.at, window, limit) {
        PassedFindsRoom(front, ip, e.at, end, window, limit);
      }
    }
  }

  /** With at most `m` attempts under way at once, no window holds more than `limit + m - 1` failures. */
  lemma {:induction false} OverlapBoundsWindow(es: seq<Event>, ip: Ip, end: int, window: nat, limit: nat, m: nat)
    requires Monotone(es) && m >= 1 && OverlapAtMost(es, ip, window, limit, m)
    ensures InWindow(Log(es, ip), end, window) <= limit + m - 1
    decreases |es|
  {
    if es == [] || es[|es| - 1].at <= end {
      RoomLeft(es, ip, end, window, limit, m);
      OverlapPrefix(es, |es|, ip, window, limit, m);
      assert es[..|es|] == es;
    } else {
      var n := |es| - 1;
      OverlapPrefix(es, n, ip, window, limit, m);
      OverlapBoundsWindow(es[..n], ip, end, window, limit, m);
      assert Log(es[..n], ip) + [] == Log(es[..n], ip);
      if es[n].ip == ip && es[n].Failure? {
        WindowOfOneMore(Log(es[..n], ip), es[n].at, end, window);
      }
    }
  }

  /** Events of `ip` alone, all at time 0, with `k` failures so far. */
  ghost predicate Burst(es: seq<Event>, ip: Ip, window: nat, limit: nat, m: nat, k: nat, open: int) {
    && (forall i :: 0 <= i < |es| ==> es[i].ip == ip && es[i].at == 0)
    && |Log(es, ip)| == k && Outstanding(es, ip, window, limit) == open && OverlapAtMost(es, ip, window, limit, m)
  }

  lemma {:induction false} AllInWindow(ts: seq<nat>, window: nat)
    requires window >= 1 && forall i :: 0 <= i < |ts| ==> ts[i] == 0
    ensures InWindow(ts, 0, window) == |ts|
  {
    if ts != [] {
      AllInWindow(ts[..|ts| - 1], window);
    }
  }

  lemma {:induction false} LogAtZero(es: seq<Event>, ip: Ip)
    requires forall i :: 0 <= i < |es| ==> es[i].at == 0
    ensures forall i :: 0 <= i < |Log(es, ip)| ==> Log(es, ip)[i] == 0
  {
    if es != [] {
      LogAtZero(es[..|es| - 1], ip);
    }
  }

  lemma BurstGrows(es: seq<Event>, ip: Ip, window: nat, limit: nat, m: nat, k: nat, open: int, e: Event)
    requires window >= 1 && Burst(es, ip, window, limit, m, k, open) && e.ip == ip && e.at == 0
    ensures var open' := if e.Check? then (if k >= limit then open else open + 1) else open - 1;
            0 <= open' <= m ==> Burst(es + [e], ip, window, limit, m, if e.Failure? then k + 1 else k, open')
  {
    var es' := es + [e];
    assert es'[..|es|] == es && es'[|es|] == e;
    LogAtZero(es, ip);
    AllInWindow(Log(es, ip), window);
    LimitedIff(es, ip, 0, window, limit);
    assert LimitedAt(es, ip, 0, window, limit) <==> k >= limit;
    assert Log(es, ip) + [] == Log(es, ip);
    if 0 <= Outstanding(es', ip, window, limit) <= m {
      forall n | 0 <= n <= |es'| ensures 0 <= Outstanding(es'[..n], ip, window, limit) <= m {
        if n <= |es| {
          assert es'[..n] == es[..n];
        } else {
          assert es'[..n] == es';
        }
      }
    }
  }

  /** `k` attempts, each failing before the next begins. */
  lemma {:induction false} OneByOne(ip: Ip, window: nat, limit: nat, m: nat, k: nat) returns (es: seq<Event>)
    requires window >= 1 && m >= 1 && k <= limit
    ensures Burst(es, ip, window, limit, m, k, 0)
  {
    if k == 0 {
      es := [];
      assert es[..0] == es;
    } else {
      var front := OneByOne(ip, window, limit, m, k - 1);
      BurstGrows(front, ip, window, limit, m, k - 1, 0, Check(ip, 0));
      BurstGrows(front + [Check(ip, 0)], ip, window, limit, m, k - 1, 1, Failure(ip, 0));
      es := front + [Check(ip, 0)] + [Failure(ip, 0)];
    }
  }

  /** One failure below the limit, `open` further attempts are admitted together. */
  lemma {:induction false} AllAdmitted(ip: Ip, window: nat, limit: nat, m: nat, open: nat) returns (es: seq<Event>)
    requires window >= 1 && limit >= 1 && m >= 1 && open <= m
    ensures Burst(es, ip, window, limit, m, limit - 1, open)
  {
    if open == 0 {
      es := OneByOne(ip, window, limit, m, limit - 1);
    } else {
      var front := AllAdmitted(ip, window, limit, m, open - 1);
      BurstGrows(front, ip, window, limit, m, limit - 1, open - 1, Check(ip, 0));
      es := front + [Check(ip, 0)];
    }
  }

  /** And then all fail. */
  lemma {:induction false} AllFail(ip: Ip, window: nat, limit: nat, m: nat, k: nat) returns (es: seq<Event>)
    requires window >= 1 && limit >= 1 && m >= 1 && k <= m
    ensures Burst(es, ip, window, limit, m, limit - 1 + k, m - k)
  {
    if k == 0 {
      es := AllAdmitted(ip, window, limit, m, m);
    } else {
      var front := AllFail(ip, window, limit, m, k - 1);
      BurstGrows(front, ip, window, limit, m, limit - 1 + (k - 1), m - (k - 1), Failure(ip, 0));
      es := front + [Failure(ip, 0)];
    }
  }

  /** No window of any run with at most `m` attempts under way at once holds more than `bound` failures. */
  ghost predicate CapHolds(ip: Ip, window: nat, limit: nat, m: nat, bound: int) {
    forall es, end :: Monotone(es) && OverlapAtMost(es, ip, window, limit, m) ==>
      InWindow(Log(es, ip), end, window) <= bound
  }

  /**
   * The number of failures a window can hold is exactly `limit + m - 1`: for every limit the limiter
   * caps it at the limit if and only if attempts of one IP do not overlap.
   */
  lemma CapUnderOverlapIff(ip: Ip, window: nat, limit: nat, m: nat, bound: int)
    requires window >= 1 && limit >= 1 && m >= 1
    ensures CapHolds(ip, window, limit, m, bound) <==> limit + m - 1 <= bound
    ensures CapHolds(ip, window, limit, m, limit) <==> m == 1
  {
    forall es, end | Monotone(es) && OverlapAtMost(es, ip, window, limit, m)
      ensures InWindow(Log(es, ip), end, window) <= limit + m - 1
    {
      OverlapBoundsWindow(es, ip, end, window, limit, m);
    }
    var es := AllFail(ip, window, limit, m, m);
    LogAtZero(es, ip);
    AllInWindow(Log(es, ip), window);
    assert InWindow(Log(es, ip), 0, window) == limit + m - 1;
  }
}
