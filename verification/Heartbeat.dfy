/**
 * The heartbeat exchange in time: the agent sends a heartbeat every `interval`, the hub answers each
 * one, and both sides drop the connection when they hear nothing for too long.
 */
module Heartbeat {

  /** `delay` bounds one message's flight plus handling; `timeout` is the hub's heartbeat_timeout. */
  datatype Config = Config(interval: nat, delay: nat, timeout: nat)

  datatype Message = Message(sentAt: int, beat: bool)

  /** `toHub` and `toAgent` are FIFO; a timer is the instant its receive call last started waiting. */
  datatype Link = Link(
    now: int,
    lastBeat: int,
    toHub: seq<Message>,
    toAgent: seq<int>,
    hubTimer: int,
    agentTimer: int)

  datatype Step =
    | Advance(dt: nat)   // time passes
    | Beat               // the heartbeat loop wakes and sends
    | SendOther          // any other agent message, a scan result say
    | HubHandles         // the hub takes the next message and answers a heartbeat
    | AgentHandles       // the agent takes the next acknowledgement

  /** The agent enters its main loop at 0, its handshake messages just sent; the hub has waited since its challenge. */
  ghost predicate Initial(c: Config, l: Link) {
    && l.now == l.lastBeat == l.agentTimer == 0
    && -(c.delay as int) <= l.hubTimer <= 0
    && l.toHub == [Message(0, false)] && l.toAgent == []
  }

  /** Time may not pass a pending deadline. */
  predicate MayAdvance(c: Config, l: Link, dt: nat) {
    && l.now + dt <= l.lastBeat + c.interval
    && (forall m :: m in l.toHub ==> l.now + dt <= m.sentAt + c.delay)
    && (forall t :: t in l.toAgent ==> l.now + dt <= t + c.delay)
  }

  predicate Enabled(c: Config, l: Link, s: Step) {
    match s
    case Advance(dt) => MayAdvance(c, l, dt)
    case Beat => l.now == l.lastBeat + c.interval
    case SendOther => true
    case HubHandles => l.toHub != []
    case AgentHandles => l.toAgent != []
  }

  function Next(l: Link, s: Step): Link
    requires s.HubHandles? ==> l.toHub != []
    requires s.AgentHandles? ==> l.toAgent != []
  {
    match s
    case Advance(dt) => l.(now := l.now + dt)
    case Beat => l.(lastBeat := l.now, toHub := l.toHub + [Message(l.now, true)])
    case SendOther => l.(toHub := l.toHub + [Message(l.now, false)])
    case HubHandles =>
      l.(toHub := l.toHub[1..], hubTimer := l.now,
         toAgent := if l.toHub[0].beat then l.toAgent + [l.now] else l.toAgent)
    case AgentHandles => l.(toAgent := l.toAgent[1..], agentTimer := l.now)
  }

  ghost predicate Run(c: Config, l: Link, steps: seq<Step>, end: Link)
    decreases |steps|
  {
    if steps == [] then l == end else Enabled(c, l, steps[0]) && Run(c, Next(l, steps[0]), steps[1..], end)
  }

  /** asyncio.wait_for around the hub's receive, or its monitor. */
  predicate HubTimesOut(c: Config, l: Link) {
    l.now - l.hubTimer >= c.timeout
  }

  /** The agent's receive timeout is twice the heartbeat interval. */
  predicate AgentTimesOut(c: Config, l: Link) {
    l.now - l.agentTimer >= 2 * c.interval
  }

  /** No run lets either side time out. */
  ghost predicate NeverTimesOut(c: Config) {
    forall start, steps, end :: Initial(c, start) && Run(c, start, steps, end) ==>
      !HubTimesOut(c, end) && !AgentTimesOut(c, end)
  }

  // ── Sufficiency ────────────────────────────────────────────────────────────

  ghost predicate Ordered(l: Link) {
    && (forall i, j :: 0 <= i < j < |l.toHub| ==> l.toHub[i].sentAt <= l.toHub[j].sentAt)
    && (forall m :: m in l.toHub ==> m.sentAt <= l.now)
    && (forall t :: t in l.toAgent ==> t <= l.now)
  }

  ghost predicate NoDeadlineMissed(c: Config, l: Link) {
    MayAdvance(c, l, 0)
  }

  /** The hub hears something at most an interval after it began to wait. */
  ghost predicate HubCovered(c: Config, l: Link) {
    if l.toHub == [] then l.lastBeat <= l.hubTimer else l.toHub[0].sentAt <= l.hubTimer + c.interval
  }

  /** Some acknowledgement, or a heartbeat that will cause one, is under way in time. */
  ghost predicate AgentCovered(c: Config, l: Link) {
    if l.toAgent != [] then
      l.toAgent[0] <= l.agentTimer + c.interval + c.delay
    else if exists m :: m in l.toHub && m.beat then
      exists i :: 0 <= i < |l.toHub| && l.toHub[i].beat && l.toHub[i].sentAt <= l.agentTimer + c.interval
    else
      l.lastBeat <= l.agentTimer
  }

  ghost predicate Inv(c: Config, l: Link) {
    Ordered(l) && NoDeadlineMissed(c, l) && HubCovered(c, l) && AgentCovered(c, l) && l.lastBeat <= l.now
  }

  lemma StepKeepsHubCovered(c: Config, l: Link, s: Step)
    requires Inv(c, l) && Enabled(c, l, s)
    ensures Ordered(Next(l, s)) && NoDeadlineMissed(c, Next(l, s)) && HubCovered(c, Next(l, s))
    ensures Next(l, s).lastBeat <= Next(l, s).now
  {
    if s.HubHandles? {
      assert forall t :: t in l.toAgent + [l.now] ==> t in l.toAgent || t == l.now;
      assert forall m :: m in l.toHub[1..] ==> m in l.toHub;
      assert |l.toHub| > 1 ==> l.toHub[1..][0] in l.toHub;
    } else if s.AgentHandles? {
      assert forall t :: t in l.toAgent[1..] ==> t in l.toAgent;
    }
  }

  /** A message put on the link behind those already there. */
  lemma SendKeepsAgentCovered(c: Config, l: Link, l': Link, beat: bool)
    requires Inv(c, l) && l.toAgent == l'.toAgent && l.agentTimer == l'.agentTimer
    requires l'.toHub == l.toHub + [Message(l.now, beat)]
    requires if beat then l.now == l.lastBeat + c.interval else l.lastBeat == l'.lastBeat
    ensures AgentCovered(c, l')
  {
    if l.toAgent == [] {
      if i :| 0 <= i < |l.toHub| && l.toHub[i].beat && l.toHub[i].sentAt <= l.agentTimer + c.interval {
        assert l'.toHub[i] == l.toHub[i];
      } else if beat {
        assert l'.toHub[|l.toHub|] == Message(l.now, true);
      } else {
        assert forall m :: m in l'.toHub && m.beat ==> m in l.toHub;
      }
    }
  }

  lemma HubHandlesKeepsAgentCovered(c: Config, l: Link)
    requires Inv(c, l) && l.toHub != []
    ensures AgentCovered(c, Next(l, HubHandles))
  {
    var l' := Next(l, HubHandles);
    if l.toAgent == [] {
      if i :| 0 <= i < |l.toHub| && l.toHub[i].beat && l.toHub[i].sentAt <= l.agentTimer + c.interval {
        if l.toHub[0].beat {
          assert l.toHub[0] in l.toHub;
          assert i > 0 ==> l.toHub[0].sentAt <= l.toHub[i].sentAt;
        } else {
          assert l'.toHub[i - 1] == l.toHub[i];
        }
      } else {
        assert forall m :: m in l'.toHub ==> m in l.toHub;
        assert l.toHub[0] in l.toHub;
      }
    }
  }

  lemma StepKeepsAgentCovered(c: Config, l: Link, s: Step)
    requires Inv(c, l) && Enabled(c, l, s)
    ensures AgentCovered(c, Next(l, s))
  {
    var l' := Next(l, s);
    match s {
      case Advance(_) =>
      case Beat => SendKeepsAgentCovered(c, l, l', true);
      case SendOther => SendKeepsAgentCovered(c, l, l', false);
      case HubHandles => HubHandlesKeepsAgentCovered(c, l);
      case AgentHandles =>
        if l'.toAgent != [] {
          assert l'.toAgent[0] in l.toAgent;
        } else if exists m :: m in l'.toHub && m.beat {
          var m :| m in l'.toHub && m.beat;
          var i :| 0 <= i < |l'.toHub| && l'.toHub[i] == m;
          assert l'.toHub[i].beat;
        }
    }
  }

  lemma {:induction false} RunKeepsInv(c: Config, l: Link, steps: seq<Step>, end: Link)
    requires Inv(c, l) && Run(c, l, steps, end)
    ensures Inv(c, end)
    decreases |steps|
  {
    if steps != [] {
      StepKeepsHubCovered(c, l, steps[0]);
      StepKeepsAgentCovered(c, l, steps[0]);
      RunKeepsInv(c, Next(l, steps[0]), steps[1..], end);
    }
  }

  lemma CoveredMeansInTime(c: Config, l: Link)
    requires Inv(c, l)
    requires 2 * c.delay < c.interval && c.interval + c.delay < c.timeout
    ensures !HubTimesOut(c, l) && !AgentTimesOut(c, l)
  {
    assert l.toHub != [] ==> l.toHub[0] in l.toHub;
    assert l.toAgent != [] ==> l.toAgent[0] in l.toAgent;
  }

  // ── Necessity ──────────────────────────────────────────────────────────────

  const START := Link(0, 0, [Message(0, false)], [], 0, 0)

  lemma {:induction false} RunAppend(c: Config, l: Link, steps: seq<Step>, mid: Link, s: Step)
    requires Run(c, l, steps, mid) && Enabled(c, mid, s)
    ensures Run(c, l, steps + [s], Next(mid, s))
    decreases |steps|
  {
    if steps == [] {
      assert Run(c, Next(mid, s), [], Next(mid, s));
      assert (steps + [s])[1..] == [];
    } else {
      assert (steps + [s])[1..] == steps[1..] + [s];
      RunAppend(c, Next(l, steps[0]), steps[1..], mid, s);
    }
  }

  lemma EndsInTimeout(c: Config, steps: seq<Step>, end: Link)
    requires Run(c, START, steps, end) && (HubTimesOut(c, end) || AgentTimesOut(c, end))
    ensures !NeverTimesOut(c)
  {
    assert Initial(c, START);
  }

  /** The state when the agent's first heartbeat has just been sent, as late as it may be. */
  function FirstBeat(c: Config): Link {
    Link(c.interval, c.interval, [Message(c.interval, true)], [], 0, 0)
  }

  lemma FirstBeatIsReached(c: Config) returns (steps: seq<Step>)
    ensures Run(c, START, steps, FirstBeat(c))
  {
    var l1 := Link(0, 0, [], [], 0, 0);
    var l2 := Link(c.interval, 0, [], [], 0, 0);
    RunAppend(c, START, [], START, HubHandles);
    assert Next(START, HubHandles) == l1;
    RunAppend(c, START, [] + [HubHandles], l1, Advance(c.interval));
    assert Next(l1, Advance(c.interval)) == l2;
    RunAppend(c, START, [] + [HubHandles] + [Advance(c.interval)], l2, Beat);
    assert Next(l2, Beat) == FirstBeat(c);
    steps := [] + [HubHandles] + [Advance(c.interval)] + [Beat];
  }

  /** A heartbeat as late as it may be reaches the hub an interval and a delay after the last message. */
  lemma SlowHubTimesOut(c: Config)
    requires c.interval + c.delay >= c.timeout
    ensures !NeverTimesOut(c)
  {
    if c.delay <= c.interval {
      var steps := FirstBeatIsReached(c);
      RunAppend(c, START, steps, FirstBeat(c), Advance(c.delay));
      EndsInTimeout(c, steps + [Advance(c.delay)], Next(FirstBeat(c), Advance(c.delay)));
    } else {
      SlowLinkTimesOut(c);
    }
  }

  /** When an acknowledgement can take a whole interval, the second interval passes in silence. */
  lemma SlowLinkTimesOut(c: Config)
    requires 2 * c.delay >= c.interval
    ensures !NeverTimesOut(c)
  {
    var d := if c.delay < c.interval then c.delay else c.interval;
    var l3 := FirstBeat(c);
    var steps := FirstBeatIsReached(c);
    var l4 := l3.(now := c.interval + d);
    RunAppend(c, START, steps, l3, Advance(d));
    assert Next(l3, Advance(d)) == l4;
    var l5 := l4.(toHub := [], hubTimer := l4.now, toAgent := [l4.now]);
    RunAppend(c, START, steps + [Advance(d)], l4, HubHandles);
    assert Next(l4, HubHandles) == l5;
    RunAppend(c, START, steps + [Advance(d)] + [HubHandles], l5, Advance(c.interval - d));
    EndsInTimeout(c, steps + [Advance(d)] + [HubHandles] + [Advance(c.interval - d)],
                  Next(l5, Advance(c.interval - d)));
  }

  /** The heartbeat settings are safe in every run exactly when they meet these two bounds. */
  lemma HeartbeatSafeIff(c: Config)
    ensures NeverTimesOut(c) <==> 2 * c.delay < c.interval && c.interval + c.delay < c.timeout
  {
    if 2 * c.delay >= c.interval {
      SlowLinkTimesOut(c);
    } else if c.interval + c.delay >= c.timeout {
      SlowHubTimesOut(c);
    } else {
      forall start, steps, end | Initial(c, start) && Run(c, start, steps, end)
        ensures !HubTimesOut(c, end) && !AgentTimesOut(c, end)
      {
        RunKeepsInv(c, start, steps, end);
        CoveredMeansInTime(c, end);
      }
    }
  }
}
