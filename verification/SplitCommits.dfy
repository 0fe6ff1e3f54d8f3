/**
 * The connection protocol without two of its atomic blocks: a finally block may commit OFFLINE later
 * than the check that decided it, and a scan trigger may commit SCANNING later than its send.
 */
module SplitCommits {
  import opened R = Registry
  import P = Protocol

  datatype Sent = Sent(agent: AgentId, at: nat)

  /**
   * `leaving` are the sockets whose finally block has decided to write OFFLINE, and since when;
   * `triggers` have been sent and not committed. Both time maps are history that no step reads.
   */
  datatype Hub = Hub(
    base: P.Hub,
    leaving: map<Socket, nat>,
    triggers: map<nat, Sent>,
    onlineAt: map<Socket, nat>,
    finishedAt: map<Socket, nat>,
    now: nat)

  const INITIAL := Hub(P.INITIAL, map[], map[], map[], map[], 0)

  datatype Step =
    | Whole(step: P.Step)                    // a step of the atomic protocol, an undivided finally or trigger included
    | FinishCheck(ws: Socket)                // the finally block up to its status write
    | FinishCommit(ws: Socket)               // its OFFLINE commit, if it decided on one
    | TriggerSend(id: nat, agent: AgentId)   // a trigger sent over a registered socket
    | TriggerCommit(id: nat)                 // its SCANNING commit

  function Next(h: Hub, s: Step): Hub {
    match s
    case Whole(step) =>
      h.(base := P.Next(h.base, step), now := h.now + 1,
         onlineAt := if step.CommitOnline? && P.InPhase(h.base, step.ws, P.Registered)
                     then h.onlineAt[step.ws := h.now] else h.onlineAt,
         finishedAt := if step.Finish? && P.InPhase(h.base, step.ws, P.Receiving)
                       then h.finishedAt[step.ws := h.now] else h.finishedAt)
    case FinishCheck(ws) =>
      if P.InPhase(h.base, ws, P.Receiving) then
        var (base, last) := P.Unregister(h.base, ws);
        h.(base := base, now := h.now + 1,
           leaving := if last then h.leaving[ws := h.now] else h.leaving,
           finishedAt := if last then h.finishedAt else h.finishedAt[ws := h.now])
      else h
    case FinishCommit(ws) =>
      if ws in h.leaving && ws in h.base.handlers then
        h.(base := P.Write(h.base, h.base.handlers[ws].agent, P.Offline), now := h.now + 1,
           leaving := h.leaving - {ws}, finishedAt := h.finishedAt[ws := h.now])
      else h
    case TriggerSend(id, a) =>
      if a in h.base.reg.active && id !in h.triggers then
        h.(triggers := h.triggers[id := Sent(a, h.now)], now := h.now + 1)
      else h
    case TriggerCommit(id) =>
      if id in h.triggers then
        h.(base := P.Write(h.base, h.triggers[id].agent, P.Scanning), now := h.now + 1,
           triggers := h.triggers - {id})
      else h
  }

  function Exec(h: Hub, steps: seq<Step>): Hub
    decreases |steps|
  {
    if steps == [] then h else Exec(Next(h, steps[0]), steps[1..])
  }

  // ── Status ─────────────────────────────────────────────────────────────────

  /** The handler has still to write or to decide against OFFLINE. */
  predicate Running(h: Hub, ws: Socket, a: AgentId) {
    P.Live(h.base, ws, a) || (ws in h.leaving && ws in h.base.handlers && h.base.handlers[ws].agent == a)
  }

  ghost predicate AllFinished(h: Hub, a: AgentId) {
    forall ws :: !Running(h, ws, a)
  }

  /** A registered socket past its ONLINE commit is never OFFLINE; an agent without running handlers always is. */
  ghost predicate StatusRight(h: Hub) {
    && (forall a :: a in h.base.reg.active && P.InPhase(h.base, h.base.reg.active[a], P.Receiving) ==>
          P.StatusOf(h.base, a) != P.Offline)
    && (forall a :: AllFinished(h, a) ==> P.StatusOf(h.base, a) == P.Offline)
  }

  /** A socket that is still registered made its ONLINE commit after the check that decided `ws`'s OFFLINE. */
  predicate OnlineSinceCheck(h: Hub, ws: Socket) {
    && ws in h.leaving && ws in h.base.handlers
    && var a := h.base.handlers[ws].agent;
       && a in h.base.reg.active && h.base.reg.active[a] in h.onlineAt
       && h.onlineAt[h.base.reg.active[a]] > h.leaving[ws]
  }

  ghost predicate FinishedSince(h: Hub, a: AgentId, t: nat) {
    exists ws :: ws in h.finishedAt && ws in h.base.handlers && h.base.handlers[ws].agent == a && h.finishedAt[ws] >= t
  }

  /** The last handler of the agent has finished after the trigger was sent. */
  ghost predicate LastFinishSinceSend(h: Hub, id: nat) {
    && id in h.triggers
    && AllFinished(h, h.triggers[id].agent) && FinishedSince(h, h.triggers[id].agent, h.triggers[id].at)
  }

  /** A late commit that something has overtaken. */
  ghost predicate Overtaken(h: Hub, s: Step) {
    match s
    case FinishCommit(ws) => OnlineSinceCheck(h, ws)
    case TriggerCommit(id) => LastFinishSinceSend(h, id)
    case _ => false
  }

  // ── What every run keeps ───────────────────────────────────────────────────

  /** A registration that a late commit meets was made after the check, which had found none. */
  predicate CheckedFirst(h: Hub, ws: Socket)
    requires ws in h.leaving
  {
    && ws in h.base.handlers && h.base.handlers[ws].phase == P.Done && h.leaving[ws] < h.now
    && var a := h.base.handlers[ws].agent;
       a in h.base.reg.active && P.InPhase(h.base, h.base.reg.active[a], P.Receiving) ==>
         h.base.reg.active[a] in h.onlineAt && h.onlineAt[h.base.reg.active[a]] > h.leaving[ws]
  }

  ghost predicate LeavingKept(h: Hub) {
    forall ws :: ws in h.leaving ==> CheckedFirst(h, ws)
  }

  ghost predicate OnlineKept(h: Hub) {
    forall ws :: ws in h.onlineAt ==> ws in h.base.handlers && h.base.handlers[ws].phase in {P.Receiving, P.Done}
  }

  ghost predicate TriggersKept(h: Hub) {
    forall id :: id in h.triggers ==>
      && h.triggers[id].at < h.now
      && (AllFinished(h, h.triggers[id].agent) ==> FinishedSince(h, h.triggers[id].agent, h.triggers[id].at))
  }

  ghost predicate Inv(h: Hub) {
    && P.RegistrySafe(h.base) && P.LogSafe(h.base)
    && LeavingKept(h) && OnlineKept(h) && TriggersKept(h)
  }

  /** A status write touches neither registry nor handlers. */
  lemma SameRegistry(h: P.Hub, h': P.Hub)
    requires P.RegistrySafe(h) && P.LogSafe(h)
    requires h'.reg == h.reg && h'.handlers == h.handlers && h'.log == h.log
    ensures P.RegistrySafe(h') && P.LogSafe(h')
  {
    forall a | a in h'.reg.active ensures P.Live(h', h'.reg.active[a], a) && P.Latest(h'.log, a, h'.reg.active[a]) {
      assert P.Live(h, h.reg.active[a], a) && P.Latest(h.log, a, h.reg.active[a]);
    }
  }

  /** However the run goes, the registry holds the latest live registration. */
  lemma BaseStep(h: Hub, s: Step)
    requires P.RegistrySafe(h.base) && P.LogSafe(h.base)
    ensures P.RegistrySafe(Next(h, s).base) && P.LogSafe(Next(h, s).base)
  {
    match s
    case Whole(step) =>
      P.RegistryStep(h.base, step);
      P.LogStep(h.base, step);
    case FinishCheck(ws) =>
      if P.InPhase(h.base, ws, P.Receiving) {
        P.RegistryStep(h.base, P.Finish(ws));
        P.LogStep(h.base, P.Finish(ws));
        SameRegistry(P.Next(h.base, P.Finish(ws)), Next(h, s).base);
      }
    case FinishCommit(_) => SameRegistry(h.base, Next(h, s).base);
    case TriggerSend(_, _) =>
    case TriggerCommit(_) => SameRegistry(h.base, Next(h, s).base);
  }

  /** How one step of the atomic protocol moves a handler. */
  lemma PhaseStep(h: P.Hub, s: P.Step, ws: Socket)
    requires ws in h.handlers
    ensures var h' := P.Next(h, s);
      && ws in h'.handlers && h'.handlers[ws].agent == h.handlers[ws].agent
      && var phase := h.handlers[ws].phase;
         h'.handlers[ws].phase == if s == P.Register(ws) && phase == P.Accepted then P.Registered
                                  else if s == P.CommitOnline(ws) && phase == P.Registered then P.Receiving
                                  else if s == P.Finish(ws) && phase == P.Receiving then P.Done
                                  else if s == P.Reject(ws) && phase == P.Accepted then P.Done
                                  else phase
  {
  }

  lemma WholeKeepsChecked(h: Hub, step: P.Step, ws: Socket)
    requires Inv(h) && ws in h.leaving
    ensures CheckedFirst(Next(h, Whole(step)), ws)
  {
    var h' := Next(h, Whole(step));
    assert CheckedFirst(h, ws);
    PhaseStep(h.base, step, ws);
    var a := h.base.handlers[ws].agent;
    if a in h'.base.reg.active {
      var v := h'.base.reg.active[a];
      if step.Register? && P.InPhase(h.base, step.ws, P.Accepted) {
        PhaseStep(h.base, step, step.ws);
        if v != step.ws {
          assert P.Live(h.base, v, a);
          PhaseStep(h.base, step, v);
        }
      } else {
        P.RegistryShrinks(h.base, step);
        assert P.Live(h.base, v, a);
        PhaseStep(h.base, step, v);
      }
    }
  }

  lemma SplitKeepsChecked(h: Hub, s: Step, ws: Socket)
    requires Inv(h) && !s.Whole? && ws in Next(h, s).leaving
    ensures CheckedFirst(Next(h, s), ws)
  {
    if ws in h.leaving {
      assert CheckedFirst(h, ws);
    }
  }

  lemma LeavingStep(h: Hub, s: Step)
    requires Inv(h)
    ensures LeavingKept(Next(h, s))
  {
    forall ws | ws in Next(h, s).leaving ensures CheckedFirst(Next(h, s), ws) {
      if s.Whole? {
        WholeKeepsChecked(h, s.step, ws);
      } else {
        SplitKeepsChecked(h, s, ws);
      }
    }
  }

  lemma OnlineStep(h: Hub, s: Step)
    requires Inv(h)
    ensures OnlineKept(Next(h, s))
  {
    var h' := Next(h, s);
    forall ws | ws in h'.onlineAt
      ensures ws in h'.base.handlers && h'.base.handlers[ws].phase in {P.Receiving, P.Done}
    {
      assert ws in h.base.handlers;
      if s.Whole? {
        PhaseStep(h.base, s.step, ws);
      }
    }
  }

  /** A handler stops running only by finishing, and the time is noted. */
  lemma StopsByFinishing(h: Hub, s: Step, ws: Socket, a: AgentId)
    requires Inv(h) && Running(h, ws, a)
    ensures var h' := Next(h, s);
      && ws in h'.base.handlers && h'.base.handlers[ws].agent == a
      && (!Running(h', ws, a) ==> ws in h'.finishedAt && h'.finishedAt[ws] == h.now)
  {
    if s.Whole? {
      PhaseStep(h.base, s.step, ws);
    }
  }

  lemma FinishedStays(h: Hub, s: Step, a: AgentId, t: nat)
    requires FinishedSince(h, a, t) && t < h.now
    ensures FinishedSince(Next(h, s), a, t)
  {
    var ws :| ws in h.finishedAt && ws in h.base.handlers && h.base.handlers[ws].agent == a && h.finishedAt[ws] >= t;
    if s.Whole? {
      PhaseStep(h.base, s.step, ws);
    }
    assert ws in Next(h, s).finishedAt && Next(h, s).finishedAt[ws] >= t;
  }

  lemma PendingTriggerStep(h: Hub, s: Step, a: AgentId, t: nat)
    requires Inv(h) && t < h.now && (AllFinished(h, a) ==> FinishedSince(h, a, t))
    ensures AllFinished(Next(h, s), a) ==> FinishedSince(Next(h, s), a, t)
  {
    if ws :| Running(h, ws, a) {
      StopsByFinishing(h, s, ws, a);
    } else {
      FinishedStays(h, s, a, t);
    }
  }

  lemma SendFindsRunning(h: Hub, id: nat, a: AgentId)
    requires Inv(h) && a in h.base.reg.active && id !in h.triggers
    ensures !AllFinished(Next(h, TriggerSend(id, a)), a)
  {
    assert P.Live(h.base, h.base.reg.active[a], a);
    assert Running(Next(h, TriggerSend(id, a)), h.base.reg.active[a], a);
  }

  lemma TriggersStep(h: Hub, s: Step)
    requires Inv(h)
    ensures TriggersKept(Next(h, s))
  {
    var h' := Next(h, s);
    forall id | id in h'.triggers
      ensures h'.triggers[id].at < h'.now
      ensures var t := h'.triggers[id]; AllFinished(h', t.agent) ==> FinishedSince(h', t.agent, t.at)
    {
      var t := h'.triggers[id];
      if id in h.triggers {
        PendingTriggerStep(h, s, t.agent, t.at);
      } else {
        SendFindsRunning(h, id, t.agent);
      }
    }
  }

  lemma InvStep(h: Hub, s: Step)
    requires Inv(h)
    ensures Inv(Next(h, s))
  {
    BaseStep(h, s);
    LeavingStep(h, s);
    OnlineStep(h, s);
    TriggersStep(h, s);
  }

  // ── One step ───────────────────────────────────────────────────────────────

  /** Once all its handlers have finished, nothing of the atomic protocol takes an agent off OFFLINE. */
  lemma WholeEndsOffline(h: Hub, step: P.Step, a: AgentId)
    requires Inv(h) && StatusRight(h) && AllFinished(Next(h, Whole(step)), a)
    ensures P.StatusOf(Next(h, Whole(step)).base, a) == P.Offline
  {
    var h' := Next(h, Whole(step));
    forall ws
      ensures !P.Live(h'.base, ws, a)
      ensures !(ws in h.leaving && ws in h.base.handlers && h.base.handlers[ws].agent == a)
    {
      assert !Running(h', ws, a);
      if ws in h.leaving && ws in h.base.handlers {
        PhaseStep(h.base, step, ws);
      }
    }
    if ws :| P.Live(h.base, ws, a) {
      P.LastHandlerWritesOffline(h.base, step, a, ws);
    } else {
      assert AllFinished(h, a);
      assert a !in h.base.reg.active;
      P.NoHandlerNoWrite(h.base, step, a);
    }
  }

  lemma WholeStepsAreRight(h: Hub, step: P.Step)
    requires Inv(h) && StatusRight(h)
    ensures StatusRight(Next(h, Whole(step)))
  {
    var h' := Next(h, Whole(step));
    forall a | a in h'.base.reg.active && P.InPhase(h'.base, h'.base.reg.active[a], P.Receiving)
      ensures P.StatusOf(h'.base, a) != P.Offline
    {
      P.ReceivingIsNotOffline(h.base, step, a);
    }
    forall a | AllFinished(h', a) ensures P.StatusOf(h'.base, a) == P.Offline {
      WholeEndsOffline(h, step, a);
    }
  }

  /** A check that decides against OFFLINE leaves a registered handler running. */
  lemma CheckLeavesOneRunning(h: Hub, ws: Socket, a: AgentId)
    requires Inv(h) && P.InPhase(h.base, ws, P.Receiving) && AllFinished(Next(h, FinishCheck(ws)), a)
    ensures AllFinished(h, a)
  {
    var h' := Next(h, FinishCheck(ws));
    BaseStep(h, FinishCheck(ws));
    if h.base.handlers[ws].agent == a {
      assert !Running(h', ws, a);
      assert ws !in h'.leaving && a in h'.base.reg.active;
      assert P.Live(h'.base, h'.base.reg.active[a], a);
      assert Running(h', h'.base.reg.active[a], a);
    }
    forall v ensures !Running(h, v, a) {
      assert !Running(h', v, a);
    }
  }

  lemma ChecksAreRight(h: Hub, ws: Socket)
    requires Inv(h) && StatusRight(h) && P.InPhase(h.base, ws, P.Receiving)
    ensures StatusRight(Next(h, FinishCheck(ws)))
  {
    var h' := Next(h, FinishCheck(ws));
    forall a | AllFinished(h', a) ensures P.StatusOf(h'.base, a) == P.Offline {
      CheckLeavesOneRunning(h, ws, a);
    }
    forall a | a in h'.base.reg.active && P.InPhase(h'.base, h'.base.reg.active[a], P.Receiving)
      ensures P.StatusOf(h'.base, a) != P.Offline
    {
      assert h.base.reg.active[a] == h'.base.reg.active[a];
    }
  }

  /** A late OFFLINE commit does harm exactly when a socket still registered went online since its check. */
  lemma FinishCommitIsRightIff(h: Hub, ws: Socket)
    requires Inv(h) && StatusRight(h) && ws in h.leaving
    ensures StatusRight(Next(h, FinishCommit(ws))) <==> !OnlineSinceCheck(h, ws)
  {
    var h' := Next(h, FinishCommit(ws));
    assert CheckedFirst(h, ws);
    var a := h.base.handlers[ws].agent;
    assert P.StatusOf(h'.base, a) == P.Offline;
    if a in h.base.reg.active {
      assert P.Live(h.base, h.base.reg.active[a], a);
    }
    forall b | AllFinished(h', b) ensures P.StatusOf(h'.base, b) == P.Offline {
      if b != a {
        forall v ensures !Running(h, v, b) {
          assert !Running(h', v, b);
        }
        assert AllFinished(h, b);
      }
    }
  }

  /** A late SCANNING commit does harm exactly when the agent's last handler has finished since its send. */
  lemma TriggerCommitIsRightIff(h: Hub, id: nat)
    requires Inv(h) && StatusRight(h) && id in h.triggers
    ensures StatusRight(Next(h, TriggerCommit(id))) <==> !LastFinishSinceSend(h, id)
  {
    var h', a := Next(h, TriggerCommit(id)), h.triggers[id].agent;
    forall ws, b ensures Running(h', ws, b) <==> Running(h, ws, b) {
    }
    assert P.StatusOf(h'.base, a) == P.Scanning;
    if AllFinished(h, a) {
      assert AllFinished(h', a);
    } else {
      forall b | AllFinished(h', b) ensures P.StatusOf(h'.base, b) == P.Offline {
        assert AllFinished(h, b);
      }
    }
  }

  lemma StepIsRightIff(h: Hub, s: Step)
    requires Inv(h) && StatusRight(h)
    ensures StatusRight(Next(h, s)) <==> !Overtaken(h, s)
  {
    match s
    case Whole(step) => WholeStepsAreRight(h, step);
    case FinishCheck(ws) =>
      if P.InPhase(h.base, ws, P.Receiving) {
        ChecksAreRight(h, ws);
      }
    case FinishCommit(ws) =>
      if ws in h.leaving {
        FinishCommitIsRightIff(h, ws);
      }
    case TriggerSend(_, _) => SendIsRight(h, s);
    case TriggerCommit(id) =>
      if id in h.triggers {
        TriggerCommitIsRightIff(h, id);
      }
  }

  lemma SendIsRight(h: Hub, s: Step)
    requires StatusRight(h) && s.TriggerSend?
    ensures StatusRight(Next(h, s))
  {
    forall a | AllFinished(Next(h, s), a) ensures AllFinished(h, a) {
      forall ws ensures !Running(h, ws, a) {
        assert !Running(Next(h, s), ws, a);
      }
    }
  }

  // ── Every run ──────────────────────────────────────────────────────────────

  ghost predicate RightThroughout(h: Hub, steps: seq<Step>)
    decreases |steps|
  {
    StatusRight(h) && (steps == [] || RightThroughout(Next(h, steps[0]), steps[1..]))
  }

  /** No late commit of the run is overtaken. */
  ghost predicate CommitsInTime(h: Hub, steps: seq<Step>)
    decreases |steps|
  {
    steps == [] || (!Overtaken(h, steps[0]) && CommitsInTime(Next(h, steps[0]), steps[1..]))
  }

  lemma {:induction false} RunIsRightIff(h: Hub, steps: seq<Step>)
    requires Inv(h) && StatusRight(h)
    ensures RightThroughout(h, steps) <==> CommitsInTime(h, steps)
    decreases |steps|
  {
    if steps != [] {
      InvStep(h, steps[0]);
      StepIsRightIff(h, steps[0]);
      if StatusRight(Next(h, steps[0])) {
        RunIsRightIff(Next(h, steps[0]), steps[1..]);
      } else {
        assert !RightThroughout(Next(h, steps[0]), steps[1..]);
      }
    }
  }

  /**
   * Every run from start-up, with finally blocks and triggers split or not and commits as late as may
   * be: the status is right throughout if and only if no OFFLINE commit comes after a still registered
   * socket's ONLINE commit that followed its check, and no SCANNING commit comes after the finish of
   * the agent's last handler that followed its send.
   */
  lemma SplitRunIsRightIff(steps: seq<Step>)
    ensures RightThroughout(INITIAL, steps) <==> CommitsInTime(INITIAL, steps)
  {
    RunIsRightIff(INITIAL, steps);
  }

  /** The registry needs no atomic block: it holds the latest live registration in every split run. */
  lemma {:induction false} RegistryNeedsNoAtomicity(h: Hub, steps: seq<Step>)
    requires P.RegistrySafe(h.base) && P.LogSafe(h.base)
    ensures P.RegistrySafe(Exec(h, steps).base)
    decreases |steps|
  {
    if steps != [] {
      BaseStep(h, steps[0]);
      RegistryNeedsNoAtomicity(Next(h, steps[0]), steps[1..]);
    }
  }

  /** The atomic blocks are enough: a commit that directly follows its check or send is not overtaken. */
  lemma PromptCommitsAreInTime(h: Hub, ws: Socket, id: nat, a: AgentId)
    requires Inv(h)
    ensures P.InPhase(h.base, ws, P.Receiving) ==> !Overtaken(Next(h, FinishCheck(ws)), FinishCommit(ws))
    ensures a in h.base.reg.active && id !in h.triggers ==> !Overtaken(Next(h, TriggerSend(id, a)), TriggerCommit(id))
  {
    if ws in h.leaving {
      assert CheckedFirst(h, ws);
    }
    if a in h.base.reg.active {
      assert P.Live(h.base, h.base.reg.active[a], a);
      assert Running(Next(h, TriggerSend(id, a)), h.base.reg.active[a], a);
    }
  }

  // ── Both failures are reachable ────────────────────────────────────────────

  lemma ExecAppend(h: Hub, steps: seq<Step>, s: Step)
    ensures Exec(h, steps + [s]) == Next(Exec(h, steps), s)
    decreases |steps|
  {
    if steps == [] {
      assert ([] + [s])[1..] == [];
    } else {
      assert (steps + [s])[1..] == steps[1..] + [s];
      ExecAppend(Next(h, steps[0]), steps[1..], s);
    }
  }

  /** A new socket connects and commits ONLINE. */
  function Enter(ws: Socket, a: AgentId): seq<Step> {
    [Whole(P.Open(ws, a)), Whole(P.Register(ws)), Whole(P.CommitOnline(ws))]
  }

  lemma EnterSteps(h: Hub, ws: Socket, a: AgentId)
    requires ws !in h.base.handlers
    ensures var h' := Next(Next(Next(h, Whole(P.Open(ws, a))), Whole(P.Register(ws))), Whole(P.CommitOnline(ws)));
      && a in h'.base.reg.active && h'.base.reg.active[a] == ws && P.InPhase(h'.base, ws, P.Receiving)
      && h'.base.handlers == h.base.handlers[ws := P.Handler(a, P.Receiving)]
      && h'.leaving == h.leaving && h'.triggers == h.triggers
      && ws in h'.onlineAt && h'.onlineAt[ws] == h.now + 2
  {
  }

  lemma Entered(h: Hub, steps: seq<Step>, ws: Socket, a: AgentId)
    requires ws !in Exec(h, steps).base.handlers
    ensures var h0, h' := Exec(h, steps), Exec(h, steps + Enter(ws, a));
      && a in h'.base.reg.active && h'.base.reg.active[a] == ws && P.InPhase(h'.base, ws, P.Receiving)
      && h'.base.handlers == h0.base.handlers[ws := P.Handler(a, P.Receiving)]
      && h'.leaving == h0.leaving && h'.triggers == h0.triggers
      && ws in h'.onlineAt && h'.onlineAt[ws] == h0.now + 2
  {
    var s1 := steps + [Whole(P.Open(ws, a))];
    var s2 := s1 + [Whole(P.Register(ws))];
    ExecAppend(h, steps, Whole(P.Open(ws, a)));
    ExecAppend(h, s1, Whole(P.Register(ws)));
    ExecAppend(h, s2, Whole(P.CommitOnline(ws)));
    assert steps + Enter(ws, a) == s2 + [Whole(P.CommitOnline(ws))];
    EnterSteps(Exec(h, steps), ws, a);
  }

  /** A rapid reconnect between a finally block's check and its commit: connected, yet shown OFFLINE. */
  lemma LateOfflineIsReachable(a: AgentId)
    ensures var steps := Enter(1, a) + [FinishCheck(1)] + Enter(2, a) + [FinishCommit(1)];
            !StatusRight(Exec(INITIAL, steps)) && a in Exec(INITIAL, steps).base.reg.active
  {
    var s1 := Enter(1, a);
    assert [] + Enter(1, a) == s1;
    Entered(INITIAL, [], 1, a);
    var s2 := s1 + [FinishCheck(1)];
    ExecAppend(INITIAL, s1, FinishCheck(1));
    Entered(INITIAL, s2, 2, a);
    var s3 := s2 + Enter(2, a);
    ExecAppend(INITIAL, s3, FinishCommit(1));
    var end := Exec(INITIAL, s3 + [FinishCommit(1)]);
    assert P.StatusOf(end.base, a) == P.Offline;
  }

  lemma TriggerThenFinish(h: Hub, steps: seq<Step>, ws: Socket, a: AgentId)
    requires var h0 := Exec(h, steps);
             && a in h0.base.reg.active && h0.base.reg.active[a] == ws && h0.triggers == map[] && h0.leaving == map[]
             && h0.base.handlers == map[ws := P.Handler(a, P.Receiving)]
    ensures var end := Exec(h, steps + [TriggerSend(0, a)] + [Whole(P.Finish(ws))]);
            end.base.handlers == map[ws := P.Handler(a, P.Done)] && end.triggers.Keys == {0}
            && end.triggers[0].agent == a && end.leaving == map[]
  {
    var h0 := Exec(h, steps);
    ExecAppend(h, steps, TriggerSend(0, a));
    var h1 := h0.(triggers := map[0 := Sent(a, h0.now)], now := h0.now + 1);
    assert Next(h0, TriggerSend(0, a)) == h1;
    ExecAppend(h, steps + [TriggerSend(0, a)], Whole(P.Finish(ws)));
    LoneFinish(h1, ws, a);
  }

  lemma LoneFinish(h: Hub, ws: Socket, a: AgentId)
    requires h.base.handlers == map[ws := P.Handler(a, P.Receiving)]
    ensures var end := Next(h, Whole(P.Finish(ws)));
            end.base.handlers == map[ws := P.Handler(a, P.Done)] && end.triggers == h.triggers
            && end.leaving == h.leaving
  {
  }

  /** A disconnect between a trigger's send and its commit: nobody left, yet shown SCANNING. */
  lemma LateScanningIsReachable(a: AgentId)
    ensures var steps := Enter(1, a) + [TriggerSend(0, a)] + [Whole(P.Finish(1))] + [TriggerCommit(0)];
            !StatusRight(Exec(INITIAL, steps)) && AllFinished(Exec(INITIAL, steps), a)
  {
    var s1 := Enter(1, a);
    assert [] + Enter(1, a) == s1;
    Entered(INITIAL, [], 1, a);
    TriggerThenFinish(INITIAL, s1, 1, a);
    var s3 := s1 + [TriggerSend(0, a)] + [Whole(P.Finish(1))];
    ExecAppend(INITIAL, s3, TriggerCommit(0));
    var end := Exec(INITIAL, s3 + [TriggerCommit(0)]);
    assert P.StatusOf(end.base, a) == P.Scanning;
    assert AllFinished(end, a);
  }
}
