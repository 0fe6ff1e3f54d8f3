/**
 * The hub's connection protocol as a state machine: any number of connection handlers and
 * scan triggers, interleaved at the points where the coroutines await.
 */
module Protocol {
  import opened R = Registry

  datatype Status = Online | Offline | Scanning

  /** Where a handler is: authenticated, registered by connect(), in its receive loop, or past its finally. */
  datatype Phase = Accepted | Registered | Receiving | Done

  datatype Handler = Handler(agent: AgentId, phase: Phase)

  /** `log` is the history of registrations; no step reads it. */
  datatype Hub = Hub(
    reg: Registry,
    status: map<AgentId, Status>,
    handlers: map<Socket, Handler>,
    log: seq<(AgentId, Socket)>,
    clock: nat)

  const INITIAL := Hub(Registry(map[], map[]), map[], map[], [], 0)

  datatype Step =
    | Open(ws: Socket, agent: AgentId)        // accepted and authenticated
    | Reject(ws: Socket)                      // rate limited or failed authentication
    | Register(ws: Socket)                    // connect() up to its first await
    | CommitOnline(ws: Socket)                // ONLINE written, receive loop entered
    | Message(ws: Socket, scanResult: bool)   // one received message, handled and committed
    | Finish(ws: Socket)                      // the whole finally block, for whatever reason the loop ended
    | DropBroken(agent: AgentId, ws: Socket)  // a failed trigger send unregisters the socket it used
    | Trigger(agent: AgentId)                 // trigger sent and SCANNING committed
    | Tick(dt: nat)

  function StatusOf(h: Hub, a: AgentId): Status {
    if a in h.status then h.status[a] else Offline
  }

  predicate InPhase(h: Hub, ws: Socket, p: Phase) {
    ws in h.handlers && h.handlers[ws].phase == p
  }

  /** The handler is between connect() and its finally block. */
  predicate Live(h: Hub, ws: Socket, a: AgentId) {
    ws in h.handlers && h.handlers[ws].agent == a && h.handlers[ws].phase in {Registered, Receiving}
  }

  function SetPhase(h: Hub, ws: Socket, p: Phase): Hub
    requires ws in h.handlers
  {
    h.(handlers := h.handlers[ws := h.handlers[ws].(phase := p)])
  }

  /** The finally block up to its status write, and whether it decided to write OFFLINE. */
  function Unregister(h: Hub, ws: Socket): (Hub, bool)
    requires ws in h.handlers
  {
    var a := h.handlers[ws].agent;
    var h' := SetPhase(h, ws, Done).(reg := R.Apply(h.reg, Disconnect(a, ws)));
    (h', a !in h'.reg.active)
  }

  function Write(h: Hub, a: AgentId, s: Status): Hub {
    h.(status := h.status[a := s])
  }

  /** A step that is not enabled leaves the hub as it is. */
  function Next(h: Hub, s: Step): Hub {
    match s
    case Open(ws, a) =>
      if ws in h.handlers then h else h.(handlers := h.handlers[ws := Handler(a, Accepted)])
    case Reject(ws) =>
      if InPhase(h, ws, Accepted) then SetPhase(h, ws, Done) else h
    case Register(ws) =>
      if InPhase(h, ws, Accepted) then
        var a := h.handlers[ws].agent;
        SetPhase(h, ws, Registered).(reg := R.Apply(h.reg, Connect(a, ws, h.clock)), log := h.log + [(a, ws)])
      else h
    case CommitOnline(ws) =>
      if InPhase(h, ws, Registered) then Write(SetPhase(h, ws, Receiving), h.handlers[ws].agent, Online) else h
    case Message(ws, scanResult) =>
      if InPhase(h, ws, Receiving) then
        var a := h.handlers[ws].agent;
        var h' := h.(reg := R.Apply(h.reg, Heard(a, h.clock)));
        if scanResult then Write(h', a, Online) else h'
      else h
    case Finish(ws) =>
      if InPhase(h, ws, Receiving) then
        var (h', last) := Unregister(h, ws);
        if last then Write(h', h.handlers[ws].agent, Offline) else h'
      else h
    case DropBroken(a, ws) => h.(reg := R.Apply(h.reg, Disconnect(a, ws)))
    case Trigger(a) =>
      if a in h.reg.active then Write(h, a, Scanning) else h
    case Tick(dt) => h.(clock := h.clock + dt)
  }

  function Exec(h: Hub, steps: seq<Step>): Hub
    decreases |steps|
  {
    if steps == [] then h else Exec(Next(h, steps[0]), steps[1..])
  }

  // ── History of registrations ───────────────────────────────────────────────

  /** `ws` is the most recent registration of `a`. */
  ghost predicate Latest(log: seq<(AgentId, Socket)>, a: AgentId, ws: Socket) {
    exists i :: 0 <= i < |log| && log[i] == (a, ws) && forall j :: i < j < |log| ==> log[j].0 != a
  }

  /** `ws` was registered for `a`, and a different registration of `a` came later. */
  ghost predicate Superseded(log: seq<(AgentId, Socket)>, a: AgentId, ws: Socket) {
    exists i, j :: 0 <= i < j < |log| && log[i] == (a, ws) && log[j].0 == a
  }

  // ── Safety ─────────────────────────────────────────────────────────────────

  /** A registered socket past its ONLINE commit is never OFFLINE, an agent without handlers always is. */
  ghost predicate StatusSafe(h: Hub) {
    && (forall a :: a in h.reg.active && InPhase(h, h.reg.active[a], Receiving) ==> StatusOf(h, a) != Offline)
    && (forall a :: (forall ws :: !Live(h, ws, a)) ==> StatusOf(h, a) == Offline)
  }

  /** The registry is right: it holds the latest registration, whose handler is still running. */
  ghost predicate RegistrySafe(h: Hub) {
    && Tracked(h.reg)
    && (forall a :: a in h.reg.active ==> Live(h, h.reg.active[a], a) && Latest(h.log, a, h.reg.active[a]))
  }

  /** Each socket registers at most once, and only by leaving the Accepted phase. */
  ghost predicate LogSafe(h: Hub) {
    && (forall i :: 0 <= i < |h.log| ==>
          && h.log[i].1 in h.handlers && h.handlers[h.log[i].1].phase != Accepted
          && h.handlers[h.log[i].1].agent == h.log[i].0)
    && (forall i, j :: 0 <= i < j < |h.log| ==> h.log[i].1 != h.log[j].1)
  }

  ghost predicate Inv(h: Hub) {
    RegistrySafe(h) && LogSafe(h) && StatusSafe(h)
  }

  /** Handlers keep their agent, never go back to Accepted, and stop being live only by finishing. */
  lemma HandlersEvolve(h: Hub, s: Step, ws: Socket)
    requires ws in h.handlers
    ensures var h' := Next(h, s);
      && ws in h'.handlers && h'.handlers[ws].agent == h.handlers[ws].agent
      && (h.handlers[ws].phase != Accepted ==> h'.handlers[ws].phase != Accepted)
      && (Live(h, ws, h.handlers[ws].agent) && s != Finish(ws) ==> Live(h', ws, h.handlers[ws].agent))
  {
    match s
    case Finish(v) =>
    case _ =>
  }

  /** Steps other than a registration never add to the registry or to the log. */
  lemma RegistryShrinks(h: Hub, s: Step)
    requires !(s.Register? && InPhase(h, s.ws, Accepted))
    ensures var h' := Next(h, s);
      && h'.log == h.log
      && (forall a :: a in h'.reg.active ==> a in h.reg.active && h'.reg.active[a] == h.reg.active[a])
      && (s.Finish? && InPhase(h, s.ws, Receiving) ==>
            forall a :: a in h'.reg.active && a == h.handlers[s.ws].agent ==> h'.reg.active[a] != s.ws)
      && (Tracked(h.reg) ==> Tracked(h'.reg))
  {
    match s
    case Finish(v) =>
    case _ =>
  }

  lemma LogStep(h: Hub, s: Step)
    requires RegistrySafe(h) && LogSafe(h)
    ensures LogSafe(Next(h, s))
  {
    var h' := Next(h, s);
    forall ws | ws in h.handlers {
      HandlersEvolve(h, s, ws);
    }
    if s.Register? && InPhase(h, s.ws, Accepted) {
      assert h'.log == h.log + [(h.handlers[s.ws].agent, s.ws)];
    } else {
      RegistryShrinks(h, s);
    }
  }

  lemma RegisterKeepsRegistry(h: Hub, ws: Socket)
    requires RegistrySafe(h) && LogSafe(h) && InPhase(h, ws, Accepted)
    ensures RegistrySafe(Next(h, Register(ws)))
  {
    var h', a := Next(h, Register(ws)), h.handlers[ws].agent;
    assert h'.log[|h.log|] == (a, ws);
    assert Latest(h'.log, a, ws);
    forall b | b in h'.reg.active && b != a
      ensures Live(h', h'.reg.active[b], b) && Latest(h'.log, b, h'.reg.active[b])
    {
      var v := h.reg.active[b];
      assert Live(h, v, b) && Latest(h.log, b, v);
      var i :| 0 <= i < |h.log| && h.log[i] == (b, v) && forall j :: i < j < |h.log| ==> h.log[j].0 != b;
      assert h'.log[i] == (b, v);
    }
  }

  lemma RegistryStep(h: Hub, s: Step)
    requires RegistrySafe(h) && LogSafe(h)
    ensures RegistrySafe(Next(h, s))
  {
    if s.Register? && InPhase(h, s.ws, Accepted) {
      RegisterKeepsRegistry(h, s.ws);
    } else {
      var h' := Next(h, s);
      RegistryShrinks(h, s);
      forall a | a in h'.reg.active
        ensures Live(h', h'.reg.active[a], a) && Latest(h'.log, a, h'.reg.active[a])
      {
        assert Live(h, h.reg.active[a], a);
        HandlersEvolve(h, s, h.reg.active[a]);
      }
    }
  }

  /** OFFLINE is written only when nothing is registered, so a receiving socket keeps its agent up. */
  lemma ReceivingIsNotOffline(h: Hub, s: Step, a: AgentId)
    requires forall b :: b in h.reg.active ==> Live(h, h.reg.active[b], b)
    requires forall b :: b in h.reg.active && InPhase(h, h.reg.active[b], Receiving) ==> StatusOf(h, b) != Offline
    requires a in Next(h, s).reg.active && InPhase(Next(h, s), Next(h, s).reg.active[a], Receiving)
    ensures StatusOf(Next(h, s), a) != Offline
  {
    match s {
      case Finish(ws) =>
      case _ =>
    }
  }

  /** The last handler to finish finds nothing registered, so it writes OFFLINE. */
  lemma LastHandlerWritesOffline(h: Hub, s: Step, a: AgentId, ws: Socket)
    requires RegistrySafe(h) && LogSafe(h) && Live(h, ws, a)
    requires forall v :: !Live(Next(h, s), v, a)
    ensures StatusOf(Next(h, s), a) == Offline
  {
    assert !Live(Next(h, s), ws, a);
    HandlersEvolve(h, s, ws);
    assert s == Finish(ws) && InPhase(h, ws, Receiving);
    RegistryStep(h, s);
  }

  /** Without a handler, and so without a registration, no step writes the status. */
  lemma NoHandlerNoWrite(h: Hub, s: Step, a: AgentId)
    requires a !in h.reg.active && forall ws :: !Live(h, ws, a)
    ensures StatusOf(Next(h, s), a) == Offline <== StatusOf(h, a) == Offline
  {
    match s
    case Message(ws, _) => assert !Live(h, ws, a);
    case CommitOnline(ws) => assert !Live(h, ws, a);
    case Finish(ws) => assert !Live(h, ws, a);
    case _ =>
  }

  lemma NoHandlerMeansOffline(h: Hub, s: Step, a: AgentId)
    requires Inv(h)
    requires forall ws :: !Live(Next(h, s), ws, a)
    ensures StatusOf(Next(h, s), a) == Offline
  {
    assert a in h.reg.active ==> Live(h, h.reg.active[a], a);
    if ws :| Live(h, ws, a) {
      LastHandlerWritesOffline(h, s, a, ws);
    } else {
      NoHandlerNoWrite(h, s, a);
    }
  }

  lemma StatusStep(h: Hub, s: Step)
    requires Inv(h)
    ensures StatusSafe(Next(h, s))
  {
    var h' := Next(h, s);
    forall a | a in h'.reg.active && InPhase(h', h'.reg.active[a], Receiving) {
      ReceivingIsNotOffline(h, s, a);
    }
    forall a | forall ws :: !Live(h', ws, a) {
      NoHandlerMeansOffline(h, s, a);
    }
  }

  /**
   * Who may write a status: ONLINE only an entering handler of the agent or its scan result, SCANNING
   * only a trigger to a registered agent, OFFLINE only a finishing handler that leaves none registered.
   */
  lemma StatusChangesOnlyBy(h: Hub, s: Step, a: AgentId)
    requires StatusOf(Next(h, s), a) != StatusOf(h, a)
    ensures match StatusOf(Next(h, s), a)
            case Online => && (s.CommitOnline? || (s.Message? && s.scanResult))
                           && s.ws in h.handlers && h.handlers[s.ws].agent == a
            case Scanning => s == Trigger(a) && a in h.reg.active
            case Offline => && s.Finish? && s.ws in h.handlers && h.handlers[s.ws].agent == a
                            && a !in Next(h, s).reg.active
  {
    match s
    case Finish(ws) =>
    case _ =>
  }

  /** Every run of interleaved handlers and triggers keeps the registry and the status right. */
  lemma {:induction false} EveryRunIsSafe(h: Hub, steps: seq<Step>)
    requires Inv(h)
    ensures Inv(Exec(h, steps))
    decreases |steps|
  {
    if steps != [] {
      LogStep(h, steps[0]);
      RegistryStep(h, steps[0]);
      StatusStep(h, steps[0]);
      EveryRunIsSafe(Next(h, steps[0]), steps[1..]);
    }
  }

  /** From start-up, in so many words. */
  lemma ProtocolSafety(steps: seq<Step>, a: AgentId)
    ensures var h := Exec(INITIAL, steps);
            && (a in h.reg.active ==>
                  && Live(h, h.reg.active[a], a)
                  && Latest(h.log, a, h.reg.active[a])
                  && a in h.reg.lastSeen
                  && (InPhase(h, h.reg.active[a], Receiving) ==> StatusOf(h, a) != Offline))
            && ((forall ws :: !Live(h, ws, a)) ==> a !in h.reg.active && StatusOf(h, a) == Offline)
  {
    EveryRunIsSafe(INITIAL, steps);
  }

  lemma {:induction false} LogGrows(h: Hub, steps: seq<Step>)
    ensures h.log <= Exec(h, steps).log
    decreases |steps|
  {
    if steps != [] {
      LogGrows(Next(h, steps[0]), steps[1..]);
    }
  }

  /** A superseded socket never becomes the active one again, however the run goes on. */
  lemma SupersededNeverReturns(before: seq<Step>, after: seq<Step>, a: AgentId, ws: Socket)
    requires Superseded(Exec(INITIAL, before).log, a, ws)
    ensures var h := Exec(Exec(INITIAL, before), after);
            a in h.reg.active ==> h.reg.active[a] != ws
  {
    EveryRunIsSafe(INITIAL, before);
    EveryRunIsSafe(Exec(INITIAL, before), after);
    LogGrows(Exec(INITIAL, before), after);
  }

  /** Its late cleanup removes nothing, and writes no status while a replacement is registered. */
  lemma LateCleanupIsHarmless(steps: seq<Step>, a: AgentId, ws: Socket)
    requires Superseded(Exec(INITIAL, steps).log, a, ws)
    ensures var h := Exec(INITIAL, steps);
            && Next(h, Finish(ws)).reg == h.reg
            && Next(h, DropBroken(a, ws)) == h
            && (a in h.reg.active ==> Next(h, Finish(ws)).status == h.status)
  {
    SupersededNeverReturns(steps, [], a, ws);
    EveryRunIsSafe(INITIAL, steps);
  }
}
