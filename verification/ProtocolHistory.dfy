/**
 * The hub's whole connection state read off the sequence of steps alone: which phase a handler is in,
 * which socket is registered, what an agent's status and last-seen time are.
 */
module ProtocolHistory {
  import C = Common
  import opened R = Registry
  import opened P = Protocol

  /** The hub after the first `n` steps since start-up. */
  function Before(steps: seq<Step>, n: nat): Hub
    requires n <= |steps|
  {
    Exec(INITIAL, steps[..n])
  }

  lemma {:induction false} ExecOneMore(h: Hub, steps: seq<Step>, s: Step)
    ensures Exec(h, steps + [s]) == Next(Exec(h, steps), s)
    decreases |steps|
  {
    if steps == [] {
      assert [] + [s] == [s] && [s][1..] == [];
      assert Exec(Next(h, s), []) == Next(h, s);
    } else {
      assert (steps + [s])[1..] == steps[1..] + [s];
      ExecOneMore(Next(h, steps[0]), steps[1..], s);
    }
  }

  lemma BeforeOneMore(steps: seq<Step>, n: nat)
    requires n < |steps|
    ensures Before(steps, n + 1) == Next(Before(steps, n), steps[n])
  {
    assert steps[..n + 1] == steps[..n] + [steps[n]];
    ExecOneMore(INITIAL, steps[..n], steps[n]);
  }

  // ── Handlers ───────────────────────────────────────────────────────────────

  /** The steps that take the handler of `ws` out of phase `p`. */
  predicate Exits(s: Step, ws: Socket, p: Phase) {
    match p
    case Accepted => s == Register(ws) || s == Reject(ws)
    case Registered => s == CommitOnline(ws)
    case Receiving => s == Finish(ws)
    case Done => false
  }

  predicate Opens(s: Step, ws: Socket) {
    s.Open? && s.ws == ws
  }

  ghost predicate Opened(steps: seq<Step>, n: nat, ws: Socket)
    requires n <= |steps|
  {
    exists i :: 0 <= i < n && Opens(steps[i], ws)
  }

  /** Step `i` takes the handler of `ws` into phase `p`. */
  ghost predicate Enters(steps: seq<Step>, i: nat, ws: Socket, p: Phase)
    requires i < |steps|
    decreases i, 1
  {
    match p
    case Accepted => Opens(steps[i], ws) && !Opened(steps, i, ws)
    case Registered => steps[i] == Register(ws) && In(steps, i, ws, Accepted)
    case Receiving => steps[i] == CommitOnline(ws) && In(steps, i, ws, Registered)
    case Done => || (steps[i] == Reject(ws) && In(steps, i, ws, Accepted))
                 || (steps[i] == Finish(ws) && In(steps, i, ws, Receiving))
  }

  /** After `n` steps the handler of `ws` has entered phase `p` and not left it. */
  ghost predicate In(steps: seq<Step>, n: nat, ws: Socket, p: Phase)
    requires n <= |steps|
    decreases n, 0
  {
    exists i :: 0 <= i < n && Enters(steps, i, ws, p) && forall j :: i < j < n ==> !Exits(steps[j], ws, p)
  }

  /** The socket was first opened for agent `a`. */
  ghost predicate Owner(steps: seq<Step>, n: nat, ws: Socket, a: AgentId)
    requires n <= |steps|
  {
    exists i :: 0 <= i < n && steps[i] == Open(ws, a) && !Opened(steps, i, ws)
  }

  lemma InOneMore(steps: seq<Step>, n: nat, ws: Socket, p: Phase)
    requires n < |steps|
    ensures In(steps, n + 1, ws, p) <==> Enters(steps, n, ws, p) || (In(steps, n, ws, p) && !Exits(steps[n], ws, p))
  {
    if !Exits(steps[n], ws, p) {
      forall i | 0 <= i < n && Enters(steps, i, ws, p) && forall j :: i < j < n ==> !Exits(steps[j], ws, p)
        ensures In(steps, n + 1, ws, p)
      {
      }
    }
  }

  /** The same on hubs: how one step moves one handler. */
  predicate Moves(h: Hub, s: Step, ws: Socket, p: Phase) {
    match p
    case Accepted => Opens(s, ws) && ws !in h.handlers
    case Registered => s == Register(ws) && InPhase(h, ws, Accepted)
    case Receiving => s == CommitOnline(ws) && InPhase(h, ws, Registered)
    case Done => || (s == Reject(ws) && InPhase(h, ws, Accepted))
                 || (s == Finish(ws) && InPhase(h, ws, Receiving))
  }

  lemma PhaseStep(h: Hub, s: Step, ws: Socket, p: Phase)
    ensures InPhase(Next(h, s), ws, p) <==> Moves(h, s, ws, p) || (InPhase(h, ws, p) && !Exits(s, ws, p))
    ensures ws in Next(h, s).handlers <==> ws in h.handlers || Opens(s, ws)
    ensures ws in Next(h, s).handlers ==>
      Next(h, s).handlers[ws].agent == if ws in h.handlers then h.handlers[ws].agent else s.agent
  {
    match s
    case Finish(v) =>
    case _ =>
  }

  /** A handler exists, belongs to an agent and is in a phase exactly when the steps say so. */
  lemma {:induction false} HandlerIsHistory(steps: seq<Step>, n: nat, ws: Socket)
    requires n <= |steps|
    ensures ws in Before(steps, n).handlers <==> Opened(steps, n, ws)
    ensures forall p :: InPhase(Before(steps, n), ws, p) <==> In(steps, n, ws, p)
    ensures forall a :: ws in Before(steps, n).handlers && Before(steps, n).handlers[ws].agent == a
                        <==> Owner(steps, n, ws, a)
    decreases n
  {
    if n > 0 {
      var h, s := Before(steps, n - 1), steps[n - 1];
      HandlerIsHistory(steps, n - 1, ws);
      BeforeOneMore(steps, n - 1);
      forall p ensures InPhase(Before(steps, n), ws, p) <==> In(steps, n, ws, p) {
        PhaseStep(h, s, ws, p);
        InOneMore(steps, n - 1, ws, p);
      }
      PhaseStep(h, s, ws, Done);
      forall a
        ensures ws in Before(steps, n).handlers && Before(steps, n).handlers[ws].agent == a <==> Owner(steps, n, ws, a)
      {
        OwnerOneMore(steps, n - 1, ws, a);
      }
    }
  }

  lemma OwnerOneMore(steps: seq<Step>, n: nat, ws: Socket, a: AgentId)
    requires n < |steps|
    ensures Owner(steps, n + 1, ws, a) <==>
            Owner(steps, n, ws, a) || (steps[n] == Open(ws, a) && !Opened(steps, n, ws))
    ensures Opened(steps, n + 1, ws) <==> Opened(steps, n, ws) || Opens(steps[n], ws)
  {
  }

  // ── Registrations ──────────────────────────────────────────────────────────

  /** Step `i` registers `ws` for agent `a`. */
  ghost predicate Registers(steps: seq<Step>, i: nat, a: AgentId, ws: Socket)
    requires i < |steps|
  {
    Enters(steps, i, ws, Registered) && Owner(steps, i, ws, a)
  }

  /** Step `i` takes `ws` out of the registry: a failed trigger send, or the handler's own finish. */
  ghost predicate Unregisters(steps: seq<Step>, i: nat, a: AgentId, ws: Socket)
    requires i < |steps|
  {
    || steps[i] == DropBroken(a, ws)
    || (steps[i] == Finish(ws) && Owner(steps, i, ws, a) && In(steps, i, ws, Receiving))
  }

  /** Step `i` registers a socket for `a`, or takes `ws` away. */
  ghost predicate Ends(steps: seq<Step>, i: nat, a: AgentId, ws: Socket)
    requires i < |steps|
  {
    (steps[i].Register? && Registers(steps, i, a, steps[i].ws)) || Unregisters(steps, i, a, ws)
  }

  /** `ws` was registered for `a`, and since then neither replaced nor taken away. */
  ghost predicate Serves(steps: seq<Step>, n: nat, a: AgentId, ws: Socket)
    requires n <= |steps|
  {
    exists i :: 0 <= i < n && Registers(steps, i, a, ws) && forall j :: i < j < n ==> !Ends(steps, j, a, ws)
  }

  lemma ServesOneMore(steps: seq<Step>, n: nat, a: AgentId, ws: Socket)
    requires n < |steps|
    ensures Serves(steps, n + 1, a, ws) <==>
            Registers(steps, n, a, ws) || (Serves(steps, n, a, ws) && !Ends(steps, n, a, ws))
  {
    if !Ends(steps, n, a, ws) {
      forall i | 0 <= i < n && Registers(steps, i, a, ws) && forall j :: i < j < n ==> !Ends(steps, j, a, ws)
        ensures Serves(steps, n + 1, a, ws)
      {
      }
    }
  }

  predicate HandlerOf(h: Hub, ws: Socket, a: AgentId, p: Phase) {
    ws in h.handlers && h.handlers[ws] == Handler(a, p)
  }

  predicate IsActive(h: Hub, a: AgentId, ws: Socket) {
    a in h.reg.active && h.reg.active[a] == ws
  }

  /** How one step changes the registration of one agent. */
  lemma RegistrationStep(h: Hub, s: Step, a: AgentId, ws: Socket)
    ensures IsActive(Next(h, s), a, ws) <==>
      || (s == Register(ws) && HandlerOf(h, ws, a, Accepted))
      || (IsActive(h, a, ws)
          && !(s.Register? && HandlerOf(h, s.ws, a, Accepted))
          && s != DropBroken(a, ws) && !(s == Finish(ws) && HandlerOf(h, ws, a, Receiving)))
  {
    match s
    case Finish(v) =>
    case _ =>
  }

  /** The handlers before step `n`, in the words of the steps. */
  lemma HandlersBefore(steps: seq<Step>, n: nat)
    requires n <= |steps|
    ensures forall ws, a, p :: HandlerOf(Before(steps, n), ws, a, p) <==> Owner(steps, n, ws, a) && In(steps, n, ws, p)
  {
    forall ws, a, p
      ensures HandlerOf(Before(steps, n), ws, a, p) <==> Owner(steps, n, ws, a) && In(steps, n, ws, p)
    {
      HandlerIsHistory(steps, n, ws);
      assert InPhase(Before(steps, n), ws, p) <==> In(steps, n, ws, p);
    }
  }

  /** A socket is registered for an agent exactly when the steps say so. */
  lemma {:induction false} RegistryIsHistory(steps: seq<Step>, n: nat, a: AgentId, ws: Socket)
    requires n <= |steps|
    ensures IsActive(Before(steps, n), a, ws) <==> Serves(steps, n, a, ws)
    decreases n
  {
    if n > 0 {
      var h, s := Before(steps, n - 1), steps[n - 1];
      RegistryIsHistory(steps, n - 1, a, ws);
      BeforeOneMore(steps, n - 1);
      RegistrationStep(h, s, a, ws);
      ServesOneMore(steps, n - 1, a, ws);
      HandlersBefore(steps, n - 1);
      assert HandlerOf(h, ws, a, Accepted) <==> Owner(steps, n - 1, ws, a) && In(steps, n - 1, ws, Accepted);
      assert HandlerOf(h, ws, a, Receiving) <==> Owner(steps, n - 1, ws, a) && In(steps, n - 1, ws, Receiving);
      if s.Register? {
        assert HandlerOf(h, s.ws, a, Accepted) <==> Owner(steps, n - 1, s.ws, a) && In(steps, n - 1, s.ws, Accepted);
      }
    }
  }

  // ── Status ─────────────────────────────────────────────────────────────────

  /** A handler of the agent commits ONLINE. */
  ghost predicate GoesOnline(steps: seq<Step>, i: nat, a: AgentId)
    requires i < |steps|
  {
    steps[i].CommitOnline? && Owner(steps, i, steps[i].ws, a) && In(steps, i, steps[i].ws, Registered)
  }

  /** A scan result of the agent is handled. */
  ghost predicate Reports(steps: seq<Step>, i: nat, a: AgentId)
    requires i < |steps|
  {
    && steps[i].Message? && steps[i].scanResult
    && Owner(steps, i, steps[i].ws, a) && In(steps, i, steps[i].ws, Receiving)
  }

  /** A trigger reaches the agent. */
  ghost predicate Triggered(steps: seq<Step>, i: nat, a: AgentId)
    requires i < |steps|
  {
    steps[i] == Trigger(a) && exists ws :: Serves(steps, i, a, ws)
  }

  /** A handler of the agent finishes, and no other socket is registered. */
  ghost predicate Leaves(steps: seq<Step>, i: nat, a: AgentId)
    requires i < |steps|
  {
    && steps[i].Finish? && Owner(steps, i, steps[i].ws, a) && In(steps, i, steps[i].ws, Receiving)
    && forall ws :: Serves(steps, i, a, ws) ==> ws == steps[i].ws
  }

  /** What step `i` does to the agent's status, if anything. */
  ghost function Effect(steps: seq<Step>, i: nat, a: AgentId): C.Option<Status>
    requires i < |steps|
  {
    if GoesOnline(steps, i, a) || Reports(steps, i, a) then C.Some(Online)
    else if Triggered(steps, i, a) then C.Some(Scanning)
    else if Leaves(steps, i, a) then C.Some(Offline)
    else C.None
  }

  /** The same on hubs. */
  function EffectOn(h: Hub, s: Step, a: AgentId): C.Option<Status> {
    if s.CommitOnline? && HandlerOf(h, s.ws, a, Registered) then C.Some(Online)
    else if s.Message? && s.scanResult && HandlerOf(h, s.ws, a, Receiving) then C.Some(Online)
    else if s == Trigger(a) && a in h.reg.active then C.Some(Scanning)
    else if s.Finish? && HandlerOf(h, s.ws, a, Receiving) && (a in h.reg.active ==> h.reg.active[a] == s.ws) then
      C.Some(Offline)
    else C.None
  }

  lemma StatusStepIsEffect(h: Hub, s: Step, a: AgentId)
    ensures StatusOf(Next(h, s), a) == match EffectOn(h, s, a) case Some(v) => v case None => StatusOf(h, a)
  {
    match s
    case Finish(ws) =>
    case _ =>
  }

  lemma EffectIsHistory(steps: seq<Step>, i: nat, a: AgentId)
    requires i < |steps|
    ensures Effect(steps, i, a) == EffectOn(Before(steps, i), steps[i], a)
  {
    var h := Before(steps, i);
    HandlersBefore(steps, i);
    forall ws ensures IsActive(h, a, ws) <==> Serves(steps, i, a, ws) {
      RegistryIsHistory(steps, i, a, ws);
    }
    assert a in h.reg.active ==> IsActive(h, a, h.reg.active[a]);
    if steps[i].CommitOnline? {
      var ws := steps[i].ws;
      assert HandlerOf(h, ws, a, Registered) <==> Owner(steps, i, ws, a) && In(steps, i, ws, Registered);
    } else if steps[i].Message? || steps[i].Finish? {
      var ws := steps[i].ws;
      assert HandlerOf(h, ws, a, Receiving) <==> Owner(steps, i, ws, a) && In(steps, i, ws, Receiving);
    }
  }

  /** Step `i` is the last of the first `n` with an effect on the agent. */
  ghost predicate LastEffect(steps: seq<Step>, n: nat, i: nat, a: AgentId)
    requires n <= |steps|
  {
    i < n && Effect(steps, i, a).Some? && forall j :: i < j < n ==> Effect(steps, j, a).None?
  }

  /** `s` is what the last step with an effect on the agent wrote, OFFLINE before any. */
  ghost predicate LastWritten(steps: seq<Step>, n: nat, a: AgentId, s: Status)
    requires n <= |steps|
  {
    || (exists i :: LastEffect(steps, n, i, a) && Effect(steps, i, a) == C.Some(s))
    || (s == Offline && forall i :: 0 <= i < n ==> Effect(steps, i, a).None?)
  }

  lemma LastWrittenOneMore(steps: seq<Step>, n: nat, a: AgentId, s: Status)
    requires n < |steps| && LastWritten(steps, n, a, s)
    ensures LastWritten(steps, n + 1, a, match Effect(steps, n, a) case Some(v) => v case None => s)
  {
    if Effect(steps, n, a).Some? {
      assert LastEffect(steps, n + 1, n, a);
    } else if i: nat :| LastEffect(steps, n, i, a) && Effect(steps, i, a) == C.Some(s) {
      assert LastEffect(steps, n + 1, i, a);
    }
  }

  /** Along every run the status is the one last written. */
  lemma {:induction false} StatusIsLastEffect(steps: seq<Step>, n: nat, a: AgentId)
    requires n <= |steps|
    ensures LastWritten(steps, n, a, StatusOf(Before(steps, n), a))
    decreases n
  {
    if n > 0 {
      var h := Before(steps, n - 1);
      StatusIsLastEffect(steps, n - 1, a);
      BeforeOneMore(steps, n - 1);
      StatusStepIsEffect(h, steps[n - 1], a);
      EffectIsHistory(steps, n - 1, a);
      LastWrittenOneMore(steps, n - 1, a, StatusOf(h, a));
    }
  }

  /**
   * A connected agent is SCANNING exactly when a trigger has reached it after its last ONLINE commit and
   * its last handled scan result; otherwise it is ONLINE.
   */
  lemma ScanningIff(steps: seq<Step>, a: AgentId, ws: Socket)
    requires Serves(steps, |steps|, a, ws) && In(steps, |steps|, ws, Receiving)
    ensures var s := StatusOf(Exec(INITIAL, steps), a);
      && (s == Scanning || s == Online)
      && (s == Scanning <==> exists i: nat :: i < |steps| && Triggered(steps, i, a) && Pending(steps, i, a))
  {
    var n, s := |steps|, StatusOf(Exec(INITIAL, steps), a);
    assert steps[..n] == steps;
    ConnectedIsNotOffline(steps, a, ws);
    StatusIsLastEffect(steps, n, a);
    var i: nat :| LastEffect(steps, n, i, a) && Effect(steps, i, a) == C.Some(s);
    AfterLastEffect(steps, i, a);
    if k: nat :| k < n && Triggered(steps, k, a) && Pending(steps, k, a) {
      NotBeforeTrigger(steps, i, k, a);
    }
  }

  lemma ConnectedIsNotOffline(steps: seq<Step>, a: AgentId, ws: Socket)
    requires Serves(steps, |steps|, a, ws) && In(steps, |steps|, ws, Receiving)
    ensures StatusOf(Exec(INITIAL, steps), a) != Offline
  {
    assert steps[..|steps|] == steps;
    RegistryIsHistory(steps, |steps|, a, ws);
    HandlerIsHistory(steps, |steps|, ws);
    assert InPhase(Before(steps, |steps|), ws, Receiving);
    ProtocolSafety(steps, a);
  }

  lemma AfterLastEffect(steps: seq<Step>, i: nat, a: AgentId)
    requires LastEffect(steps, |steps|, i, a)
    ensures Pending(steps, i, a)
    ensures forall j :: i < j < |steps| ==> !Triggered(steps, j, a)
  {
    forall j | i < j < |steps| ensures !GoesOnline(steps, j, a) && !Reports(steps, j, a) && !Triggered(steps, j, a) {
      assert Effect(steps, j, a).None?;
    }
  }

  /** A trigger after which nothing reported is not followed by a last effect that wrote ONLINE. */
  lemma NotBeforeTrigger(steps: seq<Step>, i: nat, k: nat, a: AgentId)
    requires LastEffect(steps, |steps|, i, a) && k < |steps| && Triggered(steps, k, a) && Pending(steps, k, a)
    ensures Effect(steps, i, a) != C.Some(Online)
  {
    assert Effect(steps, k, a).Some?;
  }

  /** Since step `i` no handler of the agent has committed ONLINE or reported. */
  ghost predicate Pending(steps: seq<Step>, i: nat, a: AgentId)
    requires i < |steps|
  {
    forall j :: i < j < |steps| ==> !GoesOnline(steps, j, a) && !Reports(steps, j, a)
  }

  // ── Last seen ──────────────────────────────────────────────────────────────

  /** Seconds passed in the first `n` steps. */
  function Elapsed(steps: seq<Step>, n: nat): nat
    requires n <= |steps|
  {
    if n == 0 then 0 else Elapsed(steps, n - 1) + (if steps[n - 1].Tick? then steps[n - 1].dt else 0)
  }

  /** A registration of the agent, or any message of one of its receiving handlers. */
  ghost predicate Contact(steps: seq<Step>, i: nat, a: AgentId)
    requires i < |steps|
  {
    || (steps[i].Register? && Registers(steps, i, a, steps[i].ws))
    || (steps[i].Message? && Owner(steps, i, steps[i].ws, a) && In(steps, i, steps[i].ws, Receiving))
  }

  ghost predicate LastContact(steps: seq<Step>, n: nat, i: nat, a: AgentId)
    requires n <= |steps|
  {
    i < n && Contact(steps, i, a) && forall j :: i < j < n ==> !Contact(steps, j, a)
  }

  lemma {:induction false} ClockIsElapsed(steps: seq<Step>, n: nat)
    requires n <= |steps|
    ensures Before(steps, n).clock == Elapsed(steps, n)
    decreases n
  {
    if n > 0 {
      ClockIsElapsed(steps, n - 1);
      BeforeOneMore(steps, n - 1);
    }
  }

  lemma ContactStep(h: Hub, s: Step, a: AgentId)
    requires a in Next(h, s).reg.active
    ensures var last := Next(h, s).reg.lastSeen;
      if (s.Register? && HandlerOf(h, s.ws, a, Accepted)) || (s.Message? && HandlerOf(h, s.ws, a, Receiving))
      then a in last && last[a] == h.clock
      else a in h.reg.active && (a in h.reg.lastSeen ==> a in last && last[a] == h.reg.lastSeen[a])
  {
    match s
    case Finish(ws) =>
    case _ =>
  }

  lemma ContactIsHistory(steps: seq<Step>, i: nat, a: AgentId)
    requires i < |steps|
    ensures var h, s := Before(steps, i), steps[i];
      Contact(steps, i, a) <==>
      (s.Register? && HandlerOf(h, s.ws, a, Accepted)) || (s.Message? && HandlerOf(h, s.ws, a, Receiving))
  {
    var h := Before(steps, i);
    HandlersBefore(steps, i);
    if steps[i].Register? {
      var ws := steps[i].ws;
      assert HandlerOf(h, ws, a, Accepted) <==> Owner(steps, i, ws, a) && In(steps, i, ws, Accepted);
    } else if steps[i].Message? {
      var ws := steps[i].ws;
      assert HandlerOf(h, ws, a, Receiving) <==> Owner(steps, i, ws, a) && In(steps, i, ws, Receiving);
    }
  }

  /** A registered agent was last seen when a handler of it last registered or was last heard. */
  lemma {:induction false} LastSeenIsLastContact(steps: seq<Step>, n: nat, a: AgentId)
    requires n <= |steps| && a in Before(steps, n).reg.active
    ensures a in Before(steps, n).reg.lastSeen
    ensures exists i: nat :: LastContact(steps, n, i, a) && Before(steps, n).reg.lastSeen[a] == Elapsed(steps, i)
    decreases n
  {
    if n > 0 {
      var h := Before(steps, n - 1);
      BeforeOneMore(steps, n - 1);
      ContactStep(h, steps[n - 1], a);
      ContactIsHistory(steps, n - 1, a);
      if Contact(steps, n - 1, a) {
        ClockIsElapsed(steps, n - 1);
        assert LastContact(steps, n, n - 1, a);
      } else {
        LastSeenIsLastContact(steps, n - 1, a);
        var i: nat :| LastContact(steps, n - 1, i, a) && h.reg.lastSeen[a] == Elapsed(steps, i);
        assert LastContact(steps, n, i, a);
      }
    }
  }
}
