/** Split commits that follow their check or send at once amount to the atomic protocol. */
module SerialCommits {
  import opened R = Registry
  import P = Protocol
  import opened S = SplitCommits

  /** One atomic step, with its finally block or trigger taken apart. */
  function Apart(step: P.Step): seq<S.Step> {
    match step
    case Finish(ws) => [FinishCheck(ws), FinishCommit(ws)]
    case Trigger(a) => [TriggerSend(0, a), TriggerCommit(0)]
    case _ => [Whole(step)]
  }

  function Serial(steps: seq<P.Step>): seq<S.Step> {
    if steps == [] then [] else Apart(steps[0]) + Serial(steps[1..])
  }

  /** Nothing is decided or sent and still to be committed. */
  predicate Settled(h: S.Hub) {
    h.leaving == map[] && h.triggers == map[]
  }

  function Stepped(h: S.Hub, step: P.Step): S.Hub {
    match step
    case Finish(ws) => S.Next(S.Next(h, FinishCheck(ws)), FinishCommit(ws))
    case Trigger(a) => S.Next(S.Next(h, TriggerSend(0, a)), TriggerCommit(0))
    case _ => S.Next(h, Whole(step))
  }

  lemma ExecApart(h: S.Hub, step: P.Step, rest: seq<S.Step>)
    ensures S.Exec(h, Apart(step) + rest) == S.Exec(Stepped(h, step), rest)
  {
    var all := Apart(step) + rest;
    if |Apart(step)| == 2 {
      assert all[1..] == [all[1]] + rest && all[1..][1..] == rest;
      assert S.Exec(h, all) == S.Exec(S.Next(h, all[0]), all[1..]);
    } else {
      assert all[1..] == rest;
    }
  }

  lemma StepIsAtomic(h: S.Hub, step: P.Step)
    requires Settled(h)
    ensures Settled(Stepped(h, step)) && Stepped(h, step).base == P.Next(h.base, step)
  {
    match step {
      case Finish(ws) =>
        var mid := S.Next(h, FinishCheck(ws));
        assert ws in mid.leaving ==> mid.leaving == map[ws := h.now] && mid.leaving - {ws} == map[];
      case Trigger(a) =>
        var mid := S.Next(h, TriggerSend(0, a));
        assert 0 in mid.triggers ==> mid.triggers - {0} == map[];
      case _ =>
    }
  }

  /** Every run of the atomic protocol is a run of the split one in which each commit follows at once. */
  lemma {:induction false} SerialRunsAreAtomic(h: S.Hub, steps: seq<P.Step>)
    requires Settled(h)
    ensures Settled(S.Exec(h, Serial(steps))) && S.Exec(h, Serial(steps)).base == P.Exec(h.base, steps)
    decreases |steps|
  {
    if steps != [] {
      ExecApart(h, steps[0], Serial(steps[1..]));
      StepIsAtomic(h, steps[0]);
      SerialRunsAreAtomic(Stepped(h, steps[0]), steps[1..]);
    }
  }
}
