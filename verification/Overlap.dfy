/**
 * The result cache when scan cycles and a flush overlap: a triggered cycle outlives its connection,
 * so it may save between the flush's snapshot and the moment an entry of that snapshot is cleared.
 */
module Overlap {
  import opened Common
  import opened Agent

  /** A flush under way: the entries it listed and has not handled yet, and how many saves there were then. */
  datatype Flushing = Flushing(listed: Cache, at: nat)

  datatype State = State(agent: AgentState, flush: Option<Flushing>)

  const START := State(FRESH_AGENT, None)

  datatype Step =
    | SaveResult(r: Running, t: Trial)              // one result of some cycle, saved and then sent
    | BeginFlush                                    // list_cached()
    | FlushEntry(file: string, delivered: bool)     // one entry sent, and cleared if that went well

  function Next(s: State, e: Step): State {
    match e
    case SaveResult(r, t) => s.(agent := SaveAndSend(s.agent, r, t))
    case BeginFlush => s.(flush := Some(Flushing(s.agent.cache, |s.agent.saves|)))
    case FlushEntry(f, delivered) =>
      if s.flush.Some? && f in s.flush.value.listed then
        var p := s.flush.value.listed[f].payload;
        State(
          if !delivered then s.agent
          else s.agent.(sent := s.agent.sent + [Delivery(p, s.flush.value.at)],
                        cache := s.agent.cache - {SafeFilename(p.report.artifact)}),
          Some(s.flush.value.(listed := s.flush.value.listed - {f})))
      else s
  }

  function Exec(s: State, es: seq<Step>): State
    decreases |es|
  {
    if es == [] then s else Exec(Next(s, es[0]), es[1..])
  }

  /** The listed entries are the results last saved into their files before the snapshot. */
  ghost predicate ListedAreLast(s: State) {
    s.flush.Some? ==>
      var fl := s.flush.value;
      && fl.at <= |s.agent.saves|
      && forall f :: f in fl.listed ==>
           && SafeFilename(fl.listed[f].payload.report.artifact) == f
           && exists i: nat :: LastInto(s.agent.saves[..fl.at], i, f)
                               && s.agent.saves[i].payload == fl.listed[f].payload
  }

  ghost predicate Inv(s: State) {
    EntriesAreLast(s.agent) && ListedAreLast(s)
  }

  /** A result landed in the file after the snapshot, and its own send failed. */
  ghost predicate Overtaken(s: State, e: Step) {
    match e
    case FlushEntry(f, true) =>
      && s.flush.Some? && f in s.flush.value.listed
      && exists i: nat :: s.flush.value.at <= i && LastInto(s.agent.saves, i, f) && !SentSince(s.agent, i)
    case _ => false
  }

  lemma InvStep(s: State, e: Step)
    requires Inv(s)
    ensures Inv(Next(s, e))
  {
    match e
    case SaveResult(r, t) =>
      SaveKeepsEntries(s.agent, r, t);
      if s.flush.Some? {
        assert Next(s, e).agent.saves[..s.flush.value.at] == s.agent.saves[..s.flush.value.at];
      }
    case BeginFlush => assert s.agent.saves[..|s.agent.saves|] == s.agent.saves;
    case FlushEntry(_, _) =>
  }

  lemma LastOfPrefix(saves: seq<Save>, n: nat, i: nat, f: string)
    requires i < n <= |saves| && LastInto(saves, i, f)
    ensures LastInto(saves[..n], i, f)
  {
  }

  lemma OneLast(saves: seq<Save>, i: nat, j: nat, f: string)
    requires LastInto(saves, i, f) && LastInto(saves, j, f)
    ensures i == j
  {
    assert !(i < j) && !(j < i);
  }

  /** The result that a listed entry stands for is still the last of its file unless one landed after the snapshot. */
  lemma LastSinceSnapshot(s: State, f: string, i: nat)
    requires Inv(s) && s.flush.Some? && f in s.flush.value.listed
    requires LastInto(s.agent.saves, i, f) && i < s.flush.value.at
    ensures s.agent.saves[i].payload == s.flush.value.listed[f].payload
  {
    var fl, saves := s.flush.value, s.agent.saves;
    var j: nat :| LastInto(saves[..fl.at], j, f) && saves[j].payload == fl.listed[f].payload;
    LastOfPrefix(saves, fl.at, i, f);
    OneLast(saves[..fl.at], i, j, f);
  }

  lemma FlushEntryKeepsIff(s: State, f: string)
    requires Inv(s) && LastsAreKept(s.agent) && s.flush.Some? && f in s.flush.value.listed
    ensures LastsAreKept(Next(s, FlushEntry(f, true)).agent) <==> !Overtaken(s, FlushEntry(f, true))
  {
    var fl, a, a' := s.flush.value, s.agent, Next(s, FlushEntry(f, true)).agent;
    assert a'.sent[|a.sent|] == Delivery(fl.listed[f].payload, fl.at);
    forall i: nat | i < |a.saves|
      ensures SentSince(a', i) <==>
              SentSince(a, i) || (a.saves[i].payload == fl.listed[f].payload && fl.at > i)
    {
      SentStaysSent(a, a', i);
    }
    if i: nat :| fl.at <= i && LastInto(a.saves, i, f) && !SentSince(a, i) {
      assert LastInto(a'.saves, i, f);
    } else {
      forall i: nat, g | LastInto(a'.saves, i, g)
        ensures SentSince(a', i) || (g in a'.cache && a'.cache[g].payload == a'.saves[i].payload)
      {
        assert LastInto(a.saves, i, g);
        if g == f && i < fl.at {
          LastSinceSnapshot(s, f, i);
        }
      }
    }
  }

  lemma StepKeepsIff(s: State, e: Step)
    requires Inv(s) && LastsAreKept(s.agent)
    ensures LastsAreKept(Next(s, e).agent) <==> !Overtaken(s, e)
  {
    match e
    case SaveResult(r, t) => SaveKeepsLasts(s.agent, r, t);
    case BeginFlush =>
    case FlushEntry(f, delivered) =>
      if delivered && s.flush.Some? && f in s.flush.value.listed {
        FlushEntryKeepsIff(s, f);
      }
  }

  ghost predicate KeptThroughout(s: State, es: seq<Step>)
    decreases |es|
  {
    LastsAreKept(s.agent) && (es == [] || KeptThroughout(Next(s, es[0]), es[1..]))
  }

  ghost predicate NoneOvertaken(s: State, es: seq<Step>)
    decreases |es|
  {
    es == [] || (!Overtaken(s, es[0]) && NoneOvertaken(Next(s, es[0]), es[1..]))
  }

  /**
   * However cycles and flushes overlap, every file's newest result stays delivered or cached
   * throughout if and only if no entry is cleared after a newer undelivered result has landed in its
   * file since the snapshot.
   */
  lemma {:induction false} OverlapKeepsIff(s: State, es: seq<Step>)
    requires Inv(s) && LastsAreKept(s.agent)
    ensures KeptThroughout(s, es) <==> NoneOvertaken(s, es)
    decreases |es|
  {
    if es != [] {
      InvStep(s, es[0]);
      StepKeepsIff(s, es[0]);
      if LastsAreKept(Next(s, es[0]).agent) {
        OverlapKeepsIff(Next(s, es[0]), es[1..]);
      } else {
        assert !KeptThroughout(Next(s, es[0]), es[1..]);
      }
    }
  }

  lemma StartIsKept()
    ensures Inv(START) && LastsAreKept(START.agent)
  {
  }

  /** A flush during which nothing is saved overtakes nothing. */
  lemma QuietFlush(s: State, f: string, delivered: bool)
    requires s.flush.Some? && s.flush.value.at == |s.agent.saves|
    ensures !Overtaken(s, FlushEntry(f, delivered))
  {
  }

  /** An entry is handled once, whatever became of it. */
  lemma EntryHandledOnce(s: State, f: string, delivered: bool, again: bool)
    ensures Next(Next(s, FlushEntry(f, delivered)), FlushEntry(f, again)) == Next(s, FlushEntry(f, delivered))
  {
  }

  /** The entries of a flush, in the order its snapshot lists them. */
  function Entries(files: seq<string>, delivered: set<string>): seq<Step> {
    seq(|files|, i requires 0 <= i < |files| => FlushEntry(files[i], files[i] in delivered))
  }

  lemma {:induction false} ExecOneMore(s: State, es: seq<Step>, e: Step)
    ensures Exec(s, es + [e]) == Next(Exec(s, es), e)
    decreases |es|
  {
    if es == [] {
      assert [] + [e] == [e] && [e][1..] == [];
      assert Exec(Next(s, e), []) == Next(s, e);
    } else {
      assert (es + [e])[1..] == es[1..] + [e];
      ExecOneMore(Next(s, es[0]), es[1..], e);
    }
  }

  /** Uninterrupted, the steps of a flush amount to the flush of the serial agent, and handle what they list. */
  lemma {:induction false} QuietFlushIsFlush(a: AgentState, files: seq<string>, delivered: set<string>)
    requires forall i, j :: 0 <= i < j < |files| ==> files[i] != files[j]
    ensures var s := Exec(Next(State(a, None), BeginFlush), Entries(files, delivered));
      && s.agent == Flush(a, files, delivered) && s.agent.saves == a.saves
      && s.flush == Some(Flushing(map f | f in a.cache && f !in files :: a.cache[f], |a.saves|))
    decreases |files|
  {
    var s0 := Next(State(a, None), BeginFlush);
    if files == [] {
      assert (map f | f in a.cache && f !in files :: a.cache[f]) == a.cache;
    } else {
      var n := |files| - 1;
      var front, f := files[..n], files[n];
      assert files == front + [f] && f !in front;
      QuietFlushIsFlush(a, front, delivered);
      assert Entries(files, delivered) == Entries(front, delivered) + [FlushEntry(f, f in delivered)];
      ExecOneMore(s0, Entries(front, delivered), FlushEntry(f, f in delivered));
      var listed := map g | g in a.cache && g !in front :: a.cache[g];
      assert listed - {f} == map g | g in a.cache && g !in files :: a.cache[g];
      assert f !in a.cache ==> listed == map g | g in a.cache && g !in files :: a.cache[g];
    }
  }

  /** A rescan that lands between snapshot and clear, with its own send failed, is lost. */
  lemma RescanIsLost(r: Running, t: Trial, u: Trial)
    requires t.Scanned? && !t.delivered && u.Scanned? && !u.delivered
    ensures !LastsAreKept(Exec(START, [SaveResult(r, t), BeginFlush, SaveResult(r, u),
                                       FlushEntry(SafeFilename(r.image), true)]).agent)
  {
    var f := SafeFilename(r.image);
    var s1 := Next(START, SaveResult(r, t));
    var s2 := Next(s1, BeginFlush);
    var s3 := Next(s2, SaveResult(r, u));
    StartIsKept();
    InvStep(START, SaveResult(r, t));
    StepKeepsIff(START, SaveResult(r, t));
    InvStep(s1, BeginFlush);
    InvStep(s2, SaveResult(r, u));
    StepKeepsIff(s2, SaveResult(r, u));
    assert LastInto(s3.agent.saves, 1, f) && s3.agent.sent == [];
    StepKeepsIff(s3, FlushEntry(f, true));
    FourSteps(START, SaveResult(r, t), BeginFlush, SaveResult(r, u), FlushEntry(f, true));
  }

  lemma FourSteps(s: State, a: Step, b: Step, c: Step, d: Step)
    ensures Exec(s, [a, b, c, d]) == Next(Next(Next(Next(s, a), b), c), d)
  {
    assert [a, b, c, d][1..] == [b, c, d] && [b, c, d][1..] == [c, d] && [c, d][1..] == [d] && [d][1..] == [];
    assert Exec(Next(Next(Next(s, a), b), c), [d]) == Next(Next(Next(Next(s, a), b), c), d);
    assert Exec(Next(Next(s, a), b), [c, d]) == Exec(Next(Next(Next(s, a), b), c), [d]);
  }
}
