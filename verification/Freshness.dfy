/**
 * How old the newest scan of a running image can get, over timed runs of scan cycles: a cycle takes
 * time, and between cycles any flush may clear the cache.
 */
module Freshness {
  import opened Common
  import opened Agent

  // ── Timed runs ─────────────────────────────────────────────────────────────

  /** Every cycle lists the image, can scan it, and has its result within `delay` of the cycle's start. */
  predicate ScansInTime(e: Event, image: string, delay: nat) {
    e.CycleAt? ==>
      && (exists r :: r in e.rows && r.image == image)
      && TrialOf(e.trials, image).Scanned? && e.now <= e.trials[image].at <= e.now + delay
  }

  /** Cycle `j` is the next one after cycle `i`. */
  ghost predicate Consecutive(es: seq<Event>, i: int, j: int) {
    0 <= i < j < |es| && es[i].CycleAt? && es[j].CycleAt? && forall m :: i < m < j ==> es[m].Reconnect?
  }

  /** Cycles start in order and at most `period` apart. */
  ghost predicate Timed(es: seq<Event>, image: string, period: nat, delay: nat) {
    && (forall i :: 0 <= i < |es| ==> ScansInTime(es[i], image, delay))
    && (forall i, j :: 0 <= i < j < |es| && es[i].CycleAt? && es[j].CycleAt? ==> es[i].now <= es[j].now)
    && (forall i, j :: Consecutive(es, i, j) ==> es[j].now <= es[i].now + period)
  }

  /** No cycle begins before the previous one has its result. */
  ghost predicate Serial(es: seq<Event>, image: string) {
    forall i, j :: && 0 <= i < j < |es| && es[i].CycleAt? && es[j].CycleAt? ==>
      image in es[i].trials && es[i].trials[image].Scanned? && es[i].trials[image].at <= es[j].now
  }

  /** `t` is no later than the run goes: the cycle after its last one would not have finished yet. */
  ghost predicate Covers(es: seq<Event>, period: nat, delay: nat, t: int) {
    exists l :: && 0 <= l < |es| && es[l].CycleAt? && t < es[l].now + period + delay
                && forall m :: l < m < |es| ==> es[m].Reconnect?
  }

  /** Save `i` is a scan of the image that had finished by `t`. */
  predicate Finished(s: AgentState, i: nat, image: string, t: int) {
    i < |s.saves| && s.saves[i].image == image && s.saves[i].at <= t
  }

  ghost predicate ScannedBy(s: AgentState, image: string, t: int) {
    exists i: nat :: Finished(s, i, image, t)
  }

  /** Some scan finished by `t` was then at most `bound` seconds old. */
  ghost predicate AgeAtMost(s: AgentState, image: string, t: int, bound: int) {
    exists i: nat :: Finished(s, i, image, t) && t - s.saves[i].at <= bound
  }

  /** The age limit in seconds; without one the newest scan a cycle can accept is its own. */
  function Limit(maxAgeDays: nat): nat {
    if maxAgeDays == 0 then 1 else maxAgeDays * 86400
  }

  function WorstAge(maxAgeDays: nat, period: nat, delay: nat): int {
    Limit(maxAgeDays) + period + delay - 2
  }

  // ── Skipped images ─────────────────────────────────────────────────────────

  /** A skipped image has a cached result with its current digest, and that result is a recent scan of its file. */
  lemma SkippedImageIsFresh(es: seq<Event>, maxAgeDays: nat, r: Running, now: int)
    requires Skips(Run(es, maxAgeDays).cache, r, now, maxAgeDays)
    ensures var s, f := Run(es, maxAgeDays), SafeFilename(r.image);
            && r.digest != "" && f in s.cache && s.cache[f].digest == r.digest
            && exists i: nat :: LastInto(s.saves, i, f) && s.saves[i].payload == s.cache[f].payload
                                && now - s.saves[i].at < maxAgeDays * 86400
  {
    RunIsSound(es, maxAgeDays);
  }

  /** A skip rests on a recent scan of the image itself. */
  lemma SkippedWasScanned(es: seq<Event>, maxAgeDays: nat, r: Running, now: int, fleet: set<string>)
    requires Within(es, fleet) && NoCollision(fleet) && r.image in fleet
    requires Skips(Run(es, maxAgeDays).cache, r, now, maxAgeDays)
    ensures var saves := Run(es, maxAgeDays).saves;
            exists i: nat :: i < |saves| && saves[i].image == r.image && now - saves[i].at < maxAgeDays * 86400
  {
    var s := Run(es, maxAgeDays);
    SkippedImageIsFresh(es, maxAgeDays, r, now);
    SavesComeFromFleet(es, maxAgeDays, fleet);
    FilesApart(fleet);
    var i: nat :| LastInto(s.saves, i, SafeFilename(r.image)) && now - s.saves[i].at < maxAgeDays * 86400;
    assert s.saves[i] in s.saves;
  }

  // ── What a cycle leaves ────────────────────────────────────────────────────

  lemma {:induction false} ScanAllKeepsHistory(s: AgentState, rows: map<string, Running>, todo: seq<string>,
                                               trials: map<string, Trial>, image: string)
    requires forall n :: n in todo ==> n in rows
    requires forall n :: n in rows ==> rows[n].image == n
    ensures s.saves <= ScanAll(s, rows, todo, trials).saves
    ensures image in todo && TrialOf(trials, image).Scanned? ==>
      var saves := ScanAll(s, rows, todo, trials).saves;
      exists i: nat :: i < |saves| && saves[i].image == image && saves[i].at == trials[image].at
    decreases |todo|
  {
    if todo != [] {
      var k := |todo| - 1;
      ScanAllKeepsHistory(s, rows, todo[..k], trials, image);
      var front := ScanAll(s, rows, todo[..k], trials).saves;
      var saves := ScanAll(s, rows, todo, trials).saves;
      assert front <= saves;
      if image in todo && TrialOf(trials, image).Scanned? {
        if image in todo[..k] {
          var i: nat :| i < |front| && front[i].image == image && front[i].at == trials[image].at;
          assert saves[i] == front[i];
        } else {
          assert saves[|front|].image == image && saves[|front|].at == trials[image].at;
        }
      }
    }
  }

  lemma {:induction false} ScanAllSavesTrials(s: AgentState, rows: map<string, Running>, todo: seq<string>,
                                              trials: map<string, Trial>, i: nat)
    requires forall n :: n in todo ==> n in rows
    requires forall n :: n in rows ==> rows[n].image == n
    requires i < |ScanAll(s, rows, todo, trials).saves|
    ensures var v := ScanAll(s, rows, todo, trials).saves[i];
            (i < |s.saves| && v == s.saves[i]) || (TrialOf(trials, v.image).Scanned? && v.at == trials[v.image].at)
    decreases |todo|
  {
    if todo != [] {
      var k := |todo| - 1;
      var front := ScanAll(s, rows, todo[..k], trials).saves;
      if i < |front| {
        ScanAllSavesTrials(s, rows, todo[..k], trials, i);
      }
    }
  }

  /** Every save is the result of some cycle's scan. */
  lemma {:induction false} SaveComesFromCycle(es: seq<Event>, maxAgeDays: nat, i: nat) returns (k: nat)
    requires i < |Run(es, maxAgeDays).saves|
    ensures var v := Run(es, maxAgeDays).saves[i];
            k < |es| && es[k].CycleAt? && TrialOf(es[k].trials, v.image).Scanned? && v.at == es[k].trials[v.image].at
    decreases |es|
  {
    var front, e := es[..|es| - 1], es[|es| - 1];
    var s := Run(front, maxAgeDays);
    k := |es| - 1;
    match e {
      case CycleAt(rows, now, trials) =>
        DedupKeys(rows);
        ScanAllSavesTrials(s, Dedup(rows), ToScan(s.cache, Dedup(rows), ImageNames(rows), now, maxAgeDays), trials, i);
        if i < |s.saves| && Run(es, maxAgeDays).saves[i] == s.saves[i] {
          k := SaveComesFromCycle(front, maxAgeDays, i);
        }
      case Reconnect(files, delivered) =>
        RunIsSound(front, maxAgeDays);
        FlushKeepsSound(s, files, delivered);
        k := SaveComesFromCycle(front, maxAgeDays, i);
    }
  }

  lemma {:induction false} SavesGrow(es: seq<Event>, n: nat, maxAgeDays: nat)
    requires n <= |es|
    ensures Run(es[..n], maxAgeDays).saves <= Run(es, maxAgeDays).saves
    decreases |es|
  {
    if n == |es| {
      assert es[..n] == es;
    } else {
      var front, e := es[..|es| - 1], es[|es| - 1];
      var s := Run(front, maxAgeDays);
      assert front[..n] == es[..n];
      SavesGrow(front, n, maxAgeDays);
      match e {
        case CycleAt(rows, now, trials) =>
          DedupKeys(rows);
          var todo := ToScan(s.cache, Dedup(rows), ImageNames(rows), now, maxAgeDays);
          ScanAllKeepsHistory(s, Dedup(rows), todo, trials, "");
        case Reconnect(files, delivered) =>
          RunIsSound(front, maxAgeDays);
          FlushKeepsSound(s, files, delivered);
      }
    }
  }

  lemma ListedIsDeduped(c: Event, image: string)
    requires c.CycleAt? && exists r :: r in c.rows && r.image == image
    ensures image in Dedup(c.rows) && Dedup(c.rows)[image].image == image
  {
    DedupKeys(c.rows);
    FirstContainerWins(c.rows, image);
  }

  lemma CycleKeepsSaves(s: AgentState, c: Event, maxAgeDays: nat)
    requires c.CycleAt?
    ensures s.saves <= Next(s, c, maxAgeDays).saves
  {
    DedupKeys(c.rows);
    ScanAllKeepsHistory(s, Dedup(c.rows), ToScan(s.cache, Dedup(c.rows), ImageNames(c.rows), c.now, maxAgeDays),
                        c.trials, "");
  }

  /** A listed image that is not skipped is scanned by the cycle. */
  lemma ScannedUnlessSkipped(s: AgentState, c: Event, maxAgeDays: nat, image: string) returns (i: nat)
    requires c.CycleAt? && image in Dedup(c.rows) && TrialOf(c.trials, image).Scanned?
    requires !Skips(s.cache, Dedup(c.rows)[image], c.now, maxAgeDays)
    ensures var saves := Next(s, c, maxAgeDays).saves;
            i < |saves| && saves[i].image == image && saves[i].at == c.trials[image].at
  {
    DedupKeys(c.rows);
    var todo := ToScan(s.cache, Dedup(c.rows), ImageNames(c.rows), c.now, maxAgeDays);
    ScanAllKeepsHistory(s, Dedup(c.rows), todo, c.trials, image);
    var saves := ScanAll(s, Dedup(c.rows), todo, c.trials).saves;
    i :| i < |saves| && saves[i].image == image && saves[i].at == c.trials[image].at;
  }

  /** A skip rests on an earlier scan within the limit, finished by the end of its own cycle. */
  lemma SkipRestsOnScan(es: seq<Event>, maxAgeDays: nat, r: Running, now: int, fleet: set<string>, delay: nat)
    returns (i: nat)
    requires Within(es, fleet) && NoCollision(fleet) && r.image in fleet
    requires TimelyUpTo(es, r.image, delay, now) && Skips(Run(es, maxAgeDays).cache, r, now, maxAgeDays)
    ensures Finished(Run(es, maxAgeDays), i, r.image, now + delay)
    ensures now - Run(es, maxAgeDays).saves[i].at < maxAgeDays * 86400
  {
    SkippedWasScanned(es, maxAgeDays, r, now, fleet);
    var saves := Run(es, maxAgeDays).saves;
    i :| i < |saves| && saves[i].image == r.image && now - saves[i].at < maxAgeDays * 86400;
    var k := SaveComesFromCycle(es, maxAgeDays, i);
    assert ScansInTime(es[k], r.image, delay);
  }

  /** Every cycle of `es` scans in time and starts no later than `now`. */
  ghost predicate TimelyUpTo(es: seq<Event>, image: string, delay: nat, now: int) {
    forall k :: 0 <= k < |es| ==> ScansInTime(es[k], image, delay) && (es[k].CycleAt? ==> es[k].now <= now)
  }

  /** One more cycle leaves a scan within the limit of its start: its own, or the one it skipped for. */
  lemma NextCycleLeavesScan(es: seq<Event>, c: Event, maxAgeDays: nat, image: string, fleet: set<string>, delay: nat)
    returns (i: nat)
    requires Within(es, fleet) && NoCollision(fleet) && image in fleet
    requires c.CycleAt? && ScansInTime(c, image, delay) && TimelyUpTo(es, image, delay, c.now)
    ensures var s := Next(Run(es, maxAgeDays), c, maxAgeDays);
            Finished(s, i, image, c.now + delay) && c.now - s.saves[i].at < Limit(maxAgeDays)
  {
    var s := Run(es, maxAgeDays);
    ListedIsDeduped(c, image);
    if Skips(s.cache, Dedup(c.rows)[image], c.now, maxAgeDays) {
      i := SkipRestsOnScan(es, maxAgeDays, Dedup(c.rows)[image], c.now, fleet, delay);
      CycleKeepsSaves(s, c, maxAgeDays);
    } else {
      i := ScannedUnlessSkipped(s, c, maxAgeDays, image);
    }
  }

  lemma FrontIsTimely(es: seq<Event>, image: string, fleet: set<string>, period: nat, delay: nat)
    requires es != [] && es[|es| - 1].CycleAt? && Within(es, fleet) && Timed(es, image, period, delay)
    ensures var front, c := es[..|es| - 1], es[|es| - 1];
      && Within(front, fleet) && ScansInTime(c, image, delay) && image in fleet
      && TimelyUpTo(front, image, delay, c.now)
  {
    var front, c := es[..|es| - 1], es[|es| - 1];
    assert c in es && ScansInTime(c, image, delay);
    forall e | e in front ensures e in es {
    }
    forall k | 0 <= k < |front| ensures ScansInTime(front[k], image, delay) {
      assert ScansInTime(es[k], image, delay);
    }
  }

  /** The last cycle of a run leaves a scan within the limit of its start, finished by the end of its own scans. */
  lemma CycleLeavesScan(es: seq<Event>, maxAgeDays: nat, image: string, fleet: set<string>, period: nat, delay: nat)
    returns (i: nat)
    requires es != [] && es[|es| - 1].CycleAt?
    requires Within(es, fleet) && NoCollision(fleet) && Timed(es, image, period, delay)
    ensures var now := es[|es| - 1].now;
            && Finished(Run(es, maxAgeDays), i, image, now + delay)
            && now - Run(es, maxAgeDays).saves[i].at < Limit(maxAgeDays)
  {
    FrontIsTimely(es, image, fleet, period, delay);
    i := NextCycleLeavesScan(es[..|es| - 1], es[|es| - 1], maxAgeDays, image, fleet, delay);
    assert Run(es, maxAgeDays) == Next(Run(es[..|es| - 1], maxAgeDays), es[|es| - 1], maxAgeDays);
  }

  // ── The bound ──────────────────────────────────────────────────────────────

  predicate Done(e: Event, delay: nat, t: int) {
    e.CycleAt? && e.now + delay <= t
  }

  /** The last of the first `n` events that is a cycle finished by `t`, if any. */
  lemma {:induction false} LastDone(es: seq<Event>, n: nat, delay: nat, t: int) returns (k: int)
    requires n <= |es|
    ensures -1 <= k < n && (k >= 0 ==> Done(es[k], delay, t))
    ensures forall m :: k < m < n ==> !Done(es[m], delay, t)
    decreases n
  {
    if n == 0 {
      k := -1;
    } else if Done(es[n - 1], delay, t) {
      k := n - 1;
    } else {
      k := LastDone(es, n - 1, delay, t);
    }
  }

  lemma {:induction false} NextCycle(es: seq<Event>, k: nat, n: nat) returns (j: nat)
    requires k < n <= |es| && es[k].CycleAt? && forall m :: k < m < n ==> es[m].Reconnect?
    ensures k < j <= |es| && (j < |es| ==> Consecutive(es, k, j))
    ensures forall m :: k < m < j ==> es[m].Reconnect?
    decreases |es| - n
  {
    if n == |es| || es[n].CycleAt? {
      j := n;
    } else {
      j := NextCycle(es, k, n + 1);
    }
  }

  /** While the cycle after `k` has not finished, `t` is less than a period and a delay after `k`'s start. */
  lemma NotLongSince(es: seq<Event>, k: nat, image: string, period: nat, delay: nat, t: int)
    requires Timed(es, image, period, delay) && Covers(es, period, delay, t)
    requires k < |es| && es[k].CycleAt? && forall m :: k < m < |es| ==> !Done(es[m], delay, t)
    ensures t < es[k].now + period + delay
  {
    var j := NextCycle(es, k, k + 1);
    if j < |es| {
      assert !Done(es[j], delay, t);
    }
  }

  /** What cycle `k` left behind is still there at the end of the run. */
  lemma ScanByCycle(es: seq<Event>, k: nat, maxAgeDays: nat, image: string, fleet: set<string>, period: nat, delay: nat)
    returns (i: nat)
    requires Within(es, fleet) && NoCollision(fleet) && Timed(es, image, period, delay)
    requires k < |es| && es[k].CycleAt?
    ensures Finished(Run(es, maxAgeDays), i, image, es[k].now + delay)
    ensures es[k].now - Run(es, maxAgeDays).saves[i].at < Limit(maxAgeDays)
  {
    var upTo := es[..k + 1];
    PrefixIsWithin(es, k + 1, fleet);
    PrefixIsTimed(es, k + 1, image, period, delay);
    i := CycleLeavesScan(upTo, maxAgeDays, image, fleet, period, delay);
    SavesGrow(es, k + 1, maxAgeDays);
    StillFinished(Run(upTo, maxAgeDays), Run(es, maxAgeDays), i, image, es[k].now + delay);
  }

  lemma PrefixIsWithin(es: seq<Event>, n: nat, fleet: set<string>)
    requires n <= |es| && Within(es, fleet)
    ensures Within(es[..n], fleet)
  {
    assert forall e :: e in es[..n] ==> e in es;
  }

  lemma StillFinished(s: AgentState, s': AgentState, i: nat, image: string, t: int)
    requires s.saves <= s'.saves && Finished(s, i, image, t)
    ensures Finished(s', i, image, t) && s'.saves[i] == s.saves[i]
  {
  }

  lemma AgeAfterCycle(es: seq<Event>, k: nat, maxAgeDays: nat, image: string, fleet: set<string>, period: nat,
                      delay: nat, t: int)
    requires Within(es, fleet) && NoCollision(fleet) && Timed(es, image, period, delay)
    requires Covers(es, period, delay, t) && k < |es| && Done(es[k], delay, t)
    requires forall m :: k < m < |es| ==> !Done(es[m], delay, t)
    ensures AgeAtMost(Run(es, maxAgeDays), image, t, WorstAge(maxAgeDays, period, delay))
  {
    var i := ScanByCycle(es, k, maxAgeDays, image, fleet, period, delay);
    NotLongSince(es, k, image, period, delay, t);
    assert Finished(Run(es, maxAgeDays), i, image, t);
  }

  /** While no cycle is done, a finished scan is younger than a cycle's delay. */
  lemma AgeInFirstCycles(es: seq<Event>, maxAgeDays: nat, image: string, period: nat, delay: nat, t: int)
    requires Timed(es, image, period, delay) && ScannedBy(Run(es, maxAgeDays), image, t)
    requires forall m :: 0 <= m < |es| ==> !Done(es[m], delay, t)
    ensures AgeAtMost(Run(es, maxAgeDays), image, t, WorstAge(maxAgeDays, period, delay))
  {
    var i: nat :| Finished(Run(es, maxAgeDays), i, image, t);
    var m := SaveComesFromCycle(es, maxAgeDays, i);
    assert ScansInTime(es[m], image, delay) && !Done(es[m], delay, t);
  }

  /**
   * At every instant after the first finished scan, counting only scans finished by then, the newest
   * one is at most the age limit plus a period plus a cycle's delay old, whatever flushes clear.
   */
  lemma AgeBound(es: seq<Event>, maxAgeDays: nat, image: string, fleet: set<string>, period: nat, delay: nat, t: int)
    requires Within(es, fleet) && NoCollision(fleet) && Timed(es, image, period, delay)
    requires Covers(es, period, delay, t) && ScannedBy(Run(es, maxAgeDays), image, t)
    ensures AgeAtMost(Run(es, maxAgeDays), image, t, WorstAge(maxAgeDays, period, delay))
  {
    var k := LastDone(es, |es|, delay, t);
    if k >= 0 {
      AgeAfterCycle(es, k, maxAgeDays, image, fleet, period, delay, t);
    } else {
      AgeInFirstCycles(es, maxAgeDays, image, period, delay, t);
    }
  }

  lemma PrefixIsTimed(es: seq<Event>, n: nat, image: string, period: nat, delay: nat)
    requires n <= |es| && Timed(es, image, period, delay)
    ensures Timed(es[..n], image, period, delay)
  {
    var front := es[..n];
    forall i, j | Consecutive(front, i, j) ensures front[j].now <= front[i].now + period {
      assert forall m :: i < m < j ==> es[m] == front[m];
      assert Consecutive(es, i, j);
    }
  }

  // ── It is attained ─────────────────────────────────────────────────────────

  function RowOf(image: string): Running {
    Running(image, "c", "d")
  }

  function ScanAt(finish: int): Trial {
    Scanned("r", finish, true)
  }

  /** The agent after its first scan, which finished at 0. */
  function AfterFirst(image: string): AgentState {
    SaveAndSend(FRESH_AGENT, RowOf(image), ScanAt(0))
  }

  /** A cycle that lists one image, and what it does to any agent. */
  ghost predicate Solo(e: Event, image: string, start: int, finish: int, maxAgeDays: nat) {
    && e.CycleAt? && e.now == start && image in e.trials && e.trials[image] == ScanAt(finish)
    && (exists r :: r in e.rows && r.image == image) && (forall r :: r in e.rows ==> r.image == image)
    && forall s {:trigger Next(s, e, maxAgeDays)} :: Next(s, e, maxAgeDays) ==
         if Skips(s.cache, RowOf(image), start, maxAgeDays) then s else SaveAndSend(s, RowOf(image), ScanAt(finish))
  }

  lemma SoloCycle(image: string, start: int, finish: int, maxAgeDays: nat) returns (e: Event)
    ensures Solo(e, image, start, finish, maxAgeDays)
  {
    var rows, trials := [RowOf(image)], map[image := ScanAt(finish)];
    e := CycleAt(rows, start, trials);
    assert RowOf(image) in e.rows;
    forall s ensures Next(s, e, maxAgeDays) ==
      if Skips(s.cache, RowOf(image), start, maxAgeDays) then s else SaveAndSend(s, RowOf(image), ScanAt(finish))
    {
      OneImageCycle(s, rows, start, maxAgeDays, trials);
    }
  }

  lemma RunOneMore(es: seq<Event>, e: Event, maxAgeDays: nat)
    ensures Run(es + [e], maxAgeDays) == Next(Run(es, maxAgeDays), e, maxAgeDays)
  {
    assert (es + [e])[..|es|] == es;
  }

  /** A serial run of such cycles, the last of which starts at `last`. */
  ghost predicate RunUpTo(es: seq<Event>, image: string, period: nat, delay: nat, last: int) {
    && es != [] && es[|es| - 1].CycleAt? && es[|es| - 1].now == last
    && (forall i :: 0 <= i < |es| ==> es[i].CycleAt? && es[i].now <= last)
    && (forall i, r :: 0 <= i < |es| && r in es[i].rows ==> r.image == image)
    && Timed(es, image, period, delay) && Serial(es, image)
  }

  lemma TimedGrows(es: seq<Event>, e: Event, image: string, period: nat, delay: nat)
    requires es != [] && es[|es| - 1].CycleAt? && Timed(es, image, period, delay)
    requires e.CycleAt? && ScansInTime(e, image, delay)
    requires es[|es| - 1].now <= e.now <= es[|es| - 1].now + period
    ensures Timed(es + [e], image, period, delay)
  {
    var es', n := es + [e], |es|;
    forall i, j | 0 <= i < j < |es'| && es'[i].CycleAt? && es'[j].CycleAt? ensures es'[i].now <= es'[j].now {
      assert i == n - 1 || es'[i].now <= es'[n - 1].now;
    }
    forall i, j | Consecutive(es', i, j) ensures es'[j].now <= es'[i].now + period {
      if j < n {
        assert forall m :: i < m < j ==> es[m] == es'[m];
        assert Consecutive(es, i, j);
      } else {
        assert es'[n - 1].CycleAt?;
        assert !(i < n - 1);
      }
    }
  }

  lemma SerialGrows(es: seq<Event>, e: Event, image: string)
    requires es != [] && es[|es| - 1].CycleAt? && Serial(es, image)
    requires forall i :: 0 <= i < |es| ==> es[i].CycleAt? && es[i].now <= es[|es| - 1].now
    requires image in es[|es| - 1].trials && es[|es| - 1].trials[image].Scanned?
    requires e.CycleAt? && es[|es| - 1].now <= e.now && es[|es| - 1].trials[image].at <= e.now
    ensures Serial(es + [e], image)
  {
    var es', n := es + [e], |es|;
    forall i, j | 0 <= i < j < |es'|
      ensures image in es'[i].trials && es'[i].trials[image].Scanned? && es'[i].trials[image].at <= es'[j].now
    {
      if j == n && i < n - 1 {
        assert es[i].trials[image].at <= es[n - 1].now;
      }
    }
  }

  lemma RunGrows(es: seq<Event>, image: string, period: nat, delay: nat, last: int, e: Event, start: int, finish: int,
                 maxAgeDays: nat)
    requires RunUpTo(es, image, period, delay, last) && last <= start <= last + period
    requires Solo(e, image, start, finish, maxAgeDays)
    requires start <= finish <= start + delay && es[|es| - 1].trials[image].at <= start
    ensures RunUpTo(es + [e], image, period, delay, start)
  {
    assert ScansInTime(e, image, delay) && ScansInTime(es[|es| - 1], image, delay);
    TimedGrows(es, e, image, period, delay);
    SerialGrows(es, e, image);
  }

  lemma FirstCycle(e: Event, image: string, maxAgeDays: nat, period: nat, delay: nat)
    requires Solo(e, image, 0, 0, maxAgeDays)
    ensures RunUpTo([e], image, period, delay, 0) && Run([e], maxAgeDays) == AfterFirst(image)
  {
    assert ScansInTime(e, image, delay);
    assert [] + [e] == [e];
    RunOneMore([], e, maxAgeDays);
    assert Run([], maxAgeDays) == FRESH_AGENT;
  }

  /** Once scanned at 0 the image is skipped until the limit, and scanned from then on. */
  lemma SkippedUntilLimit(image: string, maxAgeDays: nat, now: int)
    requires 0 < now
    ensures Skips(AfterFirst(image).cache, RowOf(image), now, maxAgeDays) <==> now < Limit(maxAgeDays)
  {
    var f := SafeFilename(image);
    var cache := AfterFirst(image).cache;
    assert f in cache && cache[f].digest == "d" && cache[f].scannedAt == 0;
  }

  lemma SkippedCycle(es: seq<Event>, e: Event, image: string, maxAgeDays: nat, start: int, finish: int)
    requires Run(es, maxAgeDays) == AfterFirst(image) && 0 < start < Limit(maxAgeDays)
    requires Solo(e, image, start, finish, maxAgeDays)
    ensures Run(es + [e], maxAgeDays) == AfterFirst(image)
  {
    RunOneMore(es, e, maxAgeDays);
    SkippedUntilLimit(image, maxAgeDays, start);
  }

  /** Cycles at most a period apart up to `last`, all skipping the image once it has been scanned at 0. */
  lemma {:induction false} SkipUpTo(image: string, maxAgeDays: nat, period: nat, delay: nat, last: nat)
    returns (es: seq<Event>)
    requires period >= 1 && last < Limit(maxAgeDays)
    ensures RunUpTo(es, image, period, delay, last) && es[|es| - 1].trials[image].at == last
    ensures Run(es, maxAgeDays) == AfterFirst(image)
    decreases last
  {
    var e := SoloCycle(image, last, last, maxAgeDays);
    if last == 0 {
      es := [e];
      FirstCycle(e, image, maxAgeDays, period, delay);
    } else {
      var before := if last <= period then 0 else last - period;
      var front := SkipUpTo(image, maxAgeDays, period, delay, before);
      es := front + [e];
      RunGrows(front, image, period, delay, before, e, last, last, maxAgeDays);
      SkippedCycle(front, e, image, maxAgeDays, last, last);
    }
  }

  lemma OneRowWithin(es: seq<Event>, image: string, period: nat, delay: nat, last: int)
    requires RunUpTo(es, image, period, delay, last)
    ensures Within(es, {image})
  {
    forall e, r | e in es && e.CycleAt? && r in e.rows ensures r.image == image {
      var i :| 0 <= i < |es| && es[i] == e;
      assert r in es[i].rows;
    }
  }

  /** With one scan finished at 0 and the next not finished by `t`, the age at `t` is `t`. */
  lemma AgeOfTwo(s: AgentState, image: string, t: int)
    requires |s.saves| == 2 && s.saves[0].image == image && s.saves[0].at == 0 && s.saves[1].at > t >= 0
    ensures ScannedBy(s, image, t) && !AgeAtMost(s, image, t, t - 1)
  {
    assert Finished(s, 0, image, t);
    forall i: nat | Finished(s, i, image, t) ensures i == 0 {
    }
  }

  lemma SecondScan(s: AgentState, image: string, finish: int)
    requires s == SaveAndSend(AfterFirst(image), RowOf(image), ScanAt(finish))
    ensures |s.saves| == 2 && s.saves[0].image == image && s.saves[0].at == 0 && s.saves[1].at == finish
  {
    assert |AfterFirst(image).saves| == 1;
  }

  lemma AgeBeforeRescan(s: AgentState, image: string, finish: int)
    requires s == SaveAndSend(AfterFirst(image), RowOf(image), ScanAt(finish)) && finish > 0
    ensures ScannedBy(s, image, finish - 1) && !AgeAtMost(s, image, finish - 1, finish - 2)
  {
    SecondScan(s, image, finish);
    AgeOfTwo(s, image, finish - 1);
  }

  /** The cycle after the last skip finds the image stale. */
  lemma Rescanned(front: seq<Event>, e: Event, image: string, maxAgeDays: nat, start: int, finish: int)
    requires Run(front, maxAgeDays) == AfterFirst(image) && 0 < start && Limit(maxAgeDays) <= start
    requires Solo(e, image, start, finish, maxAgeDays)
    ensures Run(front + [e], maxAgeDays) == SaveAndSend(AfterFirst(image), RowOf(image), ScanAt(finish))
  {
    RunOneMore(front, e, maxAgeDays);
    SkippedUntilLimit(image, maxAgeDays, start);
  }

  lemma RunUpToCovers(es: seq<Event>, image: string, period: nat, delay: nat, last: int, t: int)
    requires RunUpTo(es, image, period, delay, last) && t < last + period + delay
    ensures Within(es, {image}) && Timed(es, image, period, delay) && Serial(es, image) && Covers(es, period, delay, t)
  {
    OneRowWithin(es, image, period, delay, last);
    assert es[|es| - 1].CycleAt?;
  }

  /** Scanned at 0, skipped until just before the limit, scanned again by the next cycle a period later. */
  lemma LatestRescan(image: string, maxAgeDays: nat, period: nat, delay: nat, start: int, finish: int)
    returns (es: seq<Event>)
    requires period >= 1 && start == Limit(maxAgeDays) - 1 + period && finish == start + delay
    ensures RunUpTo(es, image, period, delay, start)
    ensures Run(es, maxAgeDays) == SaveAndSend(AfterFirst(image), RowOf(image), ScanAt(finish))
  {
    var front := SkipUpTo(image, maxAgeDays, period, delay, start - period);
    var e := SoloCycle(image, start, finish, maxAgeDays);
    RunGrows(front, image, period, delay, start - period, e, start, finish, maxAgeDays);
    Rescanned(front, e, image, maxAgeDays, start, finish);
    es := front + [e];
  }

  /** A serial run and an instant at which the newest finished scan is `WorstAge` seconds old. */
  lemma WorstAgeIsReached(image: string, maxAgeDays: nat, period: nat, delay: nat) returns (es: seq<Event>, t: int)
    requires period >= 1
    ensures Within(es, {image}) && Timed(es, image, period, delay) && Serial(es, image)
    ensures Covers(es, period, delay, t) && ScannedBy(Run(es, maxAgeDays), image, t)
    ensures !AgeAtMost(Run(es, maxAgeDays), image, t, WorstAge(maxAgeDays, period, delay) - 1)
  {
    var start := Limit(maxAgeDays) - 1 + period;
    es := LatestRescan(image, maxAgeDays, period, delay, start, start + delay);
    t := start + delay - 1;
    RunUpToCovers(es, image, period, delay, start, t);
    AgeBeforeRescan(Run(es, maxAgeDays), image, start + delay);
  }

  /** In every timed run over the fleet, at every instant after the first finished scan, the age is at most `bound`. */
  ghost predicate NeverOlder(image: string, fleet: set<string>, maxAgeDays: nat, period: nat, delay: nat, bound: int) {
    forall es, t :: && Within(es, fleet) && Timed(es, image, period, delay) && Covers(es, period, delay, t)
                    && ScannedBy(Run(es, maxAgeDays), image, t) ==>
      AgeAtMost(Run(es, maxAgeDays), image, t, bound)
  }

  /**
   * The exact freshness bound, in whole seconds: limit + period + delay - 2. In particular the limit
   * plus the period alone is not a bound once a cycle may take more than two seconds.
   */
  lemma FreshnessBoundIff(image: string, fleet: set<string>, maxAgeDays: nat, period: nat, delay: nat, bound: int)
    requires NoCollision(fleet) && image in fleet && period >= 1
    ensures NeverOlder(image, fleet, maxAgeDays, period, delay, bound) <==> WorstAge(maxAgeDays, period, delay) <= bound
  {
    if WorstAge(maxAgeDays, period, delay) <= bound {
      forall es, t | && Within(es, fleet) && Timed(es, image, period, delay) && Covers(es, period, delay, t)
                     && ScannedBy(Run(es, maxAgeDays), image, t)
        ensures AgeAtMost(Run(es, maxAgeDays), image, t, bound)
      {
        AgeBound(es, maxAgeDays, image, fleet, period, delay, t);
      }
    } else {
      var es, t := WorstAgeIsReached(image, maxAgeDays, period, delay);
      assert Within(es, fleet);
      assert !AgeAtMost(Run(es, maxAgeDays), image, t, bound);
    }
  }
}
