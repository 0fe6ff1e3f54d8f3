/**
 * Acceptances, statuses and identities read off the sequence of events, over any run whatsoever: the
 * moves the UI does not offer and rejected messages included.
 */
module RowHistory {
  import opened Common
  import opened Store
  import opened L = Lifecycle
  import opened Columns
  import M = Misconfigs

  /** The hub's tables after the first `n` events since start-up. */
  function Before(es: seq<Event>, n: nat): Db
    requires n <= |es|
  {
    Run(EMPTY, es[..n])
  }

  lemma {:induction false} RunOneMore(db: Db, es: seq<Event>, e: Event)
    ensures Run(db, es + [e]) == Next(Run(db, es), e)
    decreases |es|
  {
    if es == [] {
      assert [] + [e] == [e] && [e][1..] == [];
      assert Run(Next(db, e), []) == Next(db, e);
    } else {
      assert (es + [e])[1..] == es[1..] + [e];
      RunOneMore(Next(db, es[0]), es[1..], e);
    }
  }

  lemma BeforeOneMore(es: seq<Event>, n: nat)
    requires n < |es|
    ensures Before(es, n + 1) == Next(Before(es, n), es[n])
  {
    assert es[..n + 1] == es[..n] + [es[n]];
    RunOneMore(EMPTY, es[..n], es[n]);
  }

  // ── Acceptances ────────────────────────────────────────────────────────────

  /** Event `i` accepts the risk of a row that exists. */
  predicate Grants(es: seq<Event>, i: nat)
    requires i < |es|
  {
    es[i].AcceptRisk? && SubjectExists(Before(es, i), es[i].subject)
  }

  /** Acceptances are numbered as they are granted. */
  function Granted(es: seq<Event>, n: nat): nat
    requires n <= |es|
  {
    if n == 0 then 0 else Granted(es, n - 1) + (if Grants(es, n - 1) then 1 else 0)
  }

  /** The event revokes acceptance `a`, or sweeps it away after its expiry. */
  predicate Voids(e: Event, a: nat, x: Acceptance) {
    || e == RevokeRisk(x.subject, a)
    || (e.ExpirySweep? && x.expiresAt.Some? && x.expiresAt.value < e.now)
  }

  /** Event `i` grants acceptance `a` as `x`. */
  predicate GrantsAs(es: seq<Event>, i: nat, a: nat, x: Acceptance)
    requires i < |es|
  {
    Grants(es, i) && Granted(es, i) == a && x == Acceptance(es[i].subject, es[i].reason, es[i].expiresAt)
  }

  /** Acceptance `a` was granted as `x`, and neither revoked nor swept since. */
  ghost predicate Stands(es: seq<Event>, n: nat, a: nat, x: Acceptance)
    requires n <= |es|
  {
    exists i :: 0 <= i < n && GrantsAs(es, i, a, x) && forall j :: i < j < n ==> !Voids(es[j], a, x)
  }

  predicate Holds(db: Db, a: nat, x: Acceptance) {
    a in db.acceptances && db.acceptances[a] == x
  }

  lemma ScanKeepsAcceptances(db: Db, e: Event)
    requires e.ScanResult?
    ensures Next(db, e).acceptances == db.acceptances && Next(db, e).nextAcceptance == db.nextAcceptance
  {
  }

  lemma MisconfigKeepsAcceptances(db: Db, e: Event)
    requires e.MisconfigResult?
    ensures Next(db, e).acceptances == db.acceptances && Next(db, e).nextAcceptance == db.nextAcceptance
  {
  }

  /** How one event changes the acceptance table. */
  lemma AcceptanceStep(db: Db, e: Event, a: nat, x: Acceptance)
    requires forall b :: b in db.acceptances ==> b < db.nextAcceptance
    ensures var grants := e.AcceptRisk? && SubjectExists(db, e.subject);
      && Next(db, e).nextAcceptance == db.nextAcceptance + (if grants then 1 else 0)
      && (Holds(Next(db, e), a, x) <==>
            || (grants && a == db.nextAcceptance && x == Acceptance(e.subject, e.reason, e.expiresAt))
            || (Holds(db, a, x) && !Voids(e, a, x)))
  {
    if e.ScanResult? {
      ScanKeepsAcceptances(db, e);
    } else if e.MisconfigResult? {
      MisconfigKeepsAcceptances(db, e);
    }
  }

  lemma StandsOneMore(es: seq<Event>, n: nat, a: nat, x: Acceptance)
    requires n < |es|
    ensures Stands(es, n + 1, a, x) <==> GrantsAs(es, n, a, x) || (Stands(es, n, a, x) && !Voids(es[n], a, x))
  {
    if !Voids(es[n], a, x) {
      forall i | 0 <= i < n && GrantsAs(es, i, a, x) && forall j :: i < j < n ==> !Voids(es[j], a, x)
        ensures Stands(es, n + 1, a, x)
      {
      }
    }
  }

  ghost predicate Numbered(db: Db, next: nat) {
    db.nextAcceptance == next && forall a :: a in db.acceptances ==> a < next
  }

  lemma NumberedOneMore(es: seq<Event>, n: nat)
    requires n < |es| && Numbered(Before(es, n), Granted(es, n))
    ensures Numbered(Before(es, n + 1), Granted(es, n + 1))
  {
    var db, e := Before(es, n), es[n];
    BeforeOneMore(es, n);
    AcceptanceStep(db, e, 0, Acceptance(OnFinding(0), "", None));
    forall a | a in Next(db, e).acceptances ensures a < Granted(es, n + 1) {
      AcceptanceStep(db, e, a, Next(db, e).acceptances[a]);
      assert Holds(Next(db, e), a, Next(db, e).acceptances[a]);
    }
  }

  lemma HoldsOneMore(es: seq<Event>, n: nat, a: nat, x: Acceptance)
    requires n < |es| && Numbered(Before(es, n), Granted(es, n))
    requires Holds(Before(es, n), a, x) <==> Stands(es, n, a, x)
    ensures Holds(Before(es, n + 1), a, x) <==> Stands(es, n + 1, a, x)
  {
    BeforeOneMore(es, n);
    AcceptanceStep(Before(es, n), es[n], a, x);
    StandsOneMore(es, n, a, x);
  }

  lemma {:induction false} AcceptancesAreNumbered(es: seq<Event>, n: nat)
    requires n <= |es|
    ensures Numbered(Before(es, n), Granted(es, n))
    decreases n
  {
    if n > 0 {
      AcceptancesAreNumbered(es, n - 1);
      NumberedOneMore(es, n - 1);
    }
  }

  /** An acceptance row exists, with its subject, reason and expiry, exactly when the events say so. */
  lemma {:induction false} AcceptanceIsHistory(es: seq<Event>, n: nat, a: nat, x: Acceptance)
    requires n <= |es|
    ensures Holds(Before(es, n), a, x) <==> Stands(es, n, a, x)
    decreases n
  {
    if n > 0 {
      AcceptanceIsHistory(es, n - 1, a, x);
      AcceptancesAreNumbered(es, n - 1);
      HoldsOneMore(es, n - 1, a, x);
    }
  }

  // ── Statuses and identities ────────────────────────────────────────────────

  /** A stored scan of the row's container that does not mention it. */
  ghost predicate ScanDrops(db: Db, e: Event, f: Finding) {
    && e.ScanResult? && ProcessScan(db, e.agent, e.report, e.name, e.now).Stored?
    && Open(db, f, ScanTarget(db, e.agent, e.report, e.name))
    && !Mentions(Flatten(e.report.blocks), f.cve, f.pkg)
  }

  /** A stored misconfiguration message about the row's container that does not report its check. */
  ghost predicate ResultDrops(db: Db, e: Event, m: Misconfig) {
    && e.MisconfigResult? && M.ProcessMisconfig(db, e.agent, e.result, e.now).Stored?
    && m.container == M.Target(db, e.agent, e.result) && m.status == Active
    && !ChecksFor(e.result.items, m.check)
  }

  ghost predicate Dropped(db: Db, e: Event, s: Subject)
    requires SubjectExists(db, s)
  {
    match s
    case OnFinding(i) => ScanDrops(db, e, db.findings[i])
    case OnMisconfig(i) => ResultDrops(db, e, db.misconfigs[i])
  }

  /** The event revokes an acceptance of the row, or sweeps an expired one. */
  ghost predicate Freed(db: Db, e: Event, s: Subject) {
    exists a :: a in db.acceptances && db.acceptances[a].subject == s && Voids(e, a, db.acceptances[a])
  }

  /** What the event does to the status of the row, if anything. */
  ghost function Effect(db: Db, e: Event, s: Subject): Option<Status>
    requires SubjectExists(db, s)
  {
    if e.AcceptRisk? && e.subject == s then Some(Accepted)
    else if e.ChangeStatus? && e.subject == s then Some(e.status)
    else if Freed(db, e, s) then Some(Active)
    else if Dropped(db, e, s) then Some(Fixed)
    else None
  }

  lemma ScanFindingStep(db: Db, e: Event, i: nat)
    requires NoDangling(db) && e.ScanResult? && i < |db.findings|
    ensures var db' := Next(db, e);
      && i < |db'.findings| && SameIdentity(db.findings[i], db'.findings[i])
      && db'.findings[i].status == if ScanDrops(db, e, db.findings[i]) then Fixed else db.findings[i].status
  {
    if ProcessScan(db, e.agent, e.report, e.name, e.now).Stored? {
      ScanWritesColumns(db, e.agent, e.report, e.name, e.now);
    } else {
      LeftoverIsConsistent(db, e.agent, e.report, e.name, e.now);
    }
  }

  lemma {:induction false} IngestKeepsMisconfigs(ms: seq<Misconfig>, c: nat, now: int, xs: seq<M.Item>)
    ensures var r := M.Ingest(ms, c, now, xs).rows;
      |ms| <= |r| && forall i :: 0 <= i < |ms| ==> r[i] == ms[i] || r[i] == ms[i].(lastSeen := now)
    decreases |xs|
  {
    if xs != [] {
      IngestKeepsMisconfigs(ms, c, now, xs[..|xs| - 1]);
    }
  }

  lemma ResultMisconfigStep(db: Db, e: Event, i: nat)
    requires e.MisconfigResult? && i < |db.misconfigs|
    ensures var db' := Next(db, e);
      && i < |db'.misconfigs| && SameMisconfig(db.misconfigs[i], db'.misconfigs[i])
      && db'.misconfigs[i].status == if ResultDrops(db, e, db.misconfigs[i]) then Fixed else db.misconfigs[i].status
  {
    var out := M.ProcessMisconfig(db, e.agent, e.result, e.now);
    if out.Stored? {
      MisconfigWritesColumns(db, e.agent, e.result, e.now);
    } else {
      IngestKeepsMisconfigs(db.misconfigs, M.Target(db, e.agent, e.result), e.now, e.result.items);
    }
  }

  /** Everything about a misconfiguration row that no event may change. */
  predicate SameMisconfig(m: Misconfig, m': Misconfig) {
    && m'.container == m.container && m'.check == m.check && m'.severity == m.severity && m'.title == m.title
    && m'.guideline == m.guideline && m'.firstSeen == m.firstSeen
  }

  predicate SameRow(db: Db, db': Db, s: Subject)
    requires SubjectExists(db, s) && SubjectExists(db', s)
  {
    match s
    case OnFinding(i) => SameIdentity(db.findings[i], db'.findings[i])
    case OnMisconfig(i) => SameMisconfig(db.misconfigs[i], db'.misconfigs[i])
  }

  lemma OtherTableStep(db: Db, e: Event)
    ensures e.ScanResult? ==> Next(db, e).misconfigs == db.misconfigs
    ensures e.MisconfigResult? ==> Next(db, e).findings == db.findings
  {
  }

  /** `db'` is `db` after the event, as far as the row is concerned. */
  ghost predicate Follows(db: Db, db': Db, e: Event, s: Subject)
    requires SubjectExists(db, s)
  {
    && SubjectExists(db', s) && SameRow(db, db', s)
    && StatusAt(db', s) == match Effect(db, e, s) case Some(st) => st case None => StatusAt(db, s)
  }

  lemma SweepFollows(db: Db, e: Event, s: Subject)
    requires e.ExpirySweep? && SubjectExists(db, s)
    ensures Follows(db, Next(db, e), e, s)
  {
    var gone := Expired(db, e.now);
    assert Freed(db, e, s) <==> Reverted(db, gone, s);
    assert Next(db, e) == Revert(db, gone);
    assert StatusAt(Revert(db, gone), s) == if Reverted(db, gone, s) then Active else StatusAt(db, s);
  }

  lemma RevokeFollows(db: Db, e: Event, s: Subject)
    requires e.RevokeRisk? && SubjectExists(db, s)
    ensures Follows(db, Next(db, e), e, s)
  {
    assert Freed(db, e, s) <==> e.subject == s && e.acceptance in db.acceptances
                                && db.acceptances[e.acceptance].subject == s;
  }

  lemma AcceptFollows(db: Db, e: Event, s: Subject)
    requires e.AcceptRisk? && SubjectExists(db, s)
    ensures Follows(db, Next(db, e), e, s)
  {
    assert !Freed(db, e, s);
  }

  lemma ChangeFollows(db: Db, e: Event, s: Subject)
    requires e.ChangeStatus? && SubjectExists(db, s)
    ensures Follows(db, Next(db, e), e, s)
  {
    assert !Freed(db, e, s);
  }

  lemma FindingFollows(db: Db, db': Db, e: Event, i: nat)
    requires e.ScanResult? && i < |db.findings| && i < |db'.findings| && SameIdentity(db.findings[i], db'.findings[i])
    requires db'.findings[i].status == if ScanDrops(db, e, db.findings[i]) then Fixed else db.findings[i].status
    ensures Follows(db, db', e, OnFinding(i))
  {
    assert !Freed(db, e, OnFinding(i));
  }

  lemma MisconfigFollows(db: Db, db': Db, e: Event, i: nat)
    requires e.MisconfigResult? && i < |db.misconfigs| && i < |db'.misconfigs|
    requires SameMisconfig(db.misconfigs[i], db'.misconfigs[i])
    requires db'.misconfigs[i].status == if ResultDrops(db, e, db.misconfigs[i]) then Fixed else db.misconfigs[i].status
    ensures Follows(db, db', e, OnMisconfig(i))
  {
    assert !Freed(db, e, OnMisconfig(i));
  }

  /** A message leaves the rows of the other table alone. */
  lemma OtherTableFollows(db: Db, db': Db, e: Event, s: Subject)
    requires SubjectExists(db, s)
    requires (e.ScanResult? && s.OnMisconfig? && db'.misconfigs == db.misconfigs)
             || (e.MisconfigResult? && s.OnFinding? && db'.findings == db.findings)
    ensures Follows(db, db', e, s)
  {
    assert !Freed(db, e, s);
  }

  lemma ScanFollows(db: Db, e: Event, s: Subject)
    requires NoDangling(db) && e.ScanResult? && SubjectExists(db, s)
    ensures Follows(db, Next(db, e), e, s)
  {
    if s.OnFinding? {
      ScanFindingStep(db, e, s.row);
      FindingFollows(db, Next(db, e), e, s.row);
    } else {
      OtherTableStep(db, e);
      OtherTableFollows(db, Next(db, e), e, s);
    }
  }

  lemma ResultFollows(db: Db, e: Event, s: Subject)
    requires e.MisconfigResult? && SubjectExists(db, s)
    ensures Follows(db, Next(db, e), e, s)
  {
    if s.OnMisconfig? {
      ResultMisconfigStep(db, e, s.row);
      MisconfigFollows(db, Next(db, e), e, s.row);
    } else {
      OtherTableStep(db, e);
      OtherTableFollows(db, Next(db, e), e, s);
    }
  }

  /** Every event leaves the row's identity alone and its status as the effect says, and otherwise as it was. */
  lemma EveryEventHasEffect(db: Db, e: Event, s: Subject)
    requires NoDangling(db) && SubjectExists(db, s)
    ensures Follows(db, Next(db, e), e, s)
  {
    match e
    case ScanResult(_, _, _, _, _) => ScanFollows(db, e, s);
    case MisconfigResult(_, _, _, _) => ResultFollows(db, e, s);
    case RevokeRisk(_, _) => RevokeFollows(db, e, s);
    case ExpirySweep(_) => SweepFollows(db, e, s);
    case AcceptRisk(_, _, _) => AcceptFollows(db, e, s);
    case ChangeStatus(_, _) => ChangeFollows(db, e, s);
  }

  lemma ResultKeepsReferences(db: Db, e: Event)
    requires NoDangling(db) && e.MisconfigResult?
    ensures NoDangling(Next(db, e))
  {
    var out := M.ProcessMisconfig(db, e.agent, e.result, e.now);
    if out.Stored? {
      M.MisconfigReconciles(db, e.agent, e.result, e.now);
      MisconfigKeepsReferences(db, e.agent, e.result, e.now);
    } else {
      IngestAddsToTarget(db.misconfigs, M.Target(db, e.agent, e.result), e.now, e.result.items);
    }
  }

  lemma {:induction false} IngestAddsToTarget(ms: seq<Misconfig>, c: nat, now: int, xs: seq<M.Item>)
    ensures var r := M.Ingest(ms, c, now, xs).rows;
      |ms| <= |r| && forall i :: 0 <= i < |r| ==>
        if i < |ms| then r[i].container == ms[i].container else r[i].container == c
    decreases |xs|
  {
    if xs != [] {
      IngestAddsToTarget(ms, c, now, xs[..|xs| - 1]);
    }
  }

  lemma EventKeepsReferences(db: Db, e: Event)
    requires NoDangling(db)
    ensures NoDangling(Next(db, e))
  {
    if e.ScanResult? {
      if ProcessScan(db, e.agent, e.report, e.name, e.now).Stored? {
        ScanTouchesOnlyItsContainer(db, e.agent, e.report, e.name, e.now);
      } else {
        LeftoverIsConsistent(db, e.agent, e.report, e.name, e.now);
      }
    } else if e.MisconfigResult? {
      ResultKeepsReferences(db, e);
    }
  }

  /** What event `k` of the run does to the status of the row, if anything. */
  ghost function EffectAt(db: Db, es: seq<Event>, k: nat, s: Subject): Option<Status>
    requires k < |es|
  {
    if SubjectExists(Run(db, es[..k]), s) then Effect(Run(db, es[..k]), es[k], s) else None
  }

  ghost predicate LastEffect(db: Db, es: seq<Event>, k: nat, s: Subject)
    requires k < |es|
  {
    EffectAt(db, es, k, s).Some? && forall j :: k < j < |es| ==> EffectAt(db, es, j, s).None?
  }

  /** `st` is what the last event with an effect on the row wrote, or its first status when there was none. */
  ghost predicate LastWritten(db: Db, es: seq<Event>, s: Subject, st: Status)
    requires SubjectExists(db, s)
  {
    || (exists k: nat :: k < |es| && LastEffect(db, es, k, s) && EffectAt(db, es, k, s) == Some(st))
    || (st == StatusAt(db, s) && forall j :: 0 <= j < |es| ==> EffectAt(db, es, j, s).None?)
  }

  lemma EffectOfPrefix(db: Db, es: seq<Event>, e: Event, s: Subject)
    ensures forall k :: 0 <= k < |es| ==> EffectAt(db, es + [e], k, s) == EffectAt(db, es, k, s)
    ensures EffectAt(db, es + [e], |es|, s) == if SubjectExists(Run(db, es), s) then Effect(Run(db, es), e, s) else None
  {
    assert (es + [e])[..|es|] == es;
    forall k | 0 <= k < |es| ensures EffectAt(db, es + [e], k, s) == EffectAt(db, es, k, s) {
      assert (es + [e])[..k] == es[..k];
    }
  }

  lemma LastWrittenOneMore(db: Db, es: seq<Event>, e: Event, s: Subject, st: Status, st': Status)
    requires SubjectExists(db, s) && LastWritten(db, es, s, st)
    requires st' == match EffectAt(db, es + [e], |es|, s) case Some(v) => v case None => st
    ensures LastWritten(db, es + [e], s, st')
  {
    EffectOfPrefix(db, es, e, s);
    if EffectAt(db, es + [e], |es|, s).Some? {
      assert LastEffect(db, es + [e], |es|, s);
    } else if k: nat :| k < |es| && LastEffect(db, es, k, s) && EffectAt(db, es, k, s) == Some(st) {
      assert LastEffect(db, es + [e], k, s);
    }
  }

  /** Over any run from any consistent tables a row keeps its identity, and its status is the one last written. */
  lemma {:induction false} StatusIsLastEffect(db: Db, es: seq<Event>, s: Subject)
    requires NoDangling(db) && SubjectExists(db, s)
    ensures NoDangling(Run(db, es)) && SubjectExists(Run(db, es), s) && SameRow(db, Run(db, es), s)
    ensures LastWritten(db, es, s, StatusAt(Run(db, es), s))
    decreases |es|
  {
    if es != [] {
      var front, e := es[..|es| - 1], es[|es| - 1];
      var mid := Run(db, front);
      assert es == front + [e];
      RunOneMore(db, front, e);
      StatusIsLastEffect(db, front, s);
      EveryEventHasEffect(mid, e, s);
      EventKeepsReferences(mid, e);
      EffectOfPrefix(db, front, e, s);
      LastWrittenOneMore(db, front, e, s, StatusAt(mid, s), StatusAt(Run(db, es), s));
      SameRowTwice(db, mid, Run(db, es), s);
    }
  }

  lemma SameRowTwice(db: Db, mid: Db, db': Db, s: Subject)
    requires SubjectExists(db, s) && SubjectExists(mid, s) && SubjectExists(db', s)
    requires SameRow(db, mid, s) && SameRow(mid, db', s)
    ensures SameRow(db, db', s)
  {
  }
}
