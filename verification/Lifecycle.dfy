/**
 * The life of findings and misconfigurations: scans, risk acceptances, status changes and the expiry
 * sweep, over whole runs.
 */
module Lifecycle {
  import opened Common
  import opened Store
  import M = Misconfigs

  // ── The endpoints ──────────────────────────────────────────────────────────

  function StatusAt(db: Db, s: Subject): Status
    requires SubjectExists(db, s)
  {
    match s
    case OnFinding(i) => db.findings[i].status
    case OnMisconfig(i) => db.misconfigs[i].status
  }

  function SetStatus(db: Db, s: Subject, st: Status): Db
    requires SubjectExists(db, s)
  {
    match s
    case OnFinding(i) => db.(findings := db.findings[i := db.findings[i].(status := st)])
    case OnMisconfig(i) => db.(misconfigs := db.misconfigs[i := db.misconfigs[i].(status := st)])
  }

  datatype Reply = Ok(db: Db) | NotFound

  /** POST acceptances: a new row, and the subject becomes ACCEPTED. */
  function Accept(db: Db, s: Subject, reason: string, expiresAt: Option<int>): Reply {
    if !SubjectExists(db, s) then NotFound
    else Ok(SetStatus(db, s, Accepted).(
      acceptances := db.acceptances[db.nextAcceptance := Acceptance(s, reason, expiresAt)],
      nextAcceptance := db.nextAcceptance + 1))
  }

  /** DELETE of one acceptance: the row must belong to the subject, which becomes ACTIVE. */
  function Revoke(db: Db, s: Subject, a: nat): Reply {
    if a !in db.acceptances || db.acceptances[a].subject != s then NotFound
    else
      var db' := if SubjectExists(db, s) then SetStatus(db, s, Active) else db;
      Ok(db'.(acceptances := db.acceptances - {a}))
  }

  /** PATCH of the status: any value. */
  function Patch(db: Db, s: Subject, st: Status): Reply {
    if !SubjectExists(db, s) then NotFound else Ok(SetStatus(db, s, st))
  }

  // ── The expiry sweep ───────────────────────────────────────────────────────

  function Expired(db: Db, now: int): set<nat> {
    set a | a in db.acceptances && db.acceptances[a].expiresAt.Some? && db.acceptances[a].expiresAt.value < now
  }

  predicate Reverted(db: Db, gone: set<nat>, s: Subject)
    requires gone <= db.acceptances.Keys
  {
    exists a :: a in gone && db.acceptances[a].subject == s
  }

  /** The acceptances of `gone` deleted, and every subject of one of them ACTIVE. */
  function Revert(db: Db, gone: set<nat>): Db
    requires gone <= db.acceptances.Keys
  {
    db.(findings := seq(|db.findings|, i requires 0 <= i < |db.findings| =>
          if Reverted(db, gone, OnFinding(i)) then db.findings[i].(status := Active) else db.findings[i]),
        misconfigs := seq(|db.misconfigs|, i requires 0 <= i < |db.misconfigs| =>
          if Reverted(db, gone, OnMisconfig(i)) then db.misconfigs[i].(status := Active) else db.misconfigs[i]),
        acceptances := db.acceptances - gone)
  }

  function Sweep(db: Db, now: int): Db {
    Revert(db, Expired(db, now))
  }

  lemma RevertOneMore(db: Db, gone: set<nat>, a: nat)
    requires gone <= db.acceptances.Keys && a in db.acceptances && a !in gone
    ensures Revoke(Revert(db, gone), db.acceptances[a].subject, a) == Ok(Revert(db, gone + {a}))
  {
    var s, one := db.acceptances[a].subject, Revert(db, gone);
    var two := Revert(db, gone + {a});
    forall t ensures Reverted(db, gone + {a}, t) <==> Reverted(db, gone, t) || t == s {
      if Reverted(db, gone, t) {
        var b :| b in gone && db.acceptances[b].subject == t;
        assert b in gone + {a};
      }
      assert a in gone + {a};
    }
    var r := Revoke(one, s, a).db;
    assert r.findings == two.findings;
    assert r.misconfigs == two.misconfigs;
    assert r.acceptances == two.acceptances;
  }

  /** Reference: revoke the listed acceptances one by one through the API. */
  function RevokeEach(db: Db, order: seq<nat>): Db
    decreases |order|
  {
    if order == [] then db
    else
      var before, a := RevokeEach(db, order[..|order| - 1]), order[|order| - 1];
      if a in before.acceptances then
        match Revoke(before, before.acceptances[a].subject, a)
        case Ok(db') => db'
        case NotFound => before
      else before
  }

  function Elements(order: seq<nat>): set<nat> {
    set a | a in order
  }

  lemma RevertNothing(db: Db)
    ensures Revert(db, {}) == db
  {
    assert Revert(db, {}).findings == db.findings;
    assert Revert(db, {}).misconfigs == db.misconfigs;
    assert Revert(db, {}).acceptances == db.acceptances;
  }

  lemma {:induction false} RevokeEachIsRevert(db: Db, order: seq<nat>)
    requires forall a :: a in order ==> a in db.acceptances
    requires forall i, j :: 0 <= i < j < |order| ==> order[i] != order[j]
    ensures Elements(order) <= db.acceptances.Keys
    ensures RevokeEach(db, order) == Revert(db, Elements(order))
    decreases |order|
  {
    if order == [] {
      RevertNothing(db);
      assert Elements(order) == {};
    } else {
      var front, a := order[..|order| - 1], order[|order| - 1];
      assert order == front + [a];
      RevokeEachIsRevert(db, front);
      RevertOneMore(db, Elements(front), a);
      assert Elements(order) == Elements(front) + {a};
      assert a in Revert(db, Elements(front)).acceptances;
    }
  }

  /** The sweep does what revoking each expired acceptance through the API would do, in any order. */
  lemma SweepIsRevocations(db: Db, now: int, order: seq<nat>)
    requires forall a :: a in order <==> a in Expired(db, now)
    requires forall i, j :: 0 <= i < j < |order| ==> order[i] != order[j]
    ensures RevokeEach(db, order) == Sweep(db, now)
  {
    RevokeEachIsRevert(db, order);
    assert Elements(order) == Expired(db, now);
  }

  /** It leaves the acceptances without expiry or not yet past it, and nothing for another sweep at that time. */
  lemma SweepIsComplete(db: Db, now: int)
    ensures var db' := Sweep(db, now);
      && (forall a :: a in db'.acceptances <==>
            (a in db.acceptances && (db.acceptances[a].expiresAt.None? || now <= db.acceptances[a].expiresAt.value)))
      && (forall a :: a in db'.acceptances ==> db'.acceptances[a] == db.acceptances[a])
      && (forall earlier :: earlier <= now ==> Sweep(db', earlier) == db')
  {
    var db' := Sweep(db, now);
    forall earlier | earlier <= now ensures Sweep(db', earlier) == db' {
      assert Expired(db', earlier) == {};
      RevertNothing(db');
    }
  }

  // ── Container rows ─────────────────────────────────────────────────────────

  /** The container rows keep their identity, and none goes away. */
  ghost predicate IdentityKept(db: Db, db': Db) {
    |db.containers| <= |db'.containers| && forall i :: 0 <= i < |db.containers| ==>
      var r, r' := db.containers[i], db'.containers[i];
      r'.agent == r.agent && r'.name == r.name && r'.image == r.image
  }

  lemma ScanKeepsIdentity(db: Db, agent: string, report: Report, name: Option<string>, now: int)
    ensures var found := FindContainer(db, agent, report, name);
            IdentityKept(db, db.(containers := WithContainer(db, found, agent, report, name, now)))
  {
    var found := FindContainer(db, agent, report, name);
    assert found.OneRow? ==>
      SameContainer(agent, name, SplitTag(Or(report.artifact, "unknown")).0)(db.containers[found.row]);
  }

  lemma MessageKeepsIdentity(db: Db, agent: string, report: Report, name: Option<string>, now: int, flushed: bool)
    ensures IdentityKept(db, Committed(db, ProcessScan(db, agent, report, name, now), flushed))
  {
    var found := FindContainer(db, agent, report, name);
    var after := Committed(db, ProcessScan(db, agent, report, name, now), flushed);
    ScanKeepsIdentity(db, agent, report, name, now);
    assert after.containers == db.containers || after.containers == WithContainer(db, found, agent, report, name, now);
  }

  lemma MisconfigKeepsIdentity(db: Db, agent: string, r: M.Result, now: int)
    ensures match M.ProcessMisconfig(db, agent, r, now)
            case Stored(db') => IdentityKept(db, db')
            case Rejected(leftover) => IdentityKept(db, leftover)
  {
  }

  lemma MoveKeepsContainers(db: Db, e: Event)
    requires !e.ScanResult? && !e.MisconfigResult?
    ensures Next(db, e).containers == db.containers
  {
  }

  lemma SameContainersSameIdentity(db: Db, db': Db)
    requires db'.containers == db.containers
    ensures IdentityKept(db, db')
  {
  }

  /** No event whatsoever removes a container row or changes whose it is. */
  lemma EventKeepsIdentity(db: Db, e: Event)
    ensures IdentityKept(db, Next(db, e))
  {
    if e.ScanResult? {
      MessageKeepsIdentity(db, e.agent, e.report, e.name, e.now, e.flushed);
    } else if e.MisconfigResult? {
      MisconfigEventKeepsIdentity(db, e);
    } else {
      MoveKeepsContainers(db, e);
      SameContainersSameIdentity(db, Next(db, e));
    }
  }

  lemma MisconfigEventKeepsIdentity(db: Db, e: Event)
    requires e.MisconfigResult?
    ensures IdentityKept(db, Next(db, e))
  {
    MisconfigKeepsIdentity(db, e.agent, e.result, e.now);
    SameContainersSameIdentity(db, db);
  }

  // ── The acceptance ledger ──────────────────────────────────────────────────

  function Holders(db: Db, s: Subject): set<nat> {
    set a | a in db.acceptances && db.acceptances[a].subject == s
  }

  ghost predicate LedgerOkAt(db: Db, s: Subject) {
    SubjectExists(db, s) ==> |Holders(db, s)| == if StatusAt(db, s) == Accepted then 1 else 0
  }

  /** ACCEPTED exactly with one acceptance row; any other status with none. */
  ghost predicate LedgerOk(db: Db) {
    forall s :: LedgerOkAt(db, s)
  }

  /** At most one live misconfiguration row per container and check. */
  ghost predicate LiveUnique(db: Db) {
    forall c, k :: M.AtMostOneLive(db.misconfigs, c, k)
  }

  ghost predicate Inv(db: Db) {
    NoDangling(db) && LedgerOk(db) && LiveUnique(db)
  }

  // ── Runs ───────────────────────────────────────────────────────────────────

  datatype Event =
    | ScanResult(agent: string, report: Report, name: Option<string>, now: int, flushed: bool)
    | MisconfigResult(agent: string, result: M.Result, now: int, flushed: bool)
    | AcceptRisk(subject: Subject, reason: string, expiresAt: Option<int>)
    | RevokeRisk(subject: Subject, acceptance: nat)
    | ChangeStatus(subject: Subject, status: Status)
    | ExpirySweep(now: int)

  /** A not-found request changes nothing; a rejected message commits at most its leftover. */
  function Next(db: Db, e: Event): Db {
    match e
    case ScanResult(agent, report, name, now, flushed) =>
      Committed(db, ProcessScan(db, agent, report, name, now), flushed)
    case MisconfigResult(agent, r, now, flushed) =>
      Committed(db, M.ProcessMisconfig(db, agent, r, now), flushed)
    case AcceptRisk(s, reason, expiresAt) =>
      (match Accept(db, s, reason, expiresAt) case Ok(db') => db' case NotFound => db)
    case RevokeRisk(s, a) =>
      (match Revoke(db, s, a) case Ok(db') => db' case NotFound => db)
    case ChangeStatus(s, st) =>
      (match Patch(db, s, st) case Ok(db') => db' case NotFound => db)
    case ExpirySweep(now) => Sweep(db, now)
  }

  /** The moves the UI offers: accept or mark false positive when ACTIVE, reopen when FALSE_POSITIVE. */
  predicate UiOffers(db: Db, e: Event) {
    match e
    case AcceptRisk(s, _, _) => SubjectExists(db, s) && StatusAt(db, s) == Active
    case ChangeStatus(s, st) =>
      && SubjectExists(db, s)
      && ((StatusAt(db, s) == Active && st == FalsePositive) || (StatusAt(db, s) == FalsePositive && st == Active))
    case _ => true
  }

  function Run(db: Db, es: seq<Event>): Db
    decreases |es|
  {
    if es == [] then db else Run(Next(db, es[0]), es[1..])
  }

  predicate UiRun(db: Db, es: seq<Event>)
    decreases |es|
  {
    es == [] || (UiOffers(db, es[0]) && UiRun(Next(db, es[0]), es[1..]))
  }

  /** Scans and misconfiguration results, without user moves or sweeps. */
  ghost predicate OnlyMessages(es: seq<Event>) {
    forall i :: 0 <= i < |es| ==> es[i].ScanResult? || es[i].MisconfigResult?
  }

  // ── Exact conditions for single moves ──────────────────────────────────────

  lemma SetStatusElsewhere(db: Db, s: Subject, st: Status, t: Subject)
    requires SubjectExists(db, s)
    ensures SubjectExists(SetStatus(db, s, st), t) == SubjectExists(db, t)
    ensures SubjectExists(db, t) ==> StatusAt(SetStatus(db, s, st), t) == if t == s then st else StatusAt(db, t)
  {
  }

  /** The unguarded PATCH keeps the ledger right exactly when it neither enters nor leaves ACCEPTED. */
  lemma PatchKeepsLedgerIff(db: Db, s: Subject, st: Status)
    requires LedgerOk(db) && SubjectExists(db, s)
    ensures LedgerOk(Patch(db, s, st).db) <==> (st == Accepted <==> StatusAt(db, s) == Accepted)
  {
    var db' := SetStatus(db, s, st);
    forall t ensures Holders(db', t) == Holders(db, t) {
    }
    SetStatusElsewhere(db, s, st, s);
    assert LedgerOkAt(db, s);
    if st == Accepted <==> StatusAt(db, s) == Accepted {
      forall t ensures LedgerOkAt(db', t) {
        assert LedgerOkAt(db, t);
        SetStatusElsewhere(db, s, st, t);
      }
    } else {
      assert !LedgerOkAt(db', s);
    }
  }

  /** The unguarded acceptance keeps it right exactly when the subject is not ACCEPTED already. */
  lemma AcceptKeepsLedgerIff(db: Db, s: Subject, reason: string, expiresAt: Option<int>)
    requires NoDangling(db) && LedgerOk(db) && SubjectExists(db, s)
    ensures LedgerOk(Accept(db, s, reason, expiresAt).db) <==> StatusAt(db, s) != Accepted
  {
    var db', a := Accept(db, s, reason, expiresAt).db, db.nextAcceptance;
    assert LedgerOkAt(db, s);
    assert Holders(db', s) == Holders(db, s) + {a} && a !in Holders(db, s);
    SetStatusElsewhere(db, s, Accepted, s);
    if StatusAt(db, s) == Accepted {
      assert !LedgerOkAt(db', s);
    } else {
      forall t ensures LedgerOkAt(db', t) {
        assert LedgerOkAt(db, t);
        SetStatusElsewhere(db, s, Accepted, t);
        assert t != s ==> Holders(db', t) == Holders(db, t);
      }
    }
  }

  /** Giving a misconfiguration row a live status keeps rows unique exactly when it has no live sibling. */
  lemma LiveStatusKeepsUniqueIff(db: Db, i: nat, st: Status)
    requires LiveUnique(db) && i < |db.misconfigs|
    ensures LiveUnique(SetStatus(db, OnMisconfig(i), st)) <==>
            st == Fixed || forall j :: 0 <= j < |db.misconfigs| && j != i ==>
              !M.LiveMatch(db.misconfigs[j], db.misconfigs[i].container, db.misconfigs[i].check)
  {
    var ms, ms' := db.misconfigs, SetStatus(db, OnMisconfig(i), st).misconfigs;
    var c, k := ms[i].container, ms[i].check;
    assert forall j, d, q :: 0 <= j < |ms| && j != i ==> (M.LiveMatch(ms'[j], d, q) <==> M.LiveMatch(ms[j], d, q));
    if j :| 0 <= j < |ms| && j != i && M.LiveMatch(ms[j], c, k) && st != Fixed {
      assert M.LiveMatch(ms'[i], c, k) && M.LiveMatch(ms'[j], c, k);
      assert !M.AtMostOneLive(ms', c, k);
    } else {
      forall d, q ensures M.AtMostOneLive(ms', d, q) {
        assert M.AtMostOneLive(ms, d, q);
      }
    }
  }

  // ── Every guarded run ──────────────────────────────────────────────────────

  /** Rows appended by a message hold no acceptance yet. */
  lemma LedgerSurvives(db: Db, db': Db)
    requires NoDangling(db) && LedgerOk(db) && db'.acceptances == db.acceptances
    requires |db.findings| <= |db'.findings| && |db.misconfigs| <= |db'.misconfigs|
    requires forall i :: 0 <= i < |db.findings| ==>
      (db'.findings[i].status == Accepted <==> db.findings[i].status == Accepted)
    requires forall i :: |db.findings| <= i < |db'.findings| ==> db'.findings[i].status != Accepted
    requires forall i :: 0 <= i < |db.misconfigs| ==>
      (db'.misconfigs[i].status == Accepted <==> db.misconfigs[i].status == Accepted)
    requires forall i :: |db.misconfigs| <= i < |db'.misconfigs| ==> db'.misconfigs[i].status != Accepted
    ensures LedgerOk(db')
  {
    forall s ensures LedgerOkAt(db', s) {
      assert LedgerOkAt(db, s);
      assert Holders(db', s) == Holders(db, s);
      if SubjectExists(db', s) && !SubjectExists(db, s) {
        assert forall a :: a in db.acceptances ==> SubjectExists(db, db.acceptances[a].subject);
        assert Holders(db, s) == {};
      }
    }
  }

  lemma ScanStep(db: Db, agent: string, report: Report, name: Option<string>, now: int, flushed: bool)
    requires Inv(db)
    ensures Inv(Next(db, ScanResult(agent, report, name, now, flushed)))
  {
    var db' := Next(db, ScanResult(agent, report, name, now, flushed));
    if ProcessScan(db, agent, report, name, now).Stored? {
      ScanReconciles(db, agent, report, name, now);
      ScanTouchesOnlyItsContainer(db, agent, report, name, now);
    } else {
      LeftoverIsConsistent(db, agent, report, name, now);
    }
    LedgerSurvives(db, db');
  }

  lemma MisconfigKeepsReferences(db: Db, agent: string, r: M.Result, now: int)
    requires NoDangling(db) && M.ProcessMisconfig(db, agent, r, now).Stored?
    requires M.Reconciled(db, M.ProcessMisconfig(db, agent, r, now).db, M.Target(db, agent, r), now,
                          M.ChecksOf(r.items))
    ensures NoDangling(M.ProcessMisconfig(db, agent, r, now).db)
  {
    var db', c := M.ProcessMisconfig(db, agent, r, now).db, M.Target(db, agent, r);
    assert c < |db'.containers| && |db.containers| <= |db'.containers|;
    assert db'.scans == db.scans && db'.findings == db.findings && db'.acceptances == db.acceptances;
    forall i | 0 <= i < |db'.misconfigs| ensures db'.misconfigs[i].container < |db'.containers| {
      if i < |db.misconfigs| {
        assert db'.misconfigs[i].container == db.misconfigs[i].container;
      }
    }
  }

  /** Live rows are unique, so only a refused container rejects a misconfiguration message. */
  lemma MisconfigStep(db: Db, agent: string, r: M.Result, now: int, flushed: bool)
    requires Inv(db)
    ensures Inv(Next(db, MisconfigResult(agent, r, now, flushed)))
  {
    var out := M.ProcessMisconfig(db, agent, r, now);
    M.MisconfigReconciles(db, agent, r, now);
    assert forall k :: k in M.ChecksOf(r.items) ==> M.AtMostOneLive(db.misconfigs, M.Target(db, agent, r), k);
    if out.Stored? {
      MisconfigKeepsReferences(db, agent, r, now);
      LedgerSurvives(db, out.db);
      assert LiveUnique(out.db);
    } else {
      assert out.leftover == db;
    }
  }

  /** From ACTIVE or FALSE_POSITIVE to another status that is not FIXED: the row was live and stays so. */
  lemma LiveMoveStep(db: Db, s: Subject, st: Status)
    requires LiveUnique(db) && SubjectExists(db, s) && StatusAt(db, s) != Fixed
    ensures LiveUnique(SetStatus(db, s, st))
  {
    if s.OnMisconfig? {
      var m := db.misconfigs[s.row];
      assert M.AtMostOneLive(db.misconfigs, m.container, m.check);
      assert M.LiveMatch(m, m.container, m.check);
      LiveStatusKeepsUniqueIff(db, s.row, st);
    }
  }

  lemma RevokeKeepsLedger(db: Db, s: Subject, a: nat)
    requires LedgerOk(db) && SubjectExists(db, s) && a in db.acceptances && db.acceptances[a].subject == s
    ensures LedgerOk(Revoke(db, s, a).db)
  {
    var db' := Revoke(db, s, a).db;
    forall t ensures LedgerOkAt(db', t) {
      assert LedgerOkAt(db, t);
      SetStatusElsewhere(db, s, Active, t);
      assert Holders(db', t) == Holders(db, t) - {a};
      assert a in Holders(db, t) <==> t == s;
    }
  }

  lemma RevokeStep(db: Db, s: Subject, a: nat)
    requires Inv(db)
    ensures Inv(Next(db, RevokeRisk(s, a)))
  {
    if Revoke(db, s, a).Ok? {
      assert LedgerOkAt(db, s) && a in Holders(db, s);
      RevokeKeepsLedger(db, s, a);
      LiveMoveStep(db, s, Active);
    }
  }

  lemma {:induction false} RevokeEachStep(db: Db, order: seq<nat>)
    requires Inv(db)
    ensures Inv(RevokeEach(db, order))
    decreases |order|
  {
    if order != [] {
      var front, a := order[..|order| - 1], order[|order| - 1];
      RevokeEachStep(db, front);
      var mid := RevokeEach(db, front);
      if a in mid.acceptances {
        RevokeStep(mid, mid.acceptances[a].subject, a);
      }
    }
  }

  lemma {:induction false} Enumerate(xs: set<nat>) returns (order: seq<nat>)
    ensures forall x :: x in order <==> x in xs
    ensures forall i, j :: 0 <= i < j < |order| ==> order[i] != order[j]
    decreases xs
  {
    if x :| x in xs {
      var rest := Enumerate(xs - {x});
      order := rest + [x];
    } else {
      order := [];
    }
  }

  lemma SweepStep(db: Db, now: int)
    requires Inv(db)
    ensures Inv(Sweep(db, now))
  {
    var order := Enumerate(Expired(db, now));
    SweepIsRevocations(db, now, order);
    RevokeEachStep(db, order);
  }

  lemma AcceptStep(db: Db, s: Subject, reason: string, expiresAt: Option<int>)
    requires Inv(db) && UiOffers(db, AcceptRisk(s, reason, expiresAt))
    ensures Inv(Next(db, AcceptRisk(s, reason, expiresAt)))
  {
    AcceptKeepsLedgerIff(db, s, reason, expiresAt);
    LiveMoveStep(db, s, Accepted);
  }

  lemma ChangeStep(db: Db, s: Subject, st: Status)
    requires Inv(db) && UiOffers(db, ChangeStatus(s, st))
    ensures Inv(Next(db, ChangeStatus(s, st)))
  {
    PatchKeepsLedgerIff(db, s, st);
    LiveMoveStep(db, s, st);
  }

  lemma Step(db: Db, e: Event)
    requires Inv(db) && UiOffers(db, e)
    ensures Inv(Next(db, e))
  {
    match e
    case ScanResult(agent, report, name, now, flushed) => ScanStep(db, agent, report, name, now, flushed);
    case MisconfigResult(agent, r, now, flushed) => MisconfigStep(db, agent, r, now, flushed);
    case AcceptRisk(s, reason, expiresAt) => AcceptStep(db, s, reason, expiresAt);
    case RevokeRisk(s, a) => RevokeStep(db, s, a);
    case ChangeStatus(s, st) => ChangeStep(db, s, st);
    case ExpirySweep(now) => SweepStep(db, now);
  }

  lemma {:induction false} RunKeepsInv(db: Db, es: seq<Event>)
    requires Inv(db) && UiRun(db, es)
    ensures Inv(Run(db, es))
    decreases |es|
  {
    if es != [] {
      Step(db, es[0]);
      RunKeepsInv(Next(db, es[0]), es[1..]);
    }
  }

  lemma StartIsFine()
    ensures Inv(EMPTY)
  {
  }

  /**
   * Over every run the UI allows, from an empty hub: a finding or misconfiguration is ACCEPTED
   * exactly while it has one acceptance row and otherwise has none, and the single-row lookup of a
   * misconfiguration message is never ambiguous, whatever its container and checks.
   */
  lemma EveryUiRunIsConsistent(es: seq<Event>, s: Subject, c: nat, check: string)
    requires UiRun(EMPTY, es) && SubjectExists(Run(EMPTY, es), s)
    ensures var db := Run(EMPTY, es);
            && |Holders(db, s)| == (if StatusAt(db, s) == Accepted then 1 else 0)
            && !ScalarOneOrNone(db.misconfigs, M.LiveWithCheck(c, check)).ManyRows?
  {
    StartIsFine();
    RunKeepsInv(EMPTY, es);
    var db := Run(EMPTY, es);
    assert LedgerOkAt(db, s);
    assert M.AtMostOneLive(db.misconfigs, c, check);
  }

  // ── Where CVE findings differ ──────────────────────────────────────────────

  /** No container has two ACTIVE rows of one key. */
  ghost predicate ActiveUnique(db: Db) {
    forall c, k :: AtMostOneActive(db.findings, db.scans, c, k)
  }

  /** Rows of one key on one container. */
  predicate Siblings(db: Db, i: nat, j: nat)
    requires i < |db.findings| && j < |db.findings|
  {
    var f, g := db.findings[i], db.findings[j];
    && f.scan < |db.scans| && g.scan < |db.scans| && db.scans[f.scan].container == db.scans[g.scan].container
    && f.cve == g.cve && f.pkg == g.pkg
  }

  lemma ActiveUniqueIffNoTwins(db: Db)
    ensures ActiveUnique(db) <==>
      forall i: nat, j: nat ::
        i < j < |db.findings| && db.findings[i].status.Active? && db.findings[j].status.Active? ==> !Siblings(db, i, j)
  {
    if ActiveUnique(db) {
      forall i: nat, j: nat | i < j < |db.findings| && db.findings[i].status.Active? && db.findings[j].status.Active?
        ensures !Siblings(db, i, j)
      {
        var f := db.findings[i];
        if f.scan < |db.scans| {
          assert AtMostOneActive(db.findings, db.scans, db.scans[f.scan].container, (f.cve, f.pkg));
        }
      }
    } else {
      var c, k :| !AtMostOneActive(db.findings, db.scans, c, k);
      var i, j :| 0 <= i < j < |db.findings| && Matches(db.scans, c, k, db.findings[i])
                  && Matches(db.scans, c, k, db.findings[j]);
      assert Siblings(db, i, j);
    }
  }

  predicate NoActiveSibling(db: Db, i: nat)
    requires i < |db.findings|
  {
    forall j: nat :: j < |db.findings| && j != i && db.findings[j].status.Active? ==> !Siblings(db, i, j)
  }

  /** Reactivating one CVE row keeps rows unique exactly when its key has no other ACTIVE row. */
  lemma ReactivateKeepsUniqueIff(db: Db, i: nat)
    requires NoDangling(db) && ActiveUnique(db) && i < |db.findings|
    ensures ActiveUnique(SetStatus(db, OnFinding(i), Active)) <==> NoActiveSibling(db, i)
  {
    var db' := SetStatus(db, OnFinding(i), Active);
    ActiveUniqueIffNoTwins(db);
    ActiveUniqueIffNoTwins(db');
    forall x: nat, y: nat | x < |db.findings| && y < |db.findings| ensures Siblings(db', x, y) <==> Siblings(db, x, y) {
    }
    if j: nat :| j < |db.findings| && j != i && db.findings[j].status.Active? && Siblings(db, i, j) {
      assert Siblings(db', if i < j then i else j, if i < j then j else i);
    }
  }

  /** ACTIVE, or about to be: an acceptance of the row has expired. */
  predicate ActiveOrDue(db: Db, now: int, i: nat)
    requires i < |db.findings|
  {
    db.findings[i].status.Active? || Reverted(db, Expired(db, now), OnFinding(i))
  }

  /** Every key of a container has at most one row that is ACTIVE or about to expire. */
  predicate OneActiveOrDue(db: Db, now: int) {
    forall i: nat, j: nat :: i < j < |db.findings| && ActiveOrDue(db, now, i) && ActiveOrDue(db, now, j) ==>
      !Siblings(db, i, j)
  }

  /** The sweep reactivates several rows at once, so it looks at what becomes of all of them. */
  lemma SweepKeepsActiveUniqueIff(db: Db, now: int)
    requires NoDangling(db)
    ensures ActiveUnique(Sweep(db, now)) <==> OneActiveOrDue(db, now)
  {
    var db' := Sweep(db, now);
    ActiveUniqueIffNoTwins(db');
    forall i: nat | i < |db.findings| ensures db'.findings[i].status.Active? <==> ActiveOrDue(db, now, i) {
    }
    forall i: nat, j: nat | i < |db.findings| && j < |db.findings|
      ensures Siblings(db', i, j) <==> Siblings(db, i, j)
    {
    }
  }

  /** Two expired acceptances of one key break it, although neither row has an ACTIVE sibling. */
  lemma TwoExpiriesBreak(db: Db, now: int, i: nat, j: nat)
    requires NoDangling(db) && i < j < |db.findings| && Siblings(db, i, j)
    requires Reverted(db, Expired(db, now), OnFinding(i)) && Reverted(db, Expired(db, now), OnFinding(j))
    ensures !ActiveUnique(Sweep(db, now))
  {
    SweepKeepsActiveUniqueIff(db, now);
    assert ActiveOrDue(db, now, i) && ActiveOrDue(db, now, j);
  }

  // ── Runs that keep CVE rows unique ─────────────────────────────────────────

  /** What each reactivation must find in the state before it; the other moves need nothing. */
  predicate ReactivatesAlone(db: Db, e: Event) {
    match e
    case RevokeRisk(OnFinding(i), a) =>
      i < |db.findings| && Revoke(db, OnFinding(i), a).Ok? ==> NoActiveSibling(db, i)
    case ChangeStatus(OnFinding(i), st) => i < |db.findings| && st == Active ==> NoActiveSibling(db, i)
    case ExpirySweep(now) => OneActiveOrDue(db, now)
    case _ => true
  }

  lemma SameFindingsSameUnique(db: Db, db': Db)
    requires db'.findings == db.findings && db'.scans == db.scans
    ensures ActiveUnique(db') <==> ActiveUnique(db)
  {
    forall c, k ensures AtMostOneActive(db'.findings, db'.scans, c, k) == AtMostOneActive(db.findings, db.scans, c, k) {
    }
  }

  lemma ScanMessageKeepsActiveUnique(db: Db, agent: string, report: Report, name: Option<string>, now: int,
                                     flushed: bool)
    requires NoDangling(db) && ActiveUnique(db)
    ensures ActiveUnique(Next(db, ScanResult(agent, report, name, now, flushed)))
    ensures !FindContainer(db, agent, report, name).ManyRows? ==> ProcessScan(db, agent, report, name, now).Stored?
  {
    ScanReconciles(db, agent, report, name, now);
    if ProcessScan(db, agent, report, name, now).Stored? {
      ScanKeepsActiveUnique(db, agent, report, name, now);
    }
  }

  lemma MisconfigMessageKeepsActiveUnique(db: Db, agent: string, r: M.Result, now: int, flushed: bool)
    requires Inv(db) && ActiveUnique(db)
    ensures ActiveUnique(Next(db, MisconfigResult(agent, r, now, flushed)))
  {
    var out := M.ProcessMisconfig(db, agent, r, now);
    M.MisconfigReconciles(db, agent, r, now);
    assert forall k :: k in M.ChecksOf(r.items) ==> M.AtMostOneLive(db.misconfigs, M.Target(db, agent, r), k);
    if out.Stored? {
      M.MisconfigDecidesRows(db, agent, r, now);
      SameFindingsSameUnique(db, out.db);
    }
  }

  lemma StatusMoveKeepsUniqueIff(db: Db, s: Subject, st: Status)
    requires NoDangling(db) && ActiveUnique(db) && SubjectExists(db, s)
    ensures ActiveUnique(SetStatus(db, s, st)) <==> (s.OnFinding? && st == Active ==> NoActiveSibling(db, s.row))
  {
    match s
    case OnFinding(i) =>
      if st == Active {
        ReactivateKeepsUniqueIff(db, i);
      } else {
        LeavingKeepsActiveUnique(db, i, st);
      }
    case OnMisconfig(_) => SameFindingsSameUnique(db, SetStatus(db, s, st));
  }

  /** One step keeps CVE rows unique exactly when its reactivations meet their condition. */
  lemma StepKeepsActiveUniqueIff(db: Db, e: Event)
    requires Inv(db) && ActiveUnique(db)
    ensures ActiveUnique(Next(db, e)) <==> ReactivatesAlone(db, e)
  {
    match e
    case ScanResult(agent, report, name, now, flushed) =>
      ScanMessageKeepsActiveUnique(db, agent, report, name, now, flushed);
    case MisconfigResult(agent, r, now, flushed) => MisconfigMessageKeepsActiveUnique(db, agent, r, now, flushed);
    case AcceptRisk(s, reason, expiresAt) =>
      if SubjectExists(db, s) {
        StatusMoveKeepsUniqueIff(db, s, Accepted);
        SameFindingsSameUnique(SetStatus(db, s, Accepted), Next(db, e));
      }
    case RevokeRisk(s, a) =>
      if Revoke(db, s, a).Ok? {
        StatusMoveKeepsUniqueIff(db, s, Active);
        SameFindingsSameUnique(SetStatus(db, s, Active), Next(db, e));
      }
    case ChangeStatus(s, st) =>
      if SubjectExists(db, s) {
        StatusMoveKeepsUniqueIff(db, s, st);
      }
    case ExpirySweep(now) => SweepKeepsActiveUniqueIff(db, now);
  }

  ghost predicate UniqueThroughout(db: Db, es: seq<Event>)
    decreases |es|
  {
    ActiveUnique(db) && (es == [] || UniqueThroughout(Next(db, es[0]), es[1..]))
  }

  ghost predicate AllReactivateAlone(db: Db, es: seq<Event>)
    decreases |es|
  {
    es == [] || (ReactivatesAlone(db, es[0]) && AllReactivateAlone(Next(db, es[0]), es[1..]))
  }

  /** No scan is rejected, unless its container lookup is ambiguous. */
  ghost predicate ScansAreStored(db: Db, es: seq<Event>)
    decreases |es|
  {
    es == [] || (&& (es[0].ScanResult? && !FindContainer(db, es[0].agent, es[0].report, es[0].name).ManyRows? ==>
                       ProcessScan(db, es[0].agent, es[0].report, es[0].name, es[0].now).Stored?)
                 && ScansAreStored(Next(db, es[0]), es[1..]))
  }

  /**
   * A guarded run keeps at most one ACTIVE row per key and container throughout exactly when every
   * revocation, reopening and sweep meets its condition in the state before it. Then no scan with an
   * unambiguous container is rejected.
   */
  lemma {:induction false} RunKeepsActiveUniqueIff(db: Db, es: seq<Event>)
    requires Inv(db) && ActiveUnique(db) && UiRun(db, es)
    ensures UniqueThroughout(db, es) <==> AllReactivateAlone(db, es)
    ensures UniqueThroughout(db, es) ==> ScansAreStored(db, es)
    decreases |es|
  {
    if es != [] {
      Step(db, es[0]);
      StepKeepsActiveUniqueIff(db, es[0]);
      if es[0].ScanResult? {
        ScanMessageKeepsActiveUnique(db, es[0].agent, es[0].report, es[0].name, es[0].now, es[0].flushed);
      }
      if ActiveUnique(Next(db, es[0])) {
        RunKeepsActiveUniqueIff(Next(db, es[0]), es[1..]);
      } else {
        assert !UniqueThroughout(Next(db, es[0]), es[1..]);
      }
    }
  }

  // ── What a second ACTIVE row costs ─────────────────────────────────────────

  /** No container row is there twice. */
  ghost predicate ContainersDistinct(db: Db) {
    forall i, j :: 0 <= i < j < |db.containers| ==>
      || db.containers[i].agent != db.containers[j].agent || db.containers[i].name != db.containers[j].name
      || db.containers[i].image != db.containers[j].image
  }

  lemma EmptyTag(image: string)
    ensures SplitTag(image + ":") == (image, Some(""))
  {
    var name, r := image + ":", SplitTag(image + ":");
    assert name[|image|] == ':';
    assert r.1.Some? && r.0 + ":" + r.1.value == name;
    var tag := r.1.value;
    assert tag == "";
    assert r.0 == name[..|image|] == image;
  }

  /** A report about container `c` that lists key `k`. */
  function Probe(db: Db, c: nat, k: Key): Report
    requires c < |db.containers|
  {
    Report(Some(db.containers[c].image + ":"), None, [[Vuln(Some(k.0), Some(k.1), None, None, None, None)]])
  }

  lemma ProbeFinds(db: Db, c: nat, k: Key)
    requires ContainersDistinct(db) && c < |db.containers|
    ensures var r := db.containers[c];
            && FindContainer(db, r.agent, Probe(db, c, k), r.name) == OneRow(c)
            && k in KeysOf(Flatten(Probe(db, c, k).blocks))
  {
    var r, blocks := db.containers[c], Probe(db, c, k).blocks;
    EmptyTag(r.image);
    assert SameContainer(r.agent, r.name, r.image)(r);
    assert blocks[..0] == [] && Flatten(blocks) == [] + blocks[0];
    assert blocks[0][0] in Flatten(blocks);
  }

  /** A hub whose containers are distinct stores every scan exactly while no key has two ACTIVE rows. */
  lemma ActiveUniqueIffScansStored(db: Db)
    requires NoDangling(db) && ContainersDistinct(db)
    ensures ActiveUnique(db) <==>
            forall agent, report, name, now :: ProcessScan(db, agent, report, name, now).Stored?
  {
    forall agent, report, name, now | ActiveUnique(db) ensures ProcessScan(db, agent, report, name, now).Stored? {
      ScanReconciles(db, agent, report, name, now);
    }
    if c: nat, k: Key :| !AtMostOneActive(db.findings, db.scans, c, k) {
      var i, j :| 0 <= i < j < |db.findings| && Matches(db.scans, c, k, db.findings[i])
                  && Matches(db.scans, c, k, db.findings[j]);
      ProbeFinds(db, c, k);
      ScanReconciles(db, db.containers[c].agent, Probe(db, c, k), db.containers[c].name, 0);
    }
  }

  // ── How it breaks ──────────────────────────────────────────────────────────

  /** Revoking the acceptance of a row whose key has an ACTIVE row elsewhere leaves two of them. */
  lemma RevokeBesideActive(db: Db, i: nat, a: nat, j: nat, c: nat)
    requires Inv(db) && i < |db.findings| && j < |db.findings|
    requires a in db.acceptances && db.acceptances[a].subject == OnFinding(i)
    requires var f := db.findings[i];
             && f.status == Accepted && OnContainer(db.scans, f, c)
             && Matches(db.scans, c, (f.cve, f.pkg), db.findings[j])
    ensures var r := Revoke(db, OnFinding(i), a);
            && r.Ok? && Inv(r.db)
            && !AtMostOneActive(r.db.findings, r.db.scans, c, (db.findings[i].cve, db.findings[i].pkg))
  {
    var f, db' := db.findings[i], Revoke(db, OnFinding(i), a).db;
    RevokeStep(db, OnFinding(i), a);
    assert i != j;
    assert Matches(db.scans, c, (f.cve, f.pkg), db'.findings[i]);
    assert Matches(db.scans, c, (f.cve, f.pkg), db'.findings[j]);
  }

  /** A scan that lists the key of an accepted finding leaves it alone and gives the key an ACTIVE row of its own. */
  lemma RescanBesideAccepted(db: Db, i: nat, a: nat, agent: string, report: Report, name: Option<string>, now: int)
    returns (j: nat)
    requires Inv(db) && i < |db.findings| && a in db.acceptances && db.acceptances[a].subject == OnFinding(i)
    requires ProcessScan(db, agent, report, name, now).Stored?
    requires OnContainer(db.scans, db.findings[i], ScanTarget(db, agent, report, name))
    requires (db.findings[i].cve, db.findings[i].pkg) in KeysOf(Flatten(report.blocks))
    ensures var f, c, db1 := db.findings[i], ScanTarget(db, agent, report, name),
                             ProcessScan(db, agent, report, name, now).db;
            && Inv(db1) && f.status == Accepted && i < |db1.findings| && db1.findings[i] == f
            && OnContainer(db1.scans, f, c) && db1.acceptances == db.acceptances
            && j < |db1.findings| && Matches(db1.scans, c, (f.cve, f.pkg), db1.findings[j])
  {
    var f, c := db.findings[i], ScanTarget(db, agent, report, name);
    var db1 := ProcessScan(db, agent, report, name, now).db;
    assert LedgerOkAt(db, OnFinding(i)) && a in Holders(db, OnFinding(i));
    ScanReconciles(db, agent, report, name, now);
    ScanStep(db, agent, report, name, now, false);
    j :| j < |db1.findings| && Matches(db1.scans, c, (f.cve, f.pkg), db1.findings[j]);
  }

  /** So revoking the acceptance after such a scan leaves two ACTIVE rows of the key. */
  lemma RescanThenRevoke(db: Db, i: nat, a: nat, agent: string, report: Report, name: Option<string>, now: int)
    requires Inv(db) && i < |db.findings| && a in db.acceptances && db.acceptances[a].subject == OnFinding(i)
    requires ProcessScan(db, agent, report, name, now).Stored?
    requires var f := db.findings[i];
             && OnContainer(db.scans, f, ScanTarget(db, agent, report, name))
             && (f.cve, f.pkg) in KeysOf(Flatten(report.blocks))
    ensures var f, c := db.findings[i], ScanTarget(db, agent, report, name);
            var r := Revoke(ProcessScan(db, agent, report, name, now).db, OnFinding(i), a);
            && r.Ok? && Inv(r.db) && !AtMostOneActive(r.db.findings, r.db.scans, c, (f.cve, f.pkg))
  {
    var c, db1 := ScanTarget(db, agent, report, name), ProcessScan(db, agent, report, name, now).db;
    var j := RescanBesideAccepted(db, i, a, agent, report, name, now);
    RevokeBesideActive(db1, i, a, j, c);
  }

  /**
   * The scan lookup sees ACTIVE rows only, so a scan that lists the key of an accepted finding adds
   * a second row. Revoking the acceptance then leaves two ACTIVE rows, and from there every
   * scan of that container listing the key is rejected.
   */
  lemma AcceptRescanRevokeJams(db: Db, i: nat, a: nat, agent: string, report: Report, name: Option<string>, now: int,
                               again: Report, later: int)
    requires Inv(db) && i < |db.findings| && a in db.acceptances && db.acceptances[a].subject == OnFinding(i)
    requires ProcessScan(db, agent, report, name, now).Stored?
    requires var f := db.findings[i];
             && OnContainer(db.scans, f, ScanTarget(db, agent, report, name))
             && (f.cve, f.pkg) in KeysOf(Flatten(report.blocks))
             && (f.cve, f.pkg) in KeysOf(Flatten(again.blocks))
    ensures var r := Revoke(ProcessScan(db, agent, report, name, now).db, OnFinding(i), a);
            && r.Ok? && !ActiveUnique(r.db)
            && (ScanTarget(r.db, agent, again, name) == ScanTarget(db, agent, report, name) ==>
                  ProcessScan(r.db, agent, again, name, later).Rejected?)
  {
    RescanThenRevoke(db, i, a, agent, report, name, now);
    var db2 := Revoke(ProcessScan(db, agent, report, name, now).db, OnFinding(i), a).db;
    ScanReconciles(db2, agent, again, name, later);
  }

  lemma ScannedKeepsActiveUnique(db: Db, db': Db, c: nat, now: int, keys: set<Key>)
    requires ActiveUnique(db) && Scanned(db, db', c, now, keys)
    ensures ActiveUnique(db')
  {
    forall d, k ensures AtMostOneActive(db'.findings, db'.scans, d, k) {
      if d != c {
        forall i: nat | i < |db'.findings| {
          ElsewhereUnchanged(db, db', c, now, keys, i, d, k);
        }
        assert AtMostOneActive(db.findings, db.scans, d, k);
      }
    }
  }

  /** A stored scan never creates a second ACTIVE row of a key, on its own container or elsewhere. */
  lemma ScanKeepsActiveUnique(db: Db, agent: string, report: Report, name: Option<string>, now: int)
    requires NoDangling(db) && ActiveUnique(db) && ProcessScan(db, agent, report, name, now).Stored?
    ensures ActiveUnique(ProcessScan(db, agent, report, name, now).db)
  {
    StoredIsScanned(db, agent, report, name, now);
    ScannedKeepsActiveUnique(db, ProcessScan(db, agent, report, name, now).db, ScanTarget(db, agent, report, name), now,
                             KeysOf(Flatten(report.blocks)));
  }

  /** Leaving ACTIVE only removes a match. */
  lemma LeavingKeepsActiveUnique(db: Db, i: nat, st: Status)
    requires ActiveUnique(db) && i < |db.findings| && st != Active
    ensures ActiveUnique(SetStatus(db, OnFinding(i), st))
  {
    var db' := SetStatus(db, OnFinding(i), st);
    forall c, k ensures AtMostOneActive(db'.findings, db'.scans, c, k) {
      assert AtMostOneActive(db.findings, db.scans, c, k);
      assert forall j :: 0 <= j < |db'.findings| && Matches(db'.scans, c, k, db'.findings[j]) ==>
        Matches(db.scans, c, k, db.findings[j]);
    }
  }

  lemma RunFour(db: Db, e: Event, f: Event, g: Event, h: Event)
    requires UiOffers(db, e) && UiOffers(Next(db, e), f) && UiOffers(Next(Next(db, e), f), g)
    requires UiOffers(Next(Next(Next(db, e), f), g), h)
    ensures UiRun(db, [e, f, g, h]) && Run(db, [e, f, g, h]) == Next(Next(Next(Next(db, e), f), g), h)
  {
    var db1, db2, db3 := Next(db, e), Next(Next(db, e), f), Next(Next(Next(db, e), f), g);
    assert [e, f, g, h][1..] == [f, g, h] && [f, g, h][1..] == [g, h] && [g, h][1..] == [h] && [h][1..] == [];
    assert Run(db3, [h]) == Next(db3, h) && UiRun(db3, [h]);
    assert Run(db2, [g, h]) == Next(db3, h) && UiRun(db2, [g, h]);
    assert Run(db1, [f, g, h]) == Next(db3, h) && UiRun(db1, [f, g, h]);
  }

  /** The first scan of a fresh hub adds one container, which later scans of the same image find again. */
  lemma FirstScan(db: Db, agent: string, report: Report, name: Option<string>, now: int)
    requires db == EMPTY
    ensures var out := ProcessScan(db, agent, report, name, now);
      && out.Stored? && ScanTarget(db, agent, report, name) == 0
      && out.db.acceptances == map[] && out.db.nextAcceptance == 0
      && FindContainer(out.db, agent, report, name) == OneRow(0)
  {
    ScanReconciles(db, agent, report, name, now);
    assert FindContainer(db, agent, report, name).NoRow?;
    FoundAgain(db, agent, report, name, now, report);
  }

  /** After it every listed key has a fresh ACTIVE row. */
  lemma FirstScanIsReady(db: Db, agent: string, report: Report, name: Option<string>, now: int, k: Key)
    returns (i: nat)
    requires db == EMPTY && k in KeysOf(Flatten(report.blocks))
    ensures var db1 := Next(db, ScanResult(agent, report, name, now, false));
      && Inv(db1) && ActiveUnique(db1) && db1.acceptances == map[] && db1.nextAcceptance == 0
      && FindContainer(db1, agent, report, name) == OneRow(0)
      && i < |db1.findings| && Matches(db1.scans, 0, k, db1.findings[i])
  {
    StartIsFine();
    FirstScan(db, agent, report, name, now);
    ScanStep(db, agent, report, name, now, false);
    ScanKeepsActiveUnique(db, agent, report, name, now);
    StoredIsScanned(db, agent, report, name, now);
    var db1 := ProcessScan(db, agent, report, name, now).db;
    i :| i < |db1.findings| && Matches(db1.scans, 0, k, db1.findings[i]);
  }

  lemma FirstAcceptance(db: Db, i: nat, expiresAt: Option<int>)
    requires Inv(db) && ActiveUnique(db) && db.acceptances == map[] && db.nextAcceptance == 0
    requires i < |db.findings| && db.findings[i].status.Active?
    ensures UiOffers(db, AcceptRisk(OnFinding(i), "", expiresAt))
    ensures var db1 := Next(db, AcceptRisk(OnFinding(i), "", expiresAt));
      && Inv(db1) && ActiveUnique(db1) && db1.containers == db.containers && db1.scans == db.scans
      && i < |db1.findings| && db1.findings[i] == db.findings[i].(status := Accepted)
      && 0 in db1.acceptances && db1.acceptances[0] == Acceptance(OnFinding(i), "", expiresAt)
  {
    Step(db, AcceptRisk(OnFinding(i), "", expiresAt));
    LeavingKeepsActiveUnique(db, i, Accepted);
  }

  /** With one ACTIVE row per key, a scan of a known container is stored. */
  lemma KnownContainerIsStored(db: Db, c: nat, agent: string, report: Report, name: Option<string>, now: int)
    requires NoDangling(db) && ActiveUnique(db) && FindContainer(db, agent, report, name) == OneRow(c)
    ensures ScanTarget(db, agent, report, name) == c
    ensures ProcessScan(db, agent, report, name, now).Stored?
    ensures Next(db, ScanResult(agent, report, name, now, false)) == ProcessScan(db, agent, report, name, now).db
  {
    ScanReconciles(db, agent, report, name, now);
  }

  /** A hub with one accepted row: scanning its key again and revoking jams. */
  lemma RescanAndRevokeJam(db: Db, i: nat, agent: string, report: Report, name: Option<string>, now: int, later: int)
    requires Inv(db) && ActiveUnique(db) && FindContainer(db, agent, report, name) == OneRow(0)
    requires i < |db.findings| && OnContainer(db.scans, db.findings[i], 0)
    requires (db.findings[i].cve, db.findings[i].pkg) in KeysOf(Flatten(report.blocks))
    requires 0 in db.acceptances && db.acceptances[0].subject == OnFinding(i)
    ensures var end := Next(Next(db, ScanResult(agent, report, name, now, false)), RevokeRisk(OnFinding(i), 0));
            !ActiveUnique(end) && ProcessScan(end, agent, report, name, later).Rejected?
  {
    KnownContainerIsStored(db, 0, agent, report, name, now);
    FoundAgain(db, agent, report, name, now, report);
    AcceptRescanRevokeJams(db, i, 0, agent, report, name, now, report, later);
  }

  /**
   * The UI itself reaches the jam, for any report with a vulnerability: scan, accept, scan again,
   * revoke. The next scan of the container is rejected.
   */
  lemma JamIsReachable(agent: string, report: Report, name: Option<string>, t0: int, t1: int, t2: int) returns (i: nat)
    requires KeysOf(Flatten(report.blocks)) != {}
    ensures var es := [ScanResult(agent, report, name, t0, false), AcceptRisk(OnFinding(i), "", None),
                       ScanResult(agent, report, name, t1, false), RevokeRisk(OnFinding(i), 0)];
            && UiRun(EMPTY, es) && !ActiveUnique(Run(EMPTY, es))
            && ProcessScan(Run(EMPTY, es), agent, report, name, t2).Rejected?
  {
    var k :| k in KeysOf(Flatten(report.blocks));
    i := FirstScanIsReady(EMPTY, agent, report, name, t0, k);
    var scan, accept := ScanResult(agent, report, name, t0, false), AcceptRisk(OnFinding(i), "", None);
    var rescan, revoke := ScanResult(agent, report, name, t1, false), RevokeRisk(OnFinding(i), 0);
    var db := Next(EMPTY, scan);
    FirstAcceptance(db, i, None);
    RescanAndRevokeJam(Next(db, accept), i, agent, report, name, t1, t2);
    RunFour(EMPTY, scan, accept, rescan, revoke);
  }

  /** Accepting a second row of an accepted key and letting both expire makes two of them ACTIVE. */
  lemma BothExpire(db: Db, i: nat, j: nat, a: nat, c: nat, expiry: int, later: int)
    requires Inv(db) && i < |db.findings| && j < |db.findings| && expiry < later
    requires db.findings[i].status == Accepted && OnContainer(db.scans, db.findings[i], c)
    requires Matches(db.scans, c, (db.findings[i].cve, db.findings[i].pkg), db.findings[j])
    requires a in db.acceptances && db.acceptances[a] == Acceptance(OnFinding(i), "", Some(expiry))
    ensures var accept := AcceptRisk(OnFinding(j), "", Some(expiry));
            var end := Next(Next(db, accept), ExpirySweep(later));
            && UiOffers(db, accept) && Inv(end) && end.containers == db.containers && end.scans == db.scans
            && !AtMostOneActive(end.findings, end.scans, c, (db.findings[i].cve, db.findings[i].pkg))
  {
    var accept := AcceptRisk(OnFinding(j), "", Some(expiry));
    var db', b := Next(db, accept), db.nextAcceptance;
    Step(db, accept);
    SweepStep(db', later);
    assert {a, b} <= Expired(db', later) && db'.acceptances[b].subject == OnFinding(j);
    assert db'.acceptances[a].subject == OnFinding(i);
    var end, k := Sweep(db', later), (db.findings[i].cve, db.findings[i].pkg);
    assert Matches(end.scans, c, k, end.findings[i]) && Matches(end.scans, c, k, end.findings[j]);
  }

  /** Scanning its key again, accepting the new row and letting both acceptances expire breaks it, too. */
  lemma RescanAcceptAndExpire(db: Db, i: nat, agent: string, report: Report, name: Option<string>, now: int,
                              expiry: int, later: int, last: int)
    returns (j: nat)
    requires Inv(db) && ActiveUnique(db) && FindContainer(db, agent, report, name) == OneRow(0)
    requires i < |db.findings| && OnContainer(db.scans, db.findings[i], 0)
    requires (db.findings[i].cve, db.findings[i].pkg) in KeysOf(Flatten(report.blocks))
    requires 0 in db.acceptances && db.acceptances[0] == Acceptance(OnFinding(i), "", Some(expiry)) && expiry < later
    ensures var db1 := Next(db, ScanResult(agent, report, name, now, false));
            var accept := AcceptRisk(OnFinding(j), "", Some(expiry));
            var end := Next(Next(db1, accept), ExpirySweep(later));
            UiOffers(db1, accept) && !ActiveUnique(end) && ProcessScan(end, agent, report, name, last).Rejected?
  {
    KnownContainerIsStored(db, 0, agent, report, name, now);
    FoundAgain(db, agent, report, name, now, report);
    j := RescanBesideAccepted(db, i, 0, agent, report, name, now);
    var db1 := ProcessScan(db, agent, report, name, now).db;
    BothExpire(db1, i, j, 0, 0, expiry, later);
    var end := Next(Next(db1, AcceptRisk(OnFinding(j), "", Some(expiry))), ExpirySweep(later));
    TwinsReject(end, agent, report, name, last, 0, (db.findings[i].cve, db.findings[i].pkg));
  }

  lemma TwinsReject(db: Db, agent: string, report: Report, name: Option<string>, now: int, c: nat, k: Key)
    requires NoDangling(db) && FindContainer(db, agent, report, name) == OneRow(c)
    requires !AtMostOneActive(db.findings, db.scans, c, k) && k in KeysOf(Flatten(report.blocks))
    ensures !ActiveUnique(db) && ProcessScan(db, agent, report, name, now).Rejected?
  {
    ScanReconciles(db, agent, report, name, now);
  }

  /**
   * The UI and the sweep reach that as well: scan, accept, scan again, accept again, both expire. The
   * next scan of the container is rejected.
   */
  lemma SweepJamIsReachable(agent: string, report: Report, name: Option<string>, t0: int, t1: int, expiry: int, t2: int,
                            t3: int)
    returns (i: nat, j: nat)
    requires KeysOf(Flatten(report.blocks)) != {} && expiry < t2
    ensures var es := [ScanResult(agent, report, name, t0, false), AcceptRisk(OnFinding(i), "", Some(expiry)),
                       ScanResult(agent, report, name, t1, false), AcceptRisk(OnFinding(j), "", Some(expiry))];
            var end := Next(Run(EMPTY, es), ExpirySweep(t2));
            UiRun(EMPTY, es) && !ActiveUnique(end) && ProcessScan(end, agent, report, name, t3).Rejected?
  {
    var k :| k in KeysOf(Flatten(report.blocks));
    i := FirstScanIsReady(EMPTY, agent, report, name, t0, k);
    var scan, accept := ScanResult(agent, report, name, t0, false), AcceptRisk(OnFinding(i), "", Some(expiry));
    var db := Next(EMPTY, scan);
    FirstAcceptance(db, i, Some(expiry));
    j := RescanAcceptAndExpire(Next(db, accept), i, agent, report, name, t1, expiry, t2, t3);
    RunFour(EMPTY, scan, accept, ScanResult(agent, report, name, t1, false),
            AcceptRisk(OnFinding(j), "", Some(expiry)));
  }

  /** A scan and then a misconfiguration message of the same named container under another tag, which is refused. */
  lemma TagChangeIsRefused(agent: string, report: Report, name: Option<string>, t0: int, r: M.Result, t1: int,
                           flushed: bool)
    requires name.Some? && M.OtherTag(report, name, r)
    ensures var db := Next(EMPTY, ScanResult(agent, report, name, t0, false));
            && M.ProcessMisconfig(db, agent, r, t1).Rejected?
            && Next(db, MisconfigResult(agent, r, t1, flushed)) == db
  {
    FirstScan(EMPTY, agent, report, name, t0);
    M.TagChangeRefusedIff(EMPTY, agent, report, name, t0, r, t1);
  }
}
