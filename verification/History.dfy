/**
 * What the finding rows remember. After any run of scan and misconfiguration messages the
 * first_seen/last_seen intervals still tell, for every past scan, exactly which keys it listed.
 */
module History {
  import opened Common
  import opened Store
  import L = Lifecycle
  import M = Misconfigs
  import T = Trend

  /** One stored scan as an observer would log it. */
  datatype Item = Item(container: nat, at: int, keys: set<Key>)

  function ImageOf(e: L.Event): string
    requires e.ScanResult?
  {
    SplitTag(Or(e.report.artifact, "unknown")).0
  }

  function KeysIn(e: L.Event): set<Key>
    requires e.ScanResult?
  {
    KeysOf(Flatten(e.report.blocks))
  }

  /** Scans of one container come at increasing times; those of different containers are not ordered. */
  ghost predicate Increasing(es: seq<L.Event>) {
    forall i, j :: && 0 <= i < j < |es| && es[i].ScanResult? && es[j].ScanResult? && es[i].agent == es[j].agent
                   && es[i].name == es[j].name && ImageOf(es[i]) == ImageOf(es[j]) ==>
      es[i].now < es[j].now
  }

  predicate ScanStored(db: Db, e: L.Event) {
    e.ScanResult? && ProcessScan(db, e.agent, e.report, e.name, e.now).Stored?
  }

  function Target(db: Db, e: L.Event): nat
    requires e.ScanResult?
  {
    ScanTarget(db, e.agent, e.report, e.name)
  }

  function Logged(db: Db, log: seq<Item>, e: L.Event): seq<Item> {
    if ScanStored(db, e) then log + [Item(Target(db, e), e.now, KeysIn(e))] else log
  }

  /** The hub after the messages `es`, and the log of what was scanned. */
  function Replay(es: seq<L.Event>): (Db, seq<Item>) {
    if es == [] then
      (EMPTY, [])
    else
      var before := Replay(es[..|es| - 1]);
      (L.Next(before.0, es[|es| - 1]), Logged(before.0, before.1, es[|es| - 1]))
  }

  /** The row is part of the picture from scan time `t` until the next scan of its container. */
  predicate InEffect(f: Finding, t: int) {
    f.firstSeen <= t && (f.status.Active? || f.lastSeen > t)
  }

  // ── What every run of messages keeps ───────────────────────────────────────

  ghost predicate Sane(db: Db) {
    L.Inv(db) && L.ActiveUnique(db) && NamedUnique(db)
  }

  /** With one ACTIVE row per key, only an ambiguous container lookup rejects a scan, and then nothing changes. */
  lemma RejectedChangesNothing(db: Db, e: L.Event)
    requires Sane(db) && e.ScanResult? && !ScanStored(db, e)
    ensures FindContainer(db, e.agent, e.report, e.name).ManyRows? && L.Next(db, e) == db
  {
    ScanReconciles(db, e.agent, e.report, e.name, e.now);
  }

  lemma StoredKeepsNamedUnique(db: Db, e: L.Event)
    requires NoDangling(db) && NamedUnique(db) && ScanStored(db, e)
    ensures NamedUnique(L.Next(db, e))
  {
    var rows, c := L.Next(db, e).containers, Target(db, e);
    ScanTouchesOnlyItsContainer(db, e.agent, e.report, e.name, e.now);
    ScanRefreshesContainer(db, e.agent, e.report, e.name, e.now);
    forall i: nat | i < |rows| && SameContainer(e.agent, e.name, ImageOf(e))(rows[i]) ensures i == c {
      ScannedRowIsAlone(db, e.agent, e.report, e.name, e.now, i);
    }
    assert SameContainer(e.agent, e.name, ImageOf(e))(rows[c]);
  }

  lemma ScanKeepsNamedUnique(db: Db, e: L.Event)
    requires Sane(db) && e.ScanResult?
    ensures NamedUnique(L.Next(db, e))
  {
    if ScanStored(db, e) {
      StoredKeepsNamedUnique(db, e);
    } else {
      RejectedChangesNothing(db, e);
    }
  }

  lemma ScanKeepsSane(db: Db, e: L.Event)
    requires Sane(db) && e.ScanResult?
    ensures Sane(L.Next(db, e))
  {
    L.ScanStep(db, e.agent, e.report, e.name, e.now, e.flushed);
    L.ScanMessageKeepsActiveUnique(db, e.agent, e.report, e.name, e.now, e.flushed);
    ScanKeepsNamedUnique(db, e);
  }

  lemma NewRowIsNew(db: Db, agent: string, r: M.Result, now: int)
    requires NamedUnique(db) && M.ProcessMisconfig(db, agent, r, now).Stored?
    ensures NamedUnique(M.ProcessMisconfig(db, agent, r, now).db)
  {
  }

  lemma RefusedChangesNothing(db: Db, e: L.Event)
    requires Sane(db) && e.MisconfigResult? && !M.ProcessMisconfig(db, e.agent, e.result, e.now).Stored?
    ensures L.Next(db, e) == db
  {
    M.MisconfigReconciles(db, e.agent, e.result, e.now);
    assert forall k :: k in M.ChecksOf(e.result.items) ==>
      M.AtMostOneLive(db.misconfigs, M.Target(db, e.agent, e.result), k);
  }

  /** A misconfiguration message touches neither findings nor scans, and adds at most one container row. */
  lemma MisconfigKeepsRows(db: Db, e: L.Event)
    requires Sane(db) && e.MisconfigResult?
    ensures var db' := L.Next(db, e);
            && db'.findings == db.findings && db'.scans == db.scans
            && NamedUnique(db')
  {
    if M.ProcessMisconfig(db, e.agent, e.result, e.now).Stored? {
      M.MisconfigDecidesRows(db, e.agent, e.result, e.now);
      NewRowIsNew(db, e.agent, e.result, e.now);
    } else {
      RefusedChangesNothing(db, e);
    }
  }

  lemma MisconfigKeepsSane(db: Db, e: L.Event)
    requires Sane(db) && e.MisconfigResult?
    ensures Sane(L.Next(db, e))
  {
    L.MisconfigStep(db, e.agent, e.result, e.now, e.flushed);
    L.MisconfigMessageKeepsActiveUnique(db, e.agent, e.result, e.now, e.flushed);
    MisconfigKeepsRows(db, e);
  }

  lemma {:induction false} ReplayIsSane(es: seq<L.Event>)
    requires L.OnlyMessages(es)
    ensures Sane(Replay(es).0)
  {
    if es == [] {
      L.StartIsFine();
    } else {
      var n := |es| - 1;
      ReplayIsSane(es[..n]);
      if es[n].ScanResult? {
        ScanKeepsSane(Replay(es[..n]).0, es[n]);
      } else {
        MisconfigKeepsSane(Replay(es[..n]).0, es[n]);
      }
    }
  }

  /**
   * Whatever scan and misconfiguration messages came before, in whatever order and at whatever times:
   * the scan of a named container finds its row unambiguously and is stored.
   */
  lemma NamedScanIsStored(es: seq<L.Event>, e: L.Event)
    requires L.OnlyMessages(es) && e.ScanResult? && e.name.Some?
    ensures ScanStored(Replay(es).0, e)
  {
    ReplayIsSane(es);
    var db := Replay(es).0;
    if !ScanStored(db, e) {
      RejectedChangesNothing(db, e);
    }
  }

  // ── The invariant ──────────────────────────────────────────────────────────

  ghost predicate LoggedAt(log: seq<Item>, c: nat, t: int) {
    exists j :: 0 <= j < |log| && log[j].container == c && log[j].at == t
  }

  /** A scan of `c` at `t` did not list `k`. */
  ghost predicate DroppedAt(log: seq<Item>, c: nat, t: int, k: Key) {
    exists j :: 0 <= j < |log| && log[j].container == c && log[j].at == t && k !in log[j].keys
  }

  /** Interval ends are scan times of the row's own container; the scan at the end did not list its key. */
  ghost predicate EndsAreLogged(db: Db, log: seq<Item>) {
    forall i, c :: 0 <= i < |db.findings| && OnContainer(db.scans, db.findings[i], c) ==>
      var f := db.findings[i];
      && f.status in {Active, Fixed}
      && LoggedAt(log, c, f.firstSeen)
      && (f.status.Fixed? ==> DroppedAt(log, c, f.lastSeen, (f.cve, f.pkg)) && f.firstSeen < f.lastSeen)
  }

  predicate Remembers(db: Db, i: nat, c: nat, k: Key, t: int)
    requires i < |db.findings|
  {
    var f := db.findings[i];
    OnContainer(db.scans, f, c) && (f.cve, f.pkg) == k && InEffect(f, t)
  }

  /** The rows in effect at `t` on `c` are `keys`, one each. */
  ghost predicate Pictures(db: Db, c: nat, t: int, keys: set<Key>) {
    && (forall k :: k in keys <==> exists i: nat :: i < |db.findings| && Remembers(db, i, c, k, t))
    && (forall i: nat, j: nat, k :: i < j < |db.findings| ==> !(Remembers(db, i, c, k, t) && Remembers(db, j, c, k, t)))
  }

  ghost predicate LogSorted(log: seq<Item>) {
    forall i, j :: 0 <= i < j < |log| && log[i].container == log[j].container ==> log[i].at < log[j].at
  }

  /** Every logged scan of `c` was before `now`. */
  ghost predicate AllBefore(log: seq<Item>, c: nat, now: int) {
    forall j :: 0 <= j < |log| && log[j].container == c ==> log[j].at < now
  }

  ghost predicate Inv(db: Db, log: seq<Item>) {
    Sane(db) && LogSorted(log) && EndsAreLogged(db, log) && AllPictures(db, log)
  }

  ghost predicate AllPictures(db: Db, log: seq<Item>) {
    forall j :: 0 <= j < |log| ==> Pictures(db, log[j].container, log[j].at, log[j].keys)
  }

  /** The item logs this scan. */
  predicate Logs(db: Db, item: Item, e: L.Event) {
    && e.ScanResult? && item.at == e.now && item.keys == KeysIn(e)
    && item.container < |db.containers| && SameContainer(e.agent, e.name, ImageOf(e))(db.containers[item.container])
  }

  /** The log holds scans of the run, and all its scans of named containers. */
  ghost predicate LogMatches(db: Db, log: seq<Item>, es: seq<L.Event>) {
    ItemsAreScans(db, log, es) && NamedAreLogged(db, log, es)
  }

  ghost predicate ItemsAreScans(db: Db, log: seq<Item>, es: seq<L.Event>) {
    forall j :: 0 <= j < |log| ==> exists i :: 0 <= i < |es| && Logs(db, log[j], es[i])
  }

  ghost predicate NamedAreLogged(db: Db, log: seq<Item>, es: seq<L.Event>) {
    forall i :: 0 <= i < |es| && es[i].ScanResult? && es[i].name.Some? ==>
      exists j :: 0 <= j < |log| && Logs(db, log[j], es[i])
  }

  // ── One message ────────────────────────────────────────────────────────────

  lemma EndsStayLogged(db: Db, log: seq<Item>, db': Db, c: nat, now: int, keys: set<Key>)
    requires Scanned(db, db', c, now, keys) && EndsAreLogged(db, log) && AllBefore(log, c, now)
    ensures EndsAreLogged(db', log + [Item(c, now, keys)])
  {
    var log' := log + [Item(c, now, keys)];
    assert log'[|log|].container == c && log'[|log|].at == now;
    forall d, t | LoggedAt(log, d, t) ensures LoggedAt(log', d, t) {
      var j :| 0 <= j < |log| && log[j].container == d && log[j].at == t;
      assert log'[j] == log[j];
    }
    forall d, t, k | DroppedAt(log, d, t, k) ensures DroppedAt(log', d, t, k) {
      var j :| 0 <= j < |log| && log[j].container == d && log[j].at == t && k !in log[j].keys;
      assert log'[j] == log[j];
    }
    forall i, d | 0 <= i < |db'.findings| && OnContainer(db'.scans, db'.findings[i], d)
      ensures var f := db'.findings[i];
        && f.status in {Active, Fixed}
        && LoggedAt(log', d, f.firstSeen)
        && (f.status.Fixed? ==> DroppedAt(log', d, f.lastSeen, (f.cve, f.pkg)) && f.firstSeen < f.lastSeen)
    {
      if i < |db.findings| {
        RowKeepsContainer(db, db', c, now, keys, i, d);
      }
    }
  }

  /** A scan disturbs neither the pictures of other containers nor its own of any earlier instant. */
  lemma EarlierPictureStays(db: Db, db': Db, c: nat, now: int, keys: set<Key>, d: nat, t: int, past: set<Key>)
    requires Scanned(db, db', c, now, keys) && (d == c ==> t < now) && Pictures(db, d, t, past)
    ensures Pictures(db', d, t, past)
  {
    forall i: nat, k | i < |db'.findings|
      ensures Remembers(db', i, d, k, t) <==> i < |db.findings| && Remembers(db, i, d, k, t)
    {
      if i < |db.findings| {
        RowKeepsContainer(db, db', c, now, keys, i, d);
      }
    }
    forall k | k in past ensures exists i: nat :: i < |db'.findings| && Remembers(db', i, d, k, t) {
      var i: nat :| i < |db.findings| && Remembers(db, i, d, k, t);
      assert Remembers(db', i, d, k, t);
    }
  }

  /** At its own time a scan's picture is exactly what it listed. */
  lemma NewPicture(db: Db, log: seq<Item>, db': Db, c: nat, now: int, keys: set<Key>)
    requires Scanned(db, db', c, now, keys) && EndsAreLogged(db', log + [Item(c, now, keys)]) && AllBefore(log, c, now)
    ensures Pictures(db', c, now, keys)
  {
    forall i: nat, k | i < |db'.findings|
      ensures Remembers(db', i, c, k, now) <==> Matches(db'.scans, c, k, db'.findings[i])
    {
    }
    forall k ensures k in keys <==> exists i: nat :: i < |db'.findings| && Remembers(db', i, c, k, now) {
      if k in keys {
        var i :| 0 <= i < |db'.findings| && Matches(db'.scans, c, k, db'.findings[i]);
        assert Remembers(db', i, c, k, now);
      }
    }
    forall i: nat, j: nat, k | i < j < |db'.findings|
      ensures !(Remembers(db', i, c, k, now) && Remembers(db', j, c, k, now))
    {
      assert AtMostOneActive(db'.findings, db'.scans, c, k);
    }
  }

  lemma StoredScanKeepsInv(db: Db, log: seq<Item>, e: L.Event)
    requires Inv(db, log) && ScanStored(db, e) && AllBefore(log, Target(db, e), e.now)
    ensures Inv(L.Next(db, e), Logged(db, log, e))
  {
    var db', c, keys := L.Next(db, e), Target(db, e), KeysIn(e);
    ScanKeepsSane(db, e);
    StoredIsScanned(db, e.agent, e.report, e.name, e.now);
    EndsStayLogged(db, log, db', c, e.now, keys);
    forall j | 0 <= j < |log| ensures Pictures(db', log[j].container, log[j].at, log[j].keys) {
      EarlierPictureStays(db, db', c, e.now, keys, log[j].container, log[j].at, log[j].keys);
    }
    NewPicture(db, log, db', c, e.now, keys);
  }

  lemma SameRowsSamePictures(db: Db, db': Db, log: seq<Item>)
    requires db'.findings == db.findings && db'.scans == db.scans && EndsAreLogged(db, log) && AllPictures(db, log)
    ensures EndsAreLogged(db', log) && AllPictures(db', log)
  {
    forall j | 0 <= j < |log| ensures Pictures(db', log[j].container, log[j].at, log[j].keys) {
      var c, t := log[j].container, log[j].at;
      assert Pictures(db, c, t, log[j].keys);
      assert forall i: nat, k :: i < |db.findings| ==> (Remembers(db', i, c, k, t) <==> Remembers(db, i, c, k, t));
    }
  }

  lemma MessageKeepsInv(db: Db, log: seq<Item>, e: L.Event)
    requires Inv(db, log) && (e.ScanResult? || e.MisconfigResult?)
    requires ScanStored(db, e) ==> AllBefore(log, Target(db, e), e.now)
    ensures Inv(L.Next(db, e), Logged(db, log, e))
  {
    if ScanStored(db, e) {
      StoredScanKeepsInv(db, log, e);
    } else if e.ScanResult? {
      RejectedChangesNothing(db, e);
    } else {
      MisconfigKeepsSane(db, e);
      MisconfigKeepsRows(db, e);
      SameRowsSamePictures(db, L.Next(db, e), log);
    }
  }

  /** Earlier scans of the same container were logged for the same agent, name and image. */
  lemma TargetIsLater(db: Db, log: seq<Item>, es: seq<L.Event>)
    requires es != [] && Increasing(es) && ItemsAreScans(db, log, es[..|es| - 1])
    requires ScanStored(db, es[|es| - 1])
    ensures AllBefore(log, Target(db, es[|es| - 1]), es[|es| - 1].now)
  {
    var n := |es| - 1;
    var e := es[n];
    forall j | 0 <= j < |log| && log[j].container == Target(db, e) ensures log[j].at < e.now {
      var i :| 0 <= i < n && Logs(db, log[j], es[..n][i]);
      assert es[..n][i] == es[i];
      assert SameContainer(e.agent, e.name, ImageOf(e))(db.containers[Target(db, e)]);
    }
  }

  lemma LogsStays(db: Db, db': Db, item: Item, e: L.Event)
    requires Logs(db, item, e) && L.IdentityKept(db, db')
    ensures Logs(db', item, e)
  {
  }

  lemma NewItemLogs(db: Db, log: seq<Item>, e: L.Event)
    requires ScanStored(db, e)
    ensures Logged(db, log, e)[..|log|] == log && |Logged(db, log, e)| == |log| + 1
    ensures Logs(L.Next(db, e), Logged(db, log, e)[|log|], e)
  {
    ScanRefreshesContainer(db, e.agent, e.report, e.name, e.now);
  }

  /** The log after event `e` holds what it held, and what `e` added. */
  ghost predicate Extends(db: Db, log: seq<Item>, db': Db, log': seq<Item>, e: L.Event) {
    && L.IdentityKept(db, db') && log <= log'
    && (forall j :: |log| <= j < |log'| ==> Logs(db', log'[j], e))
    && (e.ScanResult? && e.name.Some? ==> |log| < |log'|)
  }

  lemma ItemsStayScans(db: Db, log: seq<Item>, db': Db, log': seq<Item>, es: seq<L.Event>, j: nat)
    requires es != [] && ItemsAreScans(db, log, es[..|es| - 1]) && Extends(db, log, db', log', es[|es| - 1])
    requires j < |log'|
    ensures exists i :: 0 <= i < |es| && Logs(db', log'[j], es[i])
  {
    var n := |es| - 1;
    if j < |log| {
      var i :| 0 <= i < n && Logs(db, log[j], es[..n][i]);
      LogsStays(db, db', log[j], es[i]);
    } else {
      assert Logs(db', log'[j], es[n]);
    }
  }

  lemma ScansStayLogged(db: Db, log: seq<Item>, db': Db, log': seq<Item>, es: seq<L.Event>, i: nat)
    requires es != [] && NamedAreLogged(db, log, es[..|es| - 1]) && Extends(db, log, db', log', es[|es| - 1])
    requires i < |es| && es[i].ScanResult? && es[i].name.Some?
    ensures exists j :: 0 <= j < |log'| && Logs(db', log'[j], es[i])
  {
    var n := |es| - 1;
    if i < n {
      assert es[..n][i] == es[i];
      var j :| 0 <= j < |log| && Logs(db, log[j], es[..n][i]);
      LogsStays(db, db', log[j], es[i]);
      assert log'[j] == log[j];
    } else {
      assert Logs(db', log'[|log|], es[i]);
    }
  }

  lemma LogStaysMatched(db: Db, log: seq<Item>, db': Db, log': seq<Item>, es: seq<L.Event>)
    requires es != [] && LogMatches(db, log, es[..|es| - 1]) && Extends(db, log, db', log', es[|es| - 1])
    ensures LogMatches(db', log', es)
  {
    forall j | 0 <= j < |log'| ensures exists i :: 0 <= i < |es| && Logs(db', log'[j], es[i]) {
      ItemsStayScans(db, log, db', log', es, j);
    }
    forall i | 0 <= i < |es| && es[i].ScanResult? && es[i].name.Some?
      ensures exists j :: 0 <= j < |log'| && Logs(db', log'[j], es[i])
    {
      ScansStayLogged(db, log, db', log', es, i);
    }
  }

  lemma ReplayStep(db: Db, log: seq<Item>, es: seq<L.Event>)
    requires es != [] && L.OnlyMessages(es) && Increasing(es)
    requires Inv(db, log) && LogMatches(db, log, es[..|es| - 1])
    requires es[|es| - 1].ScanResult? && es[|es| - 1].name.Some? ==> ScanStored(db, es[|es| - 1])
    ensures var e := es[|es| - 1];
            Inv(L.Next(db, e), Logged(db, log, e)) && LogMatches(L.Next(db, e), Logged(db, log, e), es)
  {
    var e := es[|es| - 1];
    if ScanStored(db, e) {
      TargetIsLater(db, log, es);
    }
    MessageKeepsInv(db, log, e);
    L.EventKeepsIdentity(db, e);
    if ScanStored(db, e) {
      NewItemLogs(db, log, e);
    }
    LogStaysMatched(db, log, L.Next(db, e), Logged(db, log, e), es);
  }

  /** No scan of a named container is rejected, and the invariant holds throughout. */
  lemma {:induction false} ReplayKeepsInv(es: seq<L.Event>)
    requires L.OnlyMessages(es) && Increasing(es)
    ensures Inv(Replay(es).0, Replay(es).1) && LogMatches(Replay(es).0, Replay(es).1, es)
  {
    if es == [] {
      L.StartIsFine();
    } else {
      var front, e := es[..|es| - 1], es[|es| - 1];
      ReplayKeepsInv(front);
      if e.ScanResult? && e.name.Some? {
        NamedScanIsStored(front, e);
      }
      ReplayStep(Replay(front).0, Replay(front).1, es);
    }
  }

  // ── Reading the past back ──────────────────────────────────────────────────

  /** The condition of the trend loop at an instant. */
  predicate Shown(f: Finding, t: int) {
    f.firstSeen <= t && (f.status.Active? || f.lastSeen >= t)
  }

  predicate ShownAt(db: Db, i: nat, c: nat, k: Key, t: int)
    requires i < |db.findings|
  {
    && OnContainer(db.scans, db.findings[i], c) && (db.findings[i].cve, db.findings[i].pkg) == k
    && Shown(db.findings[i], t)
  }

  /** Scan `j` is the latest of its container before instant `t`, which is itself no scan time of it. */
  ghost predicate LatestBefore(log: seq<Item>, j: nat, t: int) {
    && j < |log| && log[j].at < t
    && forall m :: j < m < |log| && log[m].container == log[j].container ==> t < log[m].at
  }

  lemma ShownMeansInEffect(db: Db, log: seq<Item>, j: nat, i: nat, t: int)
    requires EndsAreLogged(db, log) && LogSorted(log) && LatestBefore(log, j, t) && i < |db.findings|
    requires OnContainer(db.scans, db.findings[i], log[j].container)
    ensures Shown(db.findings[i], t) <==> InEffect(db.findings[i], log[j].at)
  {
    var f, c := db.findings[i], log[j].container;
    var m :| 0 <= m < |log| && log[m].container == c && log[m].at == f.firstSeen;
    assert m <= j || t < log[m].at;
    if f.status.Fixed? {
      var n :| 0 <= n < |log| && log[n].container == c && log[n].at == f.lastSeen;
      assert n <= j || t < log[n].at;
    }
  }

  /**
   * After any run of scan and misconfiguration messages, at every instant strictly between two scans
   * of a container, or after its last, the rows the interval condition selects there are exactly the
   * keys of the latest earlier scan, one row per key.
   */
  lemma IntervalsEncodeHistory(es: seq<L.Event>, j: nat, t: int)
    requires L.OnlyMessages(es) && Increasing(es) && LatestBefore(Replay(es).1, j, t)
    ensures var (db, log) := Replay(es);
            var c := log[j].container;
            && LogMatches(db, log, es)
            && (forall k :: k in log[j].keys <==> exists i: nat :: i < |db.findings| && ShownAt(db, i, c, k, t))
            && (forall i: nat, m: nat, k :: i < m < |db.findings| ==>
                  !(ShownAt(db, i, c, k, t) && ShownAt(db, m, c, k, t)))
  {
    ReplayKeepsInv(es);
    var (db, log) := Replay(es);
    var c := log[j].container;
    forall i: nat, k | i < |db.findings|
      ensures ShownAt(db, i, c, k, t) <==> Remembers(db, i, c, k, log[j].at)
    {
      if OnContainer(db.scans, db.findings[i], c) {
        ShownMeansInEffect(db, log, j, i, t);
      }
    }
    assert Pictures(db, c, log[j].at, log[j].keys);
    forall k ensures k in log[j].keys <==> exists i: nat :: i < |db.findings| && ShownAt(db, i, c, k, t) {
      if k in log[j].keys {
        var i: nat :| i < |db.findings| && Remembers(db, i, c, k, log[j].at);
        assert ShownAt(db, i, c, k, t);
      }
    }
  }

  // ── By day ─────────────────────────────────────────────────────────────────

  /** The row as the trend query selects it. */
  function TrendRow(db: Db, i: nat): T.Row
    requires i < |db.findings| && db.findings[i].scan < |db.scans|
  {
    var f := db.findings[i];
    T.Row(db.scans[f.scan].agent, f.severity, f.status, f.firstSeen, f.lastSeen)
  }

  predicate CountedOn(db: Db, i: nat, c: nat, k: Key, day: int)
    requires i < |db.findings|
  {
    && OnContainer(db.scans, db.findings[i], c) && (db.findings[i].cve, db.findings[i].pkg) == k
    && T.Counted(TrendRow(db, i), day)
  }

  /** Scan `j` was made on `day`, or was the container's latest when that day began. */
  ghost predicate Governs(log: seq<Item>, j: nat, day: int) {
    && j < |log| && T.Day(log[j].at) <= day
    && (T.Day(log[j].at) == day
        || forall m :: j < m < |log| && log[m].container == log[j].container ==> T.Day(log[m].at) >= day)
  }

  lemma {:induction false} LastScanBefore(log: seq<Item>, c: nat, m: nat, day: int) returns (p: nat)
    requires LogSorted(log) && m < |log| && log[m].container == c && T.Day(log[m].at) < day
    ensures m <= p < |log| && log[p].container == c && T.Day(log[p].at) < day && Governs(log, p, day)
    decreases |log| - m
  {
    if n: nat :| m < n < |log| && log[n].container == c && T.Day(log[n].at) < day {
      p := LastScanBefore(log, c, n, day);
    } else {
      p := m;
    }
  }

  lemma CountedWasListed(db: Db, log: seq<Item>, i: nat, c: nat, k: Key, day: int) returns (j: nat)
    requires EndsAreLogged(db, log) && LogSorted(log) && AllPictures(db, log)
    requires i < |db.findings| && CountedOn(db, i, c, k, day)
    ensures Governs(log, j, day) && log[j].container == c && k in log[j].keys
  {
    var f := db.findings[i];
    j :| j < |log| && log[j].container == c && log[j].at == f.firstSeen;
    if T.Day(log[j].at) < day {
      j := LastScanBefore(log, c, j, day);
    }
    assert Remembers(db, i, c, k, log[j].at);
    assert Pictures(db, c, log[j].at, log[j].keys);
  }

  lemma DayMonotone(s: int, t: int)
    requires s <= t
    ensures T.Day(s) <= T.Day(t)
  {
  }

  lemma ListedIsCounted(db: Db, log: seq<Item>, j: nat, k: Key, day: int) returns (i: nat)
    requires EndsAreLogged(db, log) && LogSorted(log) && Governs(log, j, day) && k in log[j].keys
    requires Pictures(db, log[j].container, log[j].at, log[j].keys)
    ensures i < |db.findings| && CountedOn(db, i, log[j].container, k, day)
  {
    var c := log[j].container;
    assert Pictures(db, c, log[j].at, log[j].keys);
    i :| i < |db.findings| && Remembers(db, i, c, k, log[j].at);
    var f := db.findings[i];
    DayMonotone(f.firstSeen, log[j].at);
    if f.status.Fixed? {
      var n :| 0 <= n < |log| && log[n].container == c && log[n].at == f.lastSeen;
      assert n > j;
      DayMonotone(log[j].at, f.lastSeen);
    }
  }

  /**
   * After any run of scan and misconfiguration messages, the keys the trend counts on a day for a
   * container are exactly those listed by a scan of that day or by the scan in force when it began.
   */
  lemma TrendCountsHistory(es: seq<L.Event>, c: nat, k: Key, day: int)
    requires L.OnlyMessages(es) && Increasing(es)
    ensures var (db, log) := Replay(es);
            (exists i: nat :: i < |db.findings| && CountedOn(db, i, c, k, day)) <==>
            (exists j: nat :: Governs(log, j, day) && log[j].container == c && k in log[j].keys)
  {
    ReplayKeepsInv(es);
    var (db, log) := Replay(es);
    if i: nat :| i < |db.findings| && CountedOn(db, i, c, k, day) {
      var _ := CountedWasListed(db, log, i, c, k, day);
    }
    if j: nat :| Governs(log, j, day) && log[j].container == c && k in log[j].keys {
      var _ := ListedIsCounted(db, log, j, k, day);
    }
  }
}
