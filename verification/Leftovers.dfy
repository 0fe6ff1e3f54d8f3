/**
 * What a rejected message leaves in the uncommitted session: its container and, up to the first
 * ambiguous entry, what a stored message would have written. The closing connection may commit it.
 */
module Leftovers {
  import opened Common
  import opened Store
  import opened L = Lifecycle
  import H = HubStorage
  import M = Misconfigs

  /** Entry `n` is the first whose key has several ACTIVE rows on the container. */
  ghost predicate FirstAmbiguous(db: Db, c: nat, vs: seq<Vuln>, n: nat) {
    && n < |vs| && !AtMostOneActive(db.findings, db.scans, c, KeyOf(vs[n]))
    && forall j :: 0 <= j < n ==> AtMostOneActive(db.findings, db.scans, c, KeyOf(vs[j]))
  }

  lemma FindAmbiguous(db: Db, c: nat, vs: seq<Vuln>, m: nat) returns (n: nat)
    requires m < |vs| && !AtMostOneActive(db.findings, db.scans, c, KeyOf(vs[m]))
    ensures FirstAmbiguous(db, c, vs, n)
    decreases m
  {
    if j: nat :| j < m && !AtMostOneActive(db.findings, db.scans, c, KeyOf(vs[j])) {
      n := FindAmbiguous(db, c, vs, j);
    } else {
      n := m;
    }
  }

  lemma KeysBeforeAreClear(db: Db, scans: seq<Scan>, c: nat, vs: seq<Vuln>, n: nat)
    requires db.scans <= scans && forall i :: 0 <= i < |db.findings| ==> db.findings[i].scan < |db.scans|
    requires FirstAmbiguous(db, c, vs, n)
    ensures forall k :: k in KeysOf(vs[..n]) ==> AtMostOneActive(db.findings, scans, c, k)
    ensures !AtMostOneActive(db.findings, scans, c, KeyOf(vs[n]))
  {
    forall k | k in KeysOf(vs[..n]) ensures AtMostOneActive(db.findings, scans, c, k) {
      var j :| 0 <= j < n && KeyOf(vs[j]) == k;
      SameActiveKeys(db, scans, c, k);
    }
    SameActiveKeys(db, scans, c, KeyOf(vs[n]));
  }

  lemma IngestStopsNext(fs: seq<Finding>, scans: seq<Scan>, c: nat, scan: nat, now: int, vs: seq<Vuln>, n: nat)
    requires scan < |scans| && scans[scan].container == c && n < |vs|
    requires forall k :: k in KeysOf(vs[..n]) ==> AtMostOneActive(fs, scans, c, k)
    requires !AtMostOneActive(fs, scans, c, KeyOf(vs[n]))
    ensures Ingest(fs, scans, c, scan, now, vs) == Stuck(Ingest(fs, scans, c, scan, now, vs[..n]).rows)
  {
    var front := Ingest(fs, scans, c, scan, now, vs[..n]);
    IngestUpserts(fs, scans, c, scan, now, vs[..n]);
    OtherKeysKeepMatches(fs, front.rows, scans, c, now, KeysOf(vs[..n]), KeyOf(vs[n]));
    AmbiguousStops(front.rows, scans, c, scan, now, vs[n]);
    assert vs[..n + 1][..n] == vs[..n] && vs[..n + 1][n] == vs[n];
    H.IngestStopsAt(fs, scans, c, scan, now, vs, n + 1);
  }

  /** The upserts stop at the first ambiguous entry, with the entries before it written. */
  lemma IngestStopsAtFirst(db: Db, scans: seq<Scan>, c: nat, now: int, vs: seq<Vuln>, n: nat)
    requires forall i :: 0 <= i < |db.findings| ==> db.findings[i].scan < |db.scans|
    requires db.scans <= scans && |db.scans| < |scans| && scans[|db.scans|].container == c
    requires FirstAmbiguous(db, c, vs, n)
    ensures var r := Ingest(db.findings, scans, c, |db.scans|, now, vs);
      r.Stuck? && RowsExact(db.findings, r.rows, scans, c, |db.scans|, now, vs[..n])
  {
    KeysBeforeAreClear(db, scans, c, vs, n);
    IngestIsExact(db.findings, scans, c, |db.scans|, now, vs[..n]);
    IngestStopsNext(db.findings, scans, c, |db.scans|, now, vs, n);
  }

  /**
   * A rejected scan leaves nothing when its container is ambiguous. Otherwise it leaves the container
   * row, the scan row with all its counts, and the rows of the entries before the first ambiguous one.
   */
  ghost predicate ScanLeaves(db: Db, left: Db, e: Event)
    requires e.ScanResult?
  {
    var found, vs := FindContainer(db, e.agent, e.report, e.name), Flatten(e.report.blocks);
    if found.ManyRows? then left == db
    else
      var c := TargetOf(db, found);
      && left.containers == WithContainer(db, found, e.agent, e.report, e.name, e.now)
      && left.scans == db.scans + [Scan(c, e.agent, e.now, Tally(vs))]
      && (exists n: nat :: FirstAmbiguous(db, c, vs, n)
                      && RowsExact(db.findings, left.findings, left.scans, c, |db.scans|, e.now, vs[..n]))
      && left.misconfigs == db.misconfigs && left.acceptances == db.acceptances
  }

  /** A rejected scan is committed as far as it got if the closing connection commits, and else not at all. */
  lemma RejectedScanLeaves(db: Db, e: Event)
    requires NoDangling(db) && e.ScanResult? && ProcessScan(db, e.agent, e.report, e.name, e.now).Rejected?
    ensures if e.flushed then ScanLeaves(db, Next(db, e), e) else Next(db, e) == db
  {
    var found, vs := FindContainer(db, e.agent, e.report, e.name), Flatten(e.report.blocks);
    if !found.ManyRows? && e.flushed {
      var c := TargetOf(db, found);
      var scans := db.scans + [Scan(c, e.agent, e.now, Tally(vs))];
      ScanReconciles(db, e.agent, e.report, e.name, e.now);
      var k :| k in KeysOf(vs) && !AtMostOneActive(db.findings, db.scans, c, k);
      var m :| 0 <= m < |vs| && KeyOf(vs[m]) == k;
      var n := FindAmbiguous(db, c, vs, m);
      IngestStopsAtFirst(db, scans, c, e.now, vs, n);
    }
  }

  // ── Misconfigurations ──────────────────────────────────────────────────────

  ghost predicate FirstAmbiguousCheck(db: Db, c: nat, xs: seq<M.Item>, n: nat) {
    && n < |xs| && !M.AtMostOneLive(db.misconfigs, c, M.CheckOf(xs[n]))
    && forall j :: 0 <= j < n ==> M.AtMostOneLive(db.misconfigs, c, M.CheckOf(xs[j]))
  }

  lemma FindAmbiguousCheck(db: Db, c: nat, xs: seq<M.Item>, m: nat) returns (n: nat)
    requires m < |xs| && !M.AtMostOneLive(db.misconfigs, c, M.CheckOf(xs[m]))
    ensures FirstAmbiguousCheck(db, c, xs, n)
    decreases m
  {
    if j: nat :| j < m && !M.AtMostOneLive(db.misconfigs, c, M.CheckOf(xs[j])) {
      n := FindAmbiguousCheck(db, c, xs, j);
    } else {
      n := m;
    }
  }

  lemma ChecksBeforeAreClear(db: Db, c: nat, xs: seq<M.Item>, n: nat)
    requires FirstAmbiguousCheck(db, c, xs, n)
    ensures forall k :: k in M.ChecksOf(xs[..n]) ==> M.AtMostOneLive(db.misconfigs, c, k)
  {
    forall k | k in M.ChecksOf(xs[..n]) ensures M.AtMostOneLive(db.misconfigs, c, k) {
      var j :| 0 <= j < n && M.CheckOf(xs[j]) == k;
    }
  }

  lemma ChecksStopNext(ms: seq<Misconfig>, c: nat, now: int, xs: seq<M.Item>, n: nat)
    requires n < |xs| && forall k :: k in M.ChecksOf(xs[..n]) ==> M.AtMostOneLive(ms, c, k)
    requires !M.AtMostOneLive(ms, c, M.CheckOf(xs[n]))
    ensures M.Ingest(ms, c, now, xs) == Stuck(M.Ingest(ms, c, now, xs[..n]).rows)
  {
    var front := M.Ingest(ms, c, now, xs[..n]);
    M.IngestUpserts(ms, c, now, xs[..n]);
    M.OtherChecksKeepMatches(ms, front.rows, c, now, M.ChecksOf(xs[..n]), M.CheckOf(xs[n]));
    M.AmbiguousStops(front.rows, c, now, xs[n]);
    assert xs[..n + 1][..n] == xs[..n] && xs[..n + 1][n] == xs[n];
    H.MisconfigsStopAt(ms, c, now, xs, n + 1);
  }

  lemma ChecksStopAtFirst(db: Db, c: nat, now: int, xs: seq<M.Item>, n: nat)
    requires FirstAmbiguousCheck(db, c, xs, n)
    ensures var r := M.Ingest(db.misconfigs, c, now, xs);
      && r.Stuck? && M.Upserted(db.misconfigs, r.rows, c, now, M.ChecksOf(xs[..n]))
      && M.NewRowsListed(db.misconfigs, r.rows, c, now, xs[..n])
  {
    ChecksBeforeAreClear(db, c, xs, n);
    M.IngestUpserts(db.misconfigs, c, now, xs[..n]);
    M.IngestInsertsFirst(db.misconfigs, c, now, xs[..n]);
    ChecksStopNext(db.misconfigs, c, now, xs, n);
  }

  /**
   * A refused container leaves nothing. Otherwise a rejected message leaves its container row and the
   * rows of the entries before the first ambiguous check.
   */
  ghost predicate ResultLeaves(db: Db, left: Db, e: Event)
    requires e.MisconfigResult?
  {
    if M.ContainerRefused(db, e.agent, e.result) then left == db
    else
      var c := M.Target(db, e.agent, e.result);
      var (image, tag) := SplitTag(Or(e.result.image, "unknown"));
      && left.containers == (if c < |db.containers| then db.containers
                             else db.containers + [Container(e.agent, image, tag, e.result.name, None, None)])
      && (exists n: nat :: && FirstAmbiguousCheck(db, c, e.result.items, n)
                      && M.Upserted(db.misconfigs, left.misconfigs, c, e.now, M.ChecksOf(e.result.items[..n]))
                      && M.NewRowsListed(db.misconfigs, left.misconfigs, c, e.now, e.result.items[..n]))
      && left.scans == db.scans && left.findings == db.findings && left.acceptances == db.acceptances
  }

  lemma RejectedResultLeaves(db: Db, e: Event)
    requires e.MisconfigResult? && M.ProcessMisconfig(db, e.agent, e.result, e.now).Rejected?
    ensures if e.flushed then ResultLeaves(db, Next(db, e), e) else Next(db, e) == db
  {
    var xs := e.result.items;
    if !M.ContainerRefused(db, e.agent, e.result) && e.flushed {
      var c := M.Target(db, e.agent, e.result);
      M.MisconfigReconciles(db, e.agent, e.result, e.now);
      var k :| k in M.ChecksOf(xs) && !M.AtMostOneLive(db.misconfigs, c, k);
      var m :| 0 <= m < |xs| && M.CheckOf(xs[m]) == k;
      var n := FindAmbiguousCheck(db, c, xs, m);
      ChecksStopAtFirst(db, c, e.now, xs, n);
    }
  }
}
