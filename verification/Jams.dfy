/** How long a container stays jammed, once some key has two ACTIVE rows or the container itself two rows. */
module Jams {
  import opened Common
  import opened Store
  import opened Lifecycle
  import M = Misconfigs

  // ── Two ACTIVE rows of a key ───────────────────────────────────────────────

  /** No key has two ACTIVE rows on container `c`. */
  ghost predicate Unambiguous(db: Db, c: nat) {
    forall k :: AtMostOneActive(db.findings, db.scans, c, k)
  }

  /** The same keys have two ACTIVE rows on `c`. */
  ghost predicate SameTwins(db: Db, db': Db, c: nat) {
    forall k :: AtMostOneActive(db'.findings, db'.scans, c, k) <==> AtMostOneActive(db.findings, db.scans, c, k)
  }

  /** A scan of container `c` that lists none of its keys with two ACTIVE rows. */
  ghost predicate Clears(db: Db, e: Event, c: nat) {
    && e.ScanResult? && FindContainer(db, e.agent, e.report, e.name) == OneRow(c)
    && forall k :: k in KeysOf(Flatten(e.report.blocks)) ==> AtMostOneActive(db.findings, db.scans, c, k)
  }

  /** Some scan of the run clears the container. */
  ghost predicate ClearedIn(db: Db, es: seq<Event>, c: nat)
    decreases |es|
  {
    es != [] && (Clears(db, es[0], c) || ClearedIn(Next(db, es[0]), es[1..], c))
  }

  lemma UpsertKeepsTwins(mid: seq<Finding>, scans: seq<Scan>, c: nat, scan: nat, now: int, v: Vuln, d: nat, k: Key)
    requires scan < |scans| && scans[scan].container == c
    ensures AtMostOneActive(Upsert(mid, scans, c, scan, now, v).rows, scans, d, k)
            <==> AtMostOneActive(mid, scans, d, k)
  {
    var found := ScalarOneOrNone(mid, Matching(scans, c, KeyOf(v)));
    var r := Upsert(mid, scans, c, scan, now, v).rows;
    if found.OneRow? {
      assert Matches(scans, c, KeyOf(v), mid[found.row]);
      assert forall i :: 0 <= i < |mid| ==> (Matches(scans, d, k, r[i]) <==> Matches(scans, d, k, mid[i]));
    } else if found.NoRow? {
      assert forall i :: 0 <= i < |mid| ==> r[i] == mid[i];
      if d == c && k == KeyOf(v) {
        assert forall i :: 0 <= i < |mid| ==> !Matches(scans, c, k, mid[i]);
      } else {
        assert !Matches(scans, d, k, r[|mid|]);
      }
    }
  }

  /** Stopped or not, the upserts neither make nor mend a pair of ACTIVE rows. */
  lemma {:induction false} IngestKeepsTwins(fs: seq<Finding>, scans: seq<Scan>, c: nat, scan: nat, now: int,
                                            vs: seq<Vuln>, d: nat, k: Key)
    requires scan < |scans| && scans[scan].container == c
    ensures AtMostOneActive(Ingest(fs, scans, c, scan, now, vs).rows, scans, d, k) <==> AtMostOneActive(fs, scans, d, k)
    decreases |vs|
  {
    if vs != [] {
      var front := vs[..|vs| - 1];
      IngestKeepsTwins(fs, scans, c, scan, now, front, d, k);
      var mid := Ingest(fs, scans, c, scan, now, front);
      if mid.Done? {
        UpsertKeepsTwins(mid.rows, scans, c, scan, now, vs[|vs| - 1], d, k);
      }
    }
  }

  lemma RejectedKeepsTwins(db: Db, e: Event, c: nat)
    requires NoDangling(db) && e.ScanResult? && ProcessScan(db, e.agent, e.report, e.name, e.now).Rejected?
    ensures SameTwins(db, Next(db, e), c)
  {
    var target, vs := ScanTarget(db, e.agent, e.report, e.name), Flatten(e.report.blocks);
    var scans := db.scans + [Scan(target, e.agent, e.now, Tally(vs))];
    if !FindContainer(db, e.agent, e.report, e.name).ManyRows? && e.flushed {
      forall k ensures AtMostOneActive(Next(db, e).findings, Next(db, e).scans, c, k)
                       <==> AtMostOneActive(db.findings, db.scans, c, k) {
        SameActiveKeys(db, scans, c, k);
        IngestKeepsTwins(db.findings, scans, target, |db.scans|, e.now, vs, c, k);
      }
    }
  }

  lemma ScanElsewhereKeepsTwins(db: Db, db': Db, target: nat, now: int, keys: set<Key>, c: nat)
    requires Scanned(db, db', target, now, keys) && c != target
    ensures SameTwins(db, db', c)
  {
    forall k ensures AtMostOneActive(db'.findings, db'.scans, c, k) <==> AtMostOneActive(db.findings, db.scans, c, k) {
      forall i: nat | i < |db'.findings|
        ensures Matches(db'.scans, c, k, db'.findings[i])
                <==> i < |db.findings| && Matches(db.scans, c, k, db.findings[i])
      {
        if i < |db.findings| {
          RowKeepsContainer(db, db', target, now, keys, i, c);
        }
      }
    }
  }

  /** A scan of the container is stored exactly when it clears it. */
  lemma StoredIffClears(db: Db, e: Event, c: nat)
    requires NoDangling(db) && e.ScanResult? && FindContainer(db, e.agent, e.report, e.name) == OneRow(c)
    ensures ProcessScan(db, e.agent, e.report, e.name, e.now).Stored? <==> Clears(db, e, c)
  {
    ScanReconciles(db, e.agent, e.report, e.name, e.now);
  }

  lemma ReconciledIsUnambiguous(db: Db, db': Db, c: nat, now: int, keys: set<Key>)
    requires Reconciled(db, db', c, now, keys)
    ensures Unambiguous(db', c)
  {
  }

  lemma ClearingMends(db: Db, e: Event, c: nat)
    requires NoDangling(db) && Clears(db, e, c)
    ensures Unambiguous(Next(db, e), c)
  {
    StoredIffClears(db, e, c);
    StoredIsScanned(db, e.agent, e.report, e.name, e.now);
    ReconciledIsUnambiguous(db, Next(db, e), c, e.now, KeysOf(Flatten(e.report.blocks)));
  }

  /** A scan of another container, or a rejected one, changes nothing about the keys of `c`. */
  lemma OtherScanKeepsTwins(db: Db, e: Event, c: nat)
    requires NoDangling(db) && e.ScanResult? && c < |db.containers| && !Clears(db, e, c)
    ensures SameTwins(db, Next(db, e), c)
  {
    if ProcessScan(db, e.agent, e.report, e.name, e.now).Rejected? {
      RejectedKeepsTwins(db, e, c);
    } else {
      var target := ScanTarget(db, e.agent, e.report, e.name);
      if target == c {
        StoredIffClears(db, e, c);
        assert false;
      }
      StoredIsScanned(db, e.agent, e.report, e.name, e.now);
      ScanElsewhereKeepsTwins(db, Next(db, e), target, e.now, KeysOf(Flatten(e.report.blocks)), c);
    }
  }

  lemma MisconfigLeavesFindings(db: Db, e: Event)
    requires e.MisconfigResult?
    ensures Next(db, e).findings == db.findings && Next(db, e).scans == db.scans
  {
  }

  lemma MessageStep(db: Db, e: Event, c: nat)
    requires Inv(db) && c < |db.containers| && (e.ScanResult? || e.MisconfigResult?)
    ensures Inv(Next(db, e)) && c < |Next(db, e).containers|
    ensures Clears(db, e, c) ==> Unambiguous(Next(db, e), c)
    ensures !Clears(db, e, c) ==> SameTwins(db, Next(db, e), c)
  {
    Step(db, e);
    EventKeepsIdentity(db, e);
    if e.ScanResult? {
      if Clears(db, e, c) {
        ClearingMends(db, e, c);
      } else {
        OtherScanKeepsTwins(db, e, c);
      }
    } else {
      MisconfigLeavesFindings(db, e);
    }
  }

  /**
   * Over any run of messages: until a scan of the container lists none of its ambiguous keys, these
   * stay exactly as they are; the first that lists none mends them all, and they stay mended. So the
   * container ends unambiguous if and only if it began so or such a scan has come.
   */
  lemma {:induction false} JamLastsUntilCleared(db: Db, es: seq<Event>, c: nat)
    requires Inv(db) && OnlyMessages(es) && c < |db.containers|
    ensures Unambiguous(Run(db, es), c) <==> Unambiguous(db, c) || ClearedIn(db, es, c)
    ensures !ClearedIn(db, es, c) ==> SameTwins(db, Run(db, es), c)
    decreases |es|
  {
    if es != [] {
      MessageStep(db, es[0], c);
      JamLastsUntilCleared(Next(db, es[0]), es[1..], c);
    }
  }

  /** Meanwhile a scan of the container is stored exactly when it clears it. */
  lemma JammedScanStoredIff(db: Db, es: seq<Event>, e: Event, c: nat)
    requires Inv(db) && OnlyMessages(es) && c < |db.containers| && e.ScanResult?
    requires FindContainer(Run(db, es), e.agent, e.report, e.name) == OneRow(c)
    ensures ProcessScan(Run(db, es), e.agent, e.report, e.name, e.now).Stored? <==> Clears(Run(db, es), e, c)
    ensures !ClearedIn(db, es, c) ==>
      (ProcessScan(Run(db, es), e.agent, e.report, e.name, e.now).Stored? <==>
        forall k :: k in KeysOf(Flatten(e.report.blocks)) ==> AtMostOneActive(db.findings, db.scans, c, k))
  {
    MessagesKeepInv(db, es, c);
    JamLastsUntilCleared(db, es, c);
    StoredIffClears(Run(db, es), e, c);
  }

  lemma {:induction false} MessagesKeepInv(db: Db, es: seq<Event>, c: nat)
    requires Inv(db) && OnlyMessages(es) && c < |db.containers|
    ensures Inv(Run(db, es)) && c < |Run(db, es).containers|
    decreases |es|
  {
    if es != [] {
      MessageStep(db, es[0], c);
      MessagesKeepInv(Next(db, es[0]), es[1..], c);
    }
  }

  // ── Two rows of a container ────────────────────────────────────────────────

  ghost predicate TwoRows(db: Db, agent: string, name: Option<string>, image: string) {
    exists i, j :: && 0 <= i < j < |db.containers|
                   && SameContainer(agent, name, image)(db.containers[i])
                   && SameContainer(agent, name, image)(db.containers[j])
  }

  lemma {:induction false} TwoRowsStay(db: Db, es: seq<Event>, agent: string, name: Option<string>, image: string)
    requires TwoRows(db, agent, name, image)
    ensures TwoRows(Run(db, es), agent, name, image)
    decreases |es|
  {
    if es != [] {
      EventKeepsIdentity(db, es[0]);
      TwoRowsStay(Next(db, es[0]), es[1..], agent, name, image);
    }
  }

  /** Nothing the hub does ends this: whatever comes, every scan of the container is rejected and changes nothing. */
  lemma TwoRowsReject(db: Db, es: seq<Event>, agent: string, report: Report, name: Option<string>, now: int)
    requires TwoRows(db, agent, name, SplitTag(Or(report.artifact, "unknown")).0)
    ensures ProcessScan(Run(db, es), agent, report, name, now) == Rejected(Run(db, es))
  {
    TwoRowsStay(db, es, agent, name, SplitTag(Or(report.artifact, "unknown")).0);
    assert FindContainer(Run(db, es), agent, report, name).ManyRows?;
  }

  /**
   * After any stored scan of an unnamed container, a misconfiguration message of it under another tag
   * adds a second row, and from then on, whatever events follow, every scan of the container is rejected.
   */
  lemma UnnamedTagChangeJams(db: Db, agent: string, report: Report, now: int, r: M.Result, later: int,
                             es: seq<Event>, again: Report, last: int)
    requires NoDangling(db) && ProcessScan(db, agent, report, None, now).Stored? && M.OtherTag(report, None, r)
    requires SplitTag(Or(again.artifact, "unknown")).0 == SplitTag(Or(report.artifact, "unknown")).0
    ensures var out := M.ProcessMisconfig(ProcessScan(db, agent, report, None, now).db, agent, r, later);
      out.Stored? && ProcessScan(Run(out.db, es), agent, again, None, last) == Rejected(Run(out.db, es))
  {
    M.UnnamedTagChangeSplits(db, agent, report, now, r, later);
    TwoRowsReject(M.ProcessMisconfig(ProcessScan(db, agent, report, None, now).db, agent, r, later).db, es,
                  agent, again, None, last);
  }
}
