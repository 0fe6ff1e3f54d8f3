/** What a stored message writes, column by column, in terms of the payload's own fields. */
module Columns {
  import opened Common
  import opened Store
  import M = Misconfigs

  // ── Scans ──────────────────────────────────────────────────────────────────

  /** The entry is about this vulnerability and package, a missing field standing for its default. */
  predicate About(v: Vuln, cve: string, pkg: string) {
    && (if v.id.Some? then v.id.value == cve else cve == "UNKNOWN")
    && (if v.pkg.Some? then v.pkg.value == pkg else pkg == "unknown")
  }

  ghost predicate Mentions(vs: seq<Vuln>, cve: string, pkg: string) {
    exists j :: 0 <= j < |vs| && About(vs[j], cve, pkg)
  }

  ghost predicate FirstAbout(vs: seq<Vuln>, j: nat, cve: string, pkg: string) {
    j < |vs| && About(vs[j], cve, pkg) && forall k :: 0 <= k < j ==> !About(vs[k], cve, pkg)
  }

  /** The entry describes this vulnerability and package. */
  predicate Describes(v: Vuln, cve: string, pkg: string) {
    About(v, cve, pkg) && v.description.Some? && v.description.value != ""
  }

  /** `d` is the last description the entries give, or `before` when they give none. */
  ghost predicate Described(vs: seq<Vuln>, cve: string, pkg: string, before: Option<string>, d: Option<string>) {
    || (exists j :: && 0 <= j < |vs| && Describes(vs[j], cve, pkg) && vs[j].description == d
                    && forall k :: j < k < |vs| ==> !Describes(vs[k], cve, pkg))
    || (d == before && forall j :: 0 <= j < |vs| ==> !Describes(vs[j], cve, pkg))
  }

  lemma MentionsIff(vs: seq<Vuln>, cve: string, pkg: string)
    ensures Mentions(vs, cve, pkg) <==> (cve, pkg) in KeysOf(vs)
  {
    if (cve, pkg) in KeysOf(vs) {
      var v :| v in vs && KeyOf(v) == (cve, pkg);
      var j :| 0 <= j < |vs| && vs[j] == v;
      assert About(vs[j], cve, pkg);
    } else {
      forall j | 0 <= j < |vs| ensures !About(vs[j], cve, pkg) {
        assert vs[j] in vs;
      }
    }
  }

  lemma {:induction false} DescribedIff(vs: seq<Vuln>, cve: string, pkg: string, before: Option<string>)
    ensures Described(vs, cve, pkg, before, LastDescription(vs, (cve, pkg), before))
  {
    if vs != [] {
      var n := |vs| - 1;
      DescribedIff(vs[..n], cve, pkg, before);
      if Describes(vs[n], cve, pkg) {
        assert vs[n].description == LastDescription(vs, (cve, pkg), before);
      } else if j :| && 0 <= j < n && Describes(vs[..n][j], cve, pkg)
                     && vs[..n][j].description == LastDescription(vs[..n], (cve, pkg), before)
                     && forall k :: j < k < n ==> !Describes(vs[..n][k], cve, pkg) {
        assert Describes(vs[j], cve, pkg);
        assert forall k :: j < k < n ==> vs[k] == vs[..n][k];
      } else {
        assert forall k :: 0 <= k < n ==> vs[k] == vs[..n][k];
      }
    }
  }

  /** A row the scan adds holds the columns of the first entry about it, and the last description given. */
  ghost predicate RowAdded(vs: seq<Vuln>, scan: nat, now: int, f: Finding) {
    && f.scan == scan && f.status == Active && f.firstSeen == now && f.lastSeen == now
    && Described(vs, f.cve, f.pkg, None, f.description)
    && exists j: nat :: && FirstAbout(vs, j, f.cve, f.pkg)
                        && f.installed == (if vs[j].installed.Some? then vs[j].installed.value else "unknown")
                        && f.fixedVersion == vs[j].fixedVersion && Rated(vs[j].severity, Unknown, f.severity)
  }

  /** An ACTIVE row of the container afterwards: refreshed when the scan mentions it, FIXED otherwise. */
  ghost predicate RowRevisited(vs: seq<Vuln>, scan: nat, now: int, f: Finding, f': Finding) {
    && f'.cve == f.cve && f'.pkg == f.pkg && f'.installed == f.installed && f'.fixedVersion == f.fixedVersion
    && f'.severity == f.severity && f'.firstSeen == f.firstSeen && f'.lastSeen == now
    && if Mentions(vs, f.cve, f.pkg)
       then f'.status == Active && f'.scan == scan && Described(vs, f.cve, f.pkg, f.description, f'.description)
       else f'.status == Fixed && f'.scan == f.scan && f'.description == f.description
  }

  /** Row `f` is ACTIVE and belongs to container `c`. */
  ghost predicate Open(db: Db, f: Finding, c: nat) {
    f.status == Active && f.scan < |db.scans| && db.scans[f.scan].container == c
  }

  lemma AddedColumns(vs: seq<Vuln>, scan: nat, now: int, k: Key)
    requires k in KeysOf(vs)
    ensures RowAdded(vs, scan, now, ListedRow(vs, k, scan, now))
  {
    var f := ListedRow(vs, k, scan, now);
    DescribedIff(vs, k.0, k.1, None);
    var j: nat :| j < |vs| && vs[j] == FirstListed(vs, k) && forall i :: 0 <= i < j ==> KeyOf(vs[i]) != k;
    RatedIff(vs[j].severity, Unknown, f.severity);
    assert FirstAbout(vs, j, f.cve, f.pkg);
  }

  /** What a stored scan does to the finding table, row by row and column by column. */
  lemma ScanWritesColumns(db: Db, agent: string, report: Report, name: Option<string>, now: int)
    requires NoDangling(db) && ProcessScan(db, agent, report, name, now).Stored?
    ensures var c, vs := ScanTarget(db, agent, report, name), Flatten(report.blocks);
            var fs, fs' := db.findings, ProcessScan(db, agent, report, name, now).db.findings;
      && |fs| <= |fs'|
      && (forall i :: 0 <= i < |fs| ==>
            if Open(db, fs[i], c) then RowRevisited(vs, |db.scans|, now, fs[i], fs'[i]) else fs'[i] == fs[i])
      && (forall i :: |fs| <= i < |fs'| ==> RowAdded(vs, |db.scans|, now, fs'[i]))
  {
    var c, vs := ScanTarget(db, agent, report, name), Flatten(report.blocks);
    var fs, fs' := db.findings, ProcessScan(db, agent, report, name, now).db.findings;
    ScanDecidesRows(db, agent, report, name, now);
    forall i | 0 <= i < |fs| && Open(db, fs[i], c) ensures RowRevisited(vs, |db.scans|, now, fs[i], fs'[i]) {
      MentionsIff(vs, fs[i].cve, fs[i].pkg);
      DescribedIff(vs, fs[i].cve, fs[i].pkg, fs[i].description);
    }
    forall i | |fs| <= i < |fs'| ensures RowAdded(vs, |db.scans|, now, fs'[i]) {
      AddedColumns(vs, |db.scans|, now, (fs'[i].cve, fs'[i].pkg));
    }
  }

  /** A row is added for a vulnerability and package exactly when the scan mentions them and no ACTIVE row did. */
  lemma ScanAddsIff(db: Db, agent: string, report: Report, name: Option<string>, now: int, cve: string, pkg: string)
    requires NoDangling(db) && ProcessScan(db, agent, report, name, now).Stored?
    ensures var c, vs := ScanTarget(db, agent, report, name), Flatten(report.blocks);
            var fs, fs' := db.findings, ProcessScan(db, agent, report, name, now).db.findings;
      (exists i :: |fs| <= i < |fs'| && fs'[i].cve == cve && fs'[i].pkg == pkg) <==>
      Mentions(vs, cve, pkg) && !HasOpen(db, c, (cve, pkg))
  {
    var c, vs := ScanTarget(db, agent, report, name), Flatten(report.blocks);
    ScanReconciles(db, agent, report, name, now);
    MentionsIff(vs, cve, pkg);
    AddedIff(db, ProcessScan(db, agent, report, name, now).db, c, now, KeysOf(vs), (cve, pkg));
  }

  ghost predicate HasOpen(db: Db, c: nat, k: Key) {
    exists i :: && 0 <= i < |db.findings| && Open(db, db.findings[i], c)
                && db.findings[i].cve == k.0 && db.findings[i].pkg == k.1
  }

  lemma AddedIff(db: Db, db': Db, c: nat, now: int, keys: set<Key>, k: Key)
    requires NoDangling(db) && db.scans <= db'.scans && Reconciled(db, db', c, now, keys)
    ensures var fs, fs' := db.findings, db'.findings;
      (exists i :: |fs| <= i < |fs'| && fs'[i].cve == k.0 && fs'[i].pkg == k.1) <==> k in keys && !HasOpen(db, c, k)
  {
    var fs, fs' := db.findings, db'.findings;
    if i :| |fs| <= i < |fs'| && fs'[i].cve == k.0 && fs'[i].pkg == k.1 {
      AddedWasNotOpen(db, db', c, now, keys, k, i);
    }
    if k in keys && !HasOpen(db, c, k) {
      var i :| 0 <= i < |fs'| && Matches(db'.scans, c, k, fs'[i]);
      assert i >= |fs|;
    }
  }

  lemma AddedWasNotOpen(db: Db, db': Db, c: nat, now: int, keys: set<Key>, k: Key, i: int)
    requires NoDangling(db) && db.scans <= db'.scans && Reconciled(db, db', c, now, keys)
    requires |db.findings| <= i < |db'.findings| && (db'.findings[i].cve, db'.findings[i].pkg) == k
    ensures k in keys && !HasOpen(db, c, k)
  {
    var fs, fs' := db.findings, db'.findings;
    assert AtMostOneActive(fs', db'.scans, c, k) && Matches(db'.scans, c, k, fs'[i]);
    forall j | 0 <= j < |fs| && fs[j].cve == k.0 && fs[j].pkg == k.1 ensures !Open(db, fs[j], c) {
      assert Open(db, fs[j], c) ==> Matches(db'.scans, c, k, fs'[j]);
    }
  }

  /** The scanned container: the row with its agent, name and image, or a new one when there is none. */
  lemma ScanPicksContainer(db: Db, agent: string, report: Report, name: Option<string>, now: int)
    requires ProcessScan(db, agent, report, name, now).Stored?
    ensures var c, rows := ScanTarget(db, agent, report, name), ProcessScan(db, agent, report, name, now).db.containers;
            var (image, tag) := SplitTag(if report.artifact.Some? then report.artifact.value else "unknown");
      && (c < |db.containers| <==>
            exists i :: && 0 <= i < |db.containers| && db.containers[i].agent == agent
                        && db.containers[i].name == name && db.containers[i].image == image)
      && |rows| == (if c < |db.containers| then |db.containers| else |db.containers| + 1)
      && c < |rows| && (forall i :: 0 <= i < |db.containers| && i != c ==> rows[i] == db.containers[i])
      && rows[c].agent == agent && rows[c].name == name && rows[c].image == image && rows[c].tag == tag
      && rows[c].lastScanned == Some(now)
  {
    var image := SplitTag(Or(report.artifact, "unknown")).0;
    ScanRefreshesContainer(db, agent, report, name, now);
    if i :| && 0 <= i < |db.containers| && db.containers[i].agent == agent
            && db.containers[i].name == name && db.containers[i].image == image {
      assert SameContainer(agent, name, image)(db.containers[i]);
    }
  }

  // ── Misconfigurations ──────────────────────────────────────────────────────

  predicate HasCheck(x: M.Item, check: string) {
    if x.check.Some? then x.check.value == check else check == ""
  }

  ghost predicate ChecksFor(xs: seq<M.Item>, check: string) {
    exists j :: 0 <= j < |xs| && HasCheck(xs[j], check)
  }

  ghost predicate FirstWith(xs: seq<M.Item>, j: nat, check: string) {
    j < |xs| && HasCheck(xs[j], check) && forall k :: 0 <= k < j ==> !HasCheck(xs[k], check)
  }

  lemma ChecksForIff(xs: seq<M.Item>, check: string)
    ensures ChecksFor(xs, check) <==> check in M.ChecksOf(xs)
  {
    if check in M.ChecksOf(xs) {
      var x :| x in xs && M.CheckOf(x) == check;
      var j :| 0 <= j < |xs| && xs[j] == x;
      assert HasCheck(xs[j], check);
    } else {
      forall j | 0 <= j < |xs| ensures !HasCheck(xs[j], check) {
        assert xs[j] in xs;
      }
    }
  }

  /** A row the message adds holds the columns of the first entry for its check; the default severity is MEDIUM. */
  ghost predicate MisconfigAdded(xs: seq<M.Item>, c: nat, now: int, m: Misconfig) {
    && m.container == c && m.status == Active && m.firstSeen == now && m.lastSeen == now
    && exists j: nat :: && FirstWith(xs, j, m.check) && Rated(xs[j].severity, Medium, m.severity)
                        && m.title == (if xs[j].title.Some? then xs[j].title.value else "")
                        && m.guideline == (if xs[j].guideline.Some? then xs[j].guideline.value else "")
  }

  /** A row that is not FIXED, of the container the message is about. */
  predicate Standing(m: Misconfig, c: nat) {
    m.container == c && m.status != Fixed
  }

  /** Such a row afterwards: seen again when its check is reported, FIXED when it is not and the row was ACTIVE. */
  ghost predicate MisconfigRevisited(xs: seq<M.Item>, now: int, m: Misconfig, m': Misconfig) {
    if ChecksFor(xs, m.check) then m' == m.(lastSeen := now)
    else if m.status == Active then m' == m.(status := Fixed, lastSeen := now)
    else m' == m
  }

  lemma AddedMisconfigColumns(xs: seq<M.Item>, c: nat, now: int, check: string)
    requires check in M.ChecksOf(xs)
    ensures MisconfigAdded(xs, c, now, M.NewMisconfig(M.FirstListed(xs, check), c, now))
  {
    var x := M.FirstListed(xs, check);
    var j: nat :| j < |xs| && xs[j] == x && forall i :: 0 <= i < j ==> M.CheckOf(xs[i]) != check;
    RatedIff(x.severity, Medium, M.NewMisconfig(x, c, now).severity);
    assert FirstWith(xs, j, check);
  }

  /** What a stored misconfiguration message does to its table, row by row and column by column. */
  lemma MisconfigWritesColumns(db: Db, agent: string, r: M.Result, now: int)
    requires M.ProcessMisconfig(db, agent, r, now).Stored?
    ensures var c, ms := M.Target(db, agent, r), db.misconfigs;
            var ms' := M.ProcessMisconfig(db, agent, r, now).db.misconfigs;
      && |ms| <= |ms'|
      && (forall i :: 0 <= i < |ms| ==>
            if Standing(ms[i], c) then MisconfigRevisited(r.items, now, ms[i], ms'[i]) else ms'[i] == ms[i])
      && (forall i :: |ms| <= i < |ms'| ==> MisconfigAdded(r.items, c, now, ms'[i]))
  {
    var c, ms, ms' := M.Target(db, agent, r), db.misconfigs, M.ProcessMisconfig(db, agent, r, now).db.misconfigs;
    M.MisconfigReconciles(db, agent, r, now);
    M.MisconfigDecidesRows(db, agent, r, now);
    forall i | 0 <= i < |ms| && Standing(ms[i], c) ensures MisconfigRevisited(r.items, now, ms[i], ms'[i]) {
      ChecksForIff(r.items, ms[i].check);
    }
    forall i | |ms| <= i < |ms'| ensures MisconfigAdded(r.items, c, now, ms'[i]) {
      AddedMisconfigColumns(r.items, c, now, ms'[i].check);
    }
  }

  /** A row is added for a check exactly when the message reports it and no row of it there is still standing. */
  lemma MisconfigAddsIff(db: Db, agent: string, r: M.Result, now: int, check: string)
    requires M.ProcessMisconfig(db, agent, r, now).Stored?
    ensures var c, ms := M.Target(db, agent, r), db.misconfigs;
            var ms' := M.ProcessMisconfig(db, agent, r, now).db.misconfigs;
      (exists i :: |ms| <= i < |ms'| && ms'[i].check == check) <==>
      ChecksFor(r.items, check) && !exists i :: 0 <= i < |ms| && Standing(ms[i], c) && ms[i].check == check
  {
    var c, ms, ms' := M.Target(db, agent, r), db.misconfigs, M.ProcessMisconfig(db, agent, r, now).db.misconfigs;
    M.MisconfigReconciles(db, agent, r, now);
    ChecksForIff(r.items, check);
    MisconfigAddedIff(db, M.ProcessMisconfig(db, agent, r, now).db, c, now, M.ChecksOf(r.items), check);
  }

  lemma MisconfigAddedIff(db: Db, db': Db, c: nat, now: int, checks: set<string>, check: string)
    requires M.Reconciled(db, db', c, now, checks)
    ensures var ms, ms' := db.misconfigs, db'.misconfigs;
      (exists i :: |ms| <= i < |ms'| && ms'[i].check == check) <==>
      check in checks && !exists i :: 0 <= i < |ms| && Standing(ms[i], c) && ms[i].check == check
  {
    var ms, ms' := db.misconfigs, db'.misconfigs;
    if check in checks {
      assert M.AtMostOneLive(ms', c, check);
      var i :| 0 <= i < |ms'| && M.LiveMatch(ms'[i], c, check);
      forall j | 0 <= j < |ms| && Standing(ms[j], c) && ms[j].check == check ensures j == i {
        assert M.LiveMatch(ms'[j], c, check);
      }
      forall j | |ms| <= j < |ms'| && ms'[j].check == check ensures j == i {
        assert M.LiveMatch(ms'[j], c, check);
      }
    }
  }

  predicate HasColumns(r: Container, agent: string, image: string, tag: Option<string>, name: Option<string>) {
    r.agent == agent && r.image == image && r.tag == tag && r.name == name
  }

  /** Its container: the row with its agent, image, tag and name, or a new one that was never scanned. */
  lemma MisconfigPicksContainer(db: Db, agent: string, r: M.Result, now: int)
    requires M.ProcessMisconfig(db, agent, r, now).Stored?
    ensures var c, rows := M.Target(db, agent, r), M.ProcessMisconfig(db, agent, r, now).db.containers;
            var (image, tag) := SplitTag(if r.image.Some? then r.image.value else "unknown");
      && (c < |db.containers| <==>
            exists i :: 0 <= i < |db.containers| && HasColumns(db.containers[i], agent, image, tag, r.name))
      && (c < |db.containers| ==> rows == db.containers && HasColumns(rows[c], agent, image, tag, r.name))
      && (c >= |db.containers| ==> rows == db.containers + [Container(agent, image, tag, r.name, None, None)])
  {
    var (image, tag) := SplitTag(Or(r.image, "unknown"));
    if i :| 0 <= i < |db.containers| && HasColumns(db.containers[i], agent, image, tag, r.name) {
      assert M.SameTagged(agent, image, tag, r.name)(db.containers[i]);
    }
    if c: nat :| c < |db.containers| && M.FindContainer(db, agent, r) == OneRow(c) {
      assert M.SameTagged(agent, image, tag, r.name)(db.containers[c]);
    }
  }
}
