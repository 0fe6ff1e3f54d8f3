/**
 * The hub's write paths as they run: the two aggregators, the expiry sweep and the status endpoints,
 * each against its specification. Local copies of a table are the uncommitted session.
 */
module HubStorage {
  import opened Common
  import S = Store
  import M = Misconfigs
  import L = Lifecycle

  class HubStore {
    var containers: seq<S.Container>
    var scans: seq<S.Scan>
    var findings: seq<S.Finding>
    var misconfigs: seq<S.Misconfig>
    var acceptances: map<nat, S.Acceptance>
    var nextAcceptance: nat

    function State(): S.Db
      reads this
    {
      S.Db(containers, scans, findings, misconfigs, acceptances, nextAcceptance)
    }

    constructor ()
      ensures State() == S.EMPTY
    {
      containers, scans, findings, misconfigs, acceptances, nextAcceptance := [], [], [], [], map[], 0;
    }

    /** One result block: its vulnerabilities join the list and the severity counts. */
    method CollectBlock(before: seq<S.Vuln>, tally: Counts, block: seq<S.Vuln>)
      returns (vs: seq<S.Vuln>, counts: Counts)
      requires tally == S.Tally(before)
      ensures vs == before + block && counts == S.Tally(vs)
    {
      vs, counts := before, tally;
      for j := 0 to |block|
        invariant vs == before + block[..j] && counts == S.Tally(vs)
      {
        assert before + block[..j + 1] == before + block[..j] + [block[j]];
        vs, counts := CollectOne(vs, counts, block[j]);
      }
      assert block[..|block|] == block;
    }

    method CollectOne(before: seq<S.Vuln>, tally: Counts, v: S.Vuln) returns (vs: seq<S.Vuln>, counts: Counts)
      requires tally == S.Tally(before)
      ensures vs == before + [v] && counts == S.Tally(vs)
    {
      TallyOfOneMore(before, v);
      counts := Bump(tally, S.SeverityOf(v));
      vs := before + [v];
    }

    /** All blocks of the report. */
    method CollectFindings(blocks: seq<seq<S.Vuln>>) returns (vs: seq<S.Vuln>, counts: Counts)
      ensures vs == S.Flatten(blocks) && counts == S.Tally(vs)
    {
      vs, counts := [], Counts(0, 0, 0, 0, 0);
      for i := 0 to |blocks|
        invariant vs == S.Flatten(blocks[..i]) && counts == S.Tally(vs)
      {
        assert blocks[..i + 1][..i] == blocks[..i];
        vs, counts := CollectBlock(vs, counts, blocks[i]);
      }
      assert blocks[..|blocks|] == blocks;
    }

    /** One vulnerability against the session's rows. */
    method UpsertFinding(rows: seq<S.Finding>, v: S.Vuln, table: seq<S.Scan>, c: nat, scan: nat, now: int)
      returns (ok: bool, rows': seq<S.Finding>)
      ensures S.Upsert(rows, table, c, scan, now, v) == if ok then Done(rows') else Stuck(rows')
    {
      ok, rows' := true, rows;
      var existing := ScalarOneOrNone(rows, S.Matching(table, c, S.KeyOf(v)));
      match existing
      case NoRow => rows' := rows + [S.NewFinding(v, scan, now)];
      case OneRow(r) => rows' := rows[r := S.Refreshed(rows[r], v, scan, now)];
      case ManyRows => ok := false;
    }

    /** The upsert loop; `ok` is false when some lookup finds several rows. */
    method UpsertFindings(vs: seq<S.Vuln>, table: seq<S.Scan>, c: nat, scan: nat, now: int)
      returns (ok: bool, rows: seq<S.Finding>, keys: set<S.Key>)
      ensures S.Ingest(findings, table, c, scan, now, vs) == if ok then Done(rows) else Stuck(rows)
      ensures ok ==> keys == S.KeysOf(vs)
    {
      ok, rows, keys := true, findings, {};
      for i := 0 to |vs|
        invariant ok && S.Ingest(findings, table, c, scan, now, vs[..i]) == Done(rows)
        invariant keys == S.KeysOf(vs[..i])
      {
        assert vs[..i + 1][..i] == vs[..i];
        S.KeysOfOneMore(vs[..i + 1]);
        keys := keys + {S.KeyOf(vs[i])};
        ok, rows := UpsertFinding(rows, vs[i], table, c, scan, now);
        if !ok {
          IngestStopsAt(findings, table, c, scan, now, vs, i + 1);
          return;
        }
      }
      assert vs[..|vs|] == vs;
    }

    /** ACTIVE rows of the container that the scan did not list become FIXED. */
    method FixMissing(rows: seq<S.Finding>, table: seq<S.Scan>, c: nat, keys: set<S.Key>, now: int)
      returns (fixed: seq<S.Finding>)
      ensures fixed == S.MarkFixed(rows, table, c, keys, now)
    {
      var active := Select(rows, S.AllActive(table, c));
      fixed := rows;
      for i := 0 to |active|
        invariant |fixed| == |rows|
        invariant forall k :: 0 <= k < |rows| ==>
          fixed[k] == if k in active[..i] then S.AfterFixing(rows[k], table, c, keys, now) else rows[k]
      {
        var r := active[i];
        assert active[..i + 1] == active[..i] + [r];
        assert r !in active[..i];
        if (fixed[r].cve, fixed[r].pkg) !in keys {
          fixed := fixed[r := fixed[r].(status := Fixed, lastSeen := now)];
        }
      }
      assert active[..|active|] == active;
    }

    /** Find or insert the container, and refresh its scan columns. */
    method UpsertContainer(agent: string, report: S.Report, name: Option<string>, now: int)
      returns (ok: bool, c: nat, table: seq<S.Container>)
      ensures var found := S.FindContainer(State(), agent, report, name);
        && ok == !found.ManyRows?
        && (ok ==> && c == S.TargetOf(State(), found)
                   && table == S.WithContainer(State(), found, agent, report, name, now))
    {
      var (image, tag) := S.SplitTag(S.Or(report.artifact, "unknown"));
      var existing := ScalarOneOrNone(containers, S.SameContainer(agent, name, image));
      ok, c, table := !existing.ManyRows?, |containers|, containers;
      if existing.ManyRows? {
        return;
      }
      if existing.OneRow? {
        c := existing.row;
      } else {
        table := table + [S.Container(agent, image, tag, name, report.digest, None)];
      }
      table := table[c := S.Touched(table[c], tag, report.digest, now)];
    }

    /** `flushed`: if an ambiguous lookup stops the message, the closing connection commits what the session holds. */
    method ProcessScanResult(agent: string, report: S.Report, name: Option<string>, now: int, flushed: bool)
      returns (stored: bool)
      modifies this
      ensures var out := S.ProcessScan(old(State()), agent, report, name, now);
              stored == out.Stored? && State() == S.Committed(old(State()), out, flushed)
    {
      var known, c, table := UpsertContainer(agent, report, name, now);
      if !known {
        return false;
      }
      var vs, counts := CollectFindings(report.blocks);
      var scanTable := scans + [S.Scan(c, agent, now, counts)];
      var ok, rows, keys := UpsertFindings(vs, scanTable, c, |scans|, now);
      if ok {
        rows := FixMissing(rows, scanTable, c, keys, now);
      }
      if ok || flushed {
        containers, scans, findings := table, scanTable, rows;
      }
      return ok;
    }

    /** One reported check against the session's rows. */
    method UpsertMisconfig(rows: seq<S.Misconfig>, x: M.Item, c: nat, now: int)
      returns (ok: bool, rows': seq<S.Misconfig>)
      ensures M.Upsert(rows, c, now, x) == if ok then Done(rows') else Stuck(rows')
    {
      ok, rows' := true, rows;
      var existing := ScalarOneOrNone(rows, M.LiveWithCheck(c, M.CheckOf(x)));
      match existing
      case NoRow => rows' := rows + [M.NewMisconfig(x, c, now)];
      case OneRow(r) => rows' := rows[r := rows[r].(lastSeen := now)];
      case ManyRows => ok := false;
    }

    method UpsertMisconfigs(xs: seq<M.Item>, c: nat, now: int)
      returns (ok: bool, rows: seq<S.Misconfig>, checks: set<string>)
      ensures M.Ingest(misconfigs, c, now, xs) == if ok then Done(rows) else Stuck(rows)
      ensures ok ==> checks == M.ChecksOf(xs)
    {
      ok, rows, checks := true, misconfigs, {};
      for i := 0 to |xs|
        invariant ok && M.Ingest(misconfigs, c, now, xs[..i]) == Done(rows)
        invariant checks == M.ChecksOf(xs[..i])
      {
        assert xs[..i + 1][..i] == xs[..i];
        M.ChecksOfOneMore(xs[..i + 1]);
        checks := checks + {M.CheckOf(xs[i])};
        ok, rows := UpsertMisconfig(rows, xs[i], c, now);
        if !ok {
          MisconfigsStopAt(misconfigs, c, now, xs, i + 1);
          return;
        }
      }
      assert xs[..|xs|] == xs;
    }

    method FixMissingChecks(rows: seq<S.Misconfig>, c: nat, checks: set<string>, now: int)
      returns (fixed: seq<S.Misconfig>)
      ensures fixed == M.MarkFixed(rows, c, checks, now)
    {
      var active := Select(rows, M.ActiveRows(c));
      fixed := rows;
      for i := 0 to |active|
        invariant |fixed| == |rows|
        invariant forall k :: 0 <= k < |rows| ==>
          fixed[k] == if k in active[..i] then M.AfterFixing(rows[k], c, checks, now) else rows[k]
      {
        var r := active[i];
        assert active[..i + 1] == active[..i] + [r];
        assert r !in active[..i];
        if fixed[r].check !in checks {
          fixed := fixed[r := fixed[r].(status := Fixed, lastSeen := now)];
        }
      }
      assert active[..|active|] == active;
    }

    method ProcessMisconfigResult(agent: string, r: M.Result, now: int, flushed: bool) returns (stored: bool)
      modifies this
      ensures var out := M.ProcessMisconfig(old(State()), agent, r, now);
              stored == out.Stored? && State() == S.Committed(old(State()), out, flushed)
    {
      var (image, tag) := S.SplitTag(S.Or(r.image, "unknown"));
      var existing := ScalarOneOrNone(containers, M.SameTagged(agent, image, tag, r.name));
      if existing.ManyRows? || (existing.NoRow? && M.Clashes(containers, agent, image, r.name)) {
        return false;
      }
      var table := containers;
      var c := |table|;
      if existing.OneRow? {
        c := existing.row;
      } else {
        table := table + [S.Container(agent, image, tag, r.name, None, None)];
      }
      var ok, rows, checks := UpsertMisconfigs(r.items, c, now);
      if ok {
        rows := FixMissingChecks(rows, c, checks, now);
      }
      if ok || flushed {
        containers, misconfigs := table, rows;
      }
      return ok;
    }

    /** The sweep, in whatever order the expired rows come. */
    method ExpireStaleAcceptances(now: int) returns (count: nat)
      modifies this
      ensures State() == L.Sweep(old(State()), now)
      ensures count == |L.Expired(old(State()), now)|
    {
      ghost var start := State();
      var expired := L.Expired(State(), now);
      count := |expired|;
      L.RevertNothing(start);
      var todo := expired;
      while todo != {}
        invariant todo <= expired <= start.acceptances.Keys
        invariant State() == L.Revert(start, expired - todo)
      {
        var a :| a in todo;
        L.RevertOneMore(start, expired - todo, a);
        assert (expired - todo) + {a} == expired - (todo - {a});
        match acceptances[a].subject {
          case OnFinding(i) =>
            if i < |findings| {
              findings := findings[i := findings[i].(status := Active)];
            }
          case OnMisconfig(i) =>
            if i < |misconfigs| {
              misconfigs := misconfigs[i := misconfigs[i].(status := Active)];
            }
        }
        acceptances := acceptances - {a};
        todo := todo - {a};
      }
      assert expired - {} == expired;
    }

    method SetStatus(s: S.Subject, st: Status)
      requires S.SubjectExists(State(), s)
      modifies this`findings, this`misconfigs
      ensures State() == L.SetStatus(old(State()), s, st)
    {
      match s
      case OnFinding(i) => findings := findings[i := findings[i].(status := st)];
      case OnMisconfig(i) => misconfigs := misconfigs[i := misconfigs[i].(status := st)];
    }

    method UpdateStatus(s: S.Subject, st: Status) returns (found: bool)
      modifies this
      ensures match L.Patch(old(State()), s, st)
              case Ok(db) => found && State() == db
              case NotFound => !found && State() == old(State())
    {
      found := S.SubjectExists(State(), s);
      if found {
        SetStatus(s, st);
      }
    }

    method CreateAcceptance(s: S.Subject, reason: string, expiresAt: Option<int>) returns (found: bool)
      modifies this
      ensures match L.Accept(old(State()), s, reason, expiresAt)
              case Ok(db) => found && State() == db
              case NotFound => !found && State() == old(State())
    {
      found := S.SubjectExists(State(), s);
      if found {
        acceptances := acceptances[nextAcceptance := S.Acceptance(s, reason, expiresAt)];
        nextAcceptance := nextAcceptance + 1;
        SetStatus(s, Accepted);
      }
    }

    method RevokeAcceptance(s: S.Subject, a: nat) returns (found: bool)
      modifies this
      ensures match L.Revoke(old(State()), s, a)
              case Ok(db) => found && State() == db
              case NotFound => !found && State() == old(State())
    {
      if a !in acceptances || acceptances[a].subject != s {
        return false;
      }
      if S.SubjectExists(State(), s) {
        SetStatus(s, Active);
      }
      acceptances := acceptances - {a};
      return true;
    }
  }

  lemma TallyOfOneMore(vs: seq<S.Vuln>, v: S.Vuln)
    ensures S.Tally(vs + [v]) == Bump(S.Tally(vs), S.SeverityOf(v))
  {
    assert (vs + [v])[..|vs|] == vs;
  }

  /** Once a lookup is ambiguous the rest of the payload does not matter. */
  lemma {:induction false} IngestStopsAt(fs: seq<S.Finding>, table: seq<S.Scan>, c: nat, scan: nat, now: int,
                                         vs: seq<S.Vuln>, n: nat)
    requires n <= |vs| && S.Ingest(fs, table, c, scan, now, vs[..n]).Stuck?
    ensures S.Ingest(fs, table, c, scan, now, vs) == S.Ingest(fs, table, c, scan, now, vs[..n])
    decreases |vs|
  {
    if n == |vs| {
      assert vs[..n] == vs;
    } else {
      assert vs[..|vs| - 1][..n] == vs[..n];
      IngestStopsAt(fs, table, c, scan, now, vs[..|vs| - 1], n);
    }
  }

  lemma {:induction false} MisconfigsStopAt(ms: seq<S.Misconfig>, c: nat, now: int, xs: seq<M.Item>, n: nat)
    requires n <= |xs| && M.Ingest(ms, c, now, xs[..n]).Stuck?
    ensures M.Ingest(ms, c, now, xs) == M.Ingest(ms, c, now, xs[..n])
    decreases |xs|
  {
    if n == |xs| {
      assert xs[..n] == xs;
    } else {
      assert xs[..|xs| - 1][..n] == xs[..n];
      MisconfigsStopAt(ms, c, now, xs[..|xs| - 1], n);
    }
  }
}
