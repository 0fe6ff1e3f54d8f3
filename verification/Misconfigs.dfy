/** Ingestion of one misconfiguration result. Unlike a scan, it looks up every row that is not FIXED. */
module Misconfigs {
  import opened Common
  import opened Store

  /** One entry of "findings"; None is a missing key. */
  datatype Item = Item(
    check: Option<string>, severity: Option<string>, title: Option<string>, guideline: Option<string>)

  datatype Result = Result(image: Option<string>, name: Option<string>, items: seq<Item>)

  function CheckOf(x: Item): string {
    Or(x.check, "")
  }

  function ChecksOf(xs: seq<Item>): set<string> {
    set x | x in xs :: CheckOf(x)
  }

  /** Here the tag is part of the lookup. */
  function SameTagged(agent: string, image: string, tag: Option<string>, name: Option<string>): Container -> bool {
    (r: Container) => r.agent == agent && r.image == image && r.tag == tag && r.name == name
  }

  /** The unique key of the container table; NULL names never clash. */
  predicate Clashes(rows: seq<Container>, agent: string, image: string, name: Option<string>) {
    && name.Some?
    && exists i :: 0 <= i < |rows| && rows[i].agent == agent && rows[i].image == image && rows[i].name == name
  }

  predicate LiveMatch(m: Misconfig, c: nat, check: string) {
    m.container == c && m.check == check && !m.status.Fixed?
  }

  function LiveWithCheck(c: nat, check: string): Misconfig -> bool {
    (m: Misconfig) => LiveMatch(m, c, check)
  }

  function ActiveRows(c: nat): Misconfig -> bool {
    (m: Misconfig) => m.container == c && m.status.Active?
  }

  function NewMisconfig(x: Item, c: nat, now: int): Misconfig {
    Misconfig(c, CheckOf(x), SeverityNamed(Or(x.severity, "MEDIUM"), Medium),
              Or(x.title, ""), Or(x.guideline, ""), Active, now, now)
  }

  function Upsert(ms: seq<Misconfig>, c: nat, now: int, x: Item): Session<Misconfig> {
    match ScalarOneOrNone(ms, LiveWithCheck(c, CheckOf(x)))
    case NoRow => Done(ms + [NewMisconfig(x, c, now)])
    case OneRow(i) => Done(ms[i := ms[i].(lastSeen := now)])
    case ManyRows => Stuck(ms)
  }

  function Ingest(ms: seq<Misconfig>, c: nat, now: int, xs: seq<Item>): Session<Misconfig>
    decreases |xs|
  {
    if xs == [] then Done(ms)
    else
      match Ingest(ms, c, now, xs[..|xs| - 1])
      case Stuck(ms') => Stuck(ms')
      case Done(ms') => Upsert(ms', c, now, xs[|xs| - 1])
  }

  function AfterFixing(m: Misconfig, c: nat, checks: set<string>, now: int): Misconfig {
    if m.container == c && m.status.Active? && m.check !in checks then m.(status := Fixed, lastSeen := now) else m
  }

  function MarkFixed(ms: seq<Misconfig>, c: nat, checks: set<string>, now: int): seq<Misconfig> {
    seq(|ms|, i requires 0 <= i < |ms| => AfterFixing(ms[i], c, checks, now))
  }

  function FindContainer(db: Db, agent: string, r: Result): Lookup {
    var (image, tag) := SplitTag(Or(r.image, "unknown"));
    ScalarOneOrNone(db.containers, SameTagged(agent, image, tag, r.name))
  }

  /** The message is refused when its container is ambiguous, or new but already there under another tag. */
  predicate ContainerRefused(db: Db, agent: string, r: Result) {
    var found := FindContainer(db, agent, r);
    || found.ManyRows?
    || (found.NoRow? && Clashes(db.containers, agent, SplitTag(Or(r.image, "unknown")).0, r.name))
  }

  function Target(db: Db, agent: string, r: Result): nat {
    TargetOf(db, FindContainer(db, agent, r))
  }

  function ProcessMisconfig(db: Db, agent: string, r: Result, now: int): Outcome {
    if ContainerRefused(db, agent, r) then
      Rejected(db)
    else
      var (image, tag) := SplitTag(Or(r.image, "unknown"));
      var c := Target(db, agent, r);
      var session := db.(containers :=
        if FindContainer(db, agent, r).OneRow? then db.containers
        else db.containers + [Container(agent, image, tag, r.name, None, None)]);
      match Ingest(db.misconfigs, c, now, r.items)
      case Stuck(ms) => Rejected(session.(misconfigs := ms))
      case Done(ms) => Stored(session.(misconfigs := MarkFixed(ms, c, ChecksOf(r.items), now)))
  }

  // ── What it means ──────────────────────────────────────────────────────────

  ghost predicate AtMostOneLive(ms: seq<Misconfig>, c: nat, check: string) {
    forall i, j :: 0 <= i < j < |ms| ==> !(LiveMatch(ms[i], c, check) && LiveMatch(ms[j], c, check))
  }

  /** Reference: the fate of one row, given the checks reported for container `c`. */
  function Fate(m: Misconfig, c: nat, checks: set<string>, now: int): Misconfig {
    if m.container != c || m.status.Fixed? then m
    else if m.check in checks then m.(lastSeen := now)
    else if m.status.Active? then m.(status := Fixed, lastSeen := now)
    else m
  }

  ghost predicate Upserted(ms: seq<Misconfig>, ms': seq<Misconfig>, c: nat, now: int, checks: set<string>) {
    && |ms| <= |ms'|
    && (forall i :: 0 <= i < |ms| ==>
          ms'[i] == if ms[i].container == c && !ms[i].status.Fixed? && ms[i].check in checks
                    then ms[i].(lastSeen := now) else ms[i])
    && (forall i :: |ms| <= i < |ms'| ==>
          && ms'[i].container == c && ms'[i].status.Active? && ms'[i].check in checks
          && ms'[i].firstSeen == ms'[i].lastSeen == now)
    && (forall k :: k in checks ==>
          AtMostOneLive(ms', c, k) && exists i :: 0 <= i < |ms'| && LiveMatch(ms'[i], c, k))
  }

  ghost predicate Reconciled(db: Db, db': Db, c: nat, now: int, checks: set<string>) {
    var ms, ms' := db.misconfigs, db'.misconfigs;
    && |ms| <= |ms'|
    && (forall i :: 0 <= i < |ms| ==> ms'[i] == Fate(ms[i], c, checks, now))
    && (forall i :: |ms| <= i < |ms'| ==>
          && ms'[i].container == c && ms'[i].status.Active? && ms'[i].check in checks
          && ms'[i].firstSeen == ms'[i].lastSeen == now)
    && (forall k :: k in checks ==>
          AtMostOneLive(ms', c, k) && exists i :: 0 <= i < |ms'| && LiveMatch(ms'[i], c, k))
    && (forall d, k :: AtMostOneLive(ms, d, k) ==> AtMostOneLive(ms', d, k))
  }

  lemma OtherChecksKeepMatches(ms: seq<Misconfig>, mid: seq<Misconfig>, c: nat, now: int, checks: set<string>,
                               k: string)
    requires Upserted(ms, mid, c, now, checks) && k !in checks
    ensures AtMostOneLive(mid, c, k) <==> AtMostOneLive(ms, c, k)
  {
    forall i | 0 <= i < |mid|
      ensures LiveMatch(mid[i], c, k) <==> i < |ms| && LiveMatch(ms[i], c, k)
    {
    }
  }

  lemma RefreshStep(ms: seq<Misconfig>, mid: seq<Misconfig>, c: nat, now: int, checks: set<string>, k: string, i: nat)
    requires Upserted(ms, mid, c, now, checks) && AtMostOneLive(mid, c, k)
    requires i < |mid| && LiveMatch(mid[i], c, k)
    ensures Upserted(ms, mid[i := mid[i].(lastSeen := now)], c, now, checks + {k})
  {
    var r := mid[i := mid[i].(lastSeen := now)];
    assert LiveMatch(r[i], c, k);
    forall q | q in checks + {k}
      ensures AtMostOneLive(r, c, q) && exists j :: 0 <= j < |r| && LiveMatch(r[j], c, q)
    {
      assert forall j :: 0 <= j < |r| ==> (LiveMatch(r[j], c, q) <==> LiveMatch(mid[j], c, q));
      if q != k {
        var j :| 0 <= j < |mid| && LiveMatch(mid[j], c, q);
        assert LiveMatch(r[j], c, q);
      }
    }
    forall j | 0 <= j < |ms|
      ensures r[j] == if ms[j].container == c && !ms[j].status.Fixed? && ms[j].check in checks + {k}
                      then ms[j].(lastSeen := now) else ms[j]
    {
      assert LiveMatch(mid[j], c, k) ==> !(i < j) && !(j < i);
    }
  }

  lemma InsertStep(ms: seq<Misconfig>, mid: seq<Misconfig>, c: nat, now: int, checks: set<string>, x: Item)
    requires Upserted(ms, mid, c, now, checks)
    requires forall i :: 0 <= i < |mid| ==> !LiveMatch(mid[i], c, CheckOf(x))
    ensures Upserted(ms, mid + [NewMisconfig(x, c, now)], c, now, checks + {CheckOf(x)})
  {
    var k, r, n := CheckOf(x), mid + [NewMisconfig(x, c, now)], |mid|;
    assert LiveMatch(r[n], c, k);
    forall q | q in checks + {k}
      ensures AtMostOneLive(r, c, q) && exists j :: 0 <= j < |r| && LiveMatch(r[j], c, q)
    {
      if q != k {
        assert !LiveMatch(r[n], c, q);
        var j :| 0 <= j < |mid| && LiveMatch(mid[j], c, q);
        assert LiveMatch(r[j], c, q);
      }
    }
    forall j | 0 <= j < |ms|
      ensures r[j] == if ms[j].container == c && !ms[j].status.Fixed? && ms[j].check in checks + {k}
                      then ms[j].(lastSeen := now) else ms[j]
    {
      assert !LiveMatch(mid[j], c, k);
    }
  }

  lemma ChecksOfOneMore(xs: seq<Item>)
    requires xs != []
    ensures ChecksOf(xs) == ChecksOf(xs[..|xs| - 1]) + {CheckOf(xs[|xs| - 1])}
  {
    assert xs == xs[..|xs| - 1] + [xs[|xs| - 1]];
  }

  lemma {:induction false} IngestUpserts(ms: seq<Misconfig>, c: nat, now: int, xs: seq<Item>)
    requires forall k :: k in ChecksOf(xs) ==> AtMostOneLive(ms, c, k)
    ensures var r := Ingest(ms, c, now, xs);
            r.Done? && Upserted(ms, r.rows, c, now, ChecksOf(xs))
    decreases |xs|
  {
    if xs != [] {
      var front, x := xs[..|xs| - 1], xs[|xs| - 1];
      ChecksOfOneMore(xs);
      IngestUpserts(ms, c, now, front);
      var mid := Ingest(ms, c, now, front).rows;
      if CheckOf(x) !in ChecksOf(front) {
        OtherChecksKeepMatches(ms, mid, c, now, ChecksOf(front), CheckOf(x));
      }
      var found := ScalarOneOrNone(mid, LiveWithCheck(c, CheckOf(x)));
      if found.OneRow? {
        RefreshStep(ms, mid, c, now, ChecksOf(front), CheckOf(x), found.row);
      } else {
        InsertStep(ms, mid, c, now, ChecksOf(front), x);
      }
    }
  }

  lemma AmbiguousStops(mid: seq<Misconfig>, c: nat, now: int, x: Item)
    requires !AtMostOneLive(mid, c, CheckOf(x))
    ensures Upsert(mid, c, now, x).Stuck?
  {
    assert ScalarOneOrNone(mid, LiveWithCheck(c, CheckOf(x))).ManyRows?;
  }

  lemma {:induction false} IngestFails(ms: seq<Misconfig>, c: nat, now: int, xs: seq<Item>, k: string)
    requires k in ChecksOf(xs) && !AtMostOneLive(ms, c, k)
    ensures Ingest(ms, c, now, xs).Stuck?
    decreases |xs|
  {
    var front, x := xs[..|xs| - 1], xs[|xs| - 1];
    ChecksOfOneMore(xs);
    if q :| q in ChecksOf(front) && !AtMostOneLive(ms, c, q) {
      IngestFails(ms, c, now, front, q);
    } else {
      IngestUpserts(ms, c, now, front);
      var mid := Ingest(ms, c, now, front).rows;
      OtherChecksKeepMatches(ms, mid, c, now, ChecksOf(front), k);
      AmbiguousStops(mid, c, now, x);
    }
  }

  /** Reference: the first entry listed for a check. */
  function FirstListed(xs: seq<Item>, k: string): (x: Item)
    requires k in ChecksOf(xs)
    ensures exists i :: 0 <= i < |xs| && xs[i] == x && CheckOf(x) == k && forall j :: 0 <= j < i ==> CheckOf(xs[j]) != k
  {
    var front, last := xs[..|xs| - 1], xs[|xs| - 1];
    assert xs == front + [last];
    if k in ChecksOf(front) then
      var x := FirstListed(front, k);
      assert forall i :: 0 <= i < |front| ==> front[i] == xs[i];
      x
    else
      assert forall j :: 0 <= j < |front| ==> xs[j] in front;
      last
  }

  ghost predicate NewRowsListed(ms: seq<Misconfig>, ms': seq<Misconfig>, c: nat, now: int, xs: seq<Item>) {
    |ms| <= |ms'| && forall i :: |ms| <= i < |ms'| ==>
      ms'[i].check in ChecksOf(xs) && ms'[i] == NewMisconfig(FirstListed(xs, ms'[i].check), c, now)
  }

  lemma ListedOneMore(ms: seq<Misconfig>, mid: seq<Misconfig>, c: nat, now: int, xs: seq<Item>)
    requires xs != [] && NewRowsListed(ms, mid, c, now, xs[..|xs| - 1])
    ensures NewRowsListed(ms, mid, c, now, xs)
    ensures CheckOf(xs[|xs| - 1]) !in ChecksOf(xs[..|xs| - 1]) ==>
      NewRowsListed(ms, mid + [NewMisconfig(xs[|xs| - 1], c, now)], c, now, xs)
  {
    ChecksOfOneMore(xs);
  }

  /** A refreshed row was not inserted by this payload, or was at this very time. */
  lemma RefreshKeepsListed(ms: seq<Misconfig>, mid: seq<Misconfig>, c: nat, now: int, xs: seq<Item>, i: nat)
    requires NewRowsListed(ms, mid, c, now, xs) && i < |mid|
    ensures NewRowsListed(ms, mid[i := mid[i].(lastSeen := now)], c, now, xs)
  {
    assert i >= |ms| ==> mid[i].(lastSeen := now) == mid[i];
  }

  /** A payload that repeats a check inserts its first entry and ignores the others. */
  lemma {:induction false} IngestInsertsFirst(ms: seq<Misconfig>, c: nat, now: int, xs: seq<Item>)
    requires forall k :: k in ChecksOf(xs) ==> AtMostOneLive(ms, c, k)
    ensures NewRowsListed(ms, Ingest(ms, c, now, xs).rows, c, now, xs)
    decreases |xs|
  {
    if xs != [] {
      var front, x := xs[..|xs| - 1], xs[|xs| - 1];
      ChecksOfOneMore(xs);
      IngestInsertsFirst(ms, c, now, front);
      IngestUpserts(ms, c, now, front);
      var mid := Ingest(ms, c, now, front).rows;
      ListedOneMore(ms, mid, c, now, xs);
      var found := ScalarOneOrNone(mid, LiveWithCheck(c, CheckOf(x)));
      if found.OneRow? {
        RefreshKeepsListed(ms, mid, c, now, xs, found.row);
      }
    }
  }

  lemma FixingReconciles(db: Db, ms: seq<Misconfig>, db': Db, c: nat, now: int, checks: set<string>)
    requires Upserted(db.misconfigs, ms, c, now, checks)
    requires db'.misconfigs == MarkFixed(ms, c, checks, now)
    ensures Reconciled(db, db', c, now, checks)
  {
    var rows, rows' := db.misconfigs, db'.misconfigs;
    forall k | k in checks
      ensures AtMostOneLive(rows', c, k) && exists i :: 0 <= i < |rows'| && LiveMatch(rows'[i], c, k)
    {
      assert forall i :: 0 <= i < |ms| ==> (LiveMatch(rows'[i], c, k) ==> LiveMatch(ms[i], c, k));
      var i :| 0 <= i < |ms| && LiveMatch(ms[i], c, k);
      assert rows'[i] == ms[i];
    }
    forall d, k | AtMostOneLive(rows, d, k) ensures AtMostOneLive(rows', d, k) {
      if d != c || k !in checks {
        assert forall i :: 0 <= i < |rows'| && LiveMatch(rows'[i], d, k) ==> i < |rows| && LiveMatch(rows[i], d, k);
      }
    }
  }

  /**
   * A misconfiguration message is stored exactly when its container is accepted and no reported
   * check has several live rows there. Then every reported check has exactly one live row, however
   * often the payload repeats it; ACTIVE rows of other checks are FIXED; accepted and
   * false-positive rows keep their status; and no container gains a second live row of a check.
   */
  lemma MisconfigReconciles(db: Db, agent: string, r: Result, now: int)
    ensures var c, checks, out := Target(db, agent, r), ChecksOf(r.items), ProcessMisconfig(db, agent, r, now);
      && (out.Stored? <==> && !ContainerRefused(db, agent, r)
                           && forall k :: k in checks ==> AtMostOneLive(db.misconfigs, c, k))
      && (out.Stored? ==> Reconciled(db, out.db, c, now, checks))
      && (ContainerRefused(db, agent, r) ==> out.leftover == db)
  {
    var c, checks := Target(db, agent, r), ChecksOf(r.items);
    if k :| k in checks && !AtMostOneLive(db.misconfigs, c, k) {
      IngestFails(db.misconfigs, c, now, r.items, k);
    } else {
      IngestUpserts(db.misconfigs, c, now, r.items);
      var out := ProcessMisconfig(db, agent, r, now);
      if out.Stored? {
        FixingReconciles(db, Ingest(db.misconfigs, c, now, r.items).rows, out.db, c, now, checks);
      }
    }
  }

  /**
   * What a stored message writes apart from the reported container's rows: the container row found
   * by name and tag, or a new one that was never scanned; new rows hold the first entry of their check.
   */
  lemma MisconfigDecidesRows(db: Db, agent: string, r: Result, now: int)
    requires ProcessMisconfig(db, agent, r, now).Stored?
    ensures var c, db' := Target(db, agent, r), ProcessMisconfig(db, agent, r, now).db;
            var (image, tag) := SplitTag(Or(r.image, "unknown"));
      && db.containers <= db'.containers && c < |db'.containers| <= |db.containers| + 1
      && SameTagged(agent, image, tag, r.name)(db'.containers[c])
      && (c == |db.containers| ==> db'.containers[c].lastScanned == None && db'.containers[c].digest == None)
      && NewRowsListed(db.misconfigs, db'.misconfigs, c, now, r.items)
      && db'.scans == db.scans && db'.findings == db.findings && db'.acceptances == db.acceptances
  {
    var c := Target(db, agent, r);
    MisconfigReconciles(db, agent, r, now);
    IngestInsertsFirst(db.misconfigs, c, now, r.items);
  }

  // ── One container under two tags ───────────────────────────────────────────

  /** Some row of the container the message means has another tag. */
  predicate KnownUnderOtherTag(db: Db, agent: string, r: Result) {
    var (image, tag) := SplitTag(Or(r.image, "unknown"));
    exists i :: && 0 <= i < |db.containers| && SameContainer(agent, r.name, image)(db.containers[i])
                && db.containers[i].tag != tag
  }

  /** A message about a named container is refused exactly when the hub knows that container under another tag. */
  lemma RefusedIffOtherTag(db: Db, agent: string, r: Result)
    requires NamedUnique(db) && r.name.Some?
    ensures ContainerRefused(db, agent, r) <==> KnownUnderOtherTag(db, agent, r)
  {
    var (image, tag) := SplitTag(Or(r.image, "unknown"));
    var found := FindContainer(db, agent, r);
    assert !found.ManyRows?;
    if found.OneRow? {
      assert SameTagged(agent, image, tag, r.name)(db.containers[found.row]);
    }
  }

  /** The message means the container that `report` scanned, under another tag. */
  predicate OtherTag(report: Report, name: Option<string>, r: Result) {
    var (image, tag) := SplitTag(Or(report.artifact, "unknown"));
    var (image', tag') := SplitTag(Or(r.image, "unknown"));
    r.name == name && image' == image && tag' != tag
  }

  /**
   * After any stored scan, a misconfiguration message of the same container under another tag finds
   * no row, and is refused if and only if the container has a name.
   */
  lemma TagChangeRefusedIff(db: Db, agent: string, report: Report, name: Option<string>, now: int, r: Result,
                            later: int)
    requires ProcessScan(db, agent, report, name, now).Stored? && OtherTag(report, name, r)
    ensures var db' := ProcessScan(db, agent, report, name, now).db;
      && FindContainer(db', agent, r).NoRow?
      && (ContainerRefused(db', agent, r) <==> name.Some?)
      && (name.Some? ==> ProcessMisconfig(db', agent, r, later) == Rejected(db'))
  {
    var db', c := ProcessScan(db, agent, report, name, now).db, ScanTarget(db, agent, report, name);
    var (image, tag) := SplitTag(Or(r.image, "unknown"));
    ScanRefreshesContainer(db, agent, report, name, now);
    forall i: nat | i < |db'.containers| ensures !SameTagged(agent, image, tag, name)(db'.containers[i]) {
      if SameContainer(agent, name, image)(db'.containers[i]) {
        ScannedRowIsAlone(db, agent, report, name, now, i);
      }
    }
    assert SameContainer(agent, name, image)(db'.containers[c]);
  }

  /** Without a name it adds a second row of the container instead. */
  lemma UnnamedTagChangeSplits(db: Db, agent: string, report: Report, now: int, r: Result, later: int)
    requires NoDangling(db) && ProcessScan(db, agent, report, None, now).Stored? && OtherTag(report, None, r)
    ensures var out := ProcessMisconfig(ProcessScan(db, agent, report, None, now).db, agent, r, later);
            var image := SplitTag(Or(report.artifact, "unknown")).0;
      && out.Stored?
      && exists i, j :: && 0 <= i < j < |out.db.containers|
                        && SameContainer(agent, None, image)(out.db.containers[i])
                        && SameContainer(agent, None, image)(out.db.containers[j])
  {
    var db1, c := ProcessScan(db, agent, report, None, now).db, ScanTarget(db, agent, report, None);
    var image := SplitTag(Or(report.artifact, "unknown")).0;
    TagChangeRefusedIff(db, agent, report, None, now, r, later);
    ScanTouchesOnlyItsContainer(db, agent, report, None, now);
    ScanRefreshesContainer(db, agent, report, None, now);
    forall k ensures AtMostOneLive(db1.misconfigs, |db1.containers|, k) {
    }
    MisconfigReconciles(db1, agent, r, later);
    MisconfigDecidesRows(db1, agent, r, later);
    var rows, n := ProcessMisconfig(db1, agent, r, later).db.containers, |db1.containers|;
    assert SameContainer(agent, None, image)(rows[c]) && SameContainer(agent, None, image)(rows[n]);
  }
}
