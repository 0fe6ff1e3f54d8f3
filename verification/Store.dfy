/** The hub's finding tables, and the ingestion of one Trivy scan result. */
module Store {
  import opened Common

  datatype Container = Container(
    agent: string, image: string, tag: Option<string>, name: Option<string>,
    digest: Option<string>, lastScanned: Option<int>)

  datatype Scan = Scan(container: nat, agent: string, at: int, counts: Counts)

  datatype Finding = Finding(
    scan: nat, cve: string, pkg: string, installed: string, fixedVersion: Option<string>,
    severity: Severity, description: Option<string>, status: Status, firstSeen: int, lastSeen: int)

  datatype Misconfig = Misconfig(
    container: nat, check: string, severity: Severity, title: string, guideline: string,
    status: Status, firstSeen: int, lastSeen: int)

  /** The row an acceptance refers to: one of its two nullable references is set. */
  datatype Subject = OnFinding(row: nat) | OnMisconfig(row: nat)

  datatype Acceptance = Acceptance(subject: Subject, reason: string, expiresAt: Option<int>)

  /** A row's id is its position; only acceptances are ever deleted. */
  datatype Db = Db(
    containers: seq<Container>, scans: seq<Scan>, findings: seq<Finding>, misconfigs: seq<Misconfig>,
    acceptances: map<nat, Acceptance>, nextAcceptance: nat)

  const EMPTY := Db([], [], [], [], map[], 0)

  // ── The payload ────────────────────────────────────────────────────────────

  /** One entry of "Vulnerabilities"; None is a missing key. */
  datatype Vuln = Vuln(
    id: Option<string>, pkg: Option<string>, installed: Option<string>, fixedVersion: Option<string>,
    severity: Option<string>, description: Option<string>)

  datatype Report = Report(artifact: Option<string>, digest: Option<string>, blocks: seq<seq<Vuln>>)

  function Or(s: Option<string>, default: string): string {
    if s.Some? then s.value else default
  }

  /** str.upper() on ASCII. */
  function Upper(s: string): string {
    seq(|s|, i requires 0 <= i < |s| => if 'a' <= s[i] <= 'z' then s[i] - 'a' + 'A' else s[i])
  }

  /** An unknown name falls back to `default`. */
  function SeverityNamed(name: string, default: Severity): Severity {
    match Upper(name)
    case "CRITICAL" => Critical
    case "HIGH" => High
    case "MEDIUM" => Medium
    case "LOW" => Low
    case "UNKNOWN" => Unknown
    case _ => default
  }

  function SeverityOf(v: Vuln): Severity {
    SeverityNamed(Or(v.severity, "UNKNOWN"), Unknown)
  }

  /** The five severity names. */
  function NameOf(s: Severity): string {
    match s
    case Critical => "CRITICAL"
    case High => "HIGH"
    case Medium => "MEDIUM"
    case Low => "LOW"
    case Unknown => "UNKNOWN"
  }

  /** The capital letter `w`, in either case. */
  predicate SameLetter(c: char, w: char) {
    c == w || ('A' <= w <= 'Z' && 'a' <= c <= 'z' && c - 'a' == w - 'A')
  }

  /** `name` is the name of `s`, letter by letter, in any mix of cases. */
  predicate Spells(name: string, s: Severity) {
    |name| == |NameOf(s)| && forall i :: 0 <= i < |name| ==> SameLetter(name[i], NameOf(s)[i])
  }

  /** `s` is the severity whose name is given, or the default when there is no name or it spells none of the five. */
  ghost predicate Rated(name: Option<string>, default: Severity, s: Severity) {
    if name.Some? && exists t :: Spells(name.value, t) then Spells(name.value, s) else s == default
  }

  lemma UpperSpells(name: string, s: Severity)
    ensures Upper(name) == NameOf(s) <==> Spells(name, s)
  {
    assert forall i :: 0 <= i < |NameOf(s)| ==> 'A' <= NameOf(s)[i] <= 'Z';
    if |name| == |NameOf(s)| {
      assert forall i :: 0 <= i < |name| ==> (Upper(name)[i] == NameOf(s)[i] <==> SameLetter(name[i], NameOf(s)[i]));
    }
  }

  /** A name gives the severity whose name it spells, whatever the case, and the default if it spells none. */
  lemma SeverityNamedIff(name: string, default: Severity, s: Severity)
    ensures SeverityNamed(name, default) == s <==> Spells(name, s) || (s == default && forall t :: !Spells(name, t))
  {
    forall t ensures Upper(name) == NameOf(t) <==> Spells(name, t) {
      UpperSpells(name, t);
    }
    if t :| Spells(name, t) {
      assert Upper(name) == NameOf(t);
    } else {
      assert Upper(name) !in {NameOf(Critical), NameOf(High), NameOf(Medium), NameOf(Low), NameOf(Unknown)};
    }
  }

  lemma RatedIff(name: Option<string>, default: Severity, s: Severity)
    ensures SeverityNamed(Or(name, NameOf(default)), default) == s <==> Rated(name, default, s)
  {
    SeverityNamedIff(Or(name, NameOf(default)), default, s);
    if name.None? {
      UpperSpells(NameOf(default), default);
      SeverityNamedIff(NameOf(default), default, default);
    } else if t :| Spells(name.value, t) {
      SeverityNamedIff(name.value, default, t);
    }
  }

  type Key = (string, string)

  function KeyOf(v: Vuln): Key {
    (Or(v.id, "UNKNOWN"), Or(v.pkg, "unknown"))
  }

  function Flatten(blocks: seq<seq<Vuln>>): seq<Vuln> {
    if blocks == [] then [] else Flatten(blocks[..|blocks| - 1]) + blocks[|blocks| - 1]
  }

  function KeysOf(vs: seq<Vuln>): set<Key> {
    set v | v in vs :: KeyOf(v)
  }

  function LastColon(s: string): (i: nat)
    requires ':' in s
    ensures i < |s| && s[i] == ':' && forall j :: i < j < |s| ==> s[j] != ':'
  {
    if s[|s| - 1] == ':' then |s| - 1
    else
      assert s == s[..|s| - 1] + [s[|s| - 1]];
      LastColon(s[..|s| - 1])
  }

  /** name.rsplit(":", 1), or no tag at all. */
  function SplitTag(name: string): (r: (string, Option<string>))
    ensures r.1.None? ==> r.0 == name && ':' !in name
    ensures r.1.Some? ==> r.0 + ":" + r.1.value == name && ':' !in r.1.value
  {
    if ':' in name then
      var i := LastColon(name);
      assert name == name[..i] + [name[i]] + name[i + 1..];
      (name[..i], Some(name[i + 1..]))
    else
      (name, None)
  }

  function Tally(vs: seq<Vuln>): Counts {
    if vs == [] then Counts(0, 0, 0, 0, 0) else Bump(Tally(vs[..|vs| - 1]), SeverityOf(vs[|vs| - 1]))
  }

  /** Reference: the entries of one severity. */
  ghost function Listed(vs: seq<Vuln>, s: Severity): nat {
    if vs == [] then 0 else Listed(vs[..|vs| - 1], s) + (if Rated(vs[|vs| - 1].severity, Unknown, s) then 1 else 0)
  }

  function Total(n: Counts): nat {
    n.critical + n.high + n.medium + n.low + n.unknown
  }

  lemma {:induction false} TallyCountsAll(vs: seq<Vuln>)
    ensures Total(Tally(vs)) == |vs|
  {
    if vs != [] {
      TallyCountsAll(vs[..|vs| - 1]);
    }
  }

  /** Each severity column counts the entries of that severity. */
  lemma {:induction false} TallyBySeverity(vs: seq<Vuln>)
    ensures var n := Tally(vs);
      && n.critical == Listed(vs, Critical) && n.high == Listed(vs, High) && n.medium == Listed(vs, Medium)
      && n.low == Listed(vs, Low) && n.unknown == Listed(vs, Unknown)
  {
    if vs != [] {
      var v := vs[|vs| - 1];
      TallyBySeverity(vs[..|vs| - 1]);
      forall s ensures SeverityOf(v) == s <==> Rated(v.severity, Unknown, s) {
        RatedIff(v.severity, Unknown, s);
      }
    }
  }

  // ── Lookups ────────────────────────────────────────────────────────────────

  predicate OnContainer(scans: seq<Scan>, f: Finding, c: nat) {
    f.scan < |scans| && scans[f.scan].container == c
  }

  predicate ActiveOn(scans: seq<Scan>, f: Finding, c: nat) {
    f.status.Active? && OnContainer(scans, f, c)
  }

  /** WHERE of the per-finding lookup. */
  predicate Matches(scans: seq<Scan>, c: nat, k: Key, f: Finding) {
    ActiveOn(scans, f, c) && f.cve == k.0 && f.pkg == k.1
  }

  function Matching(scans: seq<Scan>, c: nat, k: Key): Finding -> bool {
    (f: Finding) => Matches(scans, c, k, f)
  }

  function AllActive(scans: seq<Scan>, c: nat): Finding -> bool {
    (f: Finding) => ActiveOn(scans, f, c)
  }

  function SameContainer(agent: string, name: Option<string>, image: string): Container -> bool {
    (r: Container) => r.agent == agent && r.name == name && r.image == image
  }

  // ── Ingestion ──────────────────────────────────────────────────────────────

  function NewFinding(v: Vuln, scan: nat, now: int): Finding {
    Finding(scan, KeyOf(v).0, KeyOf(v).1, Or(v.installed, "unknown"), v.fixedVersion, SeverityOf(v),
            if v.description == Some("") then None else v.description, Active, now, now)
  }

  function Refreshed(f: Finding, v: Vuln, scan: nat, now: int): Finding {
    f.(lastSeen := now, scan := scan,
       description := if v.description.Some? && v.description.value != "" then v.description else f.description)
  }

  /** One vulnerability: refresh the only ACTIVE row of its key or insert one; an error when several match. */
  function Upsert(fs: seq<Finding>, scans: seq<Scan>, c: nat, scan: nat, now: int, v: Vuln): Session<Finding> {
    match ScalarOneOrNone(fs, Matching(scans, c, KeyOf(v)))
    case NoRow => Done(fs + [NewFinding(v, scan, now)])
    case OneRow(i) => Done(fs[i := Refreshed(fs[i], v, scan, now)])
    case ManyRows => Stuck(fs)
  }

  function Ingest(fs: seq<Finding>, scans: seq<Scan>, c: nat, scan: nat, now: int, vs: seq<Vuln>)
    : Session<Finding>
    decreases |vs|
  {
    if vs == [] then Done(fs)
    else
      match Ingest(fs, scans, c, scan, now, vs[..|vs| - 1])
      case Stuck(fs') => Stuck(fs')
      case Done(fs') => Upsert(fs', scans, c, scan, now, vs[|vs| - 1])
  }

  function AfterFixing(f: Finding, scans: seq<Scan>, c: nat, keys: set<Key>, now: int): Finding {
    if ActiveOn(scans, f, c) && (f.cve, f.pkg) !in keys then f.(status := Fixed, lastSeen := now) else f
  }

  function MarkFixed(fs: seq<Finding>, scans: seq<Scan>, c: nat, keys: set<Key>, now: int): seq<Finding> {
    seq(|fs|, i requires 0 <= i < |fs| => AfterFixing(fs[i], scans, c, keys, now))
  }

  function Touched(r: Container, tag: Option<string>, digest: Option<string>, now: int): Container {
    r.(lastScanned := Some(now), tag := tag,
       digest := if digest.Some? && digest.value != "" then digest else r.digest)
  }

  /** A message is stored, or stops with an error that leaves `leftover` in the uncommitted session. */
  datatype Outcome = Stored(db: Db) | Rejected(leftover: Db)

  /** The database afterwards; `flushed` says whether the closing connection's last commit takes the leftover along. */
  function Committed(db: Db, out: Outcome, flushed: bool): Db {
    match out
    case Stored(db') => db'
    case Rejected(leftover) => if flushed then leftover else db
  }

  /** The container row a report goes to: an existing one, or the next new one. */
  function TargetOf(db: Db, found: Lookup): nat {
    if found.OneRow? then found.row else |db.containers|
  }

  function FindContainer(db: Db, agent: string, report: Report, name: Option<string>): Lookup {
    ScalarOneOrNone(db.containers, SameContainer(agent, name, SplitTag(Or(report.artifact, "unknown")).0))
  }

  function WithContainer(db: Db, found: Lookup, agent: string, report: Report, name: Option<string>, now: int)
    : seq<Container>
    requires found.OneRow? ==> found.row < |db.containers|
  {
    var (image, tag) := SplitTag(Or(report.artifact, "unknown"));
    if found.OneRow? then
      db.containers[found.row := Touched(db.containers[found.row], tag, report.digest, now)]
    else
      db.containers + [Touched(Container(agent, image, tag, name, report.digest, None), tag, report.digest, now)]
  }

  function ProcessScan(db: Db, agent: string, report: Report, name: Option<string>, now: int): Outcome {
    var found := FindContainer(db, agent, report, name);
    if found.ManyRows? then
      Rejected(db)
    else
      var c := TargetOf(db, found);
      var vs := Flatten(report.blocks);
      var scans := db.scans + [Scan(c, agent, now, Tally(vs))];
      var session := db.(containers := WithContainer(db, found, agent, report, name, now), scans := scans);
      match Ingest(db.findings, scans, c, |db.scans|, now, vs)
      case Stuck(fs) => Rejected(session.(findings := fs))
      case Done(fs) => Stored(session.(findings := MarkFixed(fs, scans, c, KeysOf(vs), now)))
  }

  // ── What ingestion means ───────────────────────────────────────────────────

  ghost predicate AtMostOneActive(fs: seq<Finding>, scans: seq<Scan>, c: nat, k: Key) {
    forall i, j :: 0 <= i < j < |fs| ==>
      !(Matches(scans, c, k, fs[i]) && Matches(scans, c, k, fs[j]))
  }

  /** Everything about a row that no scan may change. */
  predicate SameIdentity(f: Finding, g: Finding) {
    && f.cve == g.cve && f.pkg == g.pkg && f.installed == g.installed && f.fixedVersion == g.fixedVersion
    && f.severity == g.severity && f.firstSeen == g.firstSeen
  }

  /** The rows after upserting `keys`, before the mark-fixed pass: which rows changed, and how. */
  ghost predicate RowsUpserted(fs: seq<Finding>, fs': seq<Finding>, scans: seq<Scan>, c: nat, now: int,
                               keys: set<Key>) {
    && |fs| <= |fs'|
    && (forall i :: 0 <= i < |fs| ==>
          if ActiveOn(scans, fs[i], c) && (fs[i].cve, fs[i].pkg) in keys
          then SameIdentity(fs[i], fs'[i]) && ActiveOn(scans, fs'[i], c) && fs'[i].lastSeen == now
          else fs'[i] == fs[i])
    && (forall i :: |fs| <= i < |fs'| ==>
          && ActiveOn(scans, fs'[i], c) && (fs'[i].cve, fs'[i].pkg) in keys
          && fs'[i].firstSeen == fs'[i].lastSeen == now)
  }

  /** Every key of `keys` has exactly one ACTIVE row on `c`. */
  ghost predicate Covered(fs': seq<Finding>, scans: seq<Scan>, c: nat, keys: set<Key>) {
    && (forall k :: k in keys ==>
          && AtMostOneActive(fs', scans, c, k)
          && exists i :: 0 <= i < |fs'| && Matches(scans, c, k, fs'[i]))
  }

  ghost predicate Upserted(fs: seq<Finding>, fs': seq<Finding>, scans: seq<Scan>, c: nat, now: int, keys: set<Key>) {
    RowsUpserted(fs, fs', scans, c, now, keys) && Covered(fs', scans, c, keys)
  }

  lemma KeysOfOneMore(vs: seq<Vuln>)
    requires vs != []
    ensures KeysOf(vs) == KeysOf(vs[..|vs| - 1]) + {KeyOf(vs[|vs| - 1])}
  {
    assert vs == vs[..|vs| - 1] + [vs[|vs| - 1]];
  }

  /** Upserting other keys neither creates nor removes a match for `k`. */
  lemma OtherKeysKeepMatches(fs: seq<Finding>, mid: seq<Finding>, scans: seq<Scan>, c: nat, now: int, keys: set<Key>,
                             k: Key)
    requires Upserted(fs, mid, scans, c, now, keys) && k !in keys
    ensures AtMostOneActive(mid, scans, c, k) <==> AtMostOneActive(fs, scans, c, k)
  {
    forall i | 0 <= i < |mid|
      ensures Matches(scans, c, k, mid[i]) <==> i < |fs| && Matches(scans, c, k, fs[i])
    {
    }
  }

  lemma RefreshKeepsRows(fs: seq<Finding>, mid: seq<Finding>, scans: seq<Scan>, c: nat, scan: nat, now: int,
                         keys: set<Key>, v: Vuln, i: nat)
    requires scan < |scans| && scans[scan].container == c
    requires RowsUpserted(fs, mid, scans, c, now, keys)
    requires AtMostOneActive(mid, scans, c, KeyOf(v)) && i < |mid| && Matches(scans, c, KeyOf(v), mid[i])
    ensures RowsUpserted(fs, mid[i := Refreshed(mid[i], v, scan, now)], scans, c, now, keys + {KeyOf(v)})
  {
    var k, r := KeyOf(v), mid[i := Refreshed(mid[i], v, scan, now)];
    forall j | 0 <= j < |fs|
      ensures if ActiveOn(scans, fs[j], c) && (fs[j].cve, fs[j].pkg) in keys + {k}
              then SameIdentity(fs[j], r[j]) && ActiveOn(scans, r[j], c) && r[j].lastSeen == now
              else r[j] == fs[j]
    {
      assert Matches(scans, c, k, mid[j]) ==> !(i < j) && !(j < i);
    }
  }

  lemma RefreshCovers(mid: seq<Finding>, scans: seq<Scan>, c: nat, scan: nat, now: int, keys: set<Key>, v: Vuln, i: nat)
    requires scan < |scans| && scans[scan].container == c
    requires Covered(mid, scans, c, keys)
    requires AtMostOneActive(mid, scans, c, KeyOf(v)) && i < |mid| && Matches(scans, c, KeyOf(v), mid[i])
    ensures Covered(mid[i := Refreshed(mid[i], v, scan, now)], scans, c, keys + {KeyOf(v)})
  {
    var k, r := KeyOf(v), mid[i := Refreshed(mid[i], v, scan, now)];
    assert Matches(scans, c, k, r[i]);
    forall q | q in keys + {k}
      ensures AtMostOneActive(r, scans, c, q)
      ensures exists j :: 0 <= j < |r| && Matches(scans, c, q, r[j])
    {
      assert forall j :: 0 <= j < |r| ==> (Matches(scans, c, q, r[j]) <==> Matches(scans, c, q, mid[j]));
      if q != k {
        var j :| 0 <= j < |mid| && Matches(scans, c, q, mid[j]);
        assert Matches(scans, c, q, r[j]);
      }
    }
  }

  lemma InsertKeepsRows(fs: seq<Finding>, mid: seq<Finding>, scans: seq<Scan>, c: nat, scan: nat, now: int,
                        keys: set<Key>, v: Vuln)
    requires scan < |scans| && scans[scan].container == c
    requires RowsUpserted(fs, mid, scans, c, now, keys)
    requires forall i :: 0 <= i < |mid| ==> !Matches(scans, c, KeyOf(v), mid[i])
    ensures RowsUpserted(fs, mid + [NewFinding(v, scan, now)], scans, c, now, keys + {KeyOf(v)})
  {
    var k, r := KeyOf(v), mid + [NewFinding(v, scan, now)];
    forall j | 0 <= j < |fs|
      ensures if ActiveOn(scans, fs[j], c) && (fs[j].cve, fs[j].pkg) in keys + {k}
              then SameIdentity(fs[j], r[j]) && ActiveOn(scans, r[j], c) && r[j].lastSeen == now
              else r[j] == fs[j]
    {
      assert !Matches(scans, c, k, mid[j]);
    }
  }

  lemma InsertCovers(mid: seq<Finding>, scans: seq<Scan>, c: nat, scan: nat, now: int, keys: set<Key>, v: Vuln)
    requires scan < |scans| && scans[scan].container == c
    requires Covered(mid, scans, c, keys)
    requires forall i :: 0 <= i < |mid| ==> !Matches(scans, c, KeyOf(v), mid[i])
    ensures Covered(mid + [NewFinding(v, scan, now)], scans, c, keys + {KeyOf(v)})
  {
    var k, r, n := KeyOf(v), mid + [NewFinding(v, scan, now)], |mid|;
    assert Matches(scans, c, k, r[n]);
    forall q | q in keys + {k}
      ensures AtMostOneActive(r, scans, c, q)
      ensures exists j :: 0 <= j < |r| && Matches(scans, c, q, r[j])
    {
      if q != k {
        assert !Matches(scans, c, q, r[n]);
        var j :| 0 <= j < |mid| && Matches(scans, c, q, mid[j]);
        assert Matches(scans, c, q, r[j]);
      }
    }
  }

  lemma UpsertStep(fs: seq<Finding>, mid: seq<Finding>, scans: seq<Scan>, c: nat, scan: nat, now: int,
                   keys: set<Key>, v: Vuln)
    requires scan < |scans| && scans[scan].container == c
    requires Upserted(fs, mid, scans, c, now, keys)
    requires AtMostOneActive(mid, scans, c, KeyOf(v))
    ensures var r := Upsert(mid, scans, c, scan, now, v);
            r.Done? && Upserted(fs, r.rows, scans, c, now, keys + {KeyOf(v)})
  {
    var found := ScalarOneOrNone(mid, Matching(scans, c, KeyOf(v)));
    if found.OneRow? {
      RefreshKeepsRows(fs, mid, scans, c, scan, now, keys, v, found.row);
      RefreshCovers(mid, scans, c, scan, now, keys, v, found.row);
    } else {
      InsertKeepsRows(fs, mid, scans, c, scan, now, keys, v);
      InsertCovers(mid, scans, c, scan, now, keys, v);
    }
  }

  /** The upserts succeed on unambiguous keys, duplicates in the payload included. */
  lemma {:induction false} IngestUpserts(fs: seq<Finding>, scans: seq<Scan>, c: nat, scan: nat, now: int, vs: seq<Vuln>)
    requires scan < |scans| && scans[scan].container == c
    requires forall k :: k in KeysOf(vs) ==> AtMostOneActive(fs, scans, c, k)
    ensures var r := Ingest(fs, scans, c, scan, now, vs);
            r.Done? && Upserted(fs, r.rows, scans, c, now, KeysOf(vs))
    decreases |vs|
  {
    if vs != [] {
      var front, v := vs[..|vs| - 1], vs[|vs| - 1];
      KeysOfOneMore(vs);
      IngestUpserts(fs, scans, c, scan, now, front);
      var mid := Ingest(fs, scans, c, scan, now, front).rows;
      if KeyOf(v) !in KeysOf(front) {
        OtherKeysKeepMatches(fs, mid, scans, c, now, KeysOf(front), KeyOf(v));
      }
      UpsertStep(fs, mid, scans, c, scan, now, KeysOf(front), v);
    }
  }

  lemma AmbiguousStops(mid: seq<Finding>, scans: seq<Scan>, c: nat, scan: nat, now: int, v: Vuln)
    requires !AtMostOneActive(mid, scans, c, KeyOf(v))
    ensures Upsert(mid, scans, c, scan, now, v).Stuck?
  {
    assert ScalarOneOrNone(mid, Matching(scans, c, KeyOf(v))).ManyRows?;
  }

  /** One ambiguous key anywhere in the payload makes the whole ingestion fail. */
  lemma {:induction false} IngestFails(fs: seq<Finding>, scans: seq<Scan>, c: nat, scan: nat, now: int, vs: seq<Vuln>,
                                       k: Key)
    requires scan < |scans| && scans[scan].container == c
    requires k in KeysOf(vs) && !AtMostOneActive(fs, scans, c, k)
    ensures Ingest(fs, scans, c, scan, now, vs).Stuck?
    decreases |vs|
  {
    var front, v := vs[..|vs| - 1], vs[|vs| - 1];
    KeysOfOneMore(vs);
    if q :| q in KeysOf(front) && !AtMostOneActive(fs, scans, c, q) {
      IngestFails(fs, scans, c, scan, now, front, q);
    } else {
      IngestUpserts(fs, scans, c, scan, now, front);
      var mid := Ingest(fs, scans, c, scan, now, front).rows;
      OtherKeysKeepMatches(fs, mid, scans, c, now, KeysOf(front), k);
      AmbiguousStops(mid, scans, c, scan, now, v);
    }
  }

  /** Stopped or not, the upserts only refresh ACTIVE rows of the container and insert new ones. */
  lemma {:induction false} IngestRows(fs: seq<Finding>, scans: seq<Scan>, c: nat, scan: nat, now: int, vs: seq<Vuln>)
    returns (keys: set<Key>)
    requires scan < |scans| && scans[scan].container == c
    ensures RowsUpserted(fs, Ingest(fs, scans, c, scan, now, vs).rows, scans, c, now, keys)
    decreases |vs|
  {
    keys := {};
    if vs != [] {
      var front, v := vs[..|vs| - 1], vs[|vs| - 1];
      keys := IngestRows(fs, scans, c, scan, now, front);
      var mid := Ingest(fs, scans, c, scan, now, front);
      if mid.Done? {
        var found := ScalarOneOrNone(mid.rows, Matching(scans, c, KeyOf(v)));
        if found.OneRow? {
          RefreshKeepsRows(fs, mid.rows, scans, c, scan, now, keys, v, found.row);
          keys := keys + {KeyOf(v)};
        } else if found.NoRow? {
          InsertKeepsRows(fs, mid.rows, scans, c, scan, now, keys, v);
          keys := keys + {KeyOf(v)};
        }
      }
    }
  }

  // ── Row contents, read off the payload ─────────────────────────────────────

  /** Reference: the last non-empty description listed for a key, or the one there was before. */
  function LastDescription(vs: seq<Vuln>, k: Key, before: Option<string>): Option<string> {
    if vs == [] then before
    else
      var v := vs[|vs| - 1];
      if KeyOf(v) == k && v.description.Some? && v.description.value != "" then v.description
      else LastDescription(vs[..|vs| - 1], k, before)
  }

  lemma {:induction false} UnlistedDescription(vs: seq<Vuln>, k: Key, before: Option<string>)
    requires k !in KeysOf(vs)
    ensures LastDescription(vs, k, before) == before
  {
    if vs != [] {
      KeysOfOneMore(vs);
      UnlistedDescription(vs[..|vs| - 1], k, before);
    }
  }

  /** Reference: the first entry listed for a key. */
  function FirstListed(vs: seq<Vuln>, k: Key): (v: Vuln)
    requires k in KeysOf(vs)
    ensures exists i :: 0 <= i < |vs| && vs[i] == v && KeyOf(v) == k && forall j :: 0 <= j < i ==> KeyOf(vs[j]) != k
  {
    var front, last := vs[..|vs| - 1], vs[|vs| - 1];
    assert vs == front + [last];
    if k in KeysOf(front) then
      var v := FirstListed(front, k);
      assert forall i :: 0 <= i < |front| ==> front[i] == vs[i];
      v
    else
      assert forall j :: 0 <= j < |front| ==> vs[j] in front;
      last
  }

  function RefreshedRow(f: Finding, vs: seq<Vuln>, scan: nat, now: int): Finding {
    f.(scan := scan, lastSeen := now, description := LastDescription(vs, (f.cve, f.pkg), f.description))
  }

  function ListedRow(vs: seq<Vuln>, k: Key, scan: nat, now: int): Finding
    requires k in KeysOf(vs)
  {
    var v := FirstListed(vs, k);
    Finding(scan, k.0, k.1, Or(v.installed, "unknown"), v.fixedVersion, SeverityOf(v),
            LastDescription(vs, k, None), Active, now, now)
  }

  /** The rows after upserting `vs`, column by column. */
  ghost predicate RowsExact(fs: seq<Finding>, fs': seq<Finding>, scans: seq<Scan>, c: nat, scan: nat, now: int,
                            vs: seq<Vuln>) {
    && |fs| <= |fs'|
    && (forall i :: 0 <= i < |fs| ==>
          fs'[i] == if ActiveOn(scans, fs[i], c) && (fs[i].cve, fs[i].pkg) in KeysOf(vs)
                    then RefreshedRow(fs[i], vs, scan, now) else fs[i])
    && (forall i :: |fs| <= i < |fs'| ==>
          (fs'[i].cve, fs'[i].pkg) in KeysOf(vs) && fs'[i] == ListedRow(vs, (fs'[i].cve, fs'[i].pkg), scan, now))
  }

  /** Entries of other keys do not change what the payload says about `k`. */
  lemma OtherKey(vs: seq<Vuln>, k: Key, before: Option<string>)
    requires vs != [] && KeyOf(vs[|vs| - 1]) != k
    ensures k in KeysOf(vs) <==> k in KeysOf(vs[..|vs| - 1])
    ensures LastDescription(vs, k, before) == LastDescription(vs[..|vs| - 1], k, before)
    ensures k in KeysOf(vs) ==> FirstListed(vs, k) == FirstListed(vs[..|vs| - 1], k)
  {
    KeysOfOneMore(vs);
  }

  lemma OtherRowsExact(fs: seq<Finding>, mid: seq<Finding>, scans: seq<Scan>, c: nat, scan: nat, now: int,
                       vs: seq<Vuln>, j: nat)
    requires scan < |scans| && scans[scan].container == c && vs != []
    requires RowsExact(fs, mid, scans, c, scan, now, vs[..|vs| - 1])
    requires j < |mid| && !Matches(scans, c, KeyOf(vs[|vs| - 1]), mid[j])
    ensures j < |fs| ==>
      mid[j] == if ActiveOn(scans, fs[j], c) && (fs[j].cve, fs[j].pkg) in KeysOf(vs)
                then RefreshedRow(fs[j], vs, scan, now) else fs[j]
    ensures j >= |fs| ==>
      (mid[j].cve, mid[j].pkg) in KeysOf(vs) && mid[j] == ListedRow(vs, (mid[j].cve, mid[j].pkg), scan, now)
  {
    KeysOfOneMore(vs);
    var k := (mid[j].cve, mid[j].pkg);
    if k != KeyOf(vs[|vs| - 1]) {
      OtherKey(vs, k, if j < |fs| then fs[j].description else None);
    }
  }

  lemma RefreshIsExact(fs: seq<Finding>, mid: seq<Finding>, scans: seq<Scan>, c: nat, scan: nat, now: int,
                       vs: seq<Vuln>, i: nat)
    requires scan < |scans| && scans[scan].container == c && vs != []
    requires RowsExact(fs, mid, scans, c, scan, now, vs[..|vs| - 1])
    requires AtMostOneActive(mid, scans, c, KeyOf(vs[|vs| - 1]))
    requires i < |mid| && Matches(scans, c, KeyOf(vs[|vs| - 1]), mid[i])
    ensures RowsExact(fs, mid[i := Refreshed(mid[i], vs[|vs| - 1], scan, now)], scans, c, scan, now, vs)
  {
    var front, v := vs[..|vs| - 1], vs[|vs| - 1];
    var k, r := KeyOf(v), mid[i := Refreshed(mid[i], v, scan, now)];
    KeysOfOneMore(vs);
    if k !in KeysOf(front) {
      UnlistedDescription(front, k, mid[i].description);
    }
    forall j: nat | j < |mid| && j != i ensures !Matches(scans, c, k, mid[j]) {
      assert !(i < j && Matches(scans, c, k, mid[j])) && !(j < i && Matches(scans, c, k, mid[j]));
    }
    forall j: nat | j < |mid| && j != i {
      OtherRowsExact(fs, mid, scans, c, scan, now, vs, j);
    }
  }

  lemma InsertIsExact(fs: seq<Finding>, mid: seq<Finding>, scans: seq<Scan>, c: nat, scan: nat, now: int, vs: seq<Vuln>)
    requires scan < |scans| && scans[scan].container == c && vs != []
    requires RowsExact(fs, mid, scans, c, scan, now, vs[..|vs| - 1])
    requires KeyOf(vs[|vs| - 1]) !in KeysOf(vs[..|vs| - 1])
    requires forall j :: 0 <= j < |mid| ==> !Matches(scans, c, KeyOf(vs[|vs| - 1]), mid[j])
    ensures RowsExact(fs, mid + [NewFinding(vs[|vs| - 1], scan, now)], scans, c, scan, now, vs)
  {
    var front, v := vs[..|vs| - 1], vs[|vs| - 1];
    KeysOfOneMore(vs);
    UnlistedDescription(front, KeyOf(v), None);
    forall j: nat | j < |mid| {
      OtherRowsExact(fs, mid, scans, c, scan, now, vs, j);
    }
  }

  lemma {:induction false} IngestIsExact(fs: seq<Finding>, scans: seq<Scan>, c: nat, scan: nat, now: int, vs: seq<Vuln>)
    requires scan < |scans| && scans[scan].container == c
    requires forall k :: k in KeysOf(vs) ==> AtMostOneActive(fs, scans, c, k)
    ensures RowsExact(fs, Ingest(fs, scans, c, scan, now, vs).rows, scans, c, scan, now, vs)
    decreases |vs|
  {
    if vs != [] {
      var front, v := vs[..|vs| - 1], vs[|vs| - 1];
      KeysOfOneMore(vs);
      IngestIsExact(fs, scans, c, scan, now, front);
      IngestUpserts(fs, scans, c, scan, now, front);
      var mid := Ingest(fs, scans, c, scan, now, front).rows;
      if KeyOf(v) !in KeysOf(front) {
        OtherKeysKeepMatches(fs, mid, scans, c, now, KeysOf(front), KeyOf(v));
      }
      var found := ScalarOneOrNone(mid, Matching(scans, c, KeyOf(v)));
      if found.OneRow? {
        RefreshIsExact(fs, mid, scans, c, scan, now, vs, found.row);
      } else {
        InsertIsExact(fs, mid, scans, c, scan, now, vs);
      }
    }
  }

  // ── Whole messages ─────────────────────────────────────────────────────────

  /** References between the tables resolve. */
  ghost predicate NoDangling(db: Db) {
    && (forall i :: 0 <= i < |db.scans| ==> db.scans[i].container < |db.containers|)
    && (forall i :: 0 <= i < |db.findings| ==> db.findings[i].scan < |db.scans|)
    && (forall i :: 0 <= i < |db.misconfigs| ==> db.misconfigs[i].container < |db.containers|)
    && (forall a :: a in db.acceptances ==> a < db.nextAcceptance && SubjectExists(db, db.acceptances[a].subject))
  }

  /** The unique key of the container table: agent, name and image, where NULL names never clash. */
  ghost predicate NamedUnique(db: Db) {
    forall i, j :: 0 <= i < j < |db.containers| && db.containers[i].name.Some? ==>
      || db.containers[i].agent != db.containers[j].agent || db.containers[i].name != db.containers[j].name
      || db.containers[i].image != db.containers[j].image
  }

  predicate SubjectExists(db: Db, s: Subject) {
    match s
    case OnFinding(i) => i < |db.findings|
    case OnMisconfig(i) => i < |db.misconfigs|
  }

  /** `db'` is `db` with container `c` brought in line with the keys of one report. */
  ghost predicate Reconciled(db: Db, db': Db, c: nat, now: int, keys: set<Key>) {
    && |db.findings| <= |db'.findings|
    && (forall i :: 0 <= i < |db.findings| ==>
          var f, f' := db.findings[i], db'.findings[i];
          if ActiveOn(db.scans, f, c) then
            && SameIdentity(f, f') && OnContainer(db'.scans, f', c) && f'.lastSeen == now
            && f'.status == if (f.cve, f.pkg) in keys then Active else Fixed
          else
            f' == f)
    && (forall i :: |db.findings| <= i < |db'.findings| ==>
          var f' := db'.findings[i];
          ActiveOn(db'.scans, f', c) && (f'.cve, f'.pkg) in keys && f'.firstSeen == f'.lastSeen == now)
    && (forall k :: k in keys <==> exists i :: 0 <= i < |db'.findings| && Matches(db'.scans, c, k, db'.findings[i]))
    && (forall k :: AtMostOneActive(db'.findings, db'.scans, c, k))
  }

  /** The container a scan message addresses. */
  function ScanTarget(db: Db, agent: string, report: Report, name: Option<string>): nat {
    TargetOf(db, FindContainer(db, agent, report, name))
  }

  lemma FixingLeavesKeys(fs: seq<Finding>, scans: seq<Scan>, c: nat, now: int, keys: set<Key>, k: Key)
    requires Covered(fs, scans, c, keys)
    ensures var fs' := MarkFixed(fs, scans, c, keys, now);
      && (k in keys <==> exists i :: 0 <= i < |fs'| && Matches(scans, c, k, fs'[i]))
      && AtMostOneActive(fs', scans, c, k)
  {
    var fs' := MarkFixed(fs, scans, c, keys, now);
    assert forall i :: 0 <= i < |fs| && Matches(scans, c, k, fs'[i]) ==> k in keys && Matches(scans, c, k, fs[i]);
    if k in keys {
      var i :| 0 <= i < |fs| && Matches(scans, c, k, fs[i]);
      assert fs'[i] == fs[i];
    }
  }

  lemma FixingReconciles(db: Db, fs: seq<Finding>, db': Db, c: nat, now: int, keys: set<Key>)
    requires db.scans <= db'.scans && forall i :: 0 <= i < |db.findings| ==> db.findings[i].scan < |db.scans|
    requires Upserted(db.findings, fs, db'.scans, c, now, keys)
    requires db'.findings == MarkFixed(fs, db'.scans, c, keys, now)
    ensures Reconciled(db, db', c, now, keys)
  {
    forall i | 0 <= i < |db.findings|
      ensures ActiveOn(db.scans, db.findings[i], c) <==> ActiveOn(db'.scans, db.findings[i], c)
    {
    }
    forall k
      ensures k in keys <==> exists i :: 0 <= i < |db'.findings| && Matches(db'.scans, c, k, db'.findings[i])
      ensures AtMostOneActive(db'.findings, db'.scans, c, k)
    {
      FixingLeavesKeys(fs, db'.scans, c, now, keys, k);
    }
  }

  /**
   * A scan message is stored exactly when its container lookup is unambiguous and no key it lists
   * has several ACTIVE rows there; then the container is reconciled with the report, whatever
   * duplicates the report contains, and the scan's counts add up to the vulnerabilities listed.
   */
  lemma ScanReconciles(db: Db, agent: string, report: Report, name: Option<string>, now: int)
    requires NoDangling(db)
    ensures var c, vs := ScanTarget(db, agent, report, name), Flatten(report.blocks);
            var r := ProcessScan(db, agent, report, name, now);
      && (r.Stored? <==> && !FindContainer(db, agent, report, name).ManyRows?
                         && forall k :: k in KeysOf(vs) ==> AtMostOneActive(db.findings, db.scans, c, k))
      && (r.Stored? ==>
            && Reconciled(db, r.db, c, now, KeysOf(vs))
            && r.db.scans == db.scans + [r.db.scans[|db.scans|]]
            && r.db.scans[|db.scans|].container == c && r.db.scans[|db.scans|].at == now
            && r.db.scans[|db.scans|].agent == agent
            && r.db.scans[|db.scans|].counts == Counts(Listed(vs, Critical), Listed(vs, High), Listed(vs, Medium),
                                                       Listed(vs, Low), Listed(vs, Unknown))
            && Total(r.db.scans[|db.scans|].counts) == |vs|)
  {
    var c, vs := ScanTarget(db, agent, report, name), Flatten(report.blocks);
    var scans := db.scans + [Scan(c, agent, now, Tally(vs))];
    TallyCountsAll(vs);
    TallyBySeverity(vs);
    forall k ensures AtMostOneActive(db.findings, scans, c, k) <==> AtMostOneActive(db.findings, db.scans, c, k) {
      SameActiveKeys(db, scans, c, k);
    }
    if k :| k in KeysOf(vs) && !AtMostOneActive(db.findings, db.scans, c, k) {
      IngestFails(db.findings, scans, c, |db.scans|, now, vs, k);
    } else {
      IngestUpserts(db.findings, scans, c, |db.scans|, now, vs);
      var r := ProcessScan(db, agent, report, name, now);
      if r.Stored? {
        FixingReconciles(db, Ingest(db.findings, scans, c, |db.scans|, now, vs).rows, r.db, c, now, KeysOf(vs));
      }
    }
  }

  /** Reference: the fate of one row when a scan of `c` lists `vs`. */
  function Fate(db: Db, f: Finding, c: nat, vs: seq<Vuln>, now: int): Finding {
    if !ActiveOn(db.scans, f, c) then f
    else if (f.cve, f.pkg) in KeysOf(vs) then RefreshedRow(f, vs, |db.scans|, now)
    else f.(status := Fixed, lastSeen := now)
  }

  lemma SameActiveKeys(db: Db, scans: seq<Scan>, c: nat, k: Key)
    requires db.scans <= scans && forall i :: 0 <= i < |db.findings| ==> db.findings[i].scan < |db.scans|
    ensures AtMostOneActive(db.findings, scans, c, k) <==> AtMostOneActive(db.findings, db.scans, c, k)
  {
    assert forall i :: 0 <= i < |db.findings| ==>
      (Matches(scans, c, k, db.findings[i]) <==> Matches(db.scans, c, k, db.findings[i]));
  }

  lemma FixingIsFate(db: Db, mid: seq<Finding>, scans: seq<Scan>, c: nat, now: int, vs: seq<Vuln>)
    requires db.scans <= scans && |db.scans| < |scans| && scans[|db.scans|].container == c
    requires forall i :: 0 <= i < |db.findings| ==> db.findings[i].scan < |db.scans|
    requires RowsExact(db.findings, mid, scans, c, |db.scans|, now, vs)
    ensures var fs' := MarkFixed(mid, scans, c, KeysOf(vs), now);
      && |db.findings| <= |fs'|
      && (forall i :: 0 <= i < |db.findings| ==> fs'[i] == Fate(db, db.findings[i], c, vs, now))
      && (forall i :: |db.findings| <= i < |fs'| ==>
            && (fs'[i].cve, fs'[i].pkg) in KeysOf(vs)
            && fs'[i] == ListedRow(vs, (fs'[i].cve, fs'[i].pkg), |db.scans|, now))
  {
    forall i | 0 <= i < |db.findings|
      ensures ActiveOn(db.scans, db.findings[i], c) <==> ActiveOn(scans, db.findings[i], c)
    {
    }
  }

  /**
   * A stored scan decides every row of the table from the payload alone: the ACTIVE rows of the
   * container are refreshed or FIXED, the new rows are the first listings of their keys, and
   * repeated entries contribute the last non-empty description.
   */
  lemma ScanDecidesRows(db: Db, agent: string, report: Report, name: Option<string>, now: int)
    requires NoDangling(db) && ProcessScan(db, agent, report, name, now).Stored?
    ensures var c, vs := ScanTarget(db, agent, report, name), Flatten(report.blocks);
            var fs' := ProcessScan(db, agent, report, name, now).db.findings;
      && |db.findings| <= |fs'|
      && (forall i :: 0 <= i < |db.findings| ==> fs'[i] == Fate(db, db.findings[i], c, vs, now))
      && (forall i :: |db.findings| <= i < |fs'| ==>
            && (fs'[i].cve, fs'[i].pkg) in KeysOf(vs)
            && fs'[i] == ListedRow(vs, (fs'[i].cve, fs'[i].pkg), |db.scans|, now))
  {
    var c, vs := ScanTarget(db, agent, report, name), Flatten(report.blocks);
    var scans := db.scans + [Scan(c, agent, now, Tally(vs))];
    ScanReconciles(db, agent, report, name, now);
    forall k ensures AtMostOneActive(db.findings, scans, c, k) <==> AtMostOneActive(db.findings, db.scans, c, k) {
      SameActiveKeys(db, scans, c, k);
    }
    IngestIsExact(db.findings, scans, c, |db.scans|, now, vs);
    FixingIsFate(db, Ingest(db.findings, scans, c, |db.scans|, now, vs).rows, scans, c, now, vs);
  }

  /** The scanned container carries the report's name, tag and time, and its digest unless the report has none. */
  lemma ScanRefreshesContainer(db: Db, agent: string, report: Report, name: Option<string>, now: int)
    requires ProcessScan(db, agent, report, name, now).Stored?
    ensures var c, rows := ScanTarget(db, agent, report, name), ProcessScan(db, agent, report, name, now).db.containers;
            var (image, tag) := SplitTag(Or(report.artifact, "unknown"));
      && c < |rows| && rows[c].agent == agent && rows[c].name == name && rows[c].image == image && rows[c].tag == tag
      && rows[c].lastScanned == Some(now)
      && rows[c].digest == (if report.digest.Some? && report.digest.value != "" then report.digest
                            else if c < |db.containers| then db.containers[c].digest
                            else report.digest)
  {
    var found := FindContainer(db, agent, report, name);
    assert found.OneRow? ==>
      SameContainer(agent, name, SplitTag(Or(report.artifact, "unknown")).0)(db.containers[found.row]);
  }

  /** After a stored scan no other row is the scanned container. */
  lemma ScannedRowIsAlone(db: Db, agent: string, report: Report, name: Option<string>, now: int, i: nat)
    requires ProcessScan(db, agent, report, name, now).Stored?
    requires var db' := ProcessScan(db, agent, report, name, now).db;
             && i < |db'.containers|
             && SameContainer(agent, name, SplitTag(Or(report.artifact, "unknown")).0)(db'.containers[i])
    ensures i == ScanTarget(db, agent, report, name)
  {
    assert !FindContainer(db, agent, report, name).ManyRows?;
  }

  /** Later scans of the image find that row again. */
  lemma FoundAgain(db: Db, agent: string, report: Report, name: Option<string>, now: int, again: Report)
    requires ProcessScan(db, agent, report, name, now).Stored?
    requires SplitTag(Or(again.artifact, "unknown")).0 == SplitTag(Or(report.artifact, "unknown")).0
    ensures FindContainer(ProcessScan(db, agent, report, name, now).db, agent, again, name)
            == OneRow(ScanTarget(db, agent, report, name))
  {
    var db', c := ProcessScan(db, agent, report, name, now).db, ScanTarget(db, agent, report, name);
    var image := SplitTag(Or(report.artifact, "unknown")).0;
    ScanRefreshesContainer(db, agent, report, name, now);
    assert SameContainer(agent, name, image)(db'.containers[c]);
    forall i: nat | i < |db'.containers| && SameContainer(agent, name, image)(db'.containers[i]) ensures i == c {
      ScannedRowIsAlone(db, agent, report, name, now, i);
    }
  }

  lemma ContainerTableGrows(db: Db, agent: string, report: Report, name: Option<string>, now: int)
    ensures var found := FindContainer(db, agent, report, name);
            var c, rows := TargetOf(db, found), WithContainer(db, found, agent, report, name, now);
      && c < |rows| && |db.containers| <= |rows| <= |db.containers| + 1
      && (forall i :: 0 <= i < |db.containers| && i != c ==> rows[i] == db.containers[i])
  {
  }

  /** Rows whose scan is an old one, or the one just appended for container `c`. */
  lemma ReferencesHold(db: Db, db': Db, c: nat)
    requires NoDangling(db) && c < |db'.containers| && |db.containers| <= |db'.containers|
    requires |db'.scans| == |db.scans| + 1 && db.scans <= db'.scans && db'.scans[|db.scans|].container == c
    requires |db.findings| <= |db'.findings|
    requires forall i :: 0 <= i < |db'.findings| ==>
      db'.findings[i].scan == |db.scans| || (i < |db.findings| && db'.findings[i].scan == db.findings[i].scan)
    requires db'.misconfigs == db.misconfigs && db'.acceptances == db.acceptances
    requires db'.nextAcceptance == db.nextAcceptance
    ensures NoDangling(db')
  {
  }

  /** A stored scan leaves other containers and the other tables as they were, and every reference resolved. */
  lemma ScanTouchesOnlyItsContainer(db: Db, agent: string, report: Report, name: Option<string>, now: int)
    requires NoDangling(db) && ProcessScan(db, agent, report, name, now).Stored?
    ensures var c, db' := ScanTarget(db, agent, report, name), ProcessScan(db, agent, report, name, now).db;
      && NoDangling(db')
      && db'.misconfigs == db.misconfigs && db'.acceptances == db.acceptances
      && c < |db'.containers| && |db.containers| <= |db'.containers| <= |db.containers| + 1
      && (forall i :: 0 <= i < |db.containers| && i != c ==> db'.containers[i] == db.containers[i])
  {
    var c, db' := ScanTarget(db, agent, report, name), ProcessScan(db, agent, report, name, now).db;
    ContainerTableGrows(db, agent, report, name, now);
    IngestKeepsScans(db.findings, db'.scans, c, |db.scans|, now, Flatten(report.blocks));
    ReferencesHold(db, db', c);
  }

  /** `db'` is `db` after a scan of `c` at `now` that listed `keys`. */
  ghost predicate Scanned(db: Db, db': Db, c: nat, now: int, keys: set<Key>) {
    && NoDangling(db) && NoDangling(db') && db.scans <= db'.scans
    && Reconciled(db, db', c, now, keys)
  }

  lemma StoredIsScanned(db: Db, agent: string, report: Report, name: Option<string>, now: int)
    requires NoDangling(db) && ProcessScan(db, agent, report, name, now).Stored?
    ensures Scanned(db, ProcessScan(db, agent, report, name, now).db, ScanTarget(db, agent, report, name), now,
                    KeysOf(Flatten(report.blocks)))
  {
    ScanReconciles(db, agent, report, name, now);
    ScanTouchesOnlyItsContainer(db, agent, report, name, now);
  }

  /** Scans move a row between scans of one container, never between containers. */
  lemma RowKeepsContainer(db: Db, db': Db, c: nat, now: int, keys: set<Key>, i: nat, d: nat)
    requires Scanned(db, db', c, now, keys) && i < |db.findings|
    ensures OnContainer(db'.scans, db'.findings[i], d) <==> OnContainer(db.scans, db.findings[i], d)
  {
    assert ActiveOn(db.scans, db.findings[i], c) || db'.findings[i] == db.findings[i];
  }

  lemma ElsewhereUnchanged(db: Db, db': Db, c: nat, now: int, keys: set<Key>, i: nat, d: nat, k: Key)
    requires Scanned(db, db', c, now, keys) && d != c && i < |db'.findings|
    ensures Matches(db'.scans, d, k, db'.findings[i]) ==> i < |db.findings| && Matches(db.scans, d, k, db.findings[i])
  {
    if i < |db.findings| {
      RowKeepsContainer(db, db', c, now, keys, i, d);
    }
  }

  lemma {:induction false} IngestKeepsScans(fs: seq<Finding>, scans: seq<Scan>, c: nat, scan: nat, now: int,
                                            vs: seq<Vuln>)
    ensures var r := Ingest(fs, scans, c, scan, now, vs);
            |fs| <= |r.rows| && forall i :: 0 <= i < |r.rows| ==>
              r.rows[i].scan == scan || (i < |fs| && r.rows[i].scan == fs[i].scan)
    decreases |vs|
  {
    if vs != [] {
      IngestKeepsScans(fs, scans, c, scan, now, vs[..|vs| - 1]);
    }
  }

  lemma StoppedSession(db: Db, agent: string, report: Report, name: Option<string>, now: int) returns (scans: seq<Scan>)
    requires ProcessScan(db, agent, report, name, now).Rejected?
    requires !FindContainer(db, agent, report, name).ManyRows?
    ensures var found := FindContainer(db, agent, report, name);
            var c, left := TargetOf(db, found), ProcessScan(db, agent, report, name, now).leftover;
      && scans == db.scans + [Scan(c, agent, now, Tally(Flatten(report.blocks)))]
      && left == db.(containers := WithContainer(db, found, agent, report, name, now), scans := scans,
                     findings := Ingest(db.findings, scans, c, |db.scans|, now, Flatten(report.blocks)).rows)
  {
    scans := db.scans + [Scan(ScanTarget(db, agent, report, name), agent, now, Tally(Flatten(report.blocks)))];
  }

  /** What a rejected scan may leave behind: no status of an existing row, and nothing outside the scan's own rows. */
  lemma LeftoverIsConsistent(db: Db, agent: string, report: Report, name: Option<string>, now: int)
    requires NoDangling(db) && ProcessScan(db, agent, report, name, now).Rejected?
    ensures var left := ProcessScan(db, agent, report, name, now).leftover;
      && NoDangling(left) && left.misconfigs == db.misconfigs && left.acceptances == db.acceptances
      && |db.findings| <= |left.findings|
      && (forall i :: 0 <= i < |db.findings| ==>
            left.findings[i].status == db.findings[i].status && SameIdentity(db.findings[i], left.findings[i]))
      && (forall i :: |db.findings| <= i < |left.findings| ==> left.findings[i].status == Active)
  {
    if !FindContainer(db, agent, report, name).ManyRows? {
      var c, vs := ScanTarget(db, agent, report, name), Flatten(report.blocks);
      var scans := StoppedSession(db, agent, report, name, now);
      var _ := IngestRows(db.findings, scans, c, |db.scans|, now, vs);
      IngestKeepsScans(db.findings, scans, c, |db.scans|, now, vs);
      ContainerTableGrows(db, agent, report, name, now);
      ReferencesHold(db, ProcessScan(db, agent, report, name, now).leftover, c);
    }
  }
}
