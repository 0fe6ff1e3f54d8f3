/**
 * The agent's result cache and scan cycle. One store serves two purposes: skipping images whose
 * digest has not changed, and re-sending results the hub never received.
 */
module Agent {
  import opened Common

  // ── Cache files ────────────────────────────────────────────────────────────

  /** [\w.-] restricted to ASCII. */
  predicate SafeChar(c: char) {
    || 'a' <= c <= 'z' || 'A' <= c <= 'Z' || '0' <= c <= '9'
    || c == '_' || c == '.' || c == '-'
  }

  function Sanitized(image: string): (s: string) {
    seq(|image|, i requires 0 <= i < |image| => if SafeChar(image[i]) then image[i] else '_')
  }

  function SafeFilename(image: string): string {
    var s := Sanitized(image);
    (if |s| > 200 then s[..200] else s) + ".json"
  }

  /** A character that the file name keeps apart from every other character. */
  predicate Plain(c: char) {
    'A' <= c <= 'Z' || 'a' <= c <= 'z' || '0' <= c <= '9' || c == '.' || c == '-'
  }

  predicate Alike(c: char, d: char) {
    c == d || (!Plain(c) && !Plain(d))
  }

  /** How much of a name counts. */
  function Reach(x: string): nat {
    if |x| < 200 then |x| else 200
  }

  /** The first 200 characters of the names are as many and pairwise alike. */
  ghost predicate SameFile(x: string, y: string) {
    Reach(x) == Reach(y) && forall i :: 0 <= i < Reach(x) ==> Alike(x[i], y[i])
  }

  /** Two image names share a cache file exactly when their first 200 characters say so. */
  lemma SameFileIff(x: string, y: string)
    ensures SafeFilename(x) == SafeFilename(y) <==> SameFile(x, y)
  {
    var fx, fy := SafeFilename(x), SafeFilename(y);
    var sx, sy := fx[..Reach(x)], fy[..Reach(y)];
    assert fx == sx + ".json" && fy == sy + ".json";
    assert fx == fy <==> sx == sy;
    forall i | 0 <= i < Reach(x) && i < Reach(y) ensures sx[i] == sy[i] <==> Alike(x[i], y[i]) {
    }
    if SameFile(x, y) {
      assert sx == sy;
    }
  }

  /** A Trivy report; `artifact` echoes the scanned image name. */
  datatype Report = Report(artifact: string, body: string)

  datatype Payload = Payload(report: Report, container: Option<string>)

  datatype Entry = Entry(payload: Payload, digest: string, scannedAt: int)

  type Cache = map<string, Entry>  // by file name

  // ── Agent state ────────────────────────────────────────────────────────────

  /** One finished scan, as it was saved. Kept only as history. */
  datatype Save = Save(image: string, payload: Payload, at: int)

  /** A scan result the hub took, `after` saves had been made. Kept only as history. */
  datatype Delivery = Delivery(payload: Payload, after: nat)

  datatype AgentState = AgentState(cache: Cache, sent: seq<Delivery>, saves: seq<Save>)

  const FRESH_AGENT := AgentState(map[], [], [])

  /** One row of the running-container list. */
  datatype Running = Running(image: string, container: string, digest: string)

  /** What becomes of scanning one image: Trivy fails, or a report is saved and its send goes well or not. */
  datatype Trial = Failed | Scanned(body: string, at: int, delivered: bool)

  /** First container of each image wins. */
  function Dedup(rows: seq<Running>): map<string, Running> {
    if rows == [] then map[]
    else
      var front, last := Dedup(rows[..|rows| - 1]), rows[|rows| - 1];
      if last.image in front then front else front[last.image := last]
  }

  /** The image names in order of first appearance. */
  function ImageNames(rows: seq<Running>): (names: seq<string>)
    ensures forall i, j :: 0 <= i < j < |names| ==> names[i] != names[j]
    ensures forall n :: n in names <==> n in Dedup(rows)
  {
    if rows == [] then []
    else
      var front, last := ImageNames(rows[..|rows| - 1]), rows[|rows| - 1];
      if last.image in Dedup(rows[..|rows| - 1]) then front else front + [last.image]
  }

  predicate Stale(cache: Cache, image: string, now: int, maxAgeDays: nat) {
    var f := SafeFilename(image);
    f !in cache || now - cache[f].scannedAt >= maxAgeDays * DAY
  }

  function CachedDigest(cache: Cache, image: string): string {
    var f := SafeFilename(image);
    if f in cache then cache[f].digest else ""
  }

  predicate Skips(cache: Cache, r: Running, now: int, maxAgeDays: nat) {
    r.digest != "" && r.digest == CachedDigest(cache, r.image) && !Stale(cache, r.image, now, maxAgeDays)
  }

  /** The images of `names` that must be scanned. */
  function ToScan(cache: Cache, rows: map<string, Running>, names: seq<string>, now: int, maxAgeDays: nat)
    : (todo: seq<string>)
    requires forall n :: n in names ==> n in rows
    ensures forall n :: n in todo <==> n in names && !Skips(cache, rows[n], now, maxAgeDays)
  {
    if names == [] then []
    else
      var k := |names| - 1;
      assert names == names[..k] + [names[k]];
      ToScan(cache, rows, names[..k], now, maxAgeDays)
      + (if Skips(cache, rows[names[k]], now, maxAgeDays) then [] else [names[k]])
  }

  /** Save first, then try to send. */
  function SaveAndSend(s: AgentState, r: Running, t: Trial): AgentState {
    match t
    case Failed => s
    case Scanned(body, at, delivered) =>
      var p := Payload(Report(r.image, body), Some(r.container));
      AgentState(
        s.cache[SafeFilename(r.image) := Entry(p, r.digest, at)],
        if delivered then s.sent + [Delivery(p, |s.saves| + 1)] else s.sent,
        s.saves + [Save(r.image, p, at)])
  }

  function TrialOf(trials: map<string, Trial>, image: string): Trial {
    if image in trials then trials[image] else Failed
  }

  function ScanAll(s: AgentState, rows: map<string, Running>, todo: seq<string>, trials: map<string, Trial>): AgentState
    requires forall n :: n in todo ==> n in rows
    decreases |todo|
  {
    if todo == [] then s
    else
      var k := |todo| - 1;
      SaveAndSend(ScanAll(s, rows, todo[..k], trials), rows[todo[k]], TrialOf(trials, todo[k]))
  }

  function Cycle(s: AgentState, rows: seq<Running>, now: int, maxAgeDays: nat, trials: map<string, Trial>): AgentState {
    ScanAll(s, Dedup(rows), ToScan(s.cache, Dedup(rows), ImageNames(rows), now, maxAgeDays), trials)
  }

  /** Re-send the entries of `files` as they were listed at the start, clearing each one that got through. */
  function FlushAll(s: AgentState, listed: Cache, files: seq<string>, delivered: set<string>): AgentState
    decreases |files|
  {
    if files == [] then s
    else
      var k := |files| - 1;
      var s' := FlushAll(s, listed, files[..k], delivered);
      var f := files[k];
      if f in listed && f in delivered then
        var p := listed[f].payload;
        s'.(sent := s'.sent + [Delivery(p, |s'.saves|)], cache := s'.cache - {SafeFilename(p.report.artifact)})
      else s'
  }

  function Flush(s: AgentState, files: seq<string>, delivered: set<string>): AgentState {
    FlushAll(s, s.cache, files, delivered)
  }

  datatype Event =
    | CycleAt(rows: seq<Running>, now: int, trials: map<string, Trial>)
    | Reconnect(files: seq<string>, delivered: set<string>)  // the flush of the handshake

  function Next(s: AgentState, e: Event, maxAgeDays: nat): AgentState {
    match e
    case CycleAt(rows, now, trials) => Cycle(s, rows, now, maxAgeDays, trials)
    case Reconnect(files, delivered) => Flush(s, files, delivered)
  }

  function Run(es: seq<Event>, maxAgeDays: nat): AgentState {
    if es == [] then FRESH_AGENT
    else Next(Run(es[..|es| - 1], maxAgeDays), es[|es| - 1], maxAgeDays)
  }

  // ── Deduplication ──────────────────────────────────────────────────────────

  /** The deduplicated row of an image is the first one listed for it. */
  lemma {:induction false} FirstContainerWins(rows: seq<Running>, image: string)
    ensures image in Dedup(rows) <==> exists i :: 0 <= i < |rows| && rows[i].image == image
    ensures image in Dedup(rows) ==>
      exists i :: 0 <= i < |rows| && rows[i] == Dedup(rows)[image] && rows[i].image == image
                  && forall j :: 0 <= j < i ==> rows[j].image != image
  {
    if rows != [] {
      var k := |rows| - 1;
      FirstContainerWins(rows[..k], image);
      if image in Dedup(rows[..k]) {
        var i :| 0 <= i < k && rows[..k][i] == Dedup(rows[..k])[image] && rows[i].image == image
                 && forall j :: 0 <= j < i ==> rows[..k][j].image != image;
        assert rows[i] == Dedup(rows)[image];
        assert forall j :: 0 <= j < i ==> rows[j].image == rows[..k][j].image;
      } else {
        assert forall j :: 0 <= j < k ==> rows[..k][j].image != image;
        assert forall j :: 0 <= j < k ==> rows[j].image == rows[..k][j].image;
        if rows[k].image == image {
          assert rows[k] == Dedup(rows)[image];
        }
      }
    }
  }

  lemma DedupKeys(rows: seq<Running>)
    ensures forall n :: n in Dedup(rows) ==> Dedup(rows)[n].image == n
  {
    forall n | n in Dedup(rows) ensures Dedup(rows)[n].image == n {
      FirstContainerWins(rows, n);
    }
  }

  // ── At-least-once delivery ─────────────────────────────────────────────────

  /** The last save into file `f`, as an index into the history. */
  ghost predicate LastInto(saves: seq<Save>, i: nat, f: string) {
    && i < |saves| && SafeFilename(saves[i].image) == f
    && forall j :: i < j < |saves| ==> SafeFilename(saves[j].image) != f
  }

  /** Save `i` was delivered at some time after it was made. */
  ghost predicate SentSince(s: AgentState, i: nat)
    requires i < |s.saves|
  {
    exists k :: 0 <= k < |s.sent| && s.sent[k].payload == s.saves[i].payload && s.sent[k].after > i
  }

  /** Every cached entry is the last result saved into its file. */
  ghost predicate EntriesAreLast(s: AgentState) {
    && (forall f :: f in s.cache ==> SafeFilename(s.cache[f].payload.report.artifact) == f)
    && (forall f :: f in s.cache ==>
          exists i: nat :: LastInto(s.saves, i, f) && s.saves[i].payload == s.cache[f].payload
                           && s.saves[i].at == s.cache[f].scannedAt)
  }

  /** Every file's last result has been delivered since it was saved, or is cached. */
  ghost predicate LastsAreKept(s: AgentState) {
    forall i: nat, f :: LastInto(s.saves, i, f) ==>
      SentSince(s, i) || (f in s.cache && s.cache[f].payload == s.saves[i].payload)
  }

  ghost predicate CacheSound(s: AgentState) {
    EntriesAreLast(s) && LastsAreKept(s)
  }

  /** Some cache entry holds the result. */
  predicate Cached(s: AgentState, i: nat)
    requires i < |s.saves|
  {
    exists f :: f in s.cache && s.cache[f].payload == s.saves[i].payload
  }

  /** Save `i` has been sent, is cached, or was overwritten in its file by a newer result. */
  ghost predicate Accounted(s: AgentState, i: nat)
    requires i < |s.saves|
  {
    || SentSince(s, i)
    || Cached(s, i)
    || exists j :: i < j < |s.saves| && SameFile(s.saves[j].image, s.saves[i].image)
  }

  lemma SentStaysSent(s: AgentState, s': AgentState, i: nat)
    requires i < |s.saves| && s.saves <= s'.saves && s.sent <= s'.sent
    ensures SentSince(s, i) ==> SentSince(s', i)
  {
    if SentSince(s, i) {
      var k :| 0 <= k < |s.sent| && s.sent[k].payload == s.saves[i].payload && s.sent[k].after > i;
      assert s'.sent[k] == s.sent[k];
    }
  }

  lemma SaveKeepsEntries(s: AgentState, r: Running, t: Trial)
    requires EntriesAreLast(s)
    ensures EntriesAreLast(SaveAndSend(s, r, t))
  {
    if t.Scanned? {
      var s' := SaveAndSend(s, r, t);
      var g, n := SafeFilename(r.image), |s.saves|;
      assert LastInto(s'.saves, n, g);
      forall f | f in s'.cache && f != g
        ensures exists i: nat :: LastInto(s'.saves, i, f) && s'.saves[i].payload == s'.cache[f].payload
                                 && s'.saves[i].at == s'.cache[f].scannedAt
      {
        var i: nat :| LastInto(s.saves, i, f) && s.saves[i].payload == s.cache[f].payload
                      && s.saves[i].at == s.cache[f].scannedAt;
        assert LastInto(s'.saves, i, f);
      }
    }
  }

  lemma SaveKeepsLasts(s: AgentState, r: Running, t: Trial)
    requires LastsAreKept(s)
    ensures LastsAreKept(SaveAndSend(s, r, t))
  {
    if t.Scanned? {
      var s', n := SaveAndSend(s, r, t), |s.saves|;
      forall i: nat, f | LastInto(s'.saves, i, f)
        ensures SentSince(s', i) || (f in s'.cache && s'.cache[f].payload == s'.saves[i].payload)
      {
        if i < n {
          assert SafeFilename(s'.saves[n].image) == SafeFilename(r.image);
          assert forall j :: i <= j < n ==> s'.saves[j] == s.saves[j];
          assert LastInto(s.saves, i, f);
          SentStaysSent(s, s', i);
        }
      }
    }
  }

  lemma {:induction false} ScanAllKeepsSound(s: AgentState, rows: map<string, Running>, todo: seq<string>,
                                             trials: map<string, Trial>)
    requires CacheSound(s) && forall n :: n in todo ==> n in rows
    ensures CacheSound(ScanAll(s, rows, todo, trials))
    decreases |todo|
  {
    if todo != [] {
      var k := |todo| - 1;
      ScanAllKeepsSound(s, rows, todo[..k], trials);
      SaveKeepsEntries(ScanAll(s, rows, todo[..k], trials), rows[todo[k]], TrialOf(trials, todo[k]));
      SaveKeepsLasts(ScanAll(s, rows, todo[..k], trials), rows[todo[k]], TrialOf(trials, todo[k]));
    }
  }

  lemma {:induction false} FlushKeepsSound(s: AgentState, files: seq<string>, delivered: set<string>)
    requires CacheSound(s)
    ensures var s' := Flush(s, files, delivered);
            && CacheSound(s') && s'.saves == s.saves
            && forall f :: f in s'.cache ==> f in s.cache && s'.cache[f] == s.cache[f]
    decreases |files|
  {
    if files != [] {
      var k := |files| - 1;
      FlushKeepsSound(s, files[..k], delivered);
      var mid, s' := Flush(s, files[..k], delivered), Flush(s, files, delivered);
      var f := files[k];
      if f in s.cache && f in delivered {
        var p := s.cache[f].payload;
        forall i: nat, g | LastInto(s'.saves, i, g)
          ensures SentSince(s', i) || (g in s'.cache && s'.cache[g].payload == s'.saves[i].payload)
        {
          assert LastInto(mid.saves, i, g);
          SentStaysSent(mid, s', i);
          if !SentSince(mid, i) && g == f {
            assert mid.cache[f].payload == p && s'.sent[|mid.sent|] == Delivery(p, |mid.saves|);
          }
        }
      }
    }
  }

  lemma {:induction false} RunIsSound(es: seq<Event>, maxAgeDays: nat)
    ensures CacheSound(Run(es, maxAgeDays))
  {
    if es != [] {
      var s, e := Run(es[..|es| - 1], maxAgeDays), es[|es| - 1];
      RunIsSound(es[..|es| - 1], maxAgeDays);
      match e {
        case CycleAt(rows, now, trials) =>
          ScanAllKeepsSound(s, Dedup(rows), ToScan(s.cache, Dedup(rows), ImageNames(rows), now, maxAgeDays), trials);
        case Reconnect(files, delivered) =>
          FlushKeepsSound(s, files, delivered);
      }
    }
  }

  lemma {:induction false} SomeLastInto(saves: seq<Save>, i: nat)
    requires i < |saves|
    ensures exists j: nat :: i <= j && LastInto(saves, j, SafeFilename(saves[i].image))
    decreases |saves| - i
  {
    var f := SafeFilename(saves[i].image);
    if j :| i < j < |saves| && SafeFilename(saves[j].image) == f {
      SomeLastInto(saves, j);
    } else {
      assert LastInto(saves, i, f);
    }
  }

  /** No run of cycles, reconnects and send failures ever loses a file's newest result. */
  lemma AtLeastOncePerFile(es: seq<Event>, maxAgeDays: nat, i: nat)
    requires i < |Run(es, maxAgeDays).saves|
    ensures Accounted(Run(es, maxAgeDays), i)
  {
    var s := Run(es, maxAgeDays);
    RunIsSound(es, maxAgeDays);
    SomeLastInto(s.saves, i);
    var j: nat :| i <= j && LastInto(s.saves, j, SafeFilename(s.saves[i].image));
    SameFileIff(s.saves[j].image, s.saves[i].image);
    assert j == i ==> LastInto(s.saves, i, SafeFilename(s.saves[i].image));
  }

  // ── Delivery per image, and what it takes ──────────────────────────────────

  /** Every event of the run lists only images of `fleet`. */
  ghost predicate Within(es: seq<Event>, fleet: set<string>) {
    forall e, r :: e in es && e.CycleAt? && r in e.rows ==> r.image in fleet
  }

  /** Every saved result was sent, is cached, or was replaced by a newer result for the same image. */
  ghost predicate NothingLost(s: AgentState) {
    forall i: nat :: i < |s.saves| ==>
      || SentSince(s, i)
      || Cached(s, i)
      || exists j :: i < j < |s.saves| && s.saves[j].image == s.saves[i].image
  }

  /** No two images of the fleet share a cache file. */
  ghost predicate NoCollision(fleet: set<string>) {
    forall x, y :: x in fleet && y in fleet && SameFile(x, y) ==> x == y
  }

  lemma FilesApart(fleet: set<string>)
    ensures NoCollision(fleet) <==>
            forall x, y :: x in fleet && y in fleet && SafeFilename(x) == SafeFilename(y) ==> x == y
  {
    forall x, y ensures SafeFilename(x) == SafeFilename(y) <==> SameFile(x, y) {
      SameFileIff(x, y);
    }
  }

  ghost predicate SavedFrom(saves: seq<Save>, fleet: set<string>) {
    forall v :: v in saves ==> v.image in fleet
  }

  lemma {:induction false} ScanAllSavesListed(s: AgentState, rows: map<string, Running>, todo: seq<string>,
                                              trials: map<string, Trial>, fleet: set<string>)
    requires forall n :: n in todo ==> n in rows
    requires forall n :: n in rows ==> rows[n].image in fleet
    requires SavedFrom(s.saves, fleet)
    ensures SavedFrom(ScanAll(s, rows, todo, trials).saves, fleet)
    decreases |todo|
  {
    if todo != [] {
      ScanAllSavesListed(s, rows, todo[..|todo| - 1], trials, fleet);
    }
  }

  lemma {:induction false} SavesComeFromFleet(es: seq<Event>, maxAgeDays: nat, fleet: set<string>)
    requires Within(es, fleet)
    ensures SavedFrom(Run(es, maxAgeDays).saves, fleet)
  {
    if es != [] {
      var n := |es| - 1;
      var s, e := Run(es[..n], maxAgeDays), es[n];
      assert e in es;
      SavesComeFromFleet(es[..n], maxAgeDays, fleet);
      match e {
        case CycleAt(rows, now, trials) =>
          forall n | n in Dedup(rows) ensures Dedup(rows)[n].image in fleet {
            FirstContainerWins(rows, n);
          }
          ScanAllSavesListed(s, Dedup(rows), ToScan(s.cache, Dedup(rows), ImageNames(rows), now, maxAgeDays),
                             trials, fleet);
        case Reconnect(files, delivered) =>
          RunIsSound(es[..n], maxAgeDays);
          FlushKeepsSound(s, files, delivered);
      }
    }
  }

  lemma RunTwo(e: Event, f: Event, maxAgeDays: nat)
    ensures Run([e, f], maxAgeDays) == Next(Next(FRESH_AGENT, e, maxAgeDays), f, maxAgeDays)
  {
    assert [e, f][..1] == [e] && [e][..0] == [];
    assert Run([e], maxAgeDays) == Next(Run([], maxAgeDays), e, maxAgeDays);
  }

  /** Two saves into one file, neither sent: the first result is nowhere any more. */
  lemma SecondSaveOverwrites(x: Running, y: Running, t: Trial, u: Trial)
    requires x.image != y.image && SafeFilename(x.image) == SafeFilename(y.image)
    requires t.Scanned? && !t.delivered && u.Scanned? && !u.delivered
    ensures !NothingLost(SaveAndSend(SaveAndSend(FRESH_AGENT, x, t), y, u))
  {
    var s := SaveAndSend(SaveAndSend(FRESH_AGENT, x, t), y, u);
    assert s.saves[0].image == x.image && s.saves[1].image == y.image && |s.saves| == 2;
    assert s.saves[0].payload.report.artifact == x.image;
    assert s.cache.Keys == {SafeFilename(x.image)};
    assert s.cache[SafeFilename(x.image)].payload.report.artifact == y.image;
  }

  lemma TwoImageCycles(x: Running, y: Running, t: map<string, Trial>, u: map<string, Trial>, maxAgeDays: nat)
    requires x.digest == "" && x.image in t && y.digest == "" && y.image in u
    ensures Run([CycleAt([x], 0, t), CycleAt([y], 1, u)], maxAgeDays)
            == SaveAndSend(SaveAndSend(FRESH_AGENT, x, t[x.image]), y, u[y.image])
  {
    RunTwo(CycleAt([x], 0, t), CycleAt([y], 1, u), maxAgeDays);
    OneImageCycle(FRESH_AGENT, [x], 0, maxAgeDays, t);
    OneImageCycle(SaveAndSend(FRESH_AGENT, x, t[x.image]), [y], 1, maxAgeDays, u);
  }

  /** A cycle for each of two images that share a file, with the hub unreachable, loses the first result. */
  lemma CollisionLoses(x: string, y: string, maxAgeDays: nat) returns (es: seq<Event>)
    requires x != y && SafeFilename(x) == SafeFilename(y)
    ensures Within(es, {x, y}) && !NothingLost(Run(es, maxAgeDays))
  {
    var rx, ry := Running(x, "c", ""), Running(y, "c", "");
    var tx, ty := map[x := Scanned("r", 0, false)], map[y := Scanned("r", 1, false)];
    es := [CycleAt([rx], 0, tx), CycleAt([ry], 1, ty)];
    TwoImageCycles(rx, ry, tx, ty, maxAgeDays);
    SecondSaveOverwrites(rx, ry, tx[x], ty[y]);
  }

  lemma DedupOne(rows: seq<Running>)
    requires |rows| == 1
    ensures Dedup(rows) == map[rows[0].image := rows[0]] && ImageNames(rows) == [rows[0].image]
  {
    assert rows[..0] == [];
    assert Dedup(rows[..0]) == map[] && ImageNames(rows[..0]) == [];
  }

  lemma ToScanOne(cache: Cache, rows: map<string, Running>, names: seq<string>, now: int, maxAgeDays: nat)
    requires |names| == 1 && names[0] in rows
    ensures ToScan(cache, rows, names, now, maxAgeDays)
            == if Skips(cache, rows[names[0]], now, maxAgeDays) then [] else names
  {
    assert names[..0] == [];
    assert ToScan(cache, rows, names[..0], now, maxAgeDays) == [];
  }

  lemma ScanOne(s: AgentState, rows: map<string, Running>, todo: seq<string>, trials: map<string, Trial>)
    requires |todo| == 1 && todo[0] in rows
    ensures ScanAll(s, rows, todo, trials) == SaveAndSend(s, rows[todo[0]], TrialOf(trials, todo[0]))
  {
    assert todo[..0] == [];
    assert ScanAll(s, rows, todo[..0], trials) == s;
  }

  lemma OneImageCycle(s: AgentState, rows: seq<Running>, now: int, maxAgeDays: nat, trials: map<string, Trial>)
    requires |rows| == 1 && rows[0].image in trials
    ensures Cycle(s, rows, now, maxAgeDays, trials)
            == if Skips(s.cache, rows[0], now, maxAgeDays) then s else SaveAndSend(s, rows[0], trials[rows[0].image])
  {
    DedupOne(rows);
    ToScanOne(s.cache, Dedup(rows), ImageNames(rows), now, maxAgeDays);
    if !Skips(s.cache, rows[0], now, maxAgeDays) {
      ScanOne(s, Dedup(rows), ImageNames(rows), trials);
    }
  }

  lemma NoCollisionLosesNothing(es: seq<Event>, maxAgeDays: nat, fleet: set<string>)
    requires Within(es, fleet) && NoCollision(fleet)
    ensures NothingLost(Run(es, maxAgeDays))
  {
    var s := Run(es, maxAgeDays);
    SavesComeFromFleet(es, maxAgeDays, fleet);
    forall i: nat | i < |s.saves|
      ensures || SentSince(s, i)
              || Cached(s, i)
              || exists j :: i < j < |s.saves| && s.saves[j].image == s.saves[i].image
    {
      AtLeastOncePerFile(es, maxAgeDays, i);
      if j :| i < j < |s.saves| && SameFile(s.saves[j].image, s.saves[i].image) {
        assert s.saves[j] in s.saves && s.saves[i] in s.saves;
      }
    }
  }

  /** Delivery per image holds in every run over a fleet exactly when no two of its images share a file. */
  lemma NothingLostIff(fleet: set<string>, maxAgeDays: nat)
    ensures (forall es :: Within(es, fleet) ==> NothingLost(Run(es, maxAgeDays))) <==> NoCollision(fleet)
  {
    if NoCollision(fleet) {
      forall es | Within(es, fleet) ensures NothingLost(Run(es, maxAgeDays)) {
        NoCollisionLosesNothing(es, maxAgeDays, fleet);
      }
    } else {
      var x, y :| x in fleet && y in fleet && SameFile(x, y) && x != y;
      SameFileIff(x, y);
      var es := CollisionLoses(x, y, maxAgeDays);
      assert Within(es, fleet);
    }
  }

  /** At most 200 characters, all of which the file name keeps. */
  predicate PlainName(x: string) {
    |x| <= 200 && forall i :: 0 <= i < |x| ==> Plain(x[i]) || x[i] == '_'
  }

  /** Distinct names of at most 200 letters, digits, dots, dashes and underscores never share a file. */
  lemma PlainNamesAreApart(x: string, y: string)
    requires PlainName(x) && PlainName(y) && SameFile(x, y)
    ensures x == y
  {
    assert forall i :: 0 <= i < |x| ==> Alike(x[i], y[i]) && x[i] == y[i];
  }

  /** So over a fleet of such names nothing is ever lost, however cycles, reconnects and send failures alternate. */
  lemma PlainFleetLosesNothing(es: seq<Event>, maxAgeDays: nat, fleet: set<string>)
    requires Within(es, fleet) && forall x :: x in fleet ==> PlainName(x)
    ensures NothingLost(Run(es, maxAgeDays))
  {
    forall x, y | x in fleet && y in fleet && SameFile(x, y) ensures x == y {
      PlainNamesAreApart(x, y);
    }
    NothingLostIff(fleet, maxAgeDays);
  }

  /** Other fleets are not as lucky: anywhere in a name, a slash and an underscore are the same. */
  lemma SlashAndUnderscoreCollide(before: string, after: string)
    ensures SafeFilename(before + "/" + after) == SafeFilename(before + "_" + after)
    ensures !NoCollision({before + "/" + after, before + "_" + after})
  {
    var x, y := before + "/" + after, before + "_" + after;
    assert SameFile(x, y);
    SameFileIff(x, y);
    assert x[|before|] != y[|before|];
  }
}
