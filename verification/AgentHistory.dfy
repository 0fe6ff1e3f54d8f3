/** What a scan cycle saves and what a flush sends and clears, read off the listed containers and the cache. */
module AgentHistory {
  import opened Common
  import opened Agent

  // ── Cycles ─────────────────────────────────────────────────────────────────

  /** Row `i` is the first one listed for its image. */
  predicate FirstRow(rows: seq<Running>, i: nat) {
    i < |rows| && forall j :: 0 <= j < i ==> rows[j].image != rows[i].image
  }

  /** The cache holds a result of the image with its current, non-empty digest, younger than the limit. */
  predicate Covered(cache: Cache, r: Running, now: int, maxAgeDays: nat) {
    && r.digest != "" && SafeFilename(r.image) in cache
    && var x := cache[SafeFilename(r.image)]; x.digest == r.digest && now - x.scannedAt < 86400 * maxAgeDays
  }

  /** The cycle scans the image of row `i`, and the scan succeeds. */
  predicate ScansRow(s: AgentState, rows: seq<Running>, now: int, maxAgeDays: nat, trials: map<string, Trial>, i: nat) {
    && FirstRow(rows, i) && !Covered(s.cache, rows[i], now, maxAgeDays)
    && rows[i].image in trials && trials[rows[i].image].Scanned?
  }

  /** The result of scanning a container's image. */
  function ResultOf(r: Running, t: Trial): Save
    requires t.Scanned?
  {
    Save(r.image, Payload(Report(r.image, t.body), Some(r.container)), t.at)
  }

  /** Save `k` is the result of image `n`. */
  ghost predicate SavedFor(s: AgentState, rows: map<string, Running>, trials: map<string, Trial>, k: nat, n: string) {
    && k < |s.saves| && n in rows && rows[n].image == n
    && TrialOf(trials, n).Scanned? && s.saves[k] == ResultOf(rows[n], trials[n])
  }

  ghost predicate SavedForSome(s: AgentState, rows: map<string, Running>, trials: map<string, Trial>, k: nat,
                               todo: seq<string>) {
    exists n :: n in todo && SavedFor(s, rows, trials, k, n)
  }

  /** What scanning `todo` adds: one save for each image whose scan succeeds, and nothing else. */
  lemma {:induction false} ScanAllAdds(s: AgentState, rows: map<string, Running>, todo: seq<string>,
                                       trials: map<string, Trial>)
    requires forall n :: n in todo ==> n in rows && rows[n].image == n
    ensures var s' := ScanAll(s, rows, todo, trials);
      && s.saves <= s'.saves
      && (forall k: nat :: |s.saves| <= k < |s'.saves| ==> SavedForSome(s', rows, trials, k, todo))
      && (forall n :: n in todo && TrialOf(trials, n).Scanned? ==>
            exists k: nat :: |s.saves| <= k < |s'.saves| && SavedFor(s', rows, trials, k, n))
    decreases |todo|
  {
    if todo != [] {
      var m := |todo| - 1;
      var front, last := todo[..m], todo[m];
      assert todo == front + [last];
      ScanAllAdds(s, rows, front, trials);
      var mid, s' := ScanAll(s, rows, front, trials), ScanAll(s, rows, todo, trials);
      forall k: nat | |s.saves| <= k < |s'.saves| ensures SavedForSome(s', rows, trials, k, todo) {
        if k < |mid.saves| {
          assert SavedForSome(mid, rows, trials, k, front);
          var n :| n in front && SavedFor(mid, rows, trials, k, n);
          assert SavedFor(s', rows, trials, k, n);
        } else {
          assert SavedFor(s', rows, trials, k, last);
        }
      }
      forall n | n in todo && TrialOf(trials, n).Scanned?
        ensures exists k: nat :: |s.saves| <= k < |s'.saves| && SavedFor(s', rows, trials, k, n)
      {
        if n in front {
          var k: nat :| |s.saves| <= k < |mid.saves| && SavedFor(mid, rows, trials, k, n);
          assert SavedFor(s', rows, trials, k, n);
        } else {
          assert SavedFor(s', rows, trials, |mid.saves|, n);
        }
      }
    }
  }

  lemma FirstRowIsDeduped(rows: seq<Running>, i: nat)
    requires FirstRow(rows, i)
    ensures rows[i].image in Dedup(rows) && Dedup(rows)[rows[i].image] == rows[i]
  {
    FirstContainerWins(rows, rows[i].image);
    var j :| 0 <= j < |rows| && rows[j] == Dedup(rows)[rows[i].image] && rows[j].image == rows[i].image
             && forall m :: 0 <= m < j ==> rows[m].image != rows[i].image;
    assert !(i < j) && !(j < i);
  }

  lemma DedupedIsFirstRow(rows: seq<Running>, n: string) returns (i: nat)
    requires n in Dedup(rows)
    ensures FirstRow(rows, i) && rows[i] == Dedup(rows)[n] && rows[i].image == n
  {
    FirstContainerWins(rows, n);
    i :| 0 <= i < |rows| && rows[i] == Dedup(rows)[n] && rows[i].image == n
         && forall m :: 0 <= m < i ==> rows[m].image != n;
  }

  /** The save is the result of a row that the cycle scans. */
  ghost predicate SavesSomeRow(s: AgentState, v: Save, rows: seq<Running>, now: int, maxAgeDays: nat,
                               trials: map<string, Trial>) {
    exists i: nat :: ScansRow(s, rows, now, maxAgeDays, trials, i) && v == ResultOf(rows[i], trials[rows[i].image])
  }

  /**
   * A cycle saves, for the first listed container of each image, the report of its scan under that
   * container's name, if the cache does not cover the image and the scan succeeds; and it saves nothing else.
   */
  lemma CycleSavesExactly(s: AgentState, rows: seq<Running>, now: int, maxAgeDays: nat, trials: map<string, Trial>)
    ensures var s' := Cycle(s, rows, now, maxAgeDays, trials);
      && s.saves <= s'.saves
      && (forall k: nat :: |s.saves| <= k < |s'.saves| ==>
            SavesSomeRow(s, s'.saves[k], rows, now, maxAgeDays, trials))
      && (forall i: nat :: ScansRow(s, rows, now, maxAgeDays, trials, i) ==>
            exists k: nat :: |s.saves| <= k < |s'.saves| && s'.saves[k] == ResultOf(rows[i], trials[rows[i].image]))
  {
    var firsts, s' := Dedup(rows), Cycle(s, rows, now, maxAgeDays, trials);
    var todo := ToScan(s.cache, firsts, ImageNames(rows), now, maxAgeDays);
    DedupKeys(rows);
    ScanAllAdds(s, firsts, todo, trials);
    forall k: nat | |s.saves| <= k < |s'.saves| ensures SavesSomeRow(s, s'.saves[k], rows, now, maxAgeDays, trials) {
      assert SavedForSome(s', firsts, trials, k, todo);
      var n :| n in todo && SavedFor(s', firsts, trials, k, n);
      var i := DedupedIsFirstRow(rows, n);
      assert Covered(s.cache, rows[i], now, maxAgeDays) <==> Skips(s.cache, firsts[n], now, maxAgeDays);
      assert ScansRow(s, rows, now, maxAgeDays, trials, i);
      assert s'.saves[k] == ResultOf(rows[i], trials[rows[i].image]);
    }
    forall i: nat | ScansRow(s, rows, now, maxAgeDays, trials, i)
      ensures exists k: nat :: |s.saves| <= k < |s'.saves| && s'.saves[k] == ResultOf(rows[i], trials[rows[i].image])
    {
      FirstRowIsDeduped(rows, i);
      assert rows[i].image in todo;
      var k: nat :| |s.saves| <= k < |s'.saves| && SavedFor(s', firsts, trials, k, rows[i].image);
    }
  }

  // ── Flushes ────────────────────────────────────────────────────────────────

  /** The flush comes upon the entry and the hub takes it. */
  predicate GetsThrough(s: AgentState, files: seq<string>, delivered: set<string>, f: string) {
    f in s.cache && f in files && f in delivered
  }

  /** Delivery `k` carries the entry of file `f`, stamped with the saves made so far. */
  predicate Carries(s: AgentState, sent: seq<Delivery>, k: nat, f: string) {
    k < |sent| && f in s.cache && sent[k] == Delivery(s.cache[f].payload, |s.saves|)
  }

  ghost predicate CarriesSome(s: AgentState, sent: seq<Delivery>, k: nat, files: seq<string>, delivered: set<string>) {
    exists f :: GetsThrough(s, files, delivered, f) && Carries(s, sent, k, f)
  }

  lemma FlushOneMore(s: AgentState, files: seq<string>, delivered: set<string>)
    requires files != []
    ensures var mid, s' := Flush(s, files[..|files| - 1], delivered), Flush(s, files, delivered);
            var last := files[|files| - 1];
      if last in s.cache && last in delivered then
        var p := s.cache[last].payload;
        && s'.saves == mid.saves && s'.sent == mid.sent + [Delivery(p, |mid.saves|)]
        && s'.cache == mid.cache - {SafeFilename(p.report.artifact)}
      else s' == mid
  {
  }

  /** The entries that do not get through. */
  function Left(s: AgentState, files: seq<string>, delivered: set<string>): Cache {
    map f | f in s.cache && !GetsThrough(s, files, delivered, f) :: s.cache[f]
  }

  lemma LeftOneMore(s: AgentState, files: seq<string>, delivered: set<string>, last: string)
    ensures Left(s, files + [last], delivered)
            == if last in s.cache && last in delivered then Left(s, files, delivered) - {last}
               else Left(s, files, delivered)
  {
    forall f
      ensures GetsThrough(s, files + [last], delivered, f) <==>
              GetsThrough(s, files, delivered, f) || (f == last && f in s.cache && f in delivered)
    {
    }
  }

  /** A flush clears exactly the entries that get through, and saves nothing. */
  lemma {:induction false} FlushClears(s: AgentState, files: seq<string>, delivered: set<string>)
    requires EntriesAreLast(s)
    ensures Flush(s, files, delivered).saves == s.saves
    ensures Flush(s, files, delivered).cache == Left(s, files, delivered)
    decreases |files|
  {
    if files == [] {
      assert Left(s, files, delivered) == s.cache;
    } else {
      var front, last := files[..|files| - 1], files[|files| - 1];
      assert files == front + [last];
      FlushClears(s, front, delivered);
      FlushOneMore(s, files, delivered);
      LeftOneMore(s, front, delivered, last);
    }
  }

  /** The deliveries a flush adds are those of the entries that get through. */
  ghost predicate SendsExactly(s: AgentState, sent: seq<Delivery>, files: seq<string>, delivered: set<string>) {
    && s.sent <= sent
    && (forall f :: GetsThrough(s, files, delivered, f) ==> exists k: nat :: |s.sent| <= k && Carries(s, sent, k, f))
    && (forall k: nat :: |s.sent| <= k < |sent| ==> CarriesSome(s, sent, k, files, delivered))
  }

  lemma SendsOneMore(s: AgentState, sent: seq<Delivery>, files: seq<string>, delivered: set<string>, f: string)
    requires SendsExactly(s, sent, files, delivered) && f in s.cache && f in delivered
    ensures SendsExactly(s, sent + [Delivery(s.cache[f].payload, |s.saves|)], files + [f], delivered)
  {
    var sent' := sent + [Delivery(s.cache[f].payload, |s.saves|)];
    assert Carries(s, sent', |sent|, f) && GetsThrough(s, files + [f], delivered, f);
    forall g | GetsThrough(s, files + [f], delivered, g) && g != f
      ensures exists k: nat :: |s.sent| <= k && Carries(s, sent', k, g)
    {
      assert GetsThrough(s, files, delivered, g);
      var k: nat :| |s.sent| <= k && Carries(s, sent, k, g);
      assert Carries(s, sent', k, g);
    }
    forall k: nat | |s.sent| <= k < |sent| ensures CarriesSome(s, sent', k, files + [f], delivered) {
      assert CarriesSome(s, sent, k, files, delivered);
      var g :| GetsThrough(s, files, delivered, g) && Carries(s, sent, k, g);
      assert GetsThrough(s, files + [f], delivered, g) && Carries(s, sent', k, g);
    }
  }

  lemma SendsNoMore(s: AgentState, sent: seq<Delivery>, files: seq<string>, delivered: set<string>, f: string)
    requires SendsExactly(s, sent, files, delivered) && !(f in s.cache && f in delivered)
    ensures SendsExactly(s, sent, files + [f], delivered)
  {
    forall g ensures GetsThrough(s, files + [f], delivered, g) <==> GetsThrough(s, files, delivered, g) {
    }
    forall k: nat | |s.sent| <= k < |sent| ensures CarriesSome(s, sent, k, files + [f], delivered) {
      assert CarriesSome(s, sent, k, files, delivered);
      var g :| GetsThrough(s, files, delivered, g) && Carries(s, sent, k, g);
      assert GetsThrough(s, files + [f], delivered, g);
    }
  }

  /** A flush sends the entries that get through, and nothing else. */
  lemma {:induction false} FlushSends(s: AgentState, files: seq<string>, delivered: set<string>)
    requires EntriesAreLast(s)
    ensures SendsExactly(s, Flush(s, files, delivered).sent, files, delivered)
    decreases |files|
  {
    if files != [] {
      var front, last := files[..|files| - 1], files[|files| - 1];
      assert files == front + [last];
      var mid := Flush(s, front, delivered);
      FlushSends(s, front, delivered);
      FlushClears(s, front, delivered);
      FlushOneMore(s, files, delivered);
      if last in s.cache && last in delivered {
        SendsOneMore(s, mid.sent, front, delivered, last);
      } else {
        SendsNoMore(s, mid.sent, front, delivered, last);
      }
    }
  }
}
