/** When the trend's count of a day is the number of keys: rows of one key that were open on the same day. */
module DayCounts {
  import opened Common
  import opened Store
  import opened History
  import L = Lifecycle
  import T = Trend

  /**
   * On that day a scan of `c` dropped `k`, which the scan before it had listed, and a later one listed
   * it again.
   */
  ghost predicate RelistedOn(log: seq<Item>, c: nat, k: Key, day: int) {
    exists p: nat, m: nat, n: nat :: Relists(log, c, k, day, p, m, n)
  }

  ghost predicate Relists(log: seq<Item>, c: nat, k: Key, day: int, p: nat, m: nat, n: nat) {
    && p < m < n < |log| && log[p].container == log[m].container == log[n].container == c
    && (forall q :: p < q < m ==> log[q].container != c)
    && k in log[p].keys && k !in log[m].keys && k in log[n].keys
    && T.Day(log[m].at) == T.Day(log[n].at) == day
  }

  ghost predicate Kept(db: Db, log: seq<Item>) {
    EndsAreLogged(db, log) && LogSorted(log) && AllPictures(db, log)
  }

  predicate IsRow(db: Db, i: nat, c: nat, k: Key) {
    i < |db.findings| && OnContainer(db.scans, db.findings[i], c) && (db.findings[i].cve, db.findings[i].pkg) == k
  }

  /** The scan that made a row, which listed its key. */
  lemma RowBegins(db: Db, log: seq<Item>, i: nat, c: nat, k: Key) returns (a: nat)
    requires Kept(db, log) && IsRow(db, i, c, k)
    ensures a < |log| && log[a].container == c && log[a].at == db.findings[i].firstSeen
    ensures Remembers(db, i, c, k, log[a].at) && k in log[a].keys
  {
    var f := db.findings[i];
    assert LoggedAt(log, c, f.firstSeen);
    a :| a < |log| && log[a].container == c && log[a].at == f.firstSeen;
    assert Pictures(db, c, log[a].at, log[a].keys);
    assert Remembers(db, i, c, k, log[a].at);
  }

  lemma NotBoth(db: Db, c: nat, t: int, keys: set<Key>, i: nat, j: nat, k: Key)
    requires Pictures(db, c, t, keys) && i < |db.findings| && j < |db.findings| && i != j
    ensures !(Remembers(db, i, c, k, t) && Remembers(db, j, c, k, t))
  {
    assert i < j || j < i;
  }

  /** Of two rows of a key, one was fixed before the other began. */
  lemma RowsApart(db: Db, log: seq<Item>, i: nat, j: nat, c: nat, k: Key)
    requires Kept(db, log) && IsRow(db, i, c, k) && IsRow(db, j, c, k) && i != j
    ensures var f, g := db.findings[i], db.findings[j];
      || (f.status.Fixed? && f.lastSeen <= g.firstSeen)
      || (g.status.Fixed? && g.lastSeen <= f.firstSeen)
  {
    var a := RowBegins(db, log, i, c, k);
    var b := RowBegins(db, log, j, c, k);
    assert Pictures(db, c, log[a].at, log[a].keys) && Pictures(db, c, log[b].at, log[b].keys);
    NotBoth(db, c, log[a].at, log[a].keys, i, j, k);
    NotBoth(db, c, log[b].at, log[b].keys, i, j, k);
    assert db.findings[i].status in {Active, Fixed} && db.findings[j].status in {Active, Fixed};
  }

  lemma {:induction false} PreviousScan(log: seq<Item>, c: nat, a: nat, m: nat) returns (p: nat)
    requires a < m <= |log| && log[a].container == c
    ensures a <= p < m && log[p].container == c && forall q :: p < q < m ==> log[q].container != c
    decreases m
  {
    if log[m - 1].container == c {
      p := m - 1;
    } else {
      p := PreviousScan(log, c, a, m - 1);
    }
  }

  /** The scan that fixed a row, and the one before it. */
  lemma RowEnds(db: Db, log: seq<Item>, i: nat, c: nat, k: Key) returns (p: nat, m: nat)
    requires Kept(db, log) && IsRow(db, i, c, k) && db.findings[i].status.Fixed?
    ensures p < m < |log| && log[p].container == log[m].container == c
    ensures forall q :: p < q < m ==> log[q].container != c
    ensures log[m].at == db.findings[i].lastSeen && k !in log[m].keys && k in log[p].keys
  {
    var f := db.findings[i];
    var a := RowBegins(db, log, i, c, k);
    assert DroppedAt(log, c, f.lastSeen, k);
    m :| m < |log| && log[m].container == c && log[m].at == f.lastSeen && k !in log[m].keys;
    assert a < m;
    p := PreviousScan(log, c, a, m);
    assert log[a].at <= log[p].at < log[m].at;
    assert Pictures(db, c, log[p].at, log[p].keys);
    assert Remembers(db, i, c, k, log[p].at);
  }

  lemma DayBetween(s: int, t: int, day: int)
    requires s <= t && T.Day(s) >= day && T.Day(t) <= day
    ensures T.Day(s) == T.Day(t) == day
  {
    DayMonotone(s, t);
  }

  lemma FirstThenSecond(db: Db, log: seq<Item>, i: nat, j: nat, c: nat, k: Key, day: int)
    requires Kept(db, log) && i < |db.findings| && j < |db.findings|
    requires CountedOn(db, i, c, k, day) && CountedOn(db, j, c, k, day)
    requires db.findings[i].status.Fixed? && db.findings[i].lastSeen <= db.findings[j].firstSeen
    ensures RelistedOn(log, c, k, day)
  {
    var p, m := RowEnds(db, log, i, c, k);
    var n := RowBegins(db, log, j, c, k);
    DayBetween(log[m].at, log[n].at, day);
    assert m != n && !(n < m);
    assert Relists(log, c, k, day, p, m, n);
  }

  /** The row of `k` in effect at scan `p` ends at scan `m`; the one at scan `n` is another. */
  lemma RelistedMakesTwo(db: Db, log: seq<Item>, c: nat, k: Key, day: int, p: nat, m: nat, n: nat)
    returns (i: nat, j: nat)
    requires Kept(db, log) && Relists(log, c, k, day, p, m, n)
    ensures i < |db.findings| && j < |db.findings| && i != j
    ensures CountedOn(db, i, c, k, day) && CountedOn(db, j, c, k, day)
  {
    i := DroppedRowCounts(db, log, c, k, day, p, m);
    j := ListedIsCountedHere(db, log, c, k, day, n);
    assert log[m].at < log[n].at;
  }

  /** A row in effect at one scan and not at the next was fixed by the next. */
  lemma FixedByNext(db: Db, log: seq<Item>, c: nat, k: Key, p: nat, m: nat, i: nat)
    requires EndsAreLogged(db, log) && LogSorted(log) && IsRow(db, i, c, k)
    requires p < m < |log| && log[p].container == log[m].container == c
    requires forall q :: p < q < m ==> log[q].container != c
    requires InEffect(db.findings[i], log[p].at) && !InEffect(db.findings[i], log[m].at)
    ensures db.findings[i].status.Fixed? && db.findings[i].lastSeen == log[m].at
  {
    var f := db.findings[i];
    assert log[p].at < log[m].at;
    assert f.status.Fixed? && log[p].at < f.lastSeen <= log[m].at;
    assert DroppedAt(log, c, f.lastSeen, k);
    var q :| 0 <= q < |log| && log[q].container == c && log[q].at == f.lastSeen;
    assert !(q < p) && q != p && !(m < q);
  }

  lemma DroppedRowCounts(db: Db, log: seq<Item>, c: nat, k: Key, day: int, p: nat, m: nat) returns (i: nat)
    requires Kept(db, log) && p < m < |log| && log[p].container == log[m].container == c
    requires forall q :: p < q < m ==> log[q].container != c
    requires k in log[p].keys && k !in log[m].keys && T.Day(log[m].at) == day
    ensures i < |db.findings| && CountedOn(db, i, c, k, day)
    ensures db.findings[i].status.Fixed? && db.findings[i].lastSeen == log[m].at
  {
    i := InPicture(db, c, log[p].at, log[p].keys, k);
    NotInPicture(db, c, log[m].at, log[m].keys, k, i);
    FixedByNext(db, log, c, k, p, m, i);
    DayMonotone(db.findings[i].firstSeen, log[m].at);
  }

  lemma InPicture(db: Db, c: nat, t: int, keys: set<Key>, k: Key) returns (i: nat)
    requires Pictures(db, c, t, keys) && k in keys
    ensures i < |db.findings| && Remembers(db, i, c, k, t)
  {
    i :| i < |db.findings| && Remembers(db, i, c, k, t);
  }

  lemma NotInPicture(db: Db, c: nat, t: int, keys: set<Key>, k: Key, i: nat)
    requires Pictures(db, c, t, keys) && k !in keys && i < |db.findings|
    ensures !Remembers(db, i, c, k, t)
  {
  }

  lemma ListedIsCountedHere(db: Db, log: seq<Item>, c: nat, k: Key, day: int, n: nat) returns (j: nat)
    requires Kept(db, log) && n < |log| && log[n].container == c && k in log[n].keys && T.Day(log[n].at) == day
    ensures j < |db.findings| && CountedOn(db, j, c, k, day) && Remembers(db, j, c, k, log[n].at)
  {
    j := InPicture(db, c, log[n].at, log[n].keys, k);
    DayMonotone(db.findings[j].firstSeen, log[n].at);
    if db.findings[j].status.Fixed? {
      DayMonotone(log[n].at, db.findings[j].lastSeen);
    }
  }

  /** A key has two rows counted on a day exactly when it was dropped and listed again that day. */
  lemma CountedTwiceIff(db: Db, log: seq<Item>, c: nat, k: Key, day: int)
    requires Kept(db, log)
    ensures (exists i: nat, j: nat :: && i < |db.findings| && j < |db.findings| && i != j
                                      && CountedOn(db, i, c, k, day) && CountedOn(db, j, c, k, day))
            <==> RelistedOn(log, c, k, day)
  {
    if i: nat, j: nat :| && i < |db.findings| && j < |db.findings| && i != j
                         && CountedOn(db, i, c, k, day) && CountedOn(db, j, c, k, day) {
      RowsApart(db, log, i, j, c, k);
      if db.findings[i].status.Fixed? && db.findings[i].lastSeen <= db.findings[j].firstSeen {
        FirstThenSecond(db, log, i, j, c, k, day);
      } else {
        FirstThenSecond(db, log, j, i, c, k, day);
      }
    }
    if p: nat, m: nat, n: nat :| Relists(log, c, k, day, p, m, n) {
      var i, j := RelistedMakesTwo(db, log, c, k, day, p, m, n);
    }
  }

  // ── Counting ───────────────────────────────────────────────────────────────

  function KeyAt(fs: seq<Finding>, i: nat): Key
    requires i < |fs|
  {
    (fs[i].cve, fs[i].pkg)
  }

  /** The rows the trend counts on a day for a container. */
  function CountedRows(db: Db, c: nat, day: int): set<nat> {
    set i: nat | i < |db.findings| && CountedOn(db, i, c, KeyAt(db.findings, i), day)
  }

  function KeysOfRows(fs: seq<Finding>, rows: set<nat>): set<Key>
    requires forall i :: i in rows ==> i < |fs|
  {
    set i | i in rows :: KeyAt(fs, i)
  }

  lemma {:induction false} AsManyKeysIff(fs: seq<Finding>, rows: set<nat>)
    requires forall i :: i in rows ==> i < |fs|
    ensures |KeysOfRows(fs, rows)| <= |rows|
    ensures |KeysOfRows(fs, rows)| == |rows| <==>
      forall i, j :: i in rows && j in rows && i != j ==> KeyAt(fs, i) != KeyAt(fs, j)
    decreases rows
  {
    if x :| x in rows {
      var rest := rows - {x};
      AsManyKeysIff(fs, rest);
      assert KeysOfRows(fs, rows) == KeysOfRows(fs, rest) + {KeyAt(fs, x)};
      if KeyAt(fs, x) in KeysOfRows(fs, rest) {
        var y :| y in rest && KeyAt(fs, y) == KeyAt(fs, x);
        assert KeysOfRows(fs, rows) == KeysOfRows(fs, rest);
      } else {
        assert forall j :: j in rest ==> KeyAt(fs, j) in KeysOfRows(fs, rest);
      }
    } else {
      assert KeysOfRows(fs, rows) == {};
    }
  }

  /**
   * After any run of messages the trend counts, on a day and for a container, at least one row per
   * counted key, and exactly one each if and only if no key was dropped and listed again that day.
   */
  lemma DayCountIsKeysIff(es: seq<L.Event>, c: nat, day: int)
    requires L.OnlyMessages(es) && Increasing(es)
    ensures var (db, log) := Replay(es);
            var rows := CountedRows(db, c, day);
      && |KeysOfRows(db.findings, rows)| <= |rows|
      && (|KeysOfRows(db.findings, rows)| == |rows| <==> forall k :: !RelistedOn(log, c, k, day))
  {
    ReplayKeepsInv(es);
    CountIsKeysIff(Replay(es).0, Replay(es).1, c, day);
  }

  lemma CountIsKeysIff(db: Db, log: seq<Item>, c: nat, day: int)
    requires Kept(db, log)
    ensures var rows := CountedRows(db, c, day);
      && |KeysOfRows(db.findings, rows)| <= |rows|
      && (|KeysOfRows(db.findings, rows)| == |rows| <==> forall k :: !RelistedOn(log, c, k, day))
  {
    var rows := CountedRows(db, c, day);
    AsManyKeysIff(db.findings, rows);
    if k :| RelistedOn(log, c, k, day) {
      CountedTwiceIff(db, log, c, k, day);
      var i: nat, j: nat :| && i < |db.findings| && j < |db.findings| && i != j
                            && CountedOn(db, i, c, k, day) && CountedOn(db, j, c, k, day);
      assert i in rows && j in rows;
    } else {
      forall i, j | i in rows && j in rows && i != j ensures KeyAt(db.findings, i) != KeyAt(db.findings, j) {
        CountedTwiceIff(db, log, c, KeyAt(db.findings, i), day);
      }
    }
  }
}
