/** The trend queries: per-day counts over finding rows, behind a prefilter on the window. */
module Trend {
  import opened Common

  /** The columns the queries select, after their optional fixable and agent conditions. */
  datatype Row = Row(agent: string, severity: Severity, status: Status, firstSeen: int, lastSeen: int)

  datatype DayPoint = DayPoint(day: int, critical: nat, high: nat, medium: nat, low: nat)

  datatype AgentTrend = AgentTrend(agent: string, totals: seq<nat>)

  function Day(t: int): int {
    t / DAY
  }

  function WindowStart(now: int, window: nat): int {
    now - window * DAY
  }

  /** A day is the 86400 seconds from its midnight on, and a window goes back whole days from the query. */
  lemma DaysAndWindows(t: int, day: int, window: nat)
    ensures Day(t) == day <==> 86400 * day <= t < 86400 * (day + 1)
    ensures t - WindowStart(t, window) == 86400 * window
    ensures Day(WindowStart(t, window)) == Day(t) - window
  {
  }

  /** The SQL condition: still active, or last seen inside the window. */
  predicate PassesFilter(r: Row, start: int) {
    r.status.Active? || r.lastSeen >= start
  }

  function Prefilter(rows: seq<Row>, start: int): (kept: seq<Row>) {
    if rows == [] then []
    else Prefilter(rows[..|rows| - 1], start)
         + (if PassesFilter(rows[|rows| - 1], start) then [rows[|rows| - 1]] else [])
  }

  /** The row was open at some time of that day. */
  predicate Counted(r: Row, day: int) {
    Day(r.firstSeen) <= day && (r.status.Active? || Day(r.lastSeen) >= day)
  }

  /** What a counter counts: one severity, or one agent. */
  datatype Bucket = BySeverity(severity: Severity) | ByAgent(agent: string)

  predicate In(r: Row, b: Bucket) {
    match b
    case BySeverity(s) => r.severity == s
    case ByAgent(a) => r.agent == a
  }

  function CountOn(rows: seq<Row>, b: Bucket, day: int): nat {
    if rows == [] then 0
    else CountOn(rows[..|rows| - 1], b, day)
         + (if In(rows[|rows| - 1], b) && Counted(rows[|rows| - 1], day) then 1 else 0)
  }

  /** A row that was there by the end of the day and not resolved before its beginning. */
  predicate OpenOn(r: Row, day: int) {
    r.firstSeen < 86400 * (day + 1) && (r.status == Active || r.lastSeen >= 86400 * day)
  }

  function OpenWithSeverity(rows: seq<Row>, s: Severity, day: int): set<nat> {
    set i: nat | i < |rows| && rows[i].severity == s && OpenOn(rows[i], day)
  }

  function OpenWithAgent(rows: seq<Row>, agent: string, day: int): set<nat> {
    set i: nat | i < |rows| && rows[i].agent == agent && OpenOn(rows[i], day)
  }

  lemma SeverityOneMore(rows: seq<Row>, s: Severity, day: int)
    requires rows != []
    ensures var n, front := |rows| - 1, OpenWithSeverity(rows[..|rows| - 1], s, day);
      OpenWithSeverity(rows, s, day)
      == if rows[n].severity == s && OpenOn(rows[n], day) then front + {n} else front
  {
  }

  lemma OpenIffCounted(r: Row, day: int)
    ensures Counted(r, day) <==> OpenOn(r, day)
  {
    DaysAndWindows(r.firstSeen, Day(r.firstSeen), 0);
    DaysAndWindows(r.lastSeen, Day(r.lastSeen), 0);
  }

  /** A severity's count is the number of rows of that severity open on the day. */
  lemma {:induction false} SeverityCountIsNumber(rows: seq<Row>, s: Severity, day: int)
    ensures CountOn(rows, BySeverity(s), day) == |OpenWithSeverity(rows, s, day)|
  {
    if rows != [] {
      var n := |rows| - 1;
      SeverityCountIsNumber(rows[..n], s, day);
      OpenIffCounted(rows[n], day);
      SeverityOneMore(rows, s, day);
    }
  }

  /** An agent's count is the number of its rows open on the day. */
  lemma {:induction false} AgentCountIsNumber(rows: seq<Row>, agent: string, day: int)
    ensures CountOn(rows, ByAgent(agent), day) == |OpenWithAgent(rows, agent, day)|
  {
    if rows != [] {
      var n := |rows| - 1;
      AgentCountIsNumber(rows[..n], agent, day);
      OpenIffCounted(rows[n], day);
      var front := OpenWithAgent(rows[..n], agent, day);
      assert OpenWithAgent(rows, agent, day)
             == if rows[n].agent == agent && OpenOn(rows[n], day) then front + {n} else front;
    }
  }

  method DayRange(now: int, window: nat) returns (days: seq<int>)
    ensures |days| == window + 1
    ensures forall i :: 0 <= i <= window ==> days[i] == Day(WindowStart(now, window)) + i
    ensures days[window] == Day(now)
  {
    var start, today := Day(WindowStart(now, window)), Day(now);
    assert today == start + window;
    days := [];
    var current := start;
    while current <= today
      invariant start <= current <= today + 1
      invariant |days| == current - start
      invariant forall i :: 0 <= i < |days| ==> days[i] == start + i
    {
      days := days + [current];
      current := current + 1;
    }
  }

  /** The inner loop of get_trend for one day. */
  method CountSeverities(rows: seq<Row>, day: int) returns (p: DayPoint)
    ensures p == DayPoint(day, CountOn(rows, BySeverity(Critical), day), CountOn(rows, BySeverity(High), day),
                          CountOn(rows, BySeverity(Medium), day), CountOn(rows, BySeverity(Low), day))
  {
    var c, h, m, l := 0, 0, 0, 0;
    for i := 0 to |rows|
      invariant c == CountOn(rows[..i], BySeverity(Critical), day)
      invariant h == CountOn(rows[..i], BySeverity(High), day)
      invariant m == CountOn(rows[..i], BySeverity(Medium), day)
      invariant l == CountOn(rows[..i], BySeverity(Low), day)
    {
      assert rows[..i + 1][..i] == rows[..i];
      var r := rows[i];
      if Day(r.firstSeen) > day {
        continue;
      }
      if r.status.Active? || Day(r.lastSeen) >= day {
        match r.severity
        case Critical => c := c + 1;
        case High => h := h + 1;
        case Medium => m := m + 1;
        case Low => l := l + 1;
        case Unknown =>
      }
    }
    assert rows[..|rows|] == rows;
    p := DayPoint(day, c, h, m, l);
  }

  /** Exact on the whole table for every day but the first, where it may only fall short. */
  method GetTrend(table: seq<Row>, now: int, window: nat) returns (points: seq<DayPoint>)
    ensures |points| == window + 1
    ensures forall i :: 0 <= i <= window ==> points[i].day == Day(now) - window + i
    ensures forall i :: 0 < i <= window ==>
      && points[i].critical == CountOn(table, BySeverity(Critical), points[i].day)
      && points[i].high == CountOn(table, BySeverity(High), points[i].day)
      && points[i].medium == CountOn(table, BySeverity(Medium), points[i].day)
      && points[i].low == CountOn(table, BySeverity(Low), points[i].day)
    ensures && points[0].critical <= CountOn(table, BySeverity(Critical), points[0].day)
            && points[0].high <= CountOn(table, BySeverity(High), points[0].day)
            && points[0].medium <= CountOn(table, BySeverity(Medium), points[0].day)
            && points[0].low <= CountOn(table, BySeverity(Low), points[0].day)
  {
    var start := WindowStart(now, window);
    var rows := Prefilter(table, start);
    var days := DayRange(now, window);
    points := [];
    for i := 0 to |days|
      invariant |points| == i
      invariant forall k :: 0 <= k < i ==> points[k] == SeverityPoint(rows, days[k])
    {
      var p := CountSeverities(rows, days[i]);
      points := points + [p];
    }
    forall i, s | 0 <= i <= window
      ensures CountOn(rows, BySeverity(s), days[i]) <= CountOn(table, BySeverity(s), days[i])
      ensures i > 0 ==> CountOn(rows, BySeverity(s), days[i]) == CountOn(table, BySeverity(s), days[i])
    {
      FilteredCount(table, BySeverity(s), days[i], start);
    }
  }

  function SeverityPoint(rows: seq<Row>, day: int): DayPoint {
    DayPoint(day, CountOn(rows, BySeverity(Critical), day), CountOn(rows, BySeverity(High), day),
             CountOn(rows, BySeverity(Medium), day), CountOn(rows, BySeverity(Low), day))
  }

  /** Rows of one agent, in table order. */
  function OfAgent(rows: seq<Row>, agent: string): seq<Row> {
    if rows == [] then []
    else OfAgent(rows[..|rows| - 1], agent)
         + (if rows[|rows| - 1].agent == agent then [rows[|rows| - 1]] else [])
  }

  lemma {:induction false} OfAgentCounts(rows: seq<Row>, agent: string, day: int)
    ensures forall r :: r in OfAgent(rows, agent) ==> r.agent == agent
    ensures CountOn(OfAgent(rows, agent), ByAgent(agent), day) == CountOn(rows, ByAgent(agent), day)
  {
    if rows != [] {
      var front, last := rows[..|rows| - 1], rows[|rows| - 1];
      OfAgentCounts(front, agent, day);
      var mine := OfAgent(front, agent);
      if last.agent == agent {
        assert (mine + [last])[..|mine|] == mine;
      } else {
        assert mine + [] == mine;
      }
    }
  }

  /** One agent's totals on the days of a window agree with the whole table, but for the first day. */
  ghost predicate FitsTable(t: AgentTrend, agent: string, table: seq<Row>, first: int, window: nat) {
    && t.agent == agent && |t.totals| == window + 1
    && (forall i :: 0 < i <= window ==> t.totals[i] == CountOn(table, ByAgent(agent), first + i))
    && t.totals[0] <= CountOn(table, ByAgent(agent), first)
  }

  method TrendOfAgent(ghost table: seq<Row>, rows: seq<Row>, agent: string, ghost start: int, days: seq<int>)
    returns (trend: AgentTrend)
    requires rows == Prefilter(table, start) && |days| > 0
    requires forall i :: 0 <= i < |days| ==> days[i] == Day(start) + i
    ensures FitsTable(trend, agent, table, Day(start), |days| - 1)
  {
    var totals := AgentTotals(rows, agent, days);
    forall i | 0 <= i < |days|
      ensures totals[i] <= CountOn(table, ByAgent(agent), days[i])
      ensures i > 0 ==> totals[i] == CountOn(table, ByAgent(agent), days[i])
    {
      FilteredCount(table, ByAgent(agent), days[i], start);
    }
    trend := AgentTrend(agent, totals);
  }

  /** Per-agent totals, with the same guarantee. */
  method GetAgentsTrend(agents: seq<string>, table: seq<Row>, now: int, window: nat)
    returns (trends: seq<AgentTrend>)
    ensures |trends| == |agents|
    ensures forall k :: 0 <= k < |agents| ==> FitsTable(trends[k], agents[k], table, Day(now) - window, window)
  {
    var start := WindowStart(now, window);
    var rows := Prefilter(table, start);
    var days := DayRange(now, window);
    trends := [];
    for k := 0 to |agents|
      invariant |trends| == k
      invariant forall j :: 0 <= j < k ==> FitsTable(trends[j], agents[j], table, Day(start), window)
    {
      var trend := TrendOfAgent(table, rows, agents[k], start, days);
      trends := trends + [trend];
    }
  }

  method AgentTotals(rows: seq<Row>, agent: string, days: seq<int>) returns (totals: seq<nat>)
    ensures |totals| == |days|
    ensures forall i :: 0 <= i < |days| ==> totals[i] == CountOn(rows, ByAgent(agent), days[i])
  {
    var mine := OfAgent(rows, agent);
    totals := [];
    for i := 0 to |days|
      invariant |totals| == i
      invariant forall d :: 0 <= d < i ==> totals[d] == CountOn(rows, ByAgent(agent), days[d])
    {
      OfAgentCounts(rows, agent, days[i]);
      var total := CountAll(mine, agent, days[i]);
      totals := totals + [total];
    }
  }

  /** The inner loop of get_agents_trend. */
  method CountAll(mine: seq<Row>, agent: string, day: int) returns (total: nat)
    requires forall r :: r in mine ==> r.agent == agent
    ensures total == CountOn(mine, ByAgent(agent), day)
  {
    total := 0;
    for i := 0 to |mine|
      invariant total == CountOn(mine[..i], ByAgent(agent), day)
    {
      assert mine[..i + 1][..i] == mine[..i];
      assert mine[i] in mine;
      if Day(mine[i].firstSeen) > day {
        continue;
      }
      if mine[i].status.Active? || Day(mine[i].lastSeen) >= day {
        total := total + 1;
      }
    }
    assert mine[..|mine|] == mine;
  }

  // ── What the prefilter hides ───────────────────────────────────────────────

  /** Rows open on `day` that the prefilter drops. */
  function HiddenOn(rows: seq<Row>, b: Bucket, day: int, start: int): nat {
    if rows == [] then 0
    else
      var r := rows[|rows| - 1];
      HiddenOn(rows[..|rows| - 1], b, day, start)
      + (if In(r, b) && Counted(r, day) && !PassesFilter(r, start) then 1 else 0)
  }

  lemma CountOfOneMore(rows: seq<Row>, r: Row, b: Bucket, day: int)
    ensures CountOn(rows + [r], b, day) == CountOn(rows, b, day) + (if In(r, b) && Counted(r, day) then 1 else 0)
  {
    assert (rows + [r])[..|rows|] == rows;
  }

  lemma {:induction false} FilterAccounts(rows: seq<Row>, b: Bucket, day: int, start: int)
    ensures CountOn(rows, b, day) == CountOn(Prefilter(rows, start), b, day) + HiddenOn(rows, b, day, start)
  {
    if rows != [] {
      var front, last := rows[..|rows| - 1], rows[|rows| - 1];
      var kept := Prefilter(front, start);
      FilterAccounts(front, b, day, start);
      assert rows == front + [last];
      CountOfOneMore(front, last, b, day);
      if PassesFilter(last, start) {
        assert Prefilter(rows, start) == kept + [last];
        CountOfOneMore(kept, last, b, day);
        assert HiddenOn(rows, b, day, start) == HiddenOn(front, b, day, start);
      } else {
        assert Prefilter(rows, start) == kept;
      }
    }
  }

  lemma {:induction false} NothingHiddenLater(rows: seq<Row>, b: Bucket, day: int, start: int)
    requires day > Day(start)
    ensures HiddenOn(rows, b, day, start) == 0
  {
    if rows != [] {
      NothingHiddenLater(rows[..|rows| - 1], b, day, start);
    }
  }

  lemma FilteredCount(rows: seq<Row>, b: Bucket, day: int, start: int)
    ensures CountOn(Prefilter(rows, start), b, day) <= CountOn(rows, b, day)
    ensures day > Day(start) ==> CountOn(Prefilter(rows, start), b, day) == CountOn(rows, b, day)
  {
    FilterAccounts(rows, b, day, start);
    if day > Day(start) {
      NothingHiddenLater(rows, b, day, start);
    }
  }

  lemma {:induction false} HiddenRow(rows: seq<Row>, b: Bucket, day: int, start: int)
    ensures HiddenOn(rows, b, day, start) > 0 <==>
            exists r :: r in rows && In(r, b) && Counted(r, day) && !PassesFilter(r, start)
  {
    if rows != [] {
      var front, last := rows[..|rows| - 1], rows[|rows| - 1];
      HiddenRow(front, b, day, start);
      assert rows == front + [last];
    }
  }

  /** The first day is exact exactly when no row of the bucket was resolved on that day before the window opened. */
  lemma FirstDayExactIff(rows: seq<Row>, b: Bucket, now: int, window: nat)
    ensures var start := WindowStart(now, window);
            CountOn(Prefilter(rows, start), b, Day(start)) == CountOn(rows, b, Day(start)) <==>
            !exists r :: && r in rows && In(r, b) && !r.status.Active?
                         && Day(r.firstSeen) <= Day(start) && Day(r.lastSeen) == Day(start) && r.lastSeen < start
  {
    var start := WindowStart(now, window);
    FilterAccounts(rows, b, Day(start), start);
    HiddenRow(rows, b, Day(start), start);
  }
}
