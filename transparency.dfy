/** The public transparency dashboard: counts of stored reports grouped by incident type, a
    seven-day trend of daily counts, the month-over-month change and the display form of an
    incident type. Times are integer milliseconds; the database answers are inputs. */
module Transparency {
  import opened Wrappers

  /** One row of `select('incident_type, created_at')`, with `created_at` as a millisecond time. */
  datatype ReportSummary = ReportSummary(incidentType: string, createdAt: int)

  /** One element of `incidentBreakdown`: `{ type, count }`. */
  datatype Entry = Entry(incidentType: string, count: nat)

  /** One element of `recentTrend`: the day it covers (its first millisecond) and its count. */
  datatype Bucket = Bucket(dayStart: int, count: nat)

  datatype Statistics = Statistics(
    totalReports: nat,
    reportsThisMonth: nat,
    reportsLastMonth: nat,
    incidentBreakdown: seq<Entry>,
    recentTrend: seq<Bucket>)

  /** What the page's five queries return; a count or the row list is None when Supabase
      answers with null. */
  datatype Snapshot = Snapshot(
    totalCount: Option<nat>,
    thisMonthCount: Option<nat>,
    lastMonthCount: Option<nat>,
    reports: Option<seq<ReportSummary>>)

  // ----- grouping by incident type -----

  function Types(rs: seq<ReportSummary>): (ts: seq<string>)
    ensures |ts| == |rs|
    ensures forall i :: 0 <= i < |rs| ==> ts[i] == rs[i].incidentType
  {
    if rs == [] then [] else Types(rs[..|rs| - 1]) + [rs[|rs| - 1].incidentType]
  }

  /** The incident types of a possibly missing row list; `reports?.…|| []` treats a missing list
      as an empty one. */
  function TypesOf(reports: Option<seq<ReportSummary>>): seq<string> {
    if reports.Some? then Types(reports.value) else []
  }

  /** The distinct elements of `ts`, each kept where it first occurs. */
  function Distinct(ts: seq<string>): seq<string> {
    if ts == [] then []
    else
      var d := Distinct(ts[..|ts| - 1]);
      if ts[|ts| - 1] in d then d else d + [ts[|ts| - 1]]
  }

  predicate NoDuplicates(d: seq<string>) {
    forall i, j :: 0 <= i < j < |d| ==> d[i] != d[j]
  }

  lemma {:induction false} DistinctElements(ts: seq<string>)
    ensures forall t :: t in Distinct(ts) <==> t in ts
  {
    if ts != [] {
      DistinctElements(ts[..|ts| - 1]);
      assert ts == ts[..|ts| - 1] + [ts[|ts| - 1]];
    }
  }

  lemma {:induction false} DistinctNoDuplicates(ts: seq<string>)
    ensures NoDuplicates(Distinct(ts))
  {
    if ts != [] {
      DistinctNoDuplicates(ts[..|ts| - 1]);
    }
  }

  /** The index of the first occurrence of `t` in `ts`. */
  function FirstIndex(ts: seq<string>, t: string): (k: nat)
    requires t in ts
    ensures k < |ts| && ts[k] == t
    ensures forall m :: 0 <= m < k ==> ts[m] != t
  {
    if ts[0] == t then 0 else 1 + FirstIndex(ts[1..], t)
  }

  lemma {:induction false} FirstIndexPrefix(ts: seq<string>, n: nat, t: string)
    requires n <= |ts| && t in ts[..n]
    ensures FirstIndex(ts, t) == FirstIndex(ts[..n], t)
  {
    var k := FirstIndex(ts[..n], t);
    assert ts[k] == t;
    var f := FirstIndex(ts, t);
    assert f <= k;
  }

  /** The distinct types come in the order of their first occurrence in `ts`. */
  lemma {:induction false} DistinctFirstOccurrenceOrder(ts: seq<string>)
    ensures forall t :: t in Distinct(ts) ==> t in ts
    ensures forall i, j :: 0 <= i < j < |Distinct(ts)| ==>
      FirstIndex(ts, Distinct(ts)[i]) < FirstIndex(ts, Distinct(ts)[j])
  {
    DistinctElements(ts);
    if ts != [] {
      var n := |ts| - 1;
      var p := ts[..n];
      var d := Distinct(p);
      DistinctFirstOccurrenceOrder(p);
      DistinctElements(p);
      assert ts[..n] == p;
      forall i, j | 0 <= i < j < |Distinct(ts)|
        ensures FirstIndex(ts, Distinct(ts)[i]) < FirstIndex(ts, Distinct(ts)[j])
      {
        FirstIndexPrefix(ts, n, d[i]);
        if j < |d| {
          FirstIndexPrefix(ts, n, d[j]);
        } else {
          assert Distinct(ts)[j] == ts[n] && ts[n] !in p;
          assert FirstIndex(ts, ts[n]) == n;
        }
      }
    }
  }

  /** The counts of `ts` for the types of `d`, added up. */
  function Total(ts: seq<string>, d: seq<string>): nat {
    if d == [] then 0 else Total(ts, d[..|d| - 1]) + multiset(ts)[d[|d| - 1]]
  }

  lemma {:induction false} TotalAppend(p: seq<string>, x: string, d: seq<string>)
    requires NoDuplicates(d)
    ensures Total(p + [x], d) == Total(p, d) + (if x in d then 1 else 0)
  {
    if d != [] {
      var e := d[..|d| - 1];
      assert NoDuplicates(e);
      TotalAppend(p, x, e);
      assert multiset(p + [x]) == multiset(p) + multiset{x};
      assert x in d <==> x in e || x == d[|d| - 1];
      if x == d[|d| - 1] {
        assert x !in e;
      }
    }
  }

  /** The counts of the distinct types add up to the number of elements. */
  lemma {:induction false} DistinctTotal(ts: seq<string>)
    ensures Total(ts, Distinct(ts)) == |ts|
  {
    if ts != [] {
      var n := |ts| - 1;
      var p, x := ts[..n], ts[n];
      assert ts == p + [x];
      var d := Distinct(p);
      DistinctTotal(p);
      DistinctNoDuplicates(p);
      TotalAppend(p, x, d);
      if x !in d {
        DistinctElements(p);
        assert multiset(ts)[x] == multiset(p)[x] + 1;
        assert multiset(ts)[x] == 1;
        assert Distinct(ts)[..|Distinct(ts)| - 1] == d;
      }
    }
  }

  /** The breakdown the reduce builds for the types `ts`: one entry per distinct type, in
      first-occurrence order, each carrying the number of elements of that type. */
  predicate IsBreakdown(acc: seq<Entry>, ts: seq<string>) {
    |acc| == |Distinct(ts)| &&
    forall i :: 0 <= i < |acc| ==>
      acc[i].incidentType == Distinct(ts)[i] && acc[i].count == multiset(ts)[acc[i].incidentType]
  }

  function SumCounts(acc: seq<Entry>): nat {
    if acc == [] then 0 else SumCounts(acc[..|acc| - 1]) + acc[|acc| - 1].count
  }

  function TypesOfEntries(acc: seq<Entry>): (d: seq<string>)
    ensures |d| == |acc|
    ensures forall i :: 0 <= i < |acc| ==> d[i] == acc[i].incidentType
  {
    if acc == [] then [] else TypesOfEntries(acc[..|acc| - 1]) + [acc[|acc| - 1].incidentType]
  }

  lemma {:induction false} SumCountsIsTotal(acc: seq<Entry>, ts: seq<string>)
    requires forall i :: 0 <= i < |acc| ==> acc[i].count == multiset(ts)[acc[i].incidentType]
    ensures SumCounts(acc) == Total(ts, TypesOfEntries(acc))
  {
    if acc != [] {
      var e := acc[..|acc| - 1];
      SumCountsIsTotal(e, ts);
      assert TypesOfEntries(acc)[..|acc| - 1] == TypesOfEntries(e);
    }
  }

  /** Each type appears at most once in a breakdown, and each type of the list appears. */
  lemma BreakdownTypes(acc: seq<Entry>, ts: seq<string>)
    requires IsBreakdown(acc, ts)
    ensures forall i, j :: 0 <= i < j < |acc| ==> acc[i].incidentType != acc[j].incidentType
    ensures forall t :: t in ts <==> t in TypesOfEntries(acc)
  {
    DistinctNoDuplicates(ts);
    DistinctElements(ts);
    assert TypesOfEntries(acc) == Distinct(ts);
  }

  /** Every count of a breakdown is at least one. */
  lemma BreakdownCountsPositive(acc: seq<Entry>, ts: seq<string>)
    requires IsBreakdown(acc, ts)
    ensures forall i :: 0 <= i < |acc| ==> acc[i].count >= 1
  {
    DistinctElements(ts);
    forall i | 0 <= i < |acc|
      ensures acc[i].count >= 1
    {
      assert Distinct(ts)[i] in Distinct(ts);
    }
  }

  /** A breakdown lists the types in the order of their first occurrence. */
  lemma BreakdownOrder(acc: seq<Entry>, ts: seq<string>)
    requires IsBreakdown(acc, ts)
    ensures forall i :: 0 <= i < |acc| ==> acc[i].incidentType in ts
    ensures forall i, j :: 0 <= i < j < |acc| ==>
      FirstIndex(ts, acc[i].incidentType) < FirstIndex(ts, acc[j].incidentType)
  {
    DistinctFirstOccurrenceOrder(ts);
    assert forall i :: 0 <= i < |acc| ==> Distinct(ts)[i] in Distinct(ts);
  }

  /** The counts of a breakdown add up to the number of reports. */
  lemma BreakdownSum(acc: seq<Entry>, ts: seq<string>)
    requires IsBreakdown(acc, ts)
    ensures SumCounts(acc) == |ts|
  {
    DistinctTotal(ts);
    SumCountsIsTotal(acc, ts);
    assert TypesOfEntries(acc) == Distinct(ts);
  }

  /** There is only one breakdown of a given list of types. */
  lemma BreakdownUnique(a: seq<Entry>, b: seq<Entry>, ts: seq<string>)
    requires IsBreakdown(a, ts) && IsBreakdown(b, ts)
    ensures a == b
  {
    assert forall i :: 0 <= i < |a| ==> a[i] == b[i];
  }

  /** A report whose type is already listed adds one to that entry's count. */
  lemma BreakdownBump(acc: seq<Entry>, ts: seq<string>, j: nat)
    requires IsBreakdown(acc, ts) && j < |acc|
    ensures IsBreakdown(acc[j := Entry(acc[j].incidentType, acc[j].count + 1)], ts + [acc[j].incidentType])
  {
    var t := acc[j].incidentType;
    DistinctElements(ts);
    assert t in Distinct(ts);
    assert Distinct(ts + [t]) == Distinct(ts) by {
      assert (ts + [t])[..|ts|] == ts;
    }
    assert multiset(ts + [t]) == multiset(ts) + multiset{t};
    DistinctNoDuplicates(ts);
  }

  /** A report of a type not yet listed adds an entry of count one at the end. */
  lemma BreakdownAppend(acc: seq<Entry>, ts: seq<string>, t: string)
    requires IsBreakdown(acc, ts)
    requires forall k :: 0 <= k < |acc| ==> acc[k].incidentType != t
    ensures IsBreakdown(acc + [Entry(t, 1)], ts + [t])
  {
    DistinctElements(ts);
    assert t !in Distinct(ts);
    assert Distinct(ts + [t]) == Distinct(ts) + [t] by {
      assert (ts + [t])[..|ts|] == ts;
    }
    assert multiset(ts + [t]) == multiset(ts) + multiset{t};
  }

  /** The `incidentBreakdown` reduce: for each row, find the entry of its type and increment its
      count, or push a new entry with count 1. A missing row list gives []. */
  method IncidentBreakdown(reports: Option<seq<ReportSummary>>) returns (acc: seq<Entry>)
    ensures IsBreakdown(acc, TypesOf(reports))
    ensures reports.None? ==> acc == []
  {
    acc := [];
    if reports.None? {
      return;
    }
    var rs := reports.value;
    ghost var ts := Types(rs);
    var i := 0;
    while i < |rs|
      invariant 0 <= i <= |rs|
      invariant IsBreakdown(acc, ts[..i])
    {
      var t := rs[i].incidentType;
      assert ts[..i + 1] == ts[..i] + [t];
      // acc.find(item => item.type === report.incident_type)
      var j := 0;
      while j < |acc| && acc[j].incidentType != t
        invariant 0 <= j <= |acc|
        invariant forall k :: 0 <= k < j ==> acc[k].incidentType != t
      {
        j := j + 1;
      }
      if j < |acc| {
        BreakdownBump(acc, ts[..i], j);
        acc := acc[j := Entry(t, acc[j].count + 1)];
      } else {
        BreakdownAppend(acc, ts[..i], t);
        acc := acc + [Entry(t, 1)];
      }
      i := i + 1;
    }
    assert ts[..i] == ts;
  }

  // ----- the seven-day trend -----

  const DayMs: int := 86400000

  /** The rows whose `created_at` lies in the half-open interval [lo, hi). */
  function Within(rs: seq<ReportSummary>, lo: int, hi: int): (w: seq<ReportSummary>)
    ensures |w| <= |rs|
    ensures forall r :: r in w <==> r in rs && lo <= r.createdAt < hi
  {
    if rs == [] then []
    else
      var w := Within(rs[..|rs| - 1], lo, hi);
      var r := rs[|rs| - 1];
      assert rs == rs[..|rs| - 1] + [r];
      if lo <= r.createdAt < hi then w + [r] else w
  }

  /** `filter` keeps every row in range as many times as it occurs, so its length counts the
      rows in range with their repetitions; rows out of range are dropped. */
  lemma {:induction false} WithinMultiplicity(rs: seq<ReportSummary>, lo: int, hi: int)
    ensures forall r :: multiset(Within(rs, lo, hi))[r] == if lo <= r.createdAt < hi then multiset(rs)[r] else 0
  {
    if rs != [] {
      var r := rs[|rs| - 1];
      WithinMultiplicity(rs[..|rs| - 1], lo, hi);
      assert rs == rs[..|rs| - 1] + [r];
      assert multiset(rs) == multiset(rs[..|rs| - 1]) + multiset{r};
    }
  }

  /** `reports?.filter(...).length || 0`. */
  function CountIn(reports: Option<seq<ReportSummary>>, lo: int, hi: int): nat {
    if reports.Some? then |Within(reports.value, lo, hi)| else 0
  }

  /** Adjacent intervals count disjoint sets of rows. */
  lemma {:induction false} WithinSplit(rs: seq<ReportSummary>, lo: int, mid: int, hi: int)
    requires lo <= mid <= hi
    ensures |Within(rs, lo, hi)| == |Within(rs, lo, mid)| + |Within(rs, mid, hi)|
  {
    if rs != [] {
      WithinSplit(rs[..|rs| - 1], lo, mid, hi);
    }
  }

  /** Bucket i of `last7Days`: midnight `6 - i` days before today. */
  function DayStart(startOfToday: int, i: int): int {
    startOfToday - (6 - i) * DayMs
  }

  /** `recentTrend`: seven buckets, oldest first, for consecutive days ending with today; each
      counts the rows created on its day, from its midnight up to the next. */
  function RecentTrend(reports: Option<seq<ReportSummary>>, startOfToday: int): (t: seq<Bucket>)
    ensures |t| == 7
    ensures t[6].dayStart == startOfToday
    ensures forall i :: 0 <= i < 6 ==> t[i + 1].dayStart == t[i].dayStart + DayMs
    ensures forall i :: 0 <= i < 7 ==> t[i].count == CountIn(reports, t[i].dayStart, t[i].dayStart + DayMs)
  {
    seq(7, i requires 0 <= i < 7 =>
      Bucket(DayStart(startOfToday, i),
             CountIn(reports, DayStart(startOfToday, i), DayStart(startOfToday, i) + DayMs)))
  }

  function BucketTotal(t: seq<Bucket>): nat {
    if t == [] then 0 else BucketTotal(t[..|t| - 1]) + t[|t| - 1].count
  }

  /** A row time lies in at most one bucket: the buckets are disjoint days. */
  lemma BucketsDisjoint(startOfToday: int, createdAt: int, i: int, j: int)
    requires DayStart(startOfToday, i) <= createdAt < DayStart(startOfToday, i) + DayMs
    requires DayStart(startOfToday, j) <= createdAt < DayStart(startOfToday, j) + DayMs
    ensures i == j
  {
  }

  lemma {:induction false} TrendPrefixTotal(reports: Option<seq<ReportSummary>>, startOfToday: int, n: nat)
    requires n <= 7
    ensures BucketTotal(RecentTrend(reports, startOfToday)[..n])
         == CountIn(reports, DayStart(startOfToday, 0), DayStart(startOfToday, 0) + n * DayMs)
  {
    var t := RecentTrend(reports, startOfToday);
    var lo := DayStart(startOfToday, 0);
    if n > 0 {
      TrendPrefixTotal(reports, startOfToday, n - 1);
      assert t[..n][..n - 1] == t[..n - 1];
      assert t[n - 1].dayStart == lo + (n - 1) * DayMs;
      assert lo + n * DayMs == lo + (n - 1) * DayMs + DayMs;
      if reports.Some? {
        WithinSplit(reports.value, lo, lo + (n - 1) * DayMs, lo + n * DayMs);
      }
    } else {
      assert t[..0] == [];
      if reports.Some? {
        WithinSplit(reports.value, lo, lo, lo);
      }
    }
  }

  /** The seven counts add up to the rows of the whole week, so to at most the number of rows;
      a missing row list gives zero in every bucket. */
  lemma TrendTotal(reports: Option<seq<ReportSummary>>, startOfToday: int)
    ensures BucketTotal(RecentTrend(reports, startOfToday))
         == CountIn(reports, startOfToday - 6 * DayMs, startOfToday + DayMs)
    ensures reports.Some? ==> BucketTotal(RecentTrend(reports, startOfToday)) <= |reports.value|
    ensures reports.None? ==> forall i :: 0 <= i < 7 ==> RecentTrend(reports, startOfToday)[i].count == 0
  {
    TrendPrefixTotal(reports, startOfToday, 7);
    assert RecentTrend(reports, startOfToday)[..7] == RecentTrend(reports, startOfToday);
  }

  // ----- statistics -----

  /** `setStats({...})`: null counts default to 0. */
  function StatisticsOf(s: Snapshot, breakdown: seq<Entry>, startOfToday: int): (st: Statistics)
    ensures st.totalReports == (if s.totalCount.Some? then s.totalCount.value else 0)
    ensures st.reportsThisMonth == (if s.thisMonthCount.Some? then s.thisMonthCount.value else 0)
    ensures st.reportsLastMonth == (if s.lastMonthCount.Some? then s.lastMonthCount.value else 0)
    ensures st.incidentBreakdown == breakdown
    ensures st.recentTrend == RecentTrend(s.reports, startOfToday)
  {
    Statistics(s.totalCount.GetOr(0), s.thisMonthCount.GetOr(0), s.lastMonthCount.GetOr(0),
               breakdown, RecentTrend(s.reports, startOfToday))
  }

  /** `getTrendPercentage`, as an exact ratio: null without statistics or when last month had no
      reports, else the relative change from last month to this month, in percent. */
  function TrendPercentage(stats: Option<Statistics>): (r: Option<real>)
    ensures r.None? <==> stats.None? || stats.value.reportsLastMonth == 0
    ensures r.Some? ==> (r.value > 0.0 <==> stats.value.reportsThisMonth > stats.value.reportsLastMonth)
    ensures r.Some? ==> (r.value == 0.0 <==> stats.value.reportsThisMonth == stats.value.reportsLastMonth)
    ensures r.Some? ==> r.value >= -100.0
  {
    if stats.None? || stats.value.reportsLastMonth == 0 then None
    else
      var last := stats.value.reportsLastMonth as real;
      var change := stats.value.reportsThisMonth as real - last;
      assert change / last * 100.0 > 0.0 <==> change > 0.0;
      assert change / last * 100.0 == 0.0 <==> change == 0.0;
      assert change / last >= -1.0 by {
        assert change >= -last;
      }
      Some(change / last * 100.0)
  }

  class TransparencyPage {
    var stats: Option<Statistics>
    var loading: bool

    /** The `useState` initial values: no statistics yet, loading. */
    constructor ()
      ensures stats == None && loading
    {
      stats := None;
      loading := true;
    }

    /** `fetchStatistics`. `answer` is what the queries returned, None when one of the awaits
        threw; then the statistics stay as they were. `loading` ends false in either case. */
    method FetchStatistics(answer: Option<Snapshot>, startOfToday: int)
      modifies this
      ensures !loading
      ensures answer.None? ==> stats == old(stats)
      ensures answer.Some? ==>
        && stats.Some?
        && stats.value == StatisticsOf(answer.value, stats.value.incidentBreakdown, startOfToday)
        && IsBreakdown(stats.value.incidentBreakdown, TypesOf(answer.value.reports))
    {
      if answer.Some? {
        var breakdown := IncidentBreakdown(answer.value.reports);
        stats := Some(StatisticsOf(answer.value, breakdown, startOfToday));
      }
      loading := false;
    }
  }

  // ----- display of an incident type -----

  /** `toUpperCase` on ASCII letters; other characters are left as they are. */
  function ToUpper(c: char): (u: char)
    ensures 'a' <= c <= 'z' ==> u as int == c as int - 32
    ensures !('a' <= c <= 'z') ==> u == c
  {
    if 'a' <= c <= 'z' then (c as int - 32) as char else c
  }

  /** `s.split(sep)`: the pieces between the separators; "" splits into [""]. */
  function Split(s: string, sep: char): (ps: seq<string>)
    ensures |ps| >= 1
  {
    if s == [] then [[]]
    else
      var rest := Split(s[1..], sep);
      if s[0] == sep then [[]] + rest else [[s[0]] + rest[0]] + rest[1..]
  }

  /** `word.charAt(0).toUpperCase() + word.slice(1)`. */
  function Capitalize(w: string): string {
    if w == [] then [] else [ToUpper(w[0])] + w[1..]
  }

  function CapitalizeAll(ws: seq<string>): (cs: seq<string>)
    ensures |cs| == |ws|
  {
    if ws == [] then [] else [Capitalize(ws[0])] + CapitalizeAll(ws[1..])
  }

  /** `ws.join(sep)`. */
  function Join(ws: seq<string>, sep: char): string {
    if ws == [] then []
    else if |ws| == 1 then ws[0]
    else ws[0] + [sep] + Join(ws[1..], sep)
  }

  /** `formatIncidentType`. */
  function FormatIncidentType(t: string): string {
    Join(CapitalizeAll(Split(t, '-')), ' ')
  }

  /** A character-by-character reading of the same transformation: every `-` becomes a space,
      and a character is upper-cased when it starts the text or follows a `-`. */
  function Formatted(t: string, atStart: bool): (f: string)
    ensures |f| == |t|
  {
    if t == [] then []
    else if t[0] == '-' then [' '] + Formatted(t[1..], true)
    else [if atStart then ToUpper(t[0]) else t[0]] + Formatted(t[1..], false)
  }

  /** The join of the pieces, the first one upper-cased only when `atStart`. */
  function JoinPieces(ps: seq<string>, atStart: bool): string
    requires |ps| >= 1
  {
    Join([if atStart then Capitalize(ps[0]) else ps[0]] + CapitalizeAll(ps[1..]), ' ')
  }

  lemma {:induction false} JoinPiecesFormatted(t: string, atStart: bool)
    ensures JoinPieces(Split(t, '-'), atStart) == Formatted(t, atStart)
  {
    if t != [] {
      var rest := Split(t[1..], '-');
      JoinPiecesFormatted(t[1..], t[0] == '-');
      if t[0] == '-' {
        var ps := Split(t, '-');
        assert ps == [[]] + rest;
        assert ps[1..] == rest;
        assert CapitalizeAll(rest) == [Capitalize(rest[0])] + CapitalizeAll(rest[1..]);
        var w0: string := [];
        assert Join([w0] + CapitalizeAll(rest), ' ') == w0 + [' '] + Join(CapitalizeAll(rest), ' ');
      } else {
        var c := t[0];
        var ps := Split(t, '-');
        assert ps == [[c] + rest[0]] + rest[1..];
        var w := if atStart then Capitalize([c] + rest[0]) else [c] + rest[0];
        var c' := if atStart then ToUpper(c) else c;
        assert w == [c'] + rest[0];
        JoinHead(c', rest[0], CapitalizeAll(rest[1..]));
      }
    }
  }

  lemma JoinHead(c: char, w: string, more: seq<string>)
    ensures Join([[c] + w] + more, ' ') == [c] + Join([w] + more, ' ')
  {
    if more != [] {
      assert ([[c] + w] + more)[1..] == more;
      assert ([w] + more)[1..] == more;
    }
  }

  /** `formatIncidentType` replaces each `-` with a space and upper-cases the first character
      of every piece; everything else, and the length, is kept. */
  lemma FormatCharacters(t: string)
    ensures |FormatIncidentType(t)| == |t|
    ensures forall i :: 0 <= i < |t| ==>
      FormatIncidentType(t)[i] == FormattedChar(t, i)
  {
    JoinPiecesFormatted(t, true);
    assert FormatIncidentType(t) == Formatted(t, true);
    FormattedAt(t, true);
  }

  lemma {:induction false} FormattedAt(t: string, atStart: bool)
    ensures forall i :: 0 <= i < |t| ==>
      Formatted(t, atStart)[i] == (if i == 0 && !atStart && t[0] != '-' then t[0] else FormattedChar(t, i))
  {
    if t != [] {
      var f := Formatted(t, atStart);
      var b := t[0] == '-';
      FormattedAt(t[1..], b);
      assert f == [f[0]] + Formatted(t[1..], b);
      forall i | 1 <= i < |t|
        ensures f[i] == FormattedChar(t, i)
      {
        assert f[i] == Formatted(t[1..], b)[i - 1];
        assert t[1..][i - 1] == t[i];
        if i == 1 {
          assert t[1..][0] == t[1];
        } else {
          assert t[1..][i - 2] == t[i - 1];
        }
      }
    }
  }

  /** Character i of the formatted type. */
  function FormattedChar(t: string, i: int): char
    requires 0 <= i < |t|
  {
    if t[i] == '-' then ' '
    else if i == 0 || t[i - 1] == '-' then ToUpper(t[i])
    else t[i]
  }

  lemma FormatExample(t: string)
    requires t == "unsafe-behavior"
    ensures FormatIncidentType(t) == "Unsafe Behavior"
  {
    FormatCharacters(t);
    var f := FormatIncidentType(t);
    assert f[0] == 'U' && f[1] == 'n' && f[2] == 's' && f[3] == 'a' && f[4] == 'f';
    assert f[5] == 'e' && f[6] == ' ' && f[7] == 'B' && f[8] == 'e' && f[9] == 'h';
    assert f[10] == 'a' && f[11] == 'v' && f[12] == 'i' && f[13] == 'o' && f[14] == 'r';
    var g := "Unsafe Behavior";
    forall i | 0 <= i < 15
      ensures f[i] == g[i]
    {
      assert i in {0, 1, 2, 3, 4, 5, 6, 7, 8, 9, 10, 11, 12, 13, 14};
    }
  }
}
