/**
 * The completion trend behind the line chart: for every module of the table and every
 * distinct completion day seen in that module's rows, the share of the module's students
 * completed by that day (x 100); then, per module, the points sorted by day.
 */
module Trend {
  import opened Wrappers
  import opened Collections
  import opened Events
  import opened Percentages
  import opened Catalog

  /** One row of `result_time`: columns `Date`, `Module`, `Percentage Completion`. */
  datatype TrendRow = TrendRow(date: Date, moduleName: string, percentage: real)

  /** The days on which rows of module `m` record a completion (`NaT` excluded). */
  function DaySet(df: seq<Event>, m: string): set<Date> {
    set e | e in df && e.moduleName == m && e.completedAt.Some? :: e.completedAt.value
  }

  /** The completion days of some rows, rows without a completion date skipped, in row order. */
  function KnownDays(rows: seq<Event>): (r: seq<Date>)
    ensures forall d :: d in r <==> exists e :: e in rows && e.completedAt == Some(d)
  {
    if |rows| == 0 then []
    else
      var rest := KnownDays(rows[1..]);
      assert forall e :: e in rows <==> e == rows[0] || e in rows[1..];
      match rows[0].completedAt
      case None => rest
      case Some(d) => [d] + rest
  }

  /**
   * The distinct completion days of module `m`'s rows, missing dates excluded: each day
   * once, in order of first appearance.
   */
  function ModuleDays(df: seq<Event>, m: string): (r: seq<Date>)
    ensures NoDup(r)
    ensures forall d :: d in r <==> d in DaySet(df, m)
  {
    var days := KnownDays(RowsOfModule(df, m));
    forall d | d in DaySet(df, m)
      ensures d in days
    {
      var e :| e in df && e.moduleName == m && e.completedAt == Some(d);
      assert e in RowsOfModule(df, m);
    }
    Unique(days)
  }

  /** A row of the trend: a completion day of its module, with the share completed by then, x 100. */
  predicate TrendPoint(df: seq<Event>, row: TrendRow) {
    && row.date in DaySet(df, row.moduleName)
    && row.percentage == 100.0 * AsOfPercentage(df, row.moduleName, row.date)
  }

  /** The (module, day) key of each row. */
  function Keys(rows: seq<TrendRow>): (r: seq<(string, Date)>)
    ensures |r| == |rows|
    ensures forall i :: 0 <= i < |rows| ==> r[i] == (rows[i].moduleName, rows[i].date)
  {
    seq(|rows|, i requires 0 <= i < |rows| => (rows[i].moduleName, rows[i].date))
  }

  /** The inner loop for one module: one row per distinct completion day. */
  function ModuleTrend(df: seq<Event>, m: string): (r: seq<TrendRow>)
    ensures |r| == |ModuleDays(df, m)|
    ensures forall i :: 0 <= i < |r| ==> r[i].moduleName == m && r[i].date == ModuleDays(df, m)[i]
    ensures forall row :: row in r ==> TrendPoint(df, row)
  {
    var days := ModuleDays(df, m);
    seq(|days|, i requires 0 <= i < |days| => TrendRow(days[i], m, 100.0 * AsOfPercentage(df, m, days[i])))
  }

  /** The outer loop over `modules`, concatenating each module's rows. */
  function TrendTable(df: seq<Event>, modules: seq<string>): (r: seq<TrendRow>)
    ensures forall row :: row in r ==> row.moduleName in modules && TrendPoint(df, row)
    ensures forall m, d :: m in modules && d in DaySet(df, m) ==> (m, d) in Keys(r)
    ensures NoDup(modules) ==> NoDup(Keys(r))
  {
    if |modules| == 0 then []
    else
      var head := ModuleTrend(df, modules[0]);
      var rest := TrendTable(df, modules[1..]);
      TrendTableStep(df, modules, head, rest);
      head + rest
  }

  /** The inductive step of `TrendTable`: prepending the first module's rows keeps its contract. */
  lemma TrendTableStep(df: seq<Event>, modules: seq<string>, head: seq<TrendRow>, rest: seq<TrendRow>)
    requires |modules| > 0 && head == ModuleTrend(df, modules[0])
    requires forall row :: row in rest ==> row.moduleName in modules[1..] && TrendPoint(df, row)
    requires forall m, d :: m in modules[1..] && d in DaySet(df, m) ==> (m, d) in Keys(rest)
    requires NoDup(modules[1..]) ==> NoDup(Keys(rest))
    ensures forall row :: row in head + rest ==> row.moduleName in modules && TrendPoint(df, row)
    ensures forall m, d :: m in modules && d in DaySet(df, m) ==> (m, d) in Keys(head + rest)
    ensures NoDup(modules) ==> NoDup(Keys(head + rest))
  {
    TrendRowsConcat(df, modules, head, rest);
    TrendKeysCovered(df, modules, head, rest);
    TrendKeysDistinct(modules, head, rest);
  }

  /** Every row of the concatenation is a trend point of one of the listed modules. */
  lemma TrendRowsConcat(df: seq<Event>, modules: seq<string>, head: seq<TrendRow>, rest: seq<TrendRow>)
    requires |modules| > 0
    requires forall row :: row in head ==> row.moduleName == modules[0] && TrendPoint(df, row)
    requires forall row :: row in rest ==> row.moduleName in modules[1..] && TrendPoint(df, row)
    ensures forall row :: row in head + rest ==> row.moduleName in modules && TrendPoint(df, row)
  {
    forall row | row in head + rest
      ensures row.moduleName in modules && TrendPoint(df, row)
    {
      if row !in head {
        assert row in rest;
      }
    }
  }

  /** Every (module, day) pair of the list is the key of some row of the concatenation. */
  lemma TrendKeysCovered(df: seq<Event>, modules: seq<string>, head: seq<TrendRow>, rest: seq<TrendRow>)
    requires |modules| > 0 && |head| == |ModuleDays(df, modules[0])|
    requires forall i :: 0 <= i < |head| ==>
               head[i].moduleName == modules[0] && head[i].date == ModuleDays(df, modules[0])[i]
    requires forall m, d :: m in modules[1..] && d in DaySet(df, m) ==> (m, d) in Keys(rest)
    ensures forall m, d :: m in modules && d in DaySet(df, m) ==> (m, d) in Keys(head + rest)
  {
    var days := ModuleDays(df, modules[0]);
    assert Keys(head + rest) == Keys(head) + Keys(rest);
    forall m, d | m in modules && d in DaySet(df, m)
      ensures (m, d) in Keys(head + rest)
    {
      if m == modules[0] {
        var i :| 0 <= i < |days| && days[i] == d;
        assert Keys(head)[i] == (m, d);
      } else {
        assert m in modules[1..];
      }
    }
  }

  /** Keys stay distinct when the first module's rows, with distinct days, go before the others'. */
  lemma TrendKeysDistinct(modules: seq<string>, head: seq<TrendRow>, rest: seq<TrendRow>)
    requires |modules| > 0
    requires forall i :: 0 <= i < |head| ==> head[i].moduleName == modules[0]
    requires NoDup(Keys(head))
    requires forall row :: row in rest ==> row.moduleName in modules[1..]
    requires NoDup(modules[1..]) ==> NoDup(Keys(rest))
    ensures NoDup(modules) ==> NoDup(Keys(head + rest))
  {
    var all := head + rest;
    if NoDup(modules) {
      assert NoDup(modules[1..]);
      forall i, j | 0 <= i < j < |all|
        ensures Keys(all)[i] != Keys(all)[j]
      {
        if j < |head| {
          assert Keys(all)[i] == Keys(head)[i] && Keys(all)[j] == Keys(head)[j];
        } else if i < |head| {
          assert all[j] in rest;
          assert all[j].moduleName != modules[0];
        } else {
          assert Keys(all)[i] == Keys(rest)[i - |head|];
          assert Keys(all)[j] == Keys(rest)[j - |head|];
        }
      }
    }
  }

  /**
   * `module_completion_lineplot(df)` up to the figure: for every module of the whole table
   * (`data`) and every distinct completion day in that module's rows of `df`, the share of
   * the module's students completed by that day, x 100. Exactly one row per such pair.
   */
  function CompletionTrend(data: seq<Event>, df: seq<Event>): (r: seq<TrendRow>)
    ensures forall row :: row in r ==> row.moduleName in Modules(data) && TrendPoint(df, row)
    ensures forall m, d :: m in Modules(data) && d in DaySet(df, m) ==> (m, d) in Keys(r)
    ensures NoDup(Keys(r))
  {
    TrendTable(df, Modules(data))
  }

  /** Rows in non-decreasing order of day. */
  predicate SortedByDate(rows: seq<TrendRow>) {
    forall i, j :: 0 <= i < j < |rows| ==> rows[i].date <= rows[j].date
  }

  /** Insert one row into a day-sorted sequence, before the first row of a later or equal day. */
  function InsertByDate(x: TrendRow, rows: seq<TrendRow>): (r: seq<TrendRow>)
    requires SortedByDate(rows)
    ensures SortedByDate(r)
    ensures multiset(r) == multiset(rows) + multiset{x}
    ensures r[0] == x || (|rows| > 0 && r[0] == rows[0])
  {
    if |rows| == 0 || x.date <= rows[0].date then [x] + rows
    else
      var rest := InsertByDate(x, rows[1..]);
      assert rows == [rows[0]] + rows[1..];
      assert rows[0].date <= rest[0].date;
      [rows[0]] + rest
  }

  /** Sorting by day: the same rows, in non-decreasing order of day. */
  function SortByDate(rows: seq<TrendRow>): (r: seq<TrendRow>)
    ensures SortedByDate(r)
    ensures multiset(r) == multiset(rows)
  {
    if |rows| == 0 then []
    else
      assert rows == [rows[0]] + rows[1..];
      InsertByDate(rows[0], SortByDate(rows[1..]))
  }

  /** The series plotted for one module: that module's points of the trend, sorted by day. */
  function ModuleSeries(trend: seq<TrendRow>, m: string): (r: seq<TrendRow>)
    ensures SortedByDate(r)
    ensures forall row :: row in r <==> row in trend && row.moduleName == m
    ensures forall row :: multiset(r)[row] == if row.moduleName == m then multiset(trend)[row] else 0
  {
    var group := Filter(trend, (row: TrendRow) => row.moduleName == m);
    var sorted := SortByDate(group);
    forall row
      ensures row in sorted <==> row in group
    {
      assert row in sorted <==> row in multiset(sorted);
      assert row in group <==> row in multiset(group);
    }
    sorted
  }

  /**
   * The plotted series of a module is cumulative: along increasing days, the share of
   * students completed never goes down.
   */
  lemma SeriesIsCumulative(data: seq<Event>, df: seq<Event>, m: string)
    ensures forall i, j :: 0 <= i < j < |ModuleSeries(CompletionTrend(data, df), m)| ==>
              ModuleSeries(CompletionTrend(data, df), m)[i].percentage
                <= ModuleSeries(CompletionTrend(data, df), m)[j].percentage
  {
    var trend := CompletionTrend(data, df);
    var s := ModuleSeries(trend, m);
    assert forall row :: row in s ==> row.moduleName == m && TrendPoint(df, row);
    SortedPointsCumulative(df, m, s);
  }

  /** Day-sorted trend points of one module have non-decreasing percentages. */
  lemma SortedPointsCumulative(df: seq<Event>, m: string, s: seq<TrendRow>)
    requires SortedByDate(s)
    requires forall row :: row in s ==> row.moduleName == m && TrendPoint(df, row)
    ensures forall i, j :: 0 <= i < j < |s| ==> s[i].percentage <= s[j].percentage
  {
    forall i, j | 0 <= i < j < |s|
      ensures s[i].percentage <= s[j].percentage
    {
      assert s[i] in s && s[j] in s;
      AsOfMonotone(df, m, s[i].date, s[j].date);
    }
  }
}
