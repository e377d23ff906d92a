/**
 Ignition-window days folded into seasons
 (`groupByYear`, backend/src/history/history.service.ts).
 */
module SeasonHistory {
  import opened Wrappers
  import opened Runs
  import opened Sorting

  /** One day on which both criteria were met in the same hour. */
  datatype WindowDay = WindowDay(year: int, month: int, hours: nat)

  datatype MonthSummary = MonthSummary(month: int, days: nat, hours: nat)

  datatype YearSummary = YearSummary(
    year: int,
    days: nat,
    hours: nat,
    longestWindowHours: nat,
    months: seq<MonthSummary>)

  function Max(a: nat, b: nat): nat {
    if a < b then b else a
  }

  // ---------------------------------------------------------------------
  // What the rows say
  // ---------------------------------------------------------------------

  /** Whether a row belongs to a year, or to one month of it. */
  predicate Selects(year: int, month: Option<int>, row: WindowDay) {
    row.year == year && (month.Some? ==> row.month == month.value)
  }

  function Days(rows: seq<WindowDay>, year: int, month: Option<int>): nat {
    if rows == [] then 0
    else
      var n := |rows| - 1;
      Days(rows[..n], year, month) + if Selects(year, month, rows[n]) then 1 else 0
  }

  function Hours(rows: seq<WindowDay>, year: int, month: Option<int>): nat {
    if rows == [] then 0
    else
      var n := |rows| - 1;
      Hours(rows[..n], year, month) + if Selects(year, month, rows[n]) then rows[n].hours else 0
  }

  ghost predicate IsLongestDay(rows: seq<WindowDay>, year: int, hours: nat) {
    && (forall i :: 0 <= i < |rows| && rows[i].year == year ==> rows[i].hours <= hours)
    && (hours > 0 ==> exists i :: 0 <= i < |rows| && rows[i].year == year && rows[i].hours == hours)
  }

  function AllHours(rows: seq<WindowDay>): nat {
    if rows == [] then 0 else AllHours(rows[..|rows| - 1]) + rows[|rows| - 1].hours
  }

  // ---------------------------------------------------------------------
  // What the summaries say
  // ---------------------------------------------------------------------

  ghost predicate HasMonth(months: seq<MonthSummary>, month: int) {
    exists k :: 0 <= k < |months| && months[k].month == month
  }

  ghost predicate HasYear(years: seq<YearSummary>, year: int) {
    exists k :: 0 <= k < |years| && years[k].year == year
  }

  ghost predicate DistinctMonths(months: seq<MonthSummary>) {
    forall j, k :: 0 <= j < k < |months| ==> months[j].month != months[k].month
  }

  ghost predicate DistinctYears(years: seq<YearSummary>) {
    forall j, k :: 0 <= j < k < |years| ==> years[j].year != years[k].year
  }

  ghost predicate AscendingMonths(months: seq<MonthSummary>) {
    forall j, k :: 0 <= j < k < |months| ==> months[j].month < months[k].month
  }

  ghost predicate AscendingYears(years: seq<YearSummary>) {
    forall j, k :: 0 <= j < k < |years| ==> years[j].year < years[k].year
  }

  function MonthDays(months: seq<MonthSummary>): nat {
    if months == [] then 0 else MonthDays(months[..|months| - 1]) + months[|months| - 1].days
  }

  function MonthHours(months: seq<MonthSummary>): nat {
    if months == [] then 0 else MonthHours(months[..|months| - 1]) + months[|months| - 1].hours
  }

  function YearDays(years: seq<YearSummary>): nat {
    if years == [] then 0 else YearDays(years[..|years| - 1]) + years[|years| - 1].days
  }

  function YearHours(years: seq<YearSummary>): nat {
    if years == [] then 0 else YearHours(years[..|years| - 1]) + years[|years| - 1].hours
  }

  ghost predicate MonthIsRight(m: MonthSummary, year: int, rows: seq<WindowDay>) {
    m.days == Days(rows, year, Some(m.month)) && m.hours == Hours(rows, year, Some(m.month))
  }

  ghost predicate MonthsAreRight(months: seq<MonthSummary>, year: int, rows: seq<WindowDay>) {
    && DistinctMonths(months)
    && (forall k :: 0 <= k < |months| ==> MonthIsRight(months[k], year, rows) && months[k].days > 0)
    && (forall i :: 0 <= i < |rows| && rows[i].year == year ==> HasMonth(months, rows[i].month))
  }

  /** The figures of a year are those of its rows, and its months add up to them. */
  ghost predicate YearIsRight(y: YearSummary, rows: seq<WindowDay>) {
    && y.days == Days(rows, y.year, None) == MonthDays(y.months)
    && y.hours == Hours(rows, y.year, None) == MonthHours(y.months)
    && IsLongestDay(rows, y.year, y.longestWindowHours)
    && MonthsAreRight(y.months, y.year, rows)
  }

  // ---------------------------------------------------------------------
  // One more row
  // ---------------------------------------------------------------------

  /** `months.find(...)`: the position of a month, or one past the end. */
  function MonthIndex(months: seq<MonthSummary>, month: int): (k: nat)
    ensures k <= |months|
    ensures k < |months| ==> months[k].month == month
    ensures k == |months| ==> !HasMonth(months, month)
  {
    if months == [] || months[|months| - 1].month == month then (if months == [] then 0 else |months| - 1)
    else
      var k := MonthIndex(months[..|months| - 1], month);
      if k < |months| - 1 then k else |months|
  }

  function YearIndex(years: seq<YearSummary>, year: int): (k: nat)
    ensures k <= |years|
    ensures k < |years| ==> years[k].year == year
    ensures k == |years| ==> !HasYear(years, year)
  {
    if years == [] || years[|years| - 1].year == year then (if years == [] then 0 else |years| - 1)
    else
      var k := YearIndex(years[..|years| - 1], year);
      if k < |years| - 1 then k else |years|
  }

  function CountMonth(months: seq<MonthSummary>, row: WindowDay): seq<MonthSummary> {
    var k := MonthIndex(months, row.month);
    if k < |months|
    then months[k := MonthSummary(row.month, months[k].days + 1, months[k].hours + row.hours)]
    else months + [MonthSummary(row.month, 1, row.hours)]
  }

  /** The loop body's effect on the row's year. */
  function CountRow(y: YearSummary, row: WindowDay): YearSummary {
    YearSummary(y.year, y.days + 1, y.hours + row.hours, Max(y.longestWindowHours, row.hours),
                CountMonth(y.months, row))
  }

  lemma OneMoreRow(rows: seq<WindowDay>, row: WindowDay, year: int, month: Option<int>)
    ensures Days(rows + [row], year, month) == Days(rows, year, month) + if Selects(year, month, row) then 1 else 0
    ensures Hours(rows + [row], year, month)
         == Hours(rows, year, month) + if Selects(year, month, row) then row.hours else 0
  {
    assert (rows + [row])[..|rows|] == rows;
  }

  lemma {:induction false} NoRowNoDays(rows: seq<WindowDay>, year: int, month: Option<int>)
    requires forall i :: 0 <= i < |rows| ==> !Selects(year, month, rows[i])
    ensures Days(rows, year, month) == 0 && Hours(rows, year, month) == 0
    decreases |rows|
  {
    if rows != [] {
      NoRowNoDays(rows[..|rows| - 1], year, month);
    }
  }

  lemma {:induction false} MonthUpdated(months: seq<MonthSummary>, k: nat, m: MonthSummary)
    requires k < |months|
    ensures MonthDays(months[k := m]) == MonthDays(months) - months[k].days + m.days
    ensures MonthHours(months[k := m]) == MonthHours(months) - months[k].hours + m.hours
    decreases |months|
  {
    var n := |months| - 1;
    if k < n {
      MonthUpdated(months[..n], k, m);
      assert months[k := m][..n] == months[..n][k := m];
    } else {
      assert months[k := m][..n] == months[..n];
    }
  }

  lemma {:induction false} YearUpdated(years: seq<YearSummary>, k: nat, y: YearSummary)
    requires k < |years|
    ensures YearDays(years[k := y]) == YearDays(years) - years[k].days + y.days
    ensures YearHours(years[k := y]) == YearHours(years) - years[k].hours + y.hours
    decreases |years|
  {
    var n := |years| - 1;
    if k < n {
      YearUpdated(years[..n], k, y);
      assert years[k := y][..n] == years[..n][k := y];
    } else {
      assert years[k := y][..n] == years[..n];
    }
  }

  lemma CountMonthAdds(months: seq<MonthSummary>, row: WindowDay)
    ensures MonthDays(CountMonth(months, row)) == MonthDays(months) + 1
    ensures MonthHours(CountMonth(months, row)) == MonthHours(months) + row.hours
  {
    var k := MonthIndex(months, row.month);
    if k < |months| {
      MonthUpdated(months, k, MonthSummary(row.month, months[k].days + 1, months[k].hours + row.hours));
    } else {
      assert CountMonth(months, row)[..|months|] == months;
    }
  }

  lemma CountMonthIsRight(months: seq<MonthSummary>, year: int, rows: seq<WindowDay>, row: WindowDay)
    requires row.year == year && MonthsAreRight(months, year, rows)
    ensures MonthsAreRight(CountMonth(months, row), year, rows + [row])
  {
    hide Days, Hours;
    var k := MonthIndex(months, row.month);
    var after := CountMonth(months, row);
    var more := rows + [row];
    assert after[k].month == row.month;
    if k == |months| {
      NoRowNoDays(rows, year, Some(row.month));
    }
    forall j | 0 <= j < |after| ensures MonthIsRight(after[j], year, more) {
      OneMoreRow(rows, row, year, Some(after[j].month));
      assert j < |months| ==> MonthIsRight(months[j], year, rows);
    }
    forall i | 0 <= i < |more| && more[i].year == year ensures HasMonth(after, more[i].month) {
      if i < |rows| {
        assert HasMonth(months, rows[i].month);
        var j :| 0 <= j < |months| && months[j].month == rows[i].month;
        assert after[j].month == rows[i].month;
      }
    }
  }

  lemma CountRowIsRight(y: YearSummary, rows: seq<WindowDay>, row: WindowDay)
    requires row.year == y.year && YearIsRight(y, rows)
    ensures YearIsRight(CountRow(y, row), rows + [row])
  {
    hide Days, Hours, MonthDays, MonthHours, CountMonth, MonthsAreRight;
    CountMonthAdds(y.months, row);
    CountMonthIsRight(y.months, y.year, rows, row);
    OneMoreRow(rows, row, y.year, None);
    var more := rows + [row];
    var longest := Max(y.longestWindowHours, row.hours);
    assert IsLongestDay(more, y.year, longest) by {
      if longest > 0 && longest != row.hours {
        var i :| 0 <= i < |rows| && rows[i].year == y.year && rows[i].hours == longest;
        assert more[i] == rows[i];
      } else {
        assert more[|rows|] == row;
      }
    }
  }

  lemma OtherRowChangesNothing(y: YearSummary, rows: seq<WindowDay>, row: WindowDay)
    requires row.year != y.year && YearIsRight(y, rows)
    ensures YearIsRight(y, rows + [row])
  {
    hide Days, Hours, MonthDays, MonthHours;
    OneMoreRow(rows, row, y.year, None);
    forall k | 0 <= k < |y.months| ensures MonthIsRight(y.months[k], y.year, rows + [row]) {
      OneMoreRow(rows, row, y.year, Some(y.months[k].month));
      assert MonthIsRight(y.months[k], y.year, rows);
    }
    if y.longestWindowHours > 0 {
      var i :| 0 <= i < |rows| && rows[i].year == y.year && rows[i].hours == y.longestWindowHours;
      assert (rows + [row])[i] == rows[i];
    }
  }

  const NO_MONTHS: seq<MonthSummary> := []

  lemma NewYearIsRight(rows: seq<WindowDay>, year: int)
    requires forall i :: 0 <= i < |rows| ==> rows[i].year != year
    ensures YearIsRight(YearSummary(year, 0, 0, 0, NO_MONTHS), rows)
  {
    NoRowNoDays(rows, year, None);
  }

  // ---------------------------------------------------------------------
  // Sorting months and years
  // ---------------------------------------------------------------------

  const BY_MONTH: (MonthSummary, MonthSummary) -> bool := (a: MonthSummary, b: MonthSummary) => a.month <= b.month
  const BY_YEAR: (YearSummary, YearSummary) -> bool := (a: YearSummary, b: YearSummary) => a.year <= b.year

  lemma {:induction false} InsertMonth(months: seq<MonthSummary>, m: MonthSummary)
    requires AscendingMonths(months) && !HasMonth(months, m.month)
    ensures var r := Insert(BY_MONTH, months, m);
            && AscendingMonths(r)
            && (forall x :: x in r <==> x in months || x == m)
    decreases |months|
  {
    var r := Insert(BY_MONTH, months, m);
    if months == [] || months[|months| - 1].month <= m.month {
      assert r == months + [m];
    } else {
      var n := |months| - 1;
      InsertMonth(months[..n], m);
      assert r[..|r| - 1] == Insert(BY_MONTH, months[..n], m);
      assert months == months[..n] + [months[n]];
      forall j | 0 <= j < |r| - 1 ensures r[j].month < months[n].month {
        assert r[j] in Insert(BY_MONTH, months[..n], m);
        assert r[j] in months[..n] || r[j] == m;
      }
    }
  }

  lemma {:induction false} InsertMonthAdds(months: seq<MonthSummary>, m: MonthSummary)
    ensures MonthDays(Insert(BY_MONTH, months, m)) == MonthDays(months) + m.days
    ensures MonthHours(Insert(BY_MONTH, months, m)) == MonthHours(months) + m.hours
    decreases |months|
  {
    var r := Insert(BY_MONTH, months, m);
    if months == [] || months[|months| - 1].month <= m.month {
      assert r == months + [m] && r[..|months|] == months;
    } else {
      var n := |months| - 1;
      InsertMonthAdds(months[..n], m);
      assert r[..|r| - 1] == Insert(BY_MONTH, months[..n], m);
    }
  }

  lemma {:induction false} SortMonths(months: seq<MonthSummary>)
    requires DistinctMonths(months)
    ensures var r := Sort(BY_MONTH, months);
            && AscendingMonths(r)
            && (forall x :: x in r <==> x in months)
            && MonthDays(r) == MonthDays(months) && MonthHours(r) == MonthHours(months)
    decreases |months|
  {
    hide Insert;
    if months != [] {
      var n := |months| - 1;
      SortMonths(months[..n]);
      var before := Sort(BY_MONTH, months[..n]);
      assert !HasMonth(before, months[n].month) by {
        forall k | 0 <= k < |before| ensures before[k].month != months[n].month {
          assert before[k] in months[..n];
        }
      }
      InsertMonth(before, months[n]);
      InsertMonthAdds(before, months[n]);
      assert months == months[..n] + [months[n]];
    }
  }

  lemma {:induction false} InsertYear(years: seq<YearSummary>, y: YearSummary)
    requires AscendingYears(years) && !HasYear(years, y.year)
    ensures var r := Insert(BY_YEAR, years, y);
            && AscendingYears(r)
            && (forall x :: x in r <==> x in years || x == y)
    decreases |years|
  {
    var r := Insert(BY_YEAR, years, y);
    if years == [] || years[|years| - 1].year <= y.year {
      assert r == years + [y];
    } else {
      var n := |years| - 1;
      InsertYear(years[..n], y);
      assert r[..|r| - 1] == Insert(BY_YEAR, years[..n], y);
      assert years == years[..n] + [years[n]];
      forall j | 0 <= j < |r| - 1 ensures r[j].year < years[n].year {
        assert r[j] in Insert(BY_YEAR, years[..n], y);
        assert r[j] in years[..n] || r[j] == y;
      }
    }
  }

  lemma {:induction false} InsertYearAdds(years: seq<YearSummary>, y: YearSummary)
    ensures YearDays(Insert(BY_YEAR, years, y)) == YearDays(years) + y.days
    ensures YearHours(Insert(BY_YEAR, years, y)) == YearHours(years) + y.hours
    decreases |years|
  {
    var r := Insert(BY_YEAR, years, y);
    if years == [] || years[|years| - 1].year <= y.year {
      assert r == years + [y] && r[..|years|] == years;
    } else {
      var n := |years| - 1;
      InsertYearAdds(years[..n], y);
      assert r[..|r| - 1] == Insert(BY_YEAR, years[..n], y);
    }
  }

  lemma {:induction false} SortYears(years: seq<YearSummary>)
    requires DistinctYears(years)
    ensures var r := Sort(BY_YEAR, years);
            && AscendingYears(r)
            && (forall x :: x in r <==> x in years)
            && YearDays(r) == YearDays(years) && YearHours(r) == YearHours(years)
    decreases |years|
  {
    hide Insert;
    if years != [] {
      var n := |years| - 1;
      SortYears(years[..n]);
      var before := Sort(BY_YEAR, years[..n]);
      assert !HasYear(before, years[n].year) by {
        forall k | 0 <= k < |before| ensures before[k].year != years[n].year {
          assert before[k] in years[..n];
        }
      }
      InsertYear(before, years[n]);
      InsertYearAdds(before, years[n]);
      assert years == years[..n] + [years[n]];
    }
  }

  lemma SortedMonthsAreRight(y: YearSummary, rows: seq<WindowDay>)
    requires YearIsRight(y, rows)
    ensures var sorted := y.(months := Sort(BY_MONTH, y.months));
            YearIsRight(sorted, rows) && AscendingMonths(sorted.months)
  {
    hide Days, Hours, Sort, MonthDays, MonthHours;
    SortMonths(y.months);
    var months := Sort(BY_MONTH, y.months);
    forall k | 0 <= k < |months| ensures MonthIsRight(months[k], y.year, rows) && months[k].days > 0 {
      assert months[k] in y.months;
    }
    forall i | 0 <= i < |rows| && rows[i].year == y.year ensures HasMonth(months, rows[i].month) {
      assert HasMonth(y.months, rows[i].month);
      var k :| 0 <= k < |y.months| && y.months[k].month == rows[i].month;
      assert y.months[k] in months;
    }
  }

  // ---------------------------------------------------------------------
  // groupByYear
  // ---------------------------------------------------------------------

  /** Summaries that count every row once, in the right year. */
  ghost predicate Counted(years: seq<YearSummary>, rows: seq<WindowDay>) {
    && DistinctYears(years)
    && (forall k :: 0 <= k < |years| ==> YearIsRight(years[k], rows) && years[k].days > 0)
    && (forall i :: 0 <= i < |rows| ==> HasYear(years, rows[i].year))
    && YearDays(years) == |rows|
    && YearHours(years) == AllHours(rows)
  }

  lemma KnownYear(years: seq<YearSummary>, rows: seq<WindowDay>, row: WindowDay, k: nat)
    requires Counted(years, rows) && k < |years| && years[k].year == row.year
    ensures Counted(years[k := CountRow(years[k], row)], rows + [row])
  {
    hide YearIsRight, YearDays, YearHours, CountMonth;
    var after := years[k := CountRow(years[k], row)];
    var more := rows + [row];
    forall j | 0 <= j < |after| ensures YearIsRight(after[j], more) {
      if j == k {
        CountRowIsRight(years[k], rows, row);
      } else {
        OtherRowChangesNothing(years[j], rows, row);
      }
    }
    forall i | 0 <= i < |more| ensures HasYear(after, more[i].year) {
      if i < |rows| {
        assert HasYear(years, rows[i].year);
        var j :| 0 <= j < |years| && years[j].year == rows[i].year;
        assert after[j].year == rows[i].year;
      } else {
        assert after[k].year == row.year;
      }
    }
    YearUpdated(years, k, CountRow(years[k], row));
    assert more[..|rows|] == rows;
  }

  lemma FreshYear(years: seq<YearSummary>, rows: seq<WindowDay>, row: WindowDay)
    requires Counted(years, rows) && !HasYear(years, row.year)
    ensures Counted(years + [CountRow(YearSummary(row.year, 0, 0, 0, NO_MONTHS), row)], rows + [row])
  {
    hide YearIsRight, CountMonth;
    var first := CountRow(YearSummary(row.year, 0, 0, 0, NO_MONTHS), row);
    var after := years + [first];
    var more := rows + [row];
    assert forall i :: 0 <= i < |rows| ==> HasYear(years, rows[i].year);
    NewYearIsRight(rows, row.year);
    CountRowIsRight(YearSummary(row.year, 0, 0, 0, NO_MONTHS), rows, row);
    forall j | 0 <= j < |after| ensures YearIsRight(after[j], more) {
      if j < |years| {
        OtherRowChangesNothing(years[j], rows, row);
      }
    }
    forall i | 0 <= i < |more| ensures HasYear(after, more[i].year) {
      if i < |rows| {
        assert HasYear(years, rows[i].year);
        var j :| 0 <= j < |years| && years[j].year == rows[i].year;
        assert after[j].year == rows[i].year;
      } else {
        assert after[|years|].year == row.year;
      }
    }
    assert after[..|years|] == years && more[..|rows|] == rows;
  }

  lemma SortedMonthsStayCounted(years: seq<YearSummary>, rows: seq<WindowDay>, k: nat)
    requires Counted(years, rows) && k < |years|
    ensures var after := years[k := years[k].(months := Sort(BY_MONTH, years[k].months))];
            Counted(after, rows) && AscendingMonths(after[k].months)
  {
    hide YearIsRight, YearDays, YearHours, Sort;
    var sorted := years[k].(months := Sort(BY_MONTH, years[k].months));
    var after := years[k := sorted];
    SortedMonthsAreRight(years[k], rows);
    YearUpdated(years, k, sorted);
    forall i | 0 <= i < |rows| ensures HasYear(after, rows[i].year) {
      assert HasYear(years, rows[i].year);
      var j :| 0 <= j < |years| && years[j].year == rows[i].year;
      assert after[j].year == rows[i].year;
    }
  }

  lemma SortedYearsStayCounted(years: seq<YearSummary>, rows: seq<WindowDay>)
    requires Counted(years, rows)
    requires forall k :: 0 <= k < |years| ==> AscendingMonths(years[k].months)
    ensures var after := Sort(BY_YEAR, years);
            && Counted(after, rows) && AscendingYears(after)
            && forall k :: 0 <= k < |after| ==> AscendingMonths(after[k].months)
  {
    hide YearIsRight, YearDays, YearHours, Sort, AscendingMonths;
    SortYears(years);
    var after := Sort(BY_YEAR, years);
    forall k | 0 <= k < |after|
      ensures YearIsRight(after[k], rows) && after[k].days > 0 && AscendingMonths(after[k].months)
    {
      assert after[k] in years;
    }
    forall i | 0 <= i < |rows| ensures HasYear(after, rows[i].year) {
      assert HasYear(years, rows[i].year);
      var j :| 0 <= j < |years| && years[j].year == rows[i].year;
      assert years[j] in after;
    }
  }

  /** Nothing is lost or counted twice: every row is in its year and month, the
      figures are exactly those of the rows, months add up to years and years to
      the whole, and both lists ascend strictly. */
  method GroupByYear(rows: seq<WindowDay>) returns (years: seq<YearSummary>)
    ensures Counted(years, rows) && AscendingYears(years)
    ensures forall k :: 0 <= k < |years| ==> AscendingMonths(years[k].months)
  {
    years := [];
    assert Counted([], []);
    hide Counted, CountRow, Sort, AscendingMonths;
    for n := 0 to |rows|
      invariant Counted(years, rows[..n])
    {
      var row := rows[n];
      var k := YearIndex(years, row.year);
      assert rows[..n + 1] == rows[..n] + [row];
      if k < |years| {
        KnownYear(years, rows[..n], row, k);
        years := years[k := CountRow(years[k], row)];
      } else {
        FreshYear(years, rows[..n], row);
        years := years + [CountRow(YearSummary(row.year, 0, 0, 0, NO_MONTHS), row)];
      }
    }
    assert rows[..|rows|] == rows;
    var count := |years|;
    for k := 0 to count
      invariant |years| == count && Counted(years, rows)
      invariant forall j :: 0 <= j < k ==> AscendingMonths(years[j].months)
    {
      SortedMonthsStayCounted(years, rows, k);
      years := years[k := years[k].(months := Sort(BY_MONTH, years[k].months))];
    }
    SortedYearsStayCounted(years, rows);
    years := Sort(BY_YEAR, years);
  }

  // ---------------------------------------------------------------------
  // "The longest continuous window"
  // ---------------------------------------------------------------------

  /** The number of qualifying hours, which is a day's `hours`. */
  function OpenHours(flags: seq<bool>): nat {
    if flags == [] then 0 else OpenHours(flags[..|flags| - 1]) + if flags[|flags| - 1] then 1 else 0
  }

  function RunHours(r: Run): int {
    r.last - r.first + 1
  }

  function TotalHours(runs: seq<Run>): int {
    if runs == [] then 0 else TotalHours(runs[..|runs| - 1]) + RunHours(runs[|runs| - 1])
  }

  /** The true longest continuous window. */
  function LongestRun(runs: seq<Run>): int {
    if runs == [] then 0
    else
      var before := LongestRun(runs[..|runs| - 1]);
      var last := RunHours(runs[|runs| - 1]);
      if before < last then last else before
  }

  lemma {:induction false} RunsHoldTheHours(flags: seq<bool>)
    ensures TotalHours(RunsOf(flags)) == OpenHours(flags)
    decreases |flags|
  {
    if flags != [] {
      var n := |flags| - 1;
      var before := RunsOf(flags[..n]);
      RunsHoldTheHours(flags[..n]);
      if flags[n] && ReachesEnd(before, n) {
        var m := |before| - 1;
        assert RunsOf(flags)[..m] == before[..m];
      } else if flags[n] {
        assert RunsOf(flags)[..|before|] == before;
      }
    }
  }

  lemma {:induction false} LongestAgainstTotal(runs: seq<Run>)
    requires forall k :: 0 <= k < |runs| ==> RunHours(runs[k]) > 0
    ensures 0 <= LongestRun(runs) <= TotalHours(runs)
    ensures runs != [] ==> LongestRun(runs) > 0
    ensures LongestRun(runs) == TotalHours(runs) <==> |runs| <= 1
    decreases |runs|
  {
    if runs != [] {
      LongestAgainstTotal(runs[..|runs| - 1]);
    }
  }

  /** A day's longest continuous window is at most its hours, and equal to them
      exactly when they form at most one unbroken run. */
  lemma HoursAreOneWindowExactly(day: seq<bool>)
    ensures 0 <= LongestRun(RunsOf(day)) <= OpenHours(day)
    ensures LongestRun(RunsOf(day)) == OpenHours(day) <==> |RunsOf(day)| <= 1
    ensures OpenHours(day) > 0 ==> RunsOf(day) != []
  {
    RunsHaveHours(day);
    RunsHoldTheHours(day);
    LongestAgainstTotal(RunsOf(day));
  }

  // A year's figure is the largest number of qualifying hours of one day. The
  // window it is named after may run past midnight, so it lives in the hours of
  // the whole year, one day after the other.

  function Flatten(days: seq<seq<bool>>): seq<bool> {
    if days == [] then [] else Flatten(days[..|days| - 1]) + days[|days| - 1]
  }

  /** Where day k begins in the hours of the year. */
  function Start(days: seq<seq<bool>>, k: nat): (n: nat)
    requires k <= |days|
  {
    if k == 0 then 0 else Start(days, k - 1) + |days[k - 1]|
  }

  /** The most qualifying hours of any day. */
  function MostHours(days: seq<seq<bool>>): nat {
    if days == [] then 0 else Max(MostHours(days[..|days| - 1]), OpenHours(days[|days| - 1]))
  }

  lemma {:induction false} StartInFront(days: seq<seq<bool>>, k: nat)
    requires k < |days|
    ensures Start(days[..|days| - 1], k) == Start(days, k)
    decreases k
  {
    if k > 0 {
      StartInFront(days, k - 1);
    }
  }

  lemma {:induction false} FlattenLength(days: seq<seq<bool>>)
    ensures |Flatten(days)| == Start(days, |days|)
    decreases |days|
  {
    if days != [] {
      FlattenLength(days[..|days| - 1]);
      StartInFront(days, |days| - 1);
    }
  }

  lemma {:induction false} StartGrows(days: seq<seq<bool>>, j: nat, k: nat)
    requires j <= k <= |days|
    ensures Start(days, j) <= Start(days, k)
    decreases k
  {
    if j < k {
      StartGrows(days, j, k - 1);
    }
  }

  lemma {:induction false} DayInYear(days: seq<seq<bool>>, d: nat, i: nat)
    requires d < |days| && i < |days[d]|
    ensures Start(days, d) + i < |Flatten(days)|
    ensures Flatten(days)[Start(days, d) + i] == days[d][i]
    decreases |days|
  {
    var n := |days| - 1;
    FlattenLength(days[..n]);
    StartInFront(days, n);
    if d < n {
      DayInYear(days[..n], d, i);
      StartInFront(days, d);
    }
  }

  lemma {:induction false} MostHoursIsTheMost(days: seq<seq<bool>>)
    ensures forall d :: 0 <= d < |days| ==> OpenHours(days[d]) <= MostHours(days)
    ensures days != [] ==> exists d :: 0 <= d < |days| && OpenHours(days[d]) == MostHours(days)
    decreases |days|
  {
    hide OpenHours;
    if days != [] {
      var n := |days| - 1;
      MostHoursIsTheMost(days[..n]);
      assert forall d :: 0 <= d < n ==> days[..n][d] == days[d];
      if n == 0 {
        assert days[..n] == [] && OpenHours(days[0]) == MostHours(days);
      } else if MostHours(days) == OpenHours(days[n]) {
        assert OpenHours(days[n]) == MostHours(days);
      } else {
        var d :| 0 <= d < n && OpenHours(days[..n][d]) == MostHours(days[..n]);
        assert OpenHours(days[d]) == MostHours(days);
      }
    }
  }

  /** A run that does not end on the day on which it begins. */
  ghost predicate Crosses(days: seq<seq<bool>>, r: Run) {
    exists k :: 0 < k < |days| && r.first < Start(days, k) <= r.last
  }

  ghost predicate OnDay(days: seq<seq<bool>>, r: Run, d: nat)
    requires d < |days|
  {
    Start(days, d) <= r.first && r.last < Start(days, d) + |days[d]|
  }

  lemma {:induction false} DayOf(days: seq<seq<bool>>, i: nat, n: nat) returns (d: nat)
    requires n <= |days| && i < Start(days, n)
    ensures d < n && Start(days, d) <= i < Start(days, d) + |days[d]|
    decreases n
  {
    if i >= Start(days, n - 1) {
      d := n - 1;
    } else {
      d := DayOf(days, i, n - 1);
    }
  }

  lemma CrossesOrStays(days: seq<seq<bool>>, r: Run) returns (d: nat)
    requires r.first <= r.last < |Flatten(days)| && !Crosses(days, r)
    ensures d < |days| && OnDay(days, r, d)
  {
    FlattenLength(days);
    d := DayOf(days, r.first, |days|);
    assert Start(days, d + 1) == Start(days, d) + |days[d]|;
  }

  // ---------------------------------------------------------------------
  // Stretches of set hours against runs
  // ---------------------------------------------------------------------

  lemma {:induction false} LongestIsLongest(runs: seq<Run>)
    requires forall k :: 0 <= k < |runs| ==> RunHours(runs[k]) > 0
    ensures forall k :: 0 <= k < |runs| ==> RunHours(runs[k]) <= LongestRun(runs)
    ensures runs != [] ==> exists k :: 0 <= k < |runs| && RunHours(runs[k]) == LongestRun(runs)
    decreases |runs|
  {
    if runs != [] {
      var n := |runs| - 1;
      LongestIsLongest(runs[..n]);
      assert forall k :: 0 <= k < n ==> runs[..n][k] == runs[k];
      assert n == 0 ==> runs[..n] == [];
      if LongestRun(runs) == RunHours(runs[n]) {
        assert RunHours(runs[n]) == LongestRun(runs);
      } else {
        var k :| 0 <= k < n && RunHours(runs[..n][k]) == LongestRun(runs[..n]);
        assert RunHours(runs[k]) == LongestRun(runs);
      }
    }
  }

  lemma RunsHaveHours(flags: seq<bool>)
    ensures forall k :: 0 <= k < |RunsOf(flags)| ==> RunHours(RunsOf(flags)[k]) > 0
  {
    RunsOfAreMaximal(flags);
    forall k | 0 <= k < |RunsOf(flags)| ensures RunHours(RunsOf(flags)[k]) > 0 {
      assert Within(flags, RunsOf(flags)[k]);
    }
  }

  /** Hours set from one to another lie in one run, which is at least as long. */
  lemma StretchIsNoLonger(flags: seq<bool>, from: nat, to: nat)
    requires from <= to < |flags| && forall i :: from <= i <= to ==> flags[i]
    ensures to - from + 1 <= LongestRun(RunsOf(flags))
  {
    hide RunsOf;
    var runs := RunsOf(flags);
    RunsOfAreMaximal(flags);
    assert InSome(runs, from);
    var k :| 0 <= k < |runs| && Contains(runs[k], from);
    RunsCannotGrow(flags, runs, k);
    assert Within(flags, runs[k]);
    RunsHaveHours(flags);
    LongestIsLongest(runs);
  }

  /** A run of the year that stays on one day is no longer than that day's
      longest. */
  lemma RunOnADay(days: seq<seq<bool>>, r: Run, d: nat)
    requires d < |days| && r.first <= r.last && OnDay(days, r, d) && Within(Flatten(days), r)
    ensures RunHours(r) <= LongestRun(RunsOf(days[d]))
  {
    var from, to := r.first - Start(days, d), r.last - Start(days, d);
    forall i | from <= i <= to ensures days[d][i] {
      DayInYear(days, d, i);
    }
    StretchIsNoLonger(days[d], from, to);
  }

  /** And a stretch of a day is a stretch of the year. */
  lemma DayStretchInYear(days: seq<seq<bool>>, d: nat, r: Run)
    requires d < |days| && Within(days[d], r)
    ensures RunHours(r) <= LongestRun(RunsOf(Flatten(days)))
  {
    hide RunsOf, Flatten, LongestRun, Start;
    var flat := Flatten(days);
    var from, to := Start(days, d) + r.first, Start(days, d) + r.last;
    DayInYear(days, d, r.last);
    forall i | from <= i <= to ensures flat[i] {
      DayInYear(days, d, i - Start(days, d));
    }
    StretchIsNoLonger(flat, from, to);
  }

  lemma DayRunInYear(days: seq<seq<bool>>, d: nat)
    requires d < |days|
    ensures LongestRun(RunsOf(days[d])) <= LongestRun(RunsOf(Flatten(days)))
  {
    hide RunsOf, Flatten, LongestRun, OpenHours;
    var runs := RunsOf(days[d]);
    HoursAreOneWindowExactly(Flatten(days));
    RunsHaveHours(days[d]);
    LongestIsLongest(runs);
    NoRunNoHours(runs);
    if runs != [] {
      var k :| 0 <= k < |runs| && RunHours(runs[k]) == LongestRun(runs);
      RunsOfAreMaximal(days[d]);
      DayStretchInYear(days, d, runs[k]);
    }
  }

  // ---------------------------------------------------------------------
  // The year's figure
  // ---------------------------------------------------------------------

  /** The rows that the days of a year amount to: one for every day with a
      qualifying hour, carrying their number. */
  ghost predicate RowsOfDays(rows: seq<WindowDay>, year: int, days: seq<seq<bool>>) {
    && (forall i :: 0 <= i < |rows| && rows[i].year == year ==>
          exists d :: 0 <= d < |days| && OpenHours(days[d]) == rows[i].hours)
    && (forall d :: 0 <= d < |days| && OpenHours(days[d]) > 0 ==>
          exists i :: 0 <= i < |rows| && rows[i].year == year && rows[i].hours == OpenHours(days[d]))
  }

  lemma FigureIsSomeDay(rows: seq<WindowDay>, year: int, days: seq<seq<bool>>, figure: nat)
    requires RowsOfDays(rows, year, days) && IsLongestDay(rows, year, figure)
    ensures figure <= MostHours(days)
  {
    hide OpenHours, MostHours;
    MostHoursIsTheMost(days);
    if figure > 0 {
      var i :| 0 <= i < |rows| && rows[i].year == year && rows[i].hours == figure;
      var d :| 0 <= d < |days| && OpenHours(days[d]) == rows[i].hours;
    }
  }

  lemma FigureIsMostHours(rows: seq<WindowDay>, year: int, days: seq<seq<bool>>, figure: nat)
    requires RowsOfDays(rows, year, days) && IsLongestDay(rows, year, figure)
    ensures figure == MostHours(days)
  {
    hide OpenHours, MostHours;
    FigureIsSomeDay(rows, year, days, figure);
    MostHoursIsTheMost(days);
    NoDaysNoHours(days);
    if MostHours(days) > 0 {
      var d :| 0 <= d < |days| && OpenHours(days[d]) == MostHours(days);
      var i := RowOfDay(rows, year, days, d);
    }
  }

  lemma RowOfDay(rows: seq<WindowDay>, year: int, days: seq<seq<bool>>, d: nat) returns (i: nat)
    requires RowsOfDays(rows, year, days) && d < |days| && OpenHours(days[d]) > 0
    ensures i < |rows| && rows[i].year == year && rows[i].hours == OpenHours(days[d])
  {
    hide OpenHours;
    i :| 0 <= i < |rows| && rows[i].year == year && rows[i].hours == OpenHours(days[d]);
  }

  lemma NoDaysNoHours(days: seq<seq<bool>>)
    ensures days == [] ==> MostHours(days) == 0
  {
  }

  /** A run past midnight of at least so many hours. */
  ghost predicate HasCrossing(days: seq<seq<bool>>, hours: int) {
    exists k :: 0 <= k < |RunsOf(Flatten(days))|
                && Crosses(days, RunsOf(Flatten(days))[k]) && RunHours(RunsOf(Flatten(days))[k]) >= hours
  }

  /** A day with the most hours, all of them in one run. */
  ghost predicate HasUnbrokenBestDay(days: seq<seq<bool>>) {
    exists d :: 0 <= d < |days| && OpenHours(days[d]) == MostHours(days) && |RunsOf(days[d])| <= 1
  }

  /** The longest window of the year reaches a number of hours at or over every
      day's own count only on an unbroken best day or across midnight. */
  lemma LongRunsComeFrom(days: seq<seq<bool>>, hours: int)
    requires hours >= MostHours(days) && hours > 0
    ensures LongestRun(RunsOf(Flatten(days))) >= hours <==>
            HasCrossing(days, hours) || (hours == MostHours(days) && HasUnbrokenBestDay(days))
  {
    hide RunsOf, OpenHours, MostHours, Flatten, LongestRun;
    var flat := Flatten(days);
    var runs := RunsOf(flat);
    RunsHaveHours(flat);
    LongestIsLongest(runs);
    MostHoursIsTheMost(days);
    if HasUnbrokenBestDay(days) && hours == MostHours(days) {
      var d :| 0 <= d < |days| && OpenHours(days[d]) == MostHours(days) && |RunsOf(days[d])| <= 1;
      HoursAreOneWindowExactly(days[d]);
      DayRunInYear(days, d);
    }
    if LongestRun(runs) >= hours {
      NoRunNoHours(runs);
      var k :| 0 <= k < |runs| && RunHours(runs[k]) == LongestRun(runs);
      RunsOfAreMaximal(flat);
      assert Within(flat, runs[k]);
      if !Crosses(days, runs[k]) {
        var d := CrossesOrStays(days, runs[k]);
        RunOnADay(days, runs[k], d);
        HoursAreOneWindowExactly(days[d]);
        assert OpenHours(days[d]) == MostHours(days);
      }
    }
  }

  lemma NoRunNoHours(runs: seq<Run>)
    ensures runs == [] ==> LongestRun(runs) == 0
  {
  }

  /** When a year's figure is the single longest continuous window it is named
      after: no run past midnight is longer, and some day with the most hours has
      them in one run, or a run past midnight is exactly as long. It is too small
      iff a run past midnight outlasts every day's count, and too large iff no
      run, on a day or past midnight, reaches the busiest day's. */
  lemma YearFigureExactly(y: YearSummary, rows: seq<WindowDay>, days: seq<seq<bool>>)
    requires YearIsRight(y, rows) && RowsOfDays(rows, y.year, days)
    ensures var longest := LongestRun(RunsOf(Flatten(days)));
            var figure := y.longestWindowHours;
            && (figure == longest <==>
                  && !HasCrossing(days, figure + 1)
                  && (figure == 0 || HasUnbrokenBestDay(days) || HasCrossing(days, figure)))
            && (figure < longest <==> HasCrossing(days, figure + 1))
            && (figure > longest <==>
                  figure > 0 && !HasUnbrokenBestDay(days) && !HasCrossing(days, figure))
  {
    hide RunsOf, OpenHours, MostHours, Flatten, LongestRun, HasCrossing, HasUnbrokenBestDay, RowsOfDays;
    FigureIsMostHours(rows, y.year, days, y.longestWindowHours);
    HoursAreOneWindowExactly(Flatten(days));
    LongRunsComeFrom(days, y.longestWindowHours + 1);
    if y.longestWindowHours > 0 {
      LongRunsComeFrom(days, y.longestWindowHours);
      ShorterCrossings(days, y.longestWindowHours);
    }
  }

  lemma ShorterCrossings(days: seq<seq<bool>>, hours: int)
    ensures HasCrossing(days, hours + 1) ==> HasCrossing(days, hours)
  {
  }

  /** Where no window runs past midnight the figure is right iff some day with
      the most hours has them in at most one run. */
  lemma WithoutCrossingsFigureExactly(y: YearSummary, rows: seq<WindowDay>, days: seq<seq<bool>>)
    requires YearIsRight(y, rows) && RowsOfDays(rows, y.year, days) && days != []
    requires forall k :: 0 <= k < |RunsOf(Flatten(days))| ==> !Crosses(days, RunsOf(Flatten(days))[k])
    ensures y.longestWindowHours == LongestRun(RunsOf(Flatten(days))) <==> HasUnbrokenBestDay(days)
  {
    hide RunsOf, OpenHours, MostHours, Flatten, LongestRun, RowsOfDays, YearIsRight;
    YearFigureExactly(y, rows, days);
    assert !HasCrossing(days, y.longestWindowHours + 1) && !HasCrossing(days, y.longestWindowHours);
    if y.longestWindowHours == 0 {
      FigureOfYear(y, rows, days);
      MostHoursIsTheMost(days);
      assert OpenHours(days[0]) == 0;
      HoursAreOneWindowExactly(days[0]);
      LongestOfNone(days[0]);
    }
  }

  lemma FigureOfYear(y: YearSummary, rows: seq<WindowDay>, days: seq<seq<bool>>)
    requires YearIsRight(y, rows) && RowsOfDays(rows, y.year, days)
    ensures y.longestWindowHours == MostHours(days)
  {
    FigureIsMostHours(rows, y.year, days, y.longestWindowHours);
  }

  lemma LongestOfNone(day: seq<bool>)
    requires OpenHours(day) == 0
    ensures |RunsOf(day)| <= 1
  {
    HoursAreOneWindowExactly(day);
  }

  /** The shortest way to a figure that is too small: one window that runs past
      midnight is cut in two, and each of its two days counts only its part. */
  lemma WindowPastMidnightIsSplit(today: seq<bool>, tomorrow: seq<bool>, from: nat, until: nat)
    requires from < |today| && 0 < until <= |tomorrow|
    requires forall i :: 0 <= i < |today| ==> (today[i] <==> from <= i)
    requires forall i :: 0 <= i < |tomorrow| ==> (tomorrow[i] <==> i < until)
    ensures LongestRun(RunsOf(today + tomorrow)) == OpenHours(today) + OpenHours(tomorrow)
    ensures OpenHours(today) > 0 && OpenHours(tomorrow) > 0
  {
    OneRun(today + tomorrow, from, |today| + until);
    OneRun(today, from, |today|);
    OneRun(tomorrow, 0, until);
  }

  lemma OneRun(flags: seq<bool>, from: nat, until: nat)
    requires from < until <= |flags|
    requires forall i :: 0 <= i < |flags| ==> (flags[i] <==> from <= i < until)
    ensures RunsOf(flags) == [Run(from, until - 1)]
    ensures OpenHours(flags) == until - from == LongestRun(RunsOf(flags))
  {
    var runs := [Run(from, until - 1)];
    assert Within(flags, runs[0]);
    forall i | 0 <= i < |flags| && flags[i] ensures InSome(runs, i) {
      assert Contains(runs[0], i);
    }
    RunsOfAreMaximal(flags);
    MaximalRunsAreUnique(flags, RunsOf(flags), runs, 0);
    RunsHoldTheHours(flags);
    assert runs[..0] == [];
  }
}
