/**
  The planner's mutable state (`allDays`, `dayByISO`, `monthWeeks`,
  `currentMonth`, `currentWeekIndex`) and the operations that change it:
  `buildFromTSV`, the window part of `render`, and the four navigation
  buttons wired by `wireNav`; and the figures the views read from that
  state (`renderWeekBars`, `renderTotals`, `renderKPIs`, `renderYearKPIs`).
 */
module Planning {
  import opened Wrappers
  import opened Text
  import opened Calendar
  import opened Weeks
  import opened TimeParse
  import opened DayRecords
  import opened Aggregate

  /** `clamp(n, a, b)`: `Math.max(a, Math.min(b, n))`. */
  function Clamp(n: int, a: int, b: int): (r: int)
    ensures a <= b ==> a <= r <= b
    ensures a <= n <= b ==> r == n
    ensures a <= b && n < a ==> r == a
    ensures a <= b && b < n ==> r == b
  {
    if n < a then a else if n > b then (if b < a then a else b) else n
  }

  function Min(a: int, b: int): int { if a <= b then a else b }
  function Max(a: int, b: int): int { if a >= b then a else b }

  /** The windows shown for month `m` of the planner's year. */
  predicate ShownWeeks(weeks: seq<Week>, m: int) {
    WindowsOf(weeks, MonthFirst(Year, m), MonthLast(Year, m))
  }

  /** The records of month `m` that have a shift (`monthData`, then `jornadaDays`). */
  function MonthShifts(m: int): Filter {
    Both(InSlot(ByMonth, m), WithShift)
  }

  /** The records of the planner's year that have a shift (`jornadaYear`). */
  function YearShifts(): Filter {
    Both(DatedIn(Year), WithShift)
  }

  /** The bars of the selected week: hours per weekday and bar heights in percent. */
  datatype Bars = Bars(totals: seq<real>, heights: seq<real>)

  /** The totals panel: hours per weekday of the month, per window, and "Total mes". */
  datatype TotalsPanel = TotalsPanel(dayTotals: seq<real>, weekTotals: seq<real>, monthTotal: real)

  /** The monthly indicators. */
  datatype MonthKpis = MonthKpis(
    topDay: Option<DayRecord>,
    weekTotals: seq<real>, topWeek: nat, weekAverage: real,
    weekdayTotals: seq<real>, topWeekday: nat,
    effective: real, raw: real,
    shiftDays: nat, lunchDays: nat, lunchHours: real)

  /** The yearly indicators. */
  datatype YearKpis = YearKpis(
    workedDays: nat, idleDays: nat,
    effective: real, raw: real, lunchHours: real,
    monthTotals: seq<real>, monthRawTotals: seq<real>, monthAverage: real, topMonth: nat,
    weekdayTotals: seq<real>, topWeekday: nat)

  /** The windows from `first` to `last` are consecutive and together cover both days. */
  lemma WindowsCover(weeks: seq<Week>, first: Date, last: Date)
    requires WindowsOf(weeks, first, last) && first.day <= last.day
    ensures Consecutive(weeks, StartOfWeekMonday(first).day)
    ensures InRange(first, Span(StartOfWeekMonday(first).day, |weeks|).start, Span(StartOfWeekMonday(first).day, |weeks|).end)
    ensures InRange(last, Span(StartOfWeekMonday(first).day, |weeks|).start, Span(StartOfWeekMonday(first).day, |weeks|).end)
  {
    var start := StartOfWeekMonday(first).day;
    forall i | 0 <= i < |weeks|
      ensures weeks[i].start.day == start + 7 * i && weeks[i].end.day == start + 7 * i + 6
    {
      assert weeks[i] == Window(first, i);
    }
  }

  /** A shift of month `m` is a shift inside every window that covers the month. */
  lemma MonthShiftInSpan(rec: DayRecord, year: int, m: int, span: Week)
    requires InItsMonth(rec) && rec.y == year
    requires InRange(MonthFirst(year, m), span.start, span.end)
    requires InRange(MonthLast(year, m), span.start, span.end)
    ensures Holds(MonthShifts(m), rec) ==> Holds(Both(WithShift, InWindow(span)), rec)
  {
    if Holds(MonthShifts(m), rec) {
      assert Holds(InSlot(ByMonth, m), rec);
      assert rec.m == m;
      assert MonthFirst(year, m) == NewDate(rec.y, rec.m, 1);
      assert MonthLast(year, m) == NewDate(rec.y, rec.m + 1, 0);
    }
  }

  /**
    "Total mes" adds up whole windows, so it covers every day of the month
    as well as the days of the neighbouring months that share its first and
    last windows: it is never below the month's own effective hours.
   */
  lemma MonthTotalCoversMonth(recs: seq<DayRecord>, year: int, m: int, weeks: seq<Week>, totals: seq<real>)
    requires AllBounded(recs) && AllInItsMonth(recs) && year == Year
    requires WindowsOf(weeks, MonthFirst(year, m), MonthLast(year, m))
    requires |totals| == |weeks|
    requires forall i :: 0 <= i < |weeks| ==> totals[i] == Total(recs, Both(WithShift, InWindow(weeks[i])), Effective)
    ensures Sum(totals) >= Total(recs, MonthShifts(m), Effective)
  {
    var first, last := MonthFirst(year, m), MonthLast(year, m);
    var start := StartOfWeekMonday(first).day;
    MonthLength(year, m);
    WindowsCover(weeks, first, last);
    WindowTotalsSum(recs, WithShift, weeks, start, totals);
    var span := Span(start, |weeks|);
    forall i | 0 <= i < |recs|
      ensures Holds(MonthShifts(m), recs[i]) ==> Holds(Both(WithShift, InWindow(span)), recs[i])
    {
      assert Bounded(recs[i]) && InItsMonth(recs[i]);
      MonthShiftInSpan(recs[i], year, m, span);
    }
    TotalMonotone(recs, MonthShifts(m), Both(WithShift, InWindow(span)), Effective);
  }

  /**
    The loop of `buildFromTSV`: from `first` on, every row that yields a
    record has it appended to the records and set under its date in the
    index.
   */
  method LoadRecords(rows: seq<seq<string>>, first: int, layout: Layout) returns (days: seq<DayRecord>, index: map<string, DayRecord>)
    requires 0 <= first <= |rows|
    ensures days == Records(rows[first..], layout) && Indexed(days, index)
  {
    days := [];
    index := map[];
    var i := first;
    RecordsOfNoRows(rows, first, layout);
    while i < |rows|
      invariant first <= i <= |rows|
      invariant days == Records(rows[first..i], layout) && index == IndexOf(days)
    {
      days, index := LoadRow(rows, first, i, layout, days, index);
      i := i + 1;
    }
    RecordsOfRest(rows, first, layout);
    RecordsWellFormed(rows[first..], layout);
    RecordsBounded(rows[first..], layout);
  }

  /** One pass of that loop: row `i`'s record, if it yields one, is pushed and indexed under its key. */
  method LoadRow(rows: seq<seq<string>>, first: int, i: int, layout: Layout, days: seq<DayRecord>, index: map<string, DayRecord>)
      returns (days': seq<DayRecord>, index': map<string, DayRecord>)
    requires 0 <= first <= i < |rows| && days == Records(rows[first..i], layout) && index == IndexOf(days)
    ensures days' == Records(rows[first..i + 1], layout) && index' == IndexOf(days')
  {
    RecordsStep(rows, first, i, layout);
    var built := BuildRecord(rows[i], layout);
    days', index' := days, index;
    if built.Some? {
      var rec := built.value;
      IndexOfSnoc(days, rec);
      days' := days + [rec];
      index' := index[rec.iso := rec];
    } else {
      assert days + [] == days;
    }
  }

  /**
    The hour figures of `renderYearKPIs()` over the records that `f` keeps:
    effective, raw and lunch hours, the effective and raw hours per month
    with their 12-month average and the busiest month, and the effective
    hours per weekday with the busiest weekday.
   */
  ghost predicate YearHours(k: YearKpis, recs: seq<DayRecord>, f: Filter) {
    && k.effective == Total(recs, f, Effective)
    && k.raw == Total(recs, f, Raw)
    && k.lunchHours == Total(recs, f, LunchTime)
    && k.raw == k.effective + k.lunchHours
    && k.monthTotals == Breakdown(recs, f, ByMonth, Effective)
    && k.monthRawTotals == Breakdown(recs, f, ByMonth, Raw)
    && k.monthAverage * 12.0 == k.effective
    && FirstMax(k.monthTotals, k.topMonth)
    && k.weekdayTotals == Breakdown(recs, f, ByWeekday, Effective)
    && FirstMax(k.weekdayTotals, k.topWeekday)
  }

  /** The yearly indicators: the given worked/idle split and the hour figures of the records that `f` keeps. */
  method YearTotals(recs: seq<DayRecord>, f: Filter, worked: nat, idle: nat) returns (k: YearKpis)
    requires AllBounded(recs)
    ensures k.workedDays == worked && k.idleDays == idle
    ensures YearHours(k, recs, f)
  {
    var _, effective, raw, lunchHours, _ := ShiftHours(recs, f);

    var monthTotals := SelectedGroupTotals(recs, f, ByMonth, Effective);
    var monthRawTotals := SelectedGroupTotals(recs, f, ByMonth, Raw);
    var monthAverage := MonthAverage(monthTotals);
    var topMonth := TopIndex(monthTotals);

    var weekdayTotals := SelectedGroupTotals(recs, f, ByWeekday, Effective);
    var topWeekday := TopIndex(weekdayTotals);

    k := YearKpis(worked, idle, effective, raw, lunchHours, monthTotals, monthRawTotals, monthAverage, topMonth,
                  weekdayTotals, topWeekday);
  }

  /**
    The figures of `renderKPIs()` over the records that `f` keeps and the
    windows `weeks`: the number of days, the first day with the most hours,
    effective, raw and lunch hours with the lunch days, the window totals of
    every record with a shift with the first busiest window and their
    average, and the hours per weekday with the first busiest weekday.
   */
  ghost predicate MonthHours(k: MonthKpis, recs: seq<DayRecord>, f: Filter, weeks: seq<Week>) {
    && k.shiftDays == |Select(recs, f)|
    && k.effective == Total(recs, f, Effective)
    && k.raw == Total(recs, f, Raw)
    && k.raw == k.effective + k.lunchHours && k.effective >= 0.0
    && k.lunchHours == k.lunchDays as real
    && (k.topDay.None? <==> k.shiftDays == 0)
    && FirstMostHours(Select(recs, f), k.topDay)
    && BusiestWindow(weeks, k.weekTotals, k.topWeek, recs, WithShift)
    && k.weekAverage == WeekAverage(k.weekTotals)
    && k.weekdayTotals == Breakdown(recs, f, ByWeekday, Effective)
    && Sum(k.weekdayTotals) == k.effective
    && FirstMax(k.weekdayTotals, k.topWeekday)
  }

  /** The monthly indicators of the records that `f` keeps, over the windows `weeks`. */
  method MonthTotals(recs: seq<DayRecord>, f: Filter, weeks: seq<Week>) returns (k: MonthKpis)
    requires AllBounded(recs)
    ensures MonthHours(k, recs, f, weeks)
  {
    var shiftDays, effective, raw, lunchHours, lunchDays := ShiftHours(recs, f);
    var topDay := TopDay(shiftDays);

    var weekTotals := WeekTotals(recs, WithShift, weeks);
    var topWeek := TopIndex(weekTotals);

    var weekdayTotals := SelectedGroupTotals(recs, f, ByWeekday, Effective);
    var topWeekday := TopIndex(weekdayTotals);

    k := MonthKpis(topDay, weekTotals, topWeek, WeekAverage(weekTotals), weekdayTotals, topWeekday,
                   effective, raw, |shiftDays|, lunchDays, lunchHours);
  }

  /**
    The window figures of `renderYearKPIs()`: one total per window, the
    effective hours of the records `f` keeps inside it, and `top`, the first
    window with the most hours.
   */
  ghost predicate BusiestWindow(weeks: seq<Week>, weekTotals: seq<real>, top: nat, recs: seq<DayRecord>, f: Filter) {
    && |weekTotals| == |weeks|
    && (forall i :: 0 <= i < |weeks| ==> weekTotals[i] == Total(recs, Both(f, InWindow(weeks[i])), Effective))
    && FirstMax(weekTotals, top)
  }

  /** The loop over the year's windows and the search for the busiest one. */
  method WindowFigures(recs: seq<DayRecord>, f: Filter, weeks: seq<Week>) returns (weekTotals: seq<real>, top: nat)
    ensures BusiestWindow(weeks, weekTotals, top, recs, f)
  {
    weekTotals := SelectedWeekTotals(recs, f, weeks);
    top := TopIndex(weekTotals);
  }

  class Planner {
    /** Every record, in file order. */
    var allDays: seq<DayRecord>
    /** The last record of each date, by `toISODateKey`. */
    var dayByISO: map<string, DayRecord>
    /** The windows of the month on screen; empty until the first render. */
    var monthWeeks: seq<Week>
    /** The month on screen, 0 = January. */
    var currentMonth: int
    /** The selected window of `monthWeeks`. */
    var currentWeekIndex: int

    /**
      The records are well formed and of the planner's year, the index is
      the index of the records, and the month is a month.
     */
    ghost predicate DataValid()
      reads this
    {
      && Indexed(allDays, dayByISO)
      && 0 <= currentMonth < 12
    }

    /** The month is a month, and the selected window exists once there are windows. */
    ghost predicate ViewValid()
      reads this
    {
      0 <= currentMonth < 12 && 0 <= currentWeekIndex && (monthWeeks != [] ==> currentWeekIndex < |monthWeeks|)
    }

    /** `DataValid()` and `ViewValid()`. */
    ghost predicate Valid()
      reads this
    {
      DataValid() && ViewValid()
    }

    /** A month has been rendered: the windows on screen are those of the current month. */
    ghost predicate Rendered()
      reads this
    {
      monthWeeks != [] && ShownWeeks(monthWeeks, currentMonth)
    }

    /** The state when the script loads: no records, January, first window. */
    constructor()
      ensures Valid()
      ensures allDays == [] && dayByISO == map[] && monthWeeks == []
      ensures currentMonth == 0 && currentWeekIndex == 0
    {
      allDays := [];
      dayByISO := map[];
      monthWeeks := [];
      currentMonth := 0;
      currentWeekIndex := 0;
    }

    /**
      `buildFromTSV(tsv)`: a text with no rows leaves everything as it was;
      otherwise both indexes are rebuilt from the rows after the header (if
      any), so `allDays` holds the record of every accepted row in file order
      and `dayByISO` the last record of each date.
     */
    method Rebuild(tsv: string)
      requires Valid()
      modifies this
      ensures Valid()
      ensures TsvToRows(tsv) == [] ==> allDays == old(allDays) && dayByISO == old(dayByISO)
      ensures TsvToRows(tsv) != [] ==>
        var rows := TsvToRows(tsv);
        allDays == Records(rows[DetectLayout(rows).firstRow..], DetectLayout(rows))
      ensures monthWeeks == old(monthWeeks) && currentMonth == old(currentMonth)
      ensures currentWeekIndex == old(currentWeekIndex)
    {
      var rows := TsvToRows(tsv);
      if |rows| == 0 {
        return;
      }
      var layout := DetectLayout(rows);
      LoadRows(rows, layout);
    }

    /**
      The second half of `buildFromTSV`: both indexes are replaced by those
      that the loop over the rows from `layout.firstRow` on builds.
     */
    method LoadRows(rows: seq<seq<string>>, layout: Layout)
      requires ViewValid() && 0 <= layout.firstRow <= |rows|
      modifies this
      ensures Valid()
      ensures allDays == Records(rows[layout.firstRow..], layout)
      ensures monthWeeks == old(monthWeeks) && currentMonth == old(currentMonth)
      ensures currentWeekIndex == old(currentWeekIndex)
    {
      allDays, dayByISO := LoadRecords(rows, layout.firstRow, layout);
    }

    /**
      The window part of `render()`: the windows of the current month are
      put on screen and the selected window is clamped into them.
     */
    method Render()
      requires DataValid()
      modifies this
      ensures Valid() && Rendered()
      ensures currentWeekIndex == Clamp(old(currentWeekIndex), 0, |monthWeeks| - 1)
      ensures allDays == old(allDays) && dayByISO == old(dayByISO) && currentMonth == old(currentMonth)
    {
      monthWeeks := GetWeeksForMonth(Year, currentMonth);
      currentWeekIndex := Clamp(currentWeekIndex, 0, Max(0, |monthWeeks| - 1));
    }

    /** The previous-month button: the month before (December before January), its first window. */
    method PrevMonth()
      requires Valid()
      modifies this
      ensures Valid() && Rendered()
      ensures currentMonth == (old(currentMonth) + 11) % 12 && currentWeekIndex == 0
      ensures allDays == old(allDays) && dayByISO == old(dayByISO)
    {
      currentMonth := (currentMonth + 11) % 12;
      currentWeekIndex := 0;
      Render();
    }

    /** The next-month button: the month after (January after December), its first window. */
    method NextMonth()
      requires Valid()
      modifies this
      ensures Valid() && Rendered()
      ensures currentMonth == (old(currentMonth) + 1) % 12 && currentWeekIndex == 0
      ensures allDays == old(allDays) && dayByISO == old(dayByISO)
    {
      currentMonth := (currentMonth + 1) % 12;
      currentWeekIndex := 0;
      Render();
    }

    /** The previous-week button: one window back, stopping at the first. */
    method PrevWeek()
      requires Valid()
      modifies this
      ensures Valid() && Rendered()
      ensures currentWeekIndex == Clamp(Max(old(currentWeekIndex) - 1, 0), 0, |monthWeeks| - 1)
      ensures old(Rendered()) ==>
        monthWeeks == old(monthWeeks) && currentWeekIndex == Max(old(currentWeekIndex) - 1, 0)
      ensures allDays == old(allDays) && dayByISO == old(dayByISO) && currentMonth == old(currentMonth)
    {
      currentWeekIndex := Max(currentWeekIndex - 1, 0);
      var before := monthWeeks;
      ghost var wasRendered := Rendered();
      Render();
      if wasRendered {
        WindowsUnique(before, monthWeeks, MonthFirst(Year, currentMonth), MonthLast(Year, currentMonth));
      }
    }

    /**
      The next-week button: one window on, stopping at the last.  Before the
      first render there are no windows and the index goes to -1, which the
      render that follows clamps back to 0.
     */
    method NextWeek()
      requires Valid()
      modifies this
      ensures Valid() && Rendered()
      ensures old(Rendered()) ==>
        monthWeeks == old(monthWeeks) && currentWeekIndex == Min(old(currentWeekIndex) + 1, |monthWeeks| - 1)
      ensures old(monthWeeks) == [] ==> currentWeekIndex == 0
      ensures allDays == old(allDays) && dayByISO == old(dayByISO) && currentMonth == old(currentMonth)
    {
      currentWeekIndex := Min(currentWeekIndex + 1, |monthWeeks| - 1);
      var before := monthWeeks;
      ghost var wasRendered := Rendered();
      Render();
      if wasRendered {
        WindowsUnique(before, monthWeeks, MonthFirst(Year, currentMonth), MonthLast(Year, currentMonth));
      }
    }
  
    /**
      `renderWeekBars()`: nothing without a selected window; otherwise the
      effective hours of the records with a shift inside that window, by
      weekday, and each bar's height relative to the tallest (or to 1 hour).
     */
    method WeekBars() returns (bars: Option<Bars>)
      requires Valid()
      ensures bars.None? <==> monthWeeks == []
      ensures bars.Some? ==>
        var inWeek := Both(WithShift, InWindow(monthWeeks[currentWeekIndex]));
        && bars.value.totals == Breakdown(allDays, inWeek, ByWeekday, Effective)
        && Sum(bars.value.totals) == Total(allDays, inWeek, Effective)
      ensures bars.Some? ==>
        && |bars.value.heights| == 7
        && forall i :: 0 <= i < 7 ==> 0.0 <= bars.value.heights[i] <= 100.0
    {
      if !(0 <= currentWeekIndex < |monthWeeks|) {
        return None;
      }
      var week := monthWeeks[currentWeekIndex];
      var inWeek := Both(WithShift, InWindow(week));
      var totals := GroupTotals(allDays, inWeek, ByWeekday, Effective);
      BreakdownSums(allDays, inWeek, ByWeekday, Effective);
      var scale := BarScale(totals);
      forall i | 0 <= i < 7
        ensures 0.0 <= BarHeight(totals[i], scale) <= 100.0
      {
        TotalNonNegative(allDays, Both(inWeek, InSlot(ByWeekday, i)), Effective);
        BarHeightsInRange(totals, i);
      }
      bars := Some(Bars(totals, seq(7, i requires 0 <= i < 7 => BarHeight(totals[i], scale))));
    }

    /**
      `renderTotals()`: the effective hours of the month's days with a shift
      by weekday, which add up to the month's effective hours; the effective
      hours of every day with a shift inside each window of the month; and
      "Total mes", the sum of the window totals.
     */
    method Totals() returns (panel: TotalsPanel)
      requires Valid()
      ensures panel.dayTotals == Breakdown(allDays, MonthShifts(currentMonth), ByWeekday, Effective)
      ensures Sum(panel.dayTotals) == Total(allDays, MonthShifts(currentMonth), Effective)
      ensures |panel.weekTotals| == |monthWeeks|
      ensures forall i :: 0 <= i < |monthWeeks| ==>
        panel.weekTotals[i] == Total(allDays, Both(WithShift, InWindow(monthWeeks[i])), Effective)
      ensures panel.monthTotal == Sum(panel.weekTotals)
      ensures Rendered() ==> panel.monthTotal >= Sum(panel.dayTotals)
    {
      var dayTotals := SelectedGroupTotals(allDays, MonthShifts(currentMonth), ByWeekday, Effective);
      var weekTotals := WeekTotals(allDays, WithShift, monthWeeks);
      if Rendered() {
        AllInTheirMonths(allDays);
        MonthTotalCoversMonth(allDays, Year, currentMonth, monthWeeks, weekTotals);
      }
      panel := TotalsPanel(dayTotals, weekTotals, Sum(weekTotals));
    }

    /**
      `renderKPIs()`: over the month's days with a shift, the day with the
      most hours (the first one on a tie), the effective, raw and lunch
      hours; the hours of each window of the month, the busiest window and
      the window average; and the hours by weekday with the busiest weekday.
     */
    method MonthFigures() returns (k: MonthKpis)
      requires AllBounded(allDays)
      ensures MonthHours(k, allDays, MonthShifts(currentMonth), monthWeeks)
    {
      k := MonthTotals(allDays, MonthShifts(currentMonth), monthWeeks);
    }
  
    /**
      The worked/idle split of `renderYearKPIs()`: every date of the year is
      worked (a record with a shift under its key) or idle, and there are as
      many worked dates as keys of the index with a shift.
     */
    method WorkedDays() returns (worked: nat, idle: nat)
      requires Indexed(allDays, dayByISO)
      ensures worked + idle == DaysInYear(Year)
      ensures worked == |ShiftKeys(dayByISO)|
    {
      worked, idle := YearCoverage(dayByISO, Year);
      IndexOfKeyed(allDays);
      WorkedDaysAreShiftKeys(dayByISO, Year);
    }

    /**
      `renderYearKPIs()`: every date of the year counts as worked or not
      (worked: a record with a shift under its key, one per distinct date);
      over the year's days with a shift, the effective, raw and lunch hours,
      the hours per month with their 12-month average and the busiest month,
      and the busiest weekday.
     */
    method YearFigures() returns (k: YearKpis)
      requires Valid()
      ensures k.workedDays + k.idleDays == DaysInYear(Year)
      ensures k.workedDays == |ShiftKeys(dayByISO)|
      ensures YearHours(k, allDays, YearShifts())
    {
      var worked, idle := WorkedDays();
      k := YearTotals(allDays, YearShifts(), worked, idle);
    }

    /**
      The busiest window of `renderYearKPIs()`: the windows of the year, the
      effective hours of the year's days with a shift inside each, and the
      first window with the most hours.
     */
    method YearWindows() returns (weeks: seq<Week>, weekTotals: seq<real>, top: nat)
      requires Valid()
      ensures WindowsOf(weeks, YearFirst(Year), YearLast(Year))
      ensures BusiestWindow(weeks, weekTotals, top, allDays, YearShifts())
    {
      weeks := GetWeeksForYear(Year);
      weekTotals, top := WindowFigures(allDays, YearShifts(), weeks);
    }
  }
}
