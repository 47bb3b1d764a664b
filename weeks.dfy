/**
  Monday-to-Sunday week windows (`startOfWeekMonday`, `endOfWeekSunday`,
  `getWeeksForMonth`, `getWeeksForYear`).  A window covers whole days: the
  end of a window is its Sunday, and `inRange` compares day numbers.
 */
module Weeks {
  import opened Calendar

  /** `{ start, end }`: a Monday and the Sunday six days later. */
  datatype Week = Week(start: Date, end: Date)

  /** `startOfWeekMonday(date)`: the Monday on or before `date`. */
  function StartOfWeekMonday(date: Date): (monday: Date)
    ensures monday.MondayIndex() == 0
    ensures monday.day <= date.day < monday.day + 7
  {
    date.AddDays(-date.MondayIndex())
  }

  /** `endOfWeekSunday(date)`: the Sunday ending the week of `date`. */
  function EndOfWeekSunday(date: Date): (sunday: Date)
    ensures sunday.WeekDay() == 0
    ensures sunday.day == StartOfWeekMonday(date).day + 6
    ensures date.day <= sunday.day
  {
    StartOfWeekMonday(date).AddDays(6)
  }

  /** `inRange(date, start, end)`: `date` is one of the days from `start` to `end`. */
  predicate InRange(date: Date, start: Date, end: Date) {
    start.day <= date.day <= end.day
  }

  /** A date lies in a Monday-to-Sunday window exactly when its own week starts on that Monday. */
  lemma InRangeOfWeek(date: Date, w: Week)
    requires w.start.MondayIndex() == 0 && w.end.day == w.start.day + 6
    ensures InRange(date, w.start, w.end) <==> StartOfWeekMonday(date) == w.start
  {
    var monday := StartOfWeekMonday(date);
    if InRange(date, w.start, w.end) {
      if monday.day <= w.start.day {
        SameWeekMondays(monday, w.start);
      } else {
        SameWeekMondays(w.start, monday);
      }
    }
  }

  /** Two Mondays less than a week apart are the same day. */
  lemma SameWeekMondays(a: Date, b: Date)
    requires a.MondayIndex() == 0 && b.MondayIndex() == 0
    requires a.day <= b.day < a.day + 7
    ensures a == b
  {
    assert a.day + 3 == (a.day + 3) / 7 * 7;
    assert b.day + 3 == (b.day + 3) / 7 * 7;
  }

  /** The `i`-th window counted from the week of `first`. */
  function Window(first: Date, i: int): (w: Week)
    ensures w.start.day == StartOfWeekMonday(first).day + 7 * i
    ensures w.start.MondayIndex() == 0 && w.end.WeekDay() == 0
    ensures w.end.day == w.start.day + 6
  {
    var monday := StartOfWeekMonday(first).AddDays(7 * i);
    WeeksLater(StartOfWeekMonday(first), i);
    MondayStartsItsWeek(monday);
    Week(monday, EndOfWeekSunday(monday))
  }

  /** Whole weeks later it is the same weekday. */
  lemma WeeksLater(date: Date, i: int)
    ensures date.AddDays(7 * i).MondayIndex() == date.MondayIndex()
  {
  }

  /** A Monday is the start of its own week. */
  lemma MondayStartsItsWeek(monday: Date)
    requires monday.MondayIndex() == 0
    ensures StartOfWeekMonday(monday) == monday
  {
  }

  /** How many windows, counted from the week of `first`, start on or before `last`. */
  function WeekCount(first: Date, last: Date): int {
    (last.day - StartOfWeekMonday(first).day) / 7 + 1
  }

  /** `weeks` are the consecutive windows from the week of `first` up to the one holding `last`. */
  predicate WindowsOf(weeks: seq<Week>, first: Date, last: Date) {
    |weeks| == WeekCount(first, last) && forall i :: 0 <= i < |weeks| ==> weeks[i] == Window(first, i)
  }

  /** The windows between two days are determined by those days. */
  lemma WindowsUnique(a: seq<Week>, b: seq<Week>, first: Date, last: Date)
    requires WindowsOf(a, first, last) && WindowsOf(b, first, last)
    ensures a == b
  {
  }

  /** The first and the last day of month `month` of `year` (which may roll over, as in `new Date`). */
  function MonthFirst(year: int, month: int): Date {
    NewDate(year, month, 1)
  }

  function MonthLast(year: int, month: int): Date {
    NewDate(year, month + 1, 0)
  }

  /** A month has 28 to 31 days. */
  lemma MonthLength(year: int, month: int)
    ensures 27 <= MonthLast(year, month).day - MonthFirst(year, month).day <= 30
  {
    MonthSpan(year, month);
  }

  /** 1 January and 31 December of `year`. */
  function YearFirst(year: int): Date {
    NewDate(year, 0, 1)
  }

  function YearLast(year: int): Date {
    NewDate(year, 11, 31)
  }

  /** A year has 365 or 366 days. */
  lemma YearLength(year: int)
    ensures 364 <= YearLast(year).day - YearFirst(year).day <= 365
  {
    YearSpan(year);
  }

  /** From 1 January to 31 December of a year past 99 there are `DaysInYear` days. */
  lemma YearDays(year: int)
    requires !(0 <= year <= 99)
    ensures YearLast(year).day - YearFirst(year).day + 1 == DaysInYear(year)
  {
    YearSpan(year);
    assert MakeFullYear(year) == year;
  }

  /**
    `getWeeksForMonth(year, month)`: the Monday-to-Sunday windows from the
    week of the 1st, seven days apart, while the Monday is not after the last
    day.  Every window overlaps the month, there are four to six of them, the
    first holds the 1st and the last holds the last day of the month.
   */
  method GetWeeksForMonth(year: int, month: int) returns (weeks: seq<Week>)
    ensures 4 <= |weeks| <= 6
    ensures WindowsOf(weeks, MonthFirst(year, month), MonthLast(year, month))
    ensures forall i :: 0 <= i < |weeks| ==>
      weeks[i].end.day >= MonthFirst(year, month).day && weeks[i].start.day <= MonthLast(year, month).day
    ensures InRange(MonthFirst(year, month), weeks[0].start, weeks[0].end)
    ensures InRange(MonthLast(year, month), weeks[|weeks| - 1].start, weeks[|weeks| - 1].end)
  {
    MonthLength(year, month);
    weeks := OverlappingWeeks(MonthFirst(year, month), MonthLast(year, month));
  }

  /**
    The loop of `getWeeksForMonth` between two days: the windows from the
    week of `first` whose Monday is not after `last`, each kept when it
    overlaps the days from `first` to `last` (which every one of them does).
   */
  method OverlappingWeeks(first: Date, last: Date) returns (weeks: seq<Week>)
    requires 27 <= last.day - first.day <= 30
    ensures 4 <= |weeks| <= 6
    ensures WindowsOf(weeks, first, last)
    ensures forall i :: 0 <= i < |weeks| ==> weeks[i].end.day >= first.day && weeks[i].start.day <= last.day
    ensures InRange(first, weeks[0].start, weeks[0].end)
    ensures InRange(last, weeks[|weeks| - 1].start, weeks[|weeks| - 1].end)
  {
    var monday := StartOfWeekMonday(first);
    var cursor := monday;
    weeks := [];
    while cursor.day <= last.day
      invariant cursor.day == monday.day + 7 * |weeks|
      invariant cursor.day <= last.day + 7
      invariant forall i :: 0 <= i < |weeks| ==> weeks[i] == Window(first, i)
      decreases last.day - cursor.day
    {
      var start := cursor;
      var end := EndOfWeekSunday(cursor);
      assert Window(first, |weeks|) == Week(start, end);
      if end.day >= first.day && start.day <= last.day {
        weeks := weeks + [Week(start, end)];
      }
      cursor := cursor.AddDays(7);
    }
    assert 3 <= (last.day - monday.day) / 7 <= 5;
  }

  /**
    `getWeeksForYear(year)`: every Monday-to-Sunday window from the week of
    1 January, seven days apart, whose Monday is not after 31 December:
    53 or 54 windows, the first holding 1 January and the last 31 December.
   */
  method GetWeeksForYear(year: int) returns (weeks: seq<Week>)
    ensures 53 <= |weeks| <= 54
    ensures WindowsOf(weeks, YearFirst(year), YearLast(year))
    ensures forall i :: 0 <= i < |weeks| ==> weeks[i].start.day <= YearLast(year).day
    ensures InRange(YearFirst(year), weeks[0].start, weeks[0].end)
    ensures InRange(YearLast(year), weeks[|weeks| - 1].start, weeks[|weeks| - 1].end)
  {
    YearLength(year);
    weeks := AllWeeks(YearFirst(year), YearLast(year));
  }

  /** The loop of `getWeeksForYear` between two days: every window from the week of `first` whose Monday is not after `last`. */
  method AllWeeks(first: Date, last: Date) returns (weeks: seq<Week>)
    requires 364 <= last.day - first.day <= 365
    ensures 53 <= |weeks| <= 54
    ensures WindowsOf(weeks, first, last)
    ensures forall i :: 0 <= i < |weeks| ==> weeks[i].start.day <= last.day
    ensures InRange(first, weeks[0].start, weeks[0].end)
    ensures InRange(last, weeks[|weeks| - 1].start, weeks[|weeks| - 1].end)
  {
    var monday := StartOfWeekMonday(first);
    var cursor := monday;
    weeks := [];
    while cursor.day <= last.day
      invariant cursor.day == monday.day + 7 * |weeks|
      invariant cursor.day <= last.day + 7
      invariant forall i :: 0 <= i < |weeks| ==> weeks[i] == Window(first, i)
      decreases last.day - cursor.day
    {
      var start := cursor;
      var end := EndOfWeekSunday(cursor);
      assert Window(first, |weeks|) == Week(start, end);
      weeks := weeks + [Week(start, end)];
      cursor := cursor.AddDays(7);
    }
    assert 52 <= (last.day - monday.day) / 7 <= 53;
  }
}
