/**
  A naive (time-zone free) model of the calendar arithmetic that the planner
  gets from JavaScript's `Date`: a date is a day number counted from
  1 January 1970, as in ECMA-262's `Day(t)`, and the proleptic Gregorian
  calendar gives its year, month (0 = January) and day of the month.
 */
module Calendar {

  /** The year whose records the planner keeps (`CFG.YEAR`). */
  const TargetYear: int := 2026

  predicate IsLeap(y: int) {
    y % 4 == 0 && (y % 100 != 0 || y % 400 == 0)
  }

  function DaysInYear(y: int): (n: int)
    ensures n == 365 || n == 366
    ensures n == 366 <==> IsLeap(y)
  {
    if IsLeap(y) then 366 else 365
  }

  /** Length of month `m` (0 = January) of year `y`. */
  function DaysInMonth(y: int, m: int): (n: int)
    requires 0 <= m < 12
    ensures 28 <= n <= 31
  {
    if m == 1 then (if IsLeap(y) then 29 else 28)
    else if m == 3 || m == 5 || m == 8 || m == 10 then 30
    else 31
  }

  /** Days of year `y` that precede the first of month `m`; `m == 12` gives the whole year. */
  function DaysBeforeMonth(y: int, m: int): (n: int)
    requires 0 <= m <= 12
    ensures n >= 0
    ensures m == 0 ==> n == 0
    ensures m == 12 ==> n == DaysInYear(y)
  {
    var common :=
      if m == 0 then 0 else if m == 1 then 31 else if m == 2 then 59
      else if m == 3 then 90 else if m == 4 then 120 else if m == 5 then 151
      else if m == 6 then 181 else if m == 7 then 212 else if m == 8 then 243
      else if m == 9 then 273 else if m == 10 then 304 else if m == 11 then 334
      else 365;
    common + (if IsLeap(y) && m >= 2 then 1 else 0)
  }

  lemma DaysBeforeMonthStep(y: int, m: int)
    requires 0 <= m < 12
    ensures DaysBeforeMonth(y, m + 1) == DaysBeforeMonth(y, m) + DaysInMonth(y, m)
  {
  }

  lemma DaysBeforeMonthMonotone(y: int, a: int, b: int)
    requires 0 <= a < b <= 12
    ensures DaysBeforeMonth(y, a + 1) <= DaysBeforeMonth(y, b)
  {
  }

  /**
    The day number of 1 January of year `y`: ECMA-262's `DayFromYear`, counted
    year by year from 1970 instead of by its closed formula.
   */
  function DayFromYear(y: int): int
    decreases if y < 1970 then 1970 - y else y - 1970
  {
    if y == 1970 then 0
    else if y > 1970 then DayFromYear(y - 1) + DaysInYear(y - 1)
    else DayFromYear(y + 1) - DaysInYear(y)
  }

  /** Consecutive new-year day numbers are one year-length apart. */
  lemma DayFromYearStep(y: int)
    ensures DayFromYear(y + 1) == DayFromYear(y) + DaysInYear(y)
  {
  }

  /** New-year day numbers grow with the year: year `a` ends no later than year `b` starts. */
  lemma {:induction false} DayFromYearMonotone(a: int, b: int)
    requires a < b
    ensures DayFromYear(a + 1) <= DayFromYear(b)
    decreases b - a
  {
    DayFromYearStep(b - 1);
    if a + 1 < b {
      DayFromYearMonotone(a, b - 1);
    }
  }

  /** A calendar date as `getFullYear()`, `getMonth()` (0 = January) and `getDate()` report it. */
  datatype Civil = Civil(year: int, month: int, day: int)

  predicate ValidCivil(c: Civil) {
    0 <= c.month < 12 && 1 <= c.day <= DaysInMonth(c.year, c.month)
  }

  /**
    ECMA-262 `MakeDay`: the day number of year `y`, month `m`, day `d`, where
    a month outside 0..11 rolls into the neighbouring years and a day outside
    the month rolls into the neighbouring months.
   */
  function MakeDay(y: int, m: int, d: int): int {
    var ym := y + m / 12;
    DayFromYear(ym) + DaysBeforeMonth(ym, m % 12) + d - 1
  }

  /** Inside the year, `MakeDay` is new-year day plus the days before the month plus the day. */
  lemma MakeDayInYear(y: int, m: int, d: int)
    requires 0 <= m < 12
    ensures MakeDay(y, m, d) == DayFromYear(y) + DaysBeforeMonth(y, m) + d - 1
  {
    assert m / 12 == 0 && m % 12 == m;
  }

  /** ECMA-262 `YearFromTime`, by a search that starts at 1970. */
  function YearSearch(n: int, y: int): (r: int)
    ensures DayFromYear(r) <= n < DayFromYear(r + 1)
    decreases (if DayFromYear(y) > n then DayFromYear(y) - n else 0),
              (if DayFromYear(y + 1) <= n then n - DayFromYear(y + 1) + 1 else 0)
  {
    DayFromYearStep(y - 1);
    DayFromYearStep(y);
    DayFromYearStep(y + 1);
    if DayFromYear(y) > n then YearSearch(n, y - 1)
    else if DayFromYear(y + 1) <= n then YearSearch(n, y + 1)
    else y
  }

  /** ECMA-262 `MonthFromTime` for the `k`-th day (from 0) of year `y`. */
  function MonthSearch(y: int, k: int, m: int): (r: int)
    requires 0 <= m < 12 && DaysBeforeMonth(y, m) <= k < DaysInYear(y)
    ensures m <= r < 12 && DaysBeforeMonth(y, r) <= k < DaysBeforeMonth(y, r + 1)
    decreases 12 - m
  {
    if k < DaysBeforeMonth(y, m + 1) then m
    else
      assert DaysBeforeMonth(y, 12) == DaysInYear(y);
      MonthSearch(y, k, m + 1)
  }

  /** The calendar date of day number `n`: a real date that `MakeDay` maps back to `n`. */
  function CivilFromDay(n: int): (c: Civil)
    ensures ValidCivil(c) && MakeDay(c.year, c.month, c.day) == n
  {
    var y := YearSearch(n, 1970);
    DayFromYearStep(y);
    var m := MonthSearch(y, n - DayFromYear(y), 0);
    var d := n - DayFromYear(y) - DaysBeforeMonth(y, m) + 1;
    DaysBeforeMonthStep(y, m);
    MakeDayInYear(y, m, d);
    Civil(y, m, d)
  }

  /** The day number of a real date lies inside its month and inside its year. */
  lemma CivilBounds(c: Civil)
    requires ValidCivil(c)
    ensures DayFromYear(c.year) + DaysBeforeMonth(c.year, c.month) <= MakeDay(c.year, c.month, c.day)
    ensures MakeDay(c.year, c.month, c.day) < DayFromYear(c.year) + DaysBeforeMonth(c.year, c.month + 1)
    ensures MakeDay(c.year, c.month, c.day) < DayFromYear(c.year + 1)
  {
    MakeDayInYear(c.year, c.month, c.day);
    DaysBeforeMonthStep(c.year, c.month);
    if c.month < 11 {
      DaysBeforeMonthMonotone(c.year, c.month, 12);
    }
    DayFromYearStep(c.year);
  }

  /** Two real dates with the same day number are the same date. */
  lemma MakeDayInjective(a: Civil, b: Civil)
    requires ValidCivil(a) && ValidCivil(b)
    requires MakeDay(a.year, a.month, a.day) == MakeDay(b.year, b.month, b.day)
    ensures a == b
  {
    SameDayNumberSameYear(a, b);
    SameDayNumberSameMonth(a, b);
    MakeDayInYear(a.year, a.month, a.day);
    MakeDayInYear(b.year, b.month, b.day);
  }

  /** Two real dates with the same day number are in the same year. */
  lemma SameDayNumberSameYear(a: Civil, b: Civil)
    requires ValidCivil(a) && ValidCivil(b)
    requires MakeDay(a.year, a.month, a.day) == MakeDay(b.year, b.month, b.day)
    ensures a.year == b.year
  {
    var n := MakeDay(a.year, a.month, a.day);
    CivilBounds(a);
    CivilBounds(b);
    assert DayFromYear(a.year) <= n < DayFromYear(a.year + 1);
    assert DayFromYear(b.year) <= n < DayFromYear(b.year + 1);
    if a.year < b.year {
      DayFromYearMonotone(a.year, b.year);
    } else if b.year < a.year {
      DayFromYearMonotone(b.year, a.year);
    }
  }

  /** Two real dates of one year with the same day number are in the same month. */
  lemma SameDayNumberSameMonth(a: Civil, b: Civil)
    requires ValidCivil(a) && ValidCivil(b) && a.year == b.year
    requires MakeDay(a.year, a.month, a.day) == MakeDay(b.year, b.month, b.day)
    ensures a.month == b.month
  {
    CivilBounds(a);
    CivilBounds(b);
    if a.month < b.month {
      DaysBeforeMonthMonotone(a.year, a.month, b.month);
    } else if b.month < a.month {
      DaysBeforeMonthMonotone(a.year, b.month, a.month);
    }
  }

  /** Reading a real date back from its day number gives the same date. */
  lemma CivilRoundTrip(c: Civil)
    requires ValidCivil(c)
    ensures CivilFromDay(MakeDay(c.year, c.month, c.day)) == c
  {
    var r := CivilFromDay(MakeDay(c.year, c.month, c.day));
    MakeDayInjective(c, r);
  }

  /** A JavaScript `Date` at local midnight, reduced to its day number. */
  datatype Date = Date(day: int) {

    /** `getFullYear()`: the year whose days include this one. */
    function FullYear(): (y: int)
      ensures DayFromYear(y) <= day < DayFromYear(y + 1)
    {
      var c := CivilFromDay(day);
      CivilBounds(c);
      c.year
    }

    /** `getMonth()`, 0 = January: the month of that year whose days include this one. */
    function Month(): (m: int)
      ensures 0 <= m < 12
      ensures DaysBeforeMonth(FullYear(), m) <= day - DayFromYear(FullYear()) < DaysBeforeMonth(FullYear(), m + 1)
    {
      var c := CivilFromDay(day);
      CivilBounds(c);
      c.month
    }

    /** `getDate()`: the day of that month, counted from 1. */
    function DateOfMonth(): (d: int)
      ensures 1 <= d <= DaysInMonth(FullYear(), Month())
      ensures day == DayFromYear(FullYear()) + DaysBeforeMonth(FullYear(), Month()) + d - 1
    {
      var c := CivilFromDay(day);
      MakeDayInYear(c.year, c.month, c.day);
      c.day
    }

    /** `getDay()`: ECMA-262 `WeekDay`, 0 = Sunday (1 January 1970 was a Thursday). */
    function WeekDay(): (w: int)
      ensures 0 <= w < 7
    {
      (day + 4) % 7
    }

    /** `(getDay() + 6) % 7`: the weekday with Monday = 0 and Sunday = 6. */
    function MondayIndex(): (w: int)
      ensures 0 <= w < 7
      ensures (w + 1) % 7 == WeekDay()
      ensures w == 0 <==> WeekDay() == 1
    {
      (WeekDay() + 6) % 7
    }

    function AddDays(n: int): Date {
      Date(day + n)
    }
  }

  /** Each day added moves the weekday on by one, wrapping from Saturday to Sunday. */
  lemma {:induction false} WeekDayAfter(date: Date, n: nat)
    ensures date.AddDays(n).WeekDay() == (date.WeekDay() + n) % 7
  {
    if n > 0 {
      WeekDayAfter(date, n - 1);
      NextModSeven(date.day + n - 1 + 4);
      NextModSeven(date.WeekDay() + n - 1);
    }
  }

  /** Counting on by one, mod 7. */
  lemma NextModSeven(x: int)
    ensures (x % 7 + 1) % 7 == (x + 1) % 7
  {
    if x % 7 == 6 {
      assert x + 1 == (x / 7 + 1) * 7;
    } else {
      assert x + 1 == x / 7 * 7 + (x % 7 + 1);
    }
  }

  /** A week later is the same weekday. */
  lemma WeekDayWeekLater(date: Date)
    ensures date.AddDays(7).WeekDay() == date.WeekDay()
    ensures date.AddDays(7).MondayIndex() == date.MondayIndex()
  {
    WeekDayAfter(date, 7);
  }

  /** `new Date(1970, 0, 1)` is day 0, and that day was a Thursday. */
  lemma EpochIsThursday(epoch: Date)
    requires epoch == NewDate(1970, 0, 1)
    ensures epoch.day == 0
    ensures epoch.WeekDay() == 4 && epoch.MondayIndex() == 3
  {
    MakeDayInYear(1970, 0, 1);
    DayZeroIsThursday(epoch);
  }

  /** Day 0 was a Thursday: weekday 4 from Sunday, 3 from Monday. */
  lemma DayZeroIsThursday(date: Date)
    requires date.day == 0
    ensures date.WeekDay() == 4 && date.MondayIndex() == 3
  {
  }

  /** ECMA-262 `MakeFullYear`: a year from 0 to 99 given to the constructor means 1900 to 1999. */
  function MakeFullYear(y: int): int {
    if 0 <= y <= 99 then 1900 + y else y
  }

  /** `new Date(y, m, d)` */
  function NewDate(y: int, m: int, d: int): Date {
    Date(MakeDay(MakeFullYear(y), m, d))
  }

  /** A year from 0 to 99 given to the constructor is the same year of the 1900s. */
  lemma NewDateTwoDigitYear(y: int, m: int, d: int)
    requires 0 <= y <= 99
    ensures NewDate(y, m, d) == NewDate(1900 + y, m, d)
  {
    assert MakeFullYear(y) == 1900 + y == MakeFullYear(1900 + y);
  }

  /** A real date given to the constructor is that date, of the year `MakeFullYear` makes of `y`. */
  lemma NewDateOfValid(y: int, m: int, d: int)
    requires 0 <= m < 12 && 1 <= d <= DaysInMonth(MakeFullYear(y), m)
    ensures NewDate(y, m, d).FullYear() == MakeFullYear(y)
    ensures NewDate(y, m, d).Month() == m && NewDate(y, m, d).DateOfMonth() == d
  {
    CivilRoundTrip(Civil(MakeFullYear(y), m, d));
  }

  /** A date given back to the constructor as its own year, month and day is itself. */
  lemma NewDateOfOwnCivil(date: Date)
    requires !(0 <= date.FullYear() <= 99)
    ensures NewDate(date.FullYear(), date.Month(), date.DateOfMonth()) == date
  {
    assert MakeFullYear(date.FullYear()) == date.FullYear();
  }

  /** Day 31 of February rolls over into March: to 3 March, or to 2 March in a leap year. */
  lemma NewDateRollsOver(y: int)
    requires !(0 <= y <= 99)
    ensures NewDate(y, 1, 31).FullYear() == y && NewDate(y, 1, 31).Month() == 2
    ensures NewDate(y, 1, 31).DateOfMonth() == if IsLeap(y) then 2 else 3
  {
    var march := Civil(y, 2, if IsLeap(y) then 2 else 3);
    assert MakeFullYear(y) == y;
    MakeDayInYear(y, 1, 31);
    MakeDayInYear(y, 2, march.day);
    DaysBeforeMonthStep(y, 1);
    assert NewDate(y, 1, 31).day == MakeDay(y, 2, march.day);
    CivilRoundTrip(march);
  }

  /** The last day of month `m % 12` of year `y` lies that month's length minus one after its first day. */
  lemma MonthEnd(y: int, m: int)
    ensures MakeDay(y, m + 1, 0) == MakeDay(y, m, 1) + DaysInMonth(y + m / 12, m % 12) - 1
  {
    var ym, mn := y + m / 12, m % 12;
    DaysBeforeMonthStep(ym, mn);
    if mn == 11 {
      assert (m + 1) / 12 == m / 12 + 1 && (m + 1) % 12 == 0;
      DayFromYearStep(ym);
    } else {
      assert (m + 1) / 12 == m / 12 && (m + 1) % 12 == mn + 1;
    }
  }

  /** Day 1 of month `m` and day 0 of month `m + 1` are the ends of one month of the year `m` rolls into. */
  lemma MonthEnds(y: int, m: int)
    ensures MakeDay(y, m, 1) == MakeDay(y + m / 12, m % 12, 1)
    ensures MakeDay(y, m + 1, 0) == MakeDay(y + m / 12, m % 12, DaysInMonth(y + m / 12, m % 12))
    ensures MakeDay(y, m + 1, 0) - MakeDay(y, m, 1) + 1 == DaysInMonth(y + m / 12, m % 12)
  {
    var ym, mn := y + m / 12, m % 12;
    MonthEnd(y, m);
    MakeDayInYear(ym, mn, 1);
    MakeDayInYear(ym, mn, DaysInMonth(ym, mn));
  }

  /**
    `new Date(y, m, 1)` and `new Date(y, m + 1, 0)` are the first and the last
    day of one month, whatever integer `m` is.
   */
  lemma MonthSpan(y: int, m: int)
    ensures 28 <= NewDate(y, m + 1, 0).day - NewDate(y, m, 1).day + 1 <= 31
    ensures NewDate(y, m, 1).DateOfMonth() == 1
    ensures NewDate(y, m + 1, 0).Month() == NewDate(y, m, 1).Month()
    ensures NewDate(y, m + 1, 0).FullYear() == NewDate(y, m, 1).FullYear()
    ensures NewDate(y, m + 1, 0).DateOfMonth() == NewDate(y, m + 1, 0).day - NewDate(y, m, 1).day + 1
  {
    var fy := MakeFullYear(y);
    var ym, mn := fy + m / 12, m % 12;
    var first := Civil(ym, mn, 1);
    var last := Civil(ym, mn, DaysInMonth(ym, mn));
    MonthEnds(fy, m);
    var f, l := NewDate(y, m, 1).day, NewDate(y, m + 1, 0).day;
    CivilRoundTrip(first);
    CivilRoundTrip(last);
    assert CivilFromDay(f) == first;
    assert CivilFromDay(l) == last;
  }

  /** `new Date(y, 0, 1)` and `new Date(y, 11, 31)` are the first and the last day of one year. */
  lemma YearSpan(y: int)
    ensures NewDate(y, 0, 1).day == DayFromYear(MakeFullYear(y))
    ensures NewDate(y, 11, 31).day == DayFromYear(MakeFullYear(y) + 1) - 1
    ensures NewDate(y, 11, 31).day - NewDate(y, 0, 1).day + 1 == DaysInYear(MakeFullYear(y))
  {
    var fy := MakeFullYear(y);
    MakeDayInYear(fy, 0, 1);
    MakeDayInYear(fy, 11, 31);
    DaysBeforeMonthStep(fy, 11);
    DayFromYearStep(fy);
  }

  /** The days of a year with four or more digits are exactly the days from its 1 January to its 31 December. */
  lemma InYear(date: Date, y: int)
    requires !(0 <= y <= 99)
    ensures date.FullYear() == y <==> NewDate(y, 0, 1).day <= date.day <= NewDate(y, 11, 31).day
  {
    CivilInYear(CivilFromDay(date.day), y);
  }

  /** `InYear` for the calendar date of a day number. */
  lemma CivilInYear(c: Civil, y: int)
    requires ValidCivil(c) && !(0 <= y <= 99)
    ensures c.year == y <==> NewDate(y, 0, 1).day <= MakeDay(c.year, c.month, c.day) <= NewDate(y, 11, 31).day
  {
    var n := MakeDay(c.year, c.month, c.day);
    YearSpan(y);
    assert MakeFullYear(y) == y;
    CivilBounds(c);
    assert DayFromYear(c.year) <= n < DayFromYear(c.year + 1);
    if c.year < y {
      DayFromYearMonotone(c.year, y);
    } else if c.year > y {
      DayFromYearMonotone(y, c.year);
    }
  }

  /** A date lies between the first and the last day of its own month. */
  lemma InOwnMonth(date: Date)
    requires !(0 <= date.FullYear() <= 99)
    ensures NewDate(date.FullYear(), date.Month(), 1).day <= date.day
    ensures date.day <= NewDate(date.FullYear(), date.Month() + 1, 0).day
  {
    var c := CivilFromDay(date.day);
    assert c == Civil(date.FullYear(), date.Month(), date.DateOfMonth());
    CivilInOwnMonth(c);
  }

  /** `InOwnMonth` for the calendar date of a day number. */
  lemma CivilInOwnMonth(c: Civil)
    requires ValidCivil(c) && !(0 <= c.year <= 99)
    ensures NewDate(c.year, c.month, 1).day <= MakeDay(c.year, c.month, c.day)
    ensures MakeDay(c.year, c.month, c.day) <= NewDate(c.year, c.month + 1, 0).day
  {
    assert MakeFullYear(c.year) == c.year;
    MonthDays(c.year, c.month);
    MakeDayInYear(c.year, c.month, c.day);
  }

  /** The first and the last day of a month of the year, as `MakeDay` numbers them. */
  lemma MonthDays(y: int, m: int)
    requires 0 <= m < 12
    ensures MakeDay(y, m, 1) == DayFromYear(y) + DaysBeforeMonth(y, m)
    ensures MakeDay(y, m + 1, 0) == DayFromYear(y) + DaysBeforeMonth(y, m) + DaysInMonth(y, m) - 1
  {
    MakeDayInYear(y, m, 1);
    MonthEnd(y, m);
    assert m / 12 == 0 && m % 12 == m;
  }
}
