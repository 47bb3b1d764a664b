# Planner de Jornadas — the time-accounting engine, in Dafny

The planner is a single-page web app (`app.js`). It reads a published
spreadsheet of work shifts as tab-separated text and shows, for one year
(`CFG.YEAR`, 2026), the following:

- the calendar;
- the hours worked per weekday and per Monday-to-Sunday week;
- monthly and yearly indicators.

This project models the engine between the raw text and the displayed
numbers:

| module | file | what it holds |
|---|---|---|
| `Text` | `text.dfy` | the JavaScript string primitives the parsers use: `trim`, `toLowerCase`, `split`, `includes`, `String(n)`, `padStart(2, "0")`, and `Number(s)` for decimal integers |
| `Calendar` | `calendar.dfy` | the calendar of JavaScript `Date` (see below) |
| `TimeParse` | `timeparse.dfy` | `parseDMY`, `parseTime`, `minToHHMM`, `toISODateKey` and `fmtDMY`, with their round trips and quirks |
| `Lunch` | `lunch.dfy` | the lunch rule: a shift of more than six hours loses one unpaid hour |
| `DayRecords` | `records.dfy` | `tsvToRows`, the header detection and the record built for each row (`buildFromTSV`), and the two indexes the builder fills |
| `Weeks` | `weeks.dfy` | `startOfWeekMonday`, `endOfWeekSunday`, and the window loops of `getWeeksForMonth` and `getWeeksForYear` |
| `Aggregate` | `aggregate.dfy` | the sums, breakdowns, top picks, averages and year coverage that the render functions compute, as loops proved against specification functions |
| `Planning` | `planner.dfy` | the mutable state, as a class `Planner` |

**Calendar.** A `Date` is reduced to its day number since 1 January 1970, the
ECMA-262 `Day(t)`:

- `new Date(y, m, d)` follows ECMA-262 `MakeDay`, including `MakeFullYear`, so a year from 0 to 99 means 19xx.
- `getFullYear`, `getMonth`, `getDate` and `getDay` are computed from the day number.
- Reading a date back from its day number is proved to give the same date.

**Planner state.** The class `Planner` holds `allDays`, `dayByISO`,
`monthWeeks`, `currentMonth` and `currentWeekIndex`. Its methods are:

- `buildFromTSV`, as `Rebuild`;
- the window part of `render`, as `Render`;
- the four navigation buttons;
- the figures of `renderWeekBars`, `renderTotals`, `renderKPIs` and `renderYearKPIs`.

**Beyond the engine.** The bar heights of `renderWeekBars` (Aggregate.BarScale,
Aggregate.BarHeight, Aggregate.BarHeightsInRange and the heights that
Planning.Planner.WeekBars returns) are display arithmetic. They are modelled
because they are a small, checkable step from the window totals, not because
the engine needs them.

**Hours.** Hours are exact `real` numbers, minutes divided by 60, so the
six-hour lunch boundary is exact. Sums are proved equal to specification
functions (`Total`, `Breakdown`) over the record sequence.

## Model

| member | source | states |
|---|---|---|
| Text.Trim | app.js:139-140 | `trim()`: the result neither starts nor ends with white space, and the input is white space, then the result, then white space |
| Text.TrimOfTrimmed | app.js:145 | text with no white space at either end is its own `trim()` |
| Text.ToLower | app.js:157 | `toLowerCase()` keeps the length and lower-cases each character on its own |
| Text.RemoveSpaces | app.js:160 | `replace(/\s+/g, "")` leaves no white space and never lengthens the text; text without white space is unchanged; a single character is dropped exactly when it is white space |
| Text.RemoveSpacesAppend | app.js:160 | removal works piece by piece: `RemoveSpaces(a + b)` is `RemoveSpaces(a) + RemoveSpaces(b)`, so every other character is kept, in order |
| Text.Split | app.js:138 | `split(sep)` gives at least one piece, and no piece contains the separator |
| Text.SplitJoin | app.js:138 | joining the pieces of `split(sep)` with `sep` gives the text back |
| Text.JoinSplit | app.js:140 | splitting pieces without the separator, once joined, gives those pieces back |
| Text.NatToString | app.js:58 | `String(n)` is decimal digits: one digit exactly below 10, two exactly from 10 to 99 |
| Text.IntToString | app.js:61 | `String(n)` of an integer is never empty |
| Text.DigitsOfNat | app.js:58 | the digits `String(n)` prints have the value `n` |
| Text.NumberOfDigits | app.js:148-150 | `Number()` reads a string of digits as its value |
| Text.NumberOfNegated | app.js:148-150 | `Number()` reads a minus sign and digits as the negated value |
| Text.NumberOfString | app.js:148-150 | `Number(String(n)) == n` for every integer |
| Text.JsNumber | app.js:148-150 | `Number()` of blank text is 0; text it reads as a number has only digits after its first character (a sign or a digit) and ends in a digit |
| Text.Pad2 | app.js:58 | `pad2(n)` has at least two characters, and for `0 <= n < 100` it is exactly the tens digit and the units digit |
| Text.Pad2Digits | app.js:58 | `pad2(n)` for `0 <= n < 100` is all digits with value `n` |
| Text.NumberOfPad2 | app.js:58 | `Number(pad2(n)) == n`: a leading zero does not change the number read back |
| Calendar.DaysInYear | app.js:703-704 | a year has 365 days, or 366 exactly in a leap year |
| Calendar.DaysInMonth | app.js:99 | a month has 28 to 31 days |
| Calendar.DaysBeforeMonth | app.js:152 | never negative; no days precede January; all the year's days precede "month 12" |
| Calendar.DaysBeforeMonthStep | app.js:152 | the days before month `m + 1` are the days before `m` plus the length of `m` |
| Calendar.DayFromYearStep | app.js:703-704 | consecutive new-year day numbers are one year length apart |
| Calendar.MakeDayInYear | app.js:152 | `MakeDay(y, m, d)` for a month of the year is new-year day, plus the days before the month, plus `d - 1` |
| Calendar.YearSearch | app.js:61 | `getFullYear()`: the year whose range of day numbers holds the day |
| Calendar.MonthSearch | app.js:61 | `getMonth()`: the month of the year whose range holds the day |
| Calendar.CivilFromDay | app.js:61 | the calendar date of a day number is a real date that `MakeDay` maps back to that day |
| Calendar.MakeDayInjective | app.js:152 | two real dates with the same day number are the same date |
| Calendar.CivilRoundTrip | app.js:60-62 | reading a real date back from its day number gives that date |
| Calendar.Date.FullYear | app.js:61 | `getFullYear()` is the year whose new-year day is on or before the day and whose next new-year day is after it |
| Calendar.Date.Month | app.js:61 | `getMonth()` is a month 0..11 of that year, the one whose days hold the day |
| Calendar.Date.DateOfMonth | app.js:61 | `getDate()` is 1 to the length of that month, and the day is new-year day plus the days before the month plus `getDate() - 1` |
| Calendar.Date.WeekDay | app.js:84 | `getDay()` is a weekday index from 0 to 6 |
| Calendar.WeekDayAfter | app.js:84 | `n` days later the weekday has moved on by `n`, mod 7 |
| Calendar.WeekDayWeekLater | app.js:84 | a week later it is the same weekday, on both counts |
| Calendar.EpochIsThursday | app.js:84 | `new Date(1970, 0, 1)` is day 0, a Thursday: `getDay()` 4 and Monday index 3 |
| Calendar.Date.MondayIndex | app.js:84 | `(getDay() + 6) % 7` is a weekday index from 0 to 6, one behind `getDay()` mod 7, and 0 (Monday) exactly when `getDay()` is 1 |
| Calendar.NewDateTwoDigitYear | app.js:152 | `new Date(y, m, d)` with `0 <= y <= 99` is the date of year `1900 + y` |
| Calendar.NewDateOfValid | app.js:152 | `new Date(y, m, d)` of a real month and day reports the year `MakeFullYear` makes of `y`, and that month and day |
| Calendar.NewDateOfOwnCivil | app.js:152 | a date given back to the constructor as its own year, month and day is itself |
| Calendar.NewDateRollsOver | app.js:152 | day 31 of February rolls over to 3 March, or to 2 March in a leap year |
| Calendar.MonthEnds | app.js:98-99 | day 1 of month `m` and day 0 of month `m + 1` are the ends of one month of the year `m` rolls into, as many days apart as it is long |
| Calendar.MonthSpan | app.js:98-99 | `new Date(y, m, 1)` and `new Date(y, m + 1, 0)` are the first and last days of one month, 28 to 31 days apart inclusive |
| Calendar.YearSpan | app.js:117-118 | `new Date(y, 0, 1)` and `new Date(y, 11, 31)` are new-year day and the day before the next new-year day |
| Calendar.InYear | app.js:269 | for a year outside 0..99, `getFullYear() == y` exactly when the date lies between 1 January and 31 December of `y` |
| Calendar.InOwnMonth | app.js:288 | a date lies between the first and the last day of its own month |
| TimeParse.ParseDMY | app.js:143-144 | the empty text is no date |
| TimeParse.SplitDMY | app.js:146 | `d/m/y` with slash-free fields splits into exactly those three fields |
| TimeParse.ParseDMYFields | app.js:145-151 | `d/m/y` with no white space around it is judged on `Number()` of its three fields |
| TimeParse.ParseDMYDigits | app.js:146-152 | digit fields are read as their values and passed to the zero check and to `new Date(y, m - 1, d)` |
| TimeParse.ParseDMYOfNats | app.js:146-152 | the printed numbers `d/m/y` are read as those numbers |
| TimeParse.FieldsOfNonZero | app.js:151-152 | three non-zero numbers give `new Date(y, m - 1, d)` |
| TimeParse.ParseDMYRejectsZeroDay | app.js:151 | a day of 0 is rejected, not rolled back into the previous month |
| TimeParse.ParseDMYNoSlash | app.js:147 | text without a slash has fewer than three fields and is no date |
| TimeParse.ParseDMYTwoDigitYear | app.js:152 | a two-digit year is read as 19xx: `1/1/26` is 1 January 1926 |
| TimeParse.ParseDMYRollsOver | app.js:152 | `31/2/y` is 3 March of `y` (2 March in a leap year) |
| TimeParse.FmtDMY | app.js:73-75 | `fmtDMY` is the two-digit day, a slash, the two-digit month 01..12, a slash and the year; `app.js` defines it but never calls it |
| TimeParse.ParseFmtDMY | app.js:143-153 | `parseDMY(fmtDMY(date)) == date` for every date whose year is outside 0..99 (a round trip through a formatter the app defines but does not call) |
| TimeParse.JsRem | app.js:181 | JavaScript's `%` agrees with the mathematical remainder on non-negative numbers; on a negative dividend it is zero or negative and differs from the dividend by a multiple of the divisor; it is less than the divisor in size |
| TimeParse.MinToHHMM | app.js:179-183 | for `0 <= min < 6000` the text is five characters: two digits, a colon, two digits |
| TimeParse.MinToHHMMPads | app.js:179-183 | for a minute of the day, `minToHHMM` pads its hour and minute, and these make up that minute again |
| TimeParse.RemoveAmPm | app.js:164 | removing `am`/`pm` never lengthens the text |
| TimeParse.RemoveAmPmSuffix | app.js:164 | a trailing marker after text without `a` or `p` is removed and nothing else is |
| TimeParse.ClockMinutes | app.js:173-176 | without a marker the minute is `h * 60 + m`; with exactly one marker and `1 <= h <= 12` it is the 12-hour-clock minute |
| TimeParse.ParseTime | app.js:155-156 | the empty text and `-` are "no time" |
| TimeParse.ParseTimeOfPlain | app.js:157-160 | text of digits, colons and small letters reaches the reader unchanged |
| TimeParse.ParseCleanedPlain | app.js:161-165 | without a marker, the pieces are read on the 24-hour clock |
| TimeParse.ParseCleanedMarker | app.js:161-165 | a trailing `am` or `pm` is noted and removed before the pieces are read |
| TimeParse.ReadClockDigits | app.js:166-176 | two pieces of digits are read as the hour and the minute |
| TimeParse.ReadClockHour | app.js:169 | a lone piece is the hour, with minute 0 |
| TimeParse.ReadClockRejects | app.js:171 | an hour that `Number()` cannot read makes the time "no time" |
| TimeParse.NumberOfWord | app.js:168 | a text starting with neither a sign nor a digit is `NaN` |
| TimeParse.ParseTimeOfDigits | app.js:155-177 | `hh:mm` in digits is `hh * 60 + mm`, with neither part range-checked |
| TimeParse.ParseTimeOfDigitsMarker | app.js:155-177 | `h:mm` followed by `am` or `pm` goes through the 12-hour adjustment |
| TimeParse.ParseTimeOfPads | app.js:155-177 | padded `hh:mm` is read on the 24-hour clock |
| TimeParse.ParseTimeOfHHMM | app.js:155-183 | `parseTime(minToHHMM(n)) == n` for every minute of the day |
| TimeParse.ParseTimeTwelveHour | app.js:173-174 | `h:mm am/pm` (h from 1 to 12) is the 24-hour minute: `12:mm am` just after midnight, `12:mm pm` just after noon, `1:00 pm` 780 |
| TimeParse.ParseTimeHourOnly | app.js:166-174 | a bare hour with a marker (`7am`, `12pm`) is read on the 12-hour clock with minute 0 |
| TimeParse.ParseTimeRejectsLetters | app.js:168-171 | a word of letters without `a` or `p` is "no time" |
| TimeParse.IsoKeyFields | app.js:60-62 | the key is the year as `String()` prints it, a dash, the two-digit month 01..12, a dash and the two-digit day |
| TimeParse.IsoKeyInjective | app.js:60-62 | different dates have different `toISODateKey` keys |
| TimeParse.SameCivilSameDate | app.js:64-68 | dates with the same year, month and day are the same date |
| Lunch.LunchDeduction | app.js:188-190 | the deduction is 0 or 1, and 1 exactly when the shift is longer than six hours |
| Lunch.EffectiveHours | app.js:191-194 | effective hours are never negative, never above the raw hours, and with the deduction make up the raw hours |
| Lunch.EffectiveHoursPieces | app.js:185-194 | up to six hours everything counts; above six exactly one hour is lost and more than five remain |
| Lunch.LunchBoundary | app.js:188-194 | exactly six hours has no lunch, while 6.5 hours counts as 5.5: the rule is not monotone |
| Weeks.StartOfWeekMonday | app.js:82-88 | the Monday on or before the date, less than a week before it |
| Weeks.EndOfWeekSunday | app.js:89-95 | the Sunday six days after the week's Monday, on or after the date |
| Weeks.InRangeOfWeek | app.js:77-79 | `inRange` with a Monday-to-Sunday window holds exactly when the date's own week starts on that window's Monday |
| Weeks.Window | app.js:104-111 | the `i`-th window starts on the Monday `7 * i` days after the first one and ends on the Sunday six days later |
| Weeks.WindowsUnique | app.js:97-114 | the windows between two days are determined by those days |
| Weeks.MonthLength | app.js:98-99 | the last day of a month is 27 to 30 days after its first |
| Weeks.YearLength | app.js:117-118 | 31 December is 364 or 365 days after 1 January |
| Weeks.YearDays | app.js:703-704 | from 1 January to 31 December of a year past 99 there are as many days as the year has |
| Weeks.GetWeeksForMonth | app.js:97-114 | 4 to 6 consecutive Monday-to-Sunday windows, each overlapping the month, the first holding the 1st and the last holding the month's last day |
| Weeks.OverlappingWeeks | app.js:101-113 | the `while (cursor <= last)` loop with the overlap test, proved by its invariants to give the consecutive windows, all of them overlapping |
| Weeks.GetWeeksForYear | app.js:116-130 | 53 or 54 consecutive windows, each starting on or before 31 December, the first holding 1 January and the last holding 31 December |
| Weeks.AllWeeks | app.js:120-129 | the unfiltered `while (cursor <= last)` loop, proved by its invariants to give 53 or 54 consecutive windows from the week of the first day, each starting on or before the last day |
| DayRecords.RemoveCR | app.js:137 | no carriage return is left, text without one is unchanged, and a single character is dropped exactly when it is a carriage return |
| DayRecords.RemoveCRAppend | app.js:137 | removal works piece by piece: `RemoveCR(a + b)` is `RemoveCR(a) + RemoveCR(b)`, so every other character is kept, in order |
| DayRecords.RemoveCRCrlf | app.js:137 | lines joined by `\r\n` lose their carriage returns and become the lines joined by `\n` |
| DayRecords.NonBlank | app.js:139 | dropping blank lines never adds lines; a single line is kept exactly when its `trim()` is not empty |
| DayRecords.NonBlankAppend | app.js:139 | the filter works piece by piece: `NonBlank(a + b)` is `NonBlank(a) + NonBlank(b)`, so every kept line keeps its order |
| DayRecords.NonBlankKept | app.js:139 | every kept line has something besides white space |
| DayRecords.NonBlankKeepsAll | app.js:139 | no line is dropped when none is blank |
| DayRecords.TrimEmpty | app.js:139 | `trim()` is empty exactly when the text is all white space |
| DayRecords.TrimAll | app.js:140 | each field is trimmed, and the count is kept |
| DayRecords.LineFields | app.js:140 | a line gives at least one field |
| DayRecords.AllLineFields | app.js:140 | one row of fields per line, in order |
| DayRecords.TsvToRows | app.js:135-141 | every row has at least one field |
| DayRecords.PlainRowFields | app.js:140 | a line joined by tabs from plain cells splits back into those cells |
| DayRecords.TsvToRowsOfTsv | app.js:135-141 | `tsvToRows` reads back the text of any table of plain rows |
| DayRecords.TsvToRowsTrailingNewline | app.js:135-141 | it also reads back that text when it ends in a new line |
| DayRecords.TsvToRowsOfCrlf | app.js:135-141 | it also reads back the table written with Windows line ends, with or without a final line end |
| DayRecords.TsvToRowsOfClean | app.js:137 | texts that differ only in carriage returns are read as the same table |
| DayRecords.Field | app.js:268-275 | `r[i]` is the cell when it exists and the empty text otherwise, which every test of the builder treats like `undefined` |
| DayRecords.FindIndex | app.js:244-249 | `findIndex` is the first cell matching one of the keywords, or -1 exactly when none matches |
| DayRecords.ToLowerAll | app.js:236 | the header row is lower-cased cell by cell |
| DayRecords.DetectLayout | app.js:236-260 | without a header: columns 1/2/3/4/5 and data from row 0. With one: each column is the first matching header cell, else its fixed place; one note column serves as both notes; data starts at row 1 |
| DayRecords.RawHours | app.js:277 | `Math.max(0, (end - start) / 60)`: never negative, `(end - start) / 60` for a forward shift, 0 for one that ends before it starts |
| DayRecords.ShiftLabel | app.js:300-302 | for times below 100 hours the label is 13 characters: `minToHHMM` of the start, ` – `, `minToHHMM` of the end |
| DayRecords.ShiftLabelReadsBack | app.js:300-302 | for a shift within one day, both ends of the label read back with `parseTime` as its two times |
| DayRecords.Note | app.js:275 | the note is the trimmed second note cell when it is not empty, else the trimmed first one |
| DayRecords.BuildRecord | app.js:266-305 | a row gives a record exactly when its date parses and falls in `CFG.YEAR`; the record carries that date, both parsed times and the note |
| DayRecords.BuildRecordWellFormed | app.js:268-305 | a built record's fields are those of its date, it has a shift exactly when both times parsed, its hours follow the lunch rule (all zero without a shift), and its label is `HH:MM – HH:MM`, else the note, else `Sin jornada` |
| DayRecords.EightHourShift | app.js:270-302 | a kept row with `08:00` and `16:00` has a shift of 480 to 960 minutes: 8 raw hours, 1 hour of lunch, 7 effective hours, and the label `08:00 – 16:00` |
| DayRecords.WellFormedBounds | app.js:277-281 | a well-formed record has month 0..11, weekday 0..6, day 1..31, and effective plus lunch hours equal to raw hours |
| DayRecords.SameKeySameDate | app.js:282 | two records under the same key are records of the same date |
| DayRecords.Kept | app.js:268-269 | a row contributes no record exactly when it is not accepted, and at most one otherwise |
| DayRecords.Records | app.js:265-309 | `allDays` never has more records than there are rows |
| DayRecords.RecordsStep | app.js:265-309 | reading one more row appends what that row contributes, so `allDays` keeps file order and duplicates |
| DayRecords.RecordsWellFormed | app.js:265-309 | every record the builder keeps is well formed and dated in `CFG.YEAR` |
| DayRecords.RecordsBounded | app.js:265-309 | every record the builder keeps has its fields in range |
| DayRecords.WellFormedInItsMonth | app.js:288 | a record's month field is the month its date falls in |
| DayRecords.IndexOf | app.js:308 | every entry of `dayByISO` sits under its own record's key |
| DayRecords.IndexOfSnoc | app.js:308 | `dayByISO.set(iso, rec)` overrides any earlier record of that date |
| DayRecords.IndexOfKeys | app.js:308 | `dayByISO` holds a key exactly when some record in `allDays` has it |
| DayRecords.IndexOfKeyed | app.js:282 | every record in `dayByISO` is filed under its own date's key and dated in `CFG.YEAR` |
| DayRecords.IndexOfLatest | app.js:308 | for a date that appears more than once, `dayByISO` holds the record of the last row |
| Aggregate.Select | app.js:551-552 | `filter` never lengthens the list |
| Aggregate.SelectMembers | app.js:551-552 | the records `filter` keeps are exactly the records of the list the filter holds for |
| Aggregate.SelectSelect | app.js:551-552 | filtering by month and then by shift is filtering once by both |
| Aggregate.TotalOfSelect | app.js:551-558 | summing over a filtered list is summing over the records both filters select |
| Aggregate.SelectThenTotal | app.js:716-720 | the sums of `jornadaYear.reduce(...)` are totals of the records that the year-and-shift filter selects |
| Aggregate.CountOfSelect | app.js:611-612 | the length of a filtered list is the number of records the filter selects |
| Aggregate.TotalNonNegative | app.js:617 | no total of hours is negative |
| Aggregate.RawIsEffectivePlusLunch | app.js:613-617 | for any selection, raw hours are effective hours plus lunch hours |
| Aggregate.LunchHoursAreLunchDays | app.js:611-613 | the lunch hours of a selection are its number of lunch days, and only lunch days carry lunch hours |
| Aggregate.LunchList | app.js:611-613 | the lunch-day list totals one hour per day, and holds all the lunch hours |
| Aggregate.ShiftDaysCarryTheHours | app.js:716 | only days with a shift carry hours, so selecting them first changes no total |
| Aggregate.Breakdown | app.js:555-558 | one slot per weekday (7) or per month (12) |
| Aggregate.BreakdownOfSelect | app.js:725-728 | breaking down a filtered list is breaking down the records the filter selects |
| Aggregate.BreakdownSnoc | app.js:557 | one more selected record adds its hours to its own slot and nowhere else |
| Aggregate.BreakdownSums | app.js:555-558 | the slots of a breakdown add up to the total it breaks down |
| Aggregate.GroupTotals | app.js:555-558 | the `totals[d.weekday] += d.hours` loop computes the breakdown of the selected records |
| Aggregate.SelectedGroupTotals | app.js:722-728 | filtering, then grouping, gives the breakdown of the filter, whose slots add up to the filter's total |
| Aggregate.WindowTotal | app.js:562-567 | the `sum += d.hours` loop over `allDays` is the effective total of the records the filter selects inside the window |
| Aggregate.WeekTotals | app.js:561-568 | `monthWeeks.map(...)`: one total per window, each the effective hours of the records the filter selects inside it |
| Aggregate.SelectedWeekTotals | app.js:749-755 | the window totals over the filtered `jornadaYear` equal the totals of the combined filter |
| Aggregate.ShiftHours | app.js:608-617 | the selected days, their effective, raw and lunch hours (raw = effective + lunch, effective not negative), and the lunch days, one lunch hour each |
| Aggregate.WindowTotalsSum | app.js:570 | the window totals of consecutive windows add up to the total over the span they cover |
| Aggregate.TopIndex | app.js:635-638 | a strict-`>` scan from index 0: an index holding the largest value, no earlier index holds as much, and 0 for an empty list |
| Aggregate.TopDay | app.js:620-623 | no day exactly when the list is empty; otherwise the first day with the most hours |
| Aggregate.WeekAverage | app.js:641-643 | the sum of the window totals over their number, 0 when there are none |
| Aggregate.MonthAverage | app.js:730 | always the year's sum divided by 12, whichever months have data |
| Aggregate.YearCoverage | app.js:703-714 | worked and idle dates together are the days of the year, and the worked ones are the dates whose key holds a shift |
| Aggregate.WalkDays | app.js:709-714 | the day-by-day walk counts every day once, as worked or idle, and counts the worked ones exactly |
| Aggregate.VisitDay | app.js:710-713 | one step of the walk counts the day as worked exactly when its key holds a record with a shift |
| Aggregate.WorkedDaysAreShiftKeys | app.js:709-714 | in an index of one year's records under their own keys, the worked dates are as many as the keys holding a shift |
| Aggregate.BarScale | app.js:522 | `Math.max(...totals, 1)` is at least 1, no total exceeds it, and it is 1 or one of the totals |
| Aggregate.BarHeightsInRange | app.js:537 | no bar of a non-negative total is below 0% or above 100% |
| Planning.Clamp | app.js:51 | `clamp(n, a, b)` lies in `[a, b]`, is `n` when `n` is already there, `a` below it and `b` above it |
| Planning.WindowsCover | app.js:97-114 | the month's windows are consecutive and together cover its first and last days |
| Planning.MonthShiftInSpan | app.js:561-568 | a shift day of the month lies inside every span covering the month |
| Planning.MonthTotalCoversMonth | app.js:561-570 | "Total mes", the sum of the window totals, is never below the month's own effective hours |
| Planning.LoadRecords | app.js:262-309 | the loop of `buildFromTSV` yields `allDays` as the records of the rows in file order and `dayByISO` as their index |
| Planning.LoadRow | app.js:266-308 | one iteration appends the row's record, if any, and sets it under its key |
| Planning.YearTotals | app.js:716-745 | effective, raw and lunch hours of the year's shift days; month and weekday breakdowns; the 12-month average; the first busiest month and the first busiest weekday (ties go to the earlier one) |
| Planning.MonthTotals | app.js:606-652 | the month's shift days with their effective, raw and lunch hours; the first day with the most hours (none exactly when there are no shift days); window totals, the first busiest window and the average; weekday totals adding up to the month's hours, and the first busiest weekday |
| Planning.WindowFigures | app.js:749-760 | the year's window totals and the first busiest window |
| Planning.Planner.constructor | app.js:40-44 | the initial state: no records, January, first window |
| Planning.Planner.Rebuild | app.js:231-310 | no rows leaves both indexes untouched; otherwise `allDays` becomes the records of the rows after the detected header, and both indexes stay consistent |
| Planning.Planner.LoadRows | app.js:260-309 | both indexes are replaced by those built from the data rows; the view state is unchanged |
| Planning.Planner.Render | app.js:333-334 | the current month's windows are put on screen and the selected window is clamped into them |
| Planning.Planner.PrevMonth | app.js:839-843 | the month before (December before January), its first window |
| Planning.Planner.NextMonth | app.js:845-849 | the month after (January after December), its first window |
| Planning.Planner.PrevWeek | app.js:851-854 | the selected window, clamped into the month's windows; once the month is on screen, one window back, stopping at the first, with the windows unchanged |
| Planning.Planner.NextWeek | app.js:856-859 | once the month is on screen, one window on, stopping at the last, with the windows unchanged; with no windows yet, the `-1` the button sets is clamped back to 0 |
| Planning.Planner.WeekBars | app.js:498-540 | nothing when the month has no windows; otherwise the selected window's effective hours by weekday, adding up to the window total, with bar heights from 0% to 100% |
| Planning.Planner.Totals | app.js:547-570 | hours of the month's shift days by weekday, adding up to the month's hours; the total of each window; "Total mes" as their sum, never below the month's hours |
| Planning.Planner.MonthFigures | app.js:606-652 | the figures of `MonthTotals` over the current month's shift days and windows: first day with the most hours, first busiest window and first busiest weekday |
| Planning.Planner.WorkedDays | app.js:703-714 | worked plus idle days are the days of `CFG.YEAR`, and the worked days are as many as the keys of `dayByISO` holding a shift |
| Planning.Planner.YearFigures | app.js:698-745 | the worked/idle split together with all the hour figures of `YearTotals` over the year's shift days, including the first busiest month and weekday |
| Planning.Planner.YearWindows | app.js:747-760 | the windows of `CFG.YEAR`, the effective hours of the year's shift days inside each, and the first busiest window |

## Left out

- Everything that touches the page is not modelled: the calendar grid and list views, `renderLunchDaysList`, `safeSetText`, labels, `toFixed(1)` formatting, and `getLayoutMode`. The model returns the numbers these display.
- `cacheWrite`, `cacheRead`, `fetchTSV`, `start`, `rafThrottle` and the resize handler are not modelled. They are storage, network, timer and event plumbing.
- `initMonth` is not modelled because it reads the clock. The constructor gives the state before it runs.
- The navigation buttons are modelled as methods. The event wiring of `wireNav` is not.
- `Date` times of day, time zones, daylight saving and the `setHours(23,59,59,999)` end of a window are left out. A date is a whole day, a window runs from its Monday to its Sunday inclusive, and `inRange` compares day numbers. This agrees with the source for dates built at local midnight, which every record date is.
- Hours are exact reals, not floating-point numbers, so sums never round.
- Day numbers are unbounded. A JavaScript `Date` is invalid beyond 8.64e15 ms (100,000,000 days) either side of 1970; the model has no such limit, and every date the planner builds is far inside it.
- Text.JsNumber: `Number()` is modelled for optionally signed decimal integers only. Decimals, exponents, hexadecimal and `Infinity` read as `NaN` here, while JavaScript reads them as numbers.
- Text.ToLower: only ASCII and Latin-1 capitals are lower-cased. That covers every header keyword, but not `toLowerCase()` on the rest of Unicode.
- DayRecords.TsvToRows: the input is a string. The `String(tsv || "")` coercion of `null` or `undefined` is not modelled.
- TimeParse.ParseTime: its own contract covers only the "no time" cases. The lemmas characterise times written with digits, a colon and an optional marker. Other text is modelled by the definition, but no lemma describes it.
- TimeParse.ParseDMY: its own contract covers only the empty text. The lemmas characterise digit fields, zero fields, missing slashes, two-digit years and rollover.
- Planning.YearTotals: the month totals of effective and raw hours are computed in two passes, where the source uses one loop. The totals are the same.
- Aggregate.GroupTotals: the per-slot totals are a sequence that the loop reassigns, not a JavaScript array updated in place.
- DayRecords.DetectLayout: header detection follows the code. Only `fecha`, `día`, `inicio` and `fin` make row 0 a header. The entry, exit and note keywords of lines 247-249 only choose columns. A header row that names only them is read as data.
- Planning.Planner.LoadRows: the load loop builds both indexes as local values and stores them in the fields when it ends. The source pushes into the fields on each row; the final state is the same.
