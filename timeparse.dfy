/**
  The time parser: `D/M/YYYY` dates, `HH:MM[am|pm]` times of day, and the
  formatters that print them back (`pad2`, `toISODateKey`, `fmtDMY`,
  `minToHHMM`).
 */
module TimeParse {
  import opened Wrappers
  import opened Text
  import opened Calendar

  /** `!x` is false for a number only when it is neither `NaN` nor zero. */
  predicate Truthy(n: Option<int>) {
    n.Some? && n.value != 0
  }

  /**
    `parseDMY(str)`: the empty text and text with fewer than two slashes are
    rejected, so is any day, month or year that reads as `NaN` or as 0;
    otherwise the date is built by `new Date(y, m - 1, d)`, which rolls an
    out-of-range day or month over and reads a year from 0 to 99 as 19xx.
   */
  function ParseDMY(str: string): (r: Option<Date>)
    ensures str == [] ==> r == None
  {
    if str == [] then None else ReadDMY(Split(Trim(str), '/'))
  }

  /** `parseDMY` after splitting the trimmed text at its slashes. */
  function ReadDMY(parts: seq<string>): Option<Date> {
    if |parts| < 3 then None
    else DateOfFields(JsNumber(parts[0]), JsNumber(parts[1]), JsNumber(parts[2]))
  }

  /** The date of the three numbers read, or none when one of them is `NaN` or 0. */
  function DateOfFields(d: Option<int>, m: Option<int>, y: Option<int>): Option<Date> {
    if !Truthy(d) || !Truthy(m) || !Truthy(y) then None
    else Some(NewDate(y.value, m.value - 1, d.value))
  }

  /** `toISODateKey(date)`: `YYYY-MM-DD`, the key of the by-date index. */
  function IsoKey(date: Date): string {
    IntToString(date.FullYear()) + "-" + Pad2(date.Month() + 1) + "-" + Pad2(date.DateOfMonth())
  }

  /**
    The key is the year as `String()` prints it, then a dash, the month
    01..12, a dash and the day, the last two in exactly two digits.
   */
  lemma IsoKeyFields(date: Date)
    ensures var k := IsoKey(date);
      && |k| >= 7 && k[|k| - 6] == '-' && k[|k| - 3] == '-'
      && k[..|k| - 6] == IntToString(date.FullYear())
      && k[|k| - 5..|k| - 3] == Pad2(date.Month() + 1) && k[|k| - 2..] == Pad2(date.DateOfMonth())
  {
    FieldsFromEnd(IntToString(date.FullYear()), Pad2(date.Month() + 1), Pad2(date.DateOfMonth()), '-');
  }

  /** Three fields joined by `sep`, the last two of two characters each, are found again counting from the end. */
  lemma FieldsFromEnd(first: string, second: string, third: string, sep: char)
    requires |second| == 2 && |third| == 2
    ensures var r := first + [sep] + second + [sep] + third;
      && |r| == |first| + 6 && r[|r| - 6] == sep && r[|r| - 3] == sep
      && r[..|r| - 6] == first && r[|r| - 5..|r| - 3] == second && r[|r| - 2..] == third
  {
  }

  /** Three fields joined by `sep`, the first two of two characters each, are found again counting from the start. */
  lemma FieldsFromStart(first: string, second: string, third: string, sep: char)
    requires |first| == 2 && |second| == 2
    ensures var r := first + [sep] + second + [sep] + third;
      && |r| == |third| + 6 && r[2] == sep && r[5] == sep
      && r[..2] == first && r[3..5] == second && r[6..] == third
  {
  }

  /** `fmtDMY(date)`: `DD/MM/YYYY`, the day and the month 01..12 in exactly two digits, then the year. */
  function FmtDMY(date: Date): (s: string)
    ensures |s| >= 7 && s[2] == '/' && s[5] == '/'
    ensures s[..2] == Pad2(date.DateOfMonth()) && s[3..5] == Pad2(date.Month() + 1)
    ensures s[6..] == IntToString(date.FullYear())
  {
    var day, month, year := Pad2(date.DateOfMonth()), Pad2(date.Month() + 1), IntToString(date.FullYear());
    FieldsFromStart(day, month, year, '/');
    day + "/" + month + "/" + year
  }

  /** JavaScript's `%`: the remainder takes the sign of the dividend. */
  function JsRem(a: int, b: int): (r: int)
    requires b > 0
    ensures a >= 0 ==> r == a % b
    ensures a < 0 ==> r <= 0 && (a - r) % b == 0
    ensures -b < r < b
  {
    if a >= 0 then a % b
    else
      var q := (-a) / b;
      assert a - -((-a) % b) == (-q) * b;
      MultipleModZero(-q, b);
      -((-a) % b)
  }

  /** A whole multiple of `b` leaves no remainder. */
  lemma MultipleModZero(q: int, b: int)
    requires b > 0
    ensures (q * b) % b == 0
  {
    var k := q - (q * b) / b;
    assert (q * b) % b == k * b;
    if k > 0 {
      assert k * b == (k - 1) * b + b;
    } else if k < 0 {
      assert k * b == (k + 1) * b - b;
    }
  }

  /** `minToHHMM(min)`: hours `Math.floor(min / 60)` and minutes `min % 60`, each padded to two digits. */
  function MinToHHMM(min: int): (r: string)
    ensures 0 <= min < 6000 ==> |r| == 5 && r[2] == ':'
    ensures 0 <= min < 6000 ==> forall i :: 0 <= i < 5 && i != 2 ==> IsDigit(r[i])
  {
    Pad2(min / 60) + ":" + Pad2(JsRem(min, 60))
  }

  /**
    `cleaned.replace(/am|pm/g, "")`: scanning left to right, every `am` or
    `pm` found is dropped and the scan resumes after it.
   */
  function RemoveAmPm(s: string): (r: string)
    ensures |r| <= |s|
  {
    if |s| >= 2 && (s[..2] == "am" || s[..2] == "pm") then RemoveAmPm(s[2..])
    else if s == [] then []
    else [s[0]] + RemoveAmPm(s[1..])
  }

  /** The minute of the day of `h:m am` or `h:m pm` on the 12-hour clock. */
  function TwelveHourMinutes(h: int, m: int, isPM: bool): int {
    (h % 12 + (if isPM then 12 else 0)) * 60 + m
  }

  /**
    The hour adjustment of `parseTime`: `pm` adds 12 hours unless the hour is
    12, and then an hour of 12 with `am` becomes 0.  For an hour from 1 to 12
    with just one marker this is the 12-hour clock.
   */
  function ClockMinutes(h: int, m: int, isPM: bool, isAM: bool): (r: int)
    ensures !isPM && !isAM ==> r == h * 60 + m
    ensures 1 <= h <= 12 && isPM != isAM ==> r == TwelveHourMinutes(h, m, isPM)
  {
    var h1 := if isPM && h != 12 then h + 12 else h;
    var h2 := if isAM && h1 == 12 then 0 else h1;
    h2 * 60 + m
  }

  /**
    `parseTime(str)`: the empty text and `-` are "no time"; otherwise the
    text is lower-cased and stripped of white space, an `am`/`pm` marker is
    noted and removed, and `h[:m]` is read (the minute defaults to 0).
    Neither the hour nor the minute is range-checked.
   */
  function ParseTime(str: string): (r: Option<int>)
    ensures str == [] || str == "-" ==> r == None
  {
    if str == [] || str == "-" then None
    else ParseCleaned(RemoveSpaces(Trim(ToLower(str))))
  }

  /** `parseTime` after lower-casing and removing white space. */
  function ParseCleaned(cleaned: string): Option<int> {
    ReadClock(Split(RemoveAmPm(cleaned), ':'), Contains(cleaned, "pm"), Contains(cleaned, "am"))
  }

  /** Reads the hour and the optional minute from the pieces of `h:m`. */
  function ReadClock(parts: seq<string>, isPM: bool, isAM: bool): Option<int>
    requires |parts| >= 1
  {
    if parts[0] == [] then None
    else
      var h := JsNumber(parts[0]);
      var m := if |parts| > 1 && parts[1] != [] then JsNumber(parts[1]) else Some(0);
      if h.None? || m.None? then None
      else Some(ClockMinutes(h.value, m.value, isPM, isAM))
  }

  // ----- lemmas about the time parser -----

  /** Characters of a time written with digits, colons and small letters only. */
  predicate PlainTimeChar(c: char) {
    IsDigit(c) || c == ':' || ('a' <= c <= 'z')
  }

  lemma ToLowerOfPlain(s: string)
    requires forall i :: 0 <= i < |s| ==> PlainTimeChar(s[i])
    ensures ToLower(s) == s
  {
  }

  lemma {:induction false} NotContains(s: string, t: string)
    requires |t| >= 1 && forall i :: 0 <= i < |s| ==> s[i] != t[0]
    ensures !Contains(s, t)
  {
    if |t| <= |s| {
      assert s[..|t|][0] == s[0];
      NotContains(s[1..], t);
    }
  }

  lemma {:induction false} ContainsSuffix(s: string, t: string)
    ensures Contains(s + t, t)
  {
    if s == [] {
      assert (s + t)[..|t|] == t;
    } else {
      ContainsSuffix(s[1..], t);
      assert (s + t)[1..] == s[1..] + t;
    }
  }

  /** Text with neither an `a` nor a `p` has no marker to remove. */
  lemma {:induction false} RemoveAmPmNone(s: string)
    requires forall i :: 0 <= i < |s| ==> s[i] != 'a' && s[i] != 'p'
    ensures RemoveAmPm(s) == s
  {
    if s != [] {
      assert |s| >= 2 ==> s[..2][0] == s[0];
      RemoveAmPmNone(s[1..]);
      assert [s[0]] + s[1..] == s;
    }
  }

  /** A trailing marker after text with neither `a` nor `p` is removed and nothing else. */
  lemma {:induction false} RemoveAmPmSuffix(s: string, marker: string)
    requires marker == "am" || marker == "pm"
    requires forall i :: 0 <= i < |s| ==> s[i] != 'a' && s[i] != 'p'
    ensures RemoveAmPm(s + marker) == s
  {
    if s == [] {
      assert (s + marker)[..2] == marker && (s + marker)[2..] == [];
    } else {
      assert (s + marker)[..2][0] == s[0];
      assert (s + marker)[1..] == s[1..] + marker;
      RemoveAmPmSuffix(s[1..], marker);
      assert [s[0]] + s[1..] == s;
    }
  }

  /** Characters of a clock reading before its marker: digits and colons. */
  predicate ClockText(s: string) {
    forall i :: 0 <= i < |s| ==> IsDigit(s[i]) || s[i] == ':'
  }

  /** Without a marker, the pieces of the text are read on the 24-hour clock. */
  lemma ParseCleanedPlain(s: string)
    requires ClockText(s)
    ensures ParseCleaned(s) == ReadClock(Split(s, ':'), false, false)
  {
    assert forall i :: 0 <= i < |s| ==> s[i] != 'a' && s[i] != 'p';
    NotContains(s, "pm");
    NotContains(s, "am");
    RemoveAmPmNone(s);
  }

  /** A trailing `am` or `pm` is removed and noted. */
  lemma ParseCleanedMarker(s: string, marker: string)
    requires ClockText(s)
    requires marker == "am" || marker == "pm"
    ensures ParseCleaned(s + marker) == ReadClock(Split(s, ':'), marker == "pm", marker == "am")
  {
    assert forall i :: 0 <= i < |s| ==> s[i] != 'a' && s[i] != 'p';
    var cleaned := s + marker;
    RemoveAmPmSuffix(s, marker);
    ContainsSuffix(s, marker);
    if marker == "pm" {
      assert forall i :: 0 <= i < |cleaned| ==> cleaned[i] != 'a';
      NotContains(cleaned, "am");
    } else {
      assert forall i :: 0 <= i < |cleaned| ==> cleaned[i] != 'p';
      NotContains(cleaned, "pm");
    }
  }

  /** Two pieces of digits are read as the hour and the minute. */
  lemma ReadClockDigits(hs: string, ms: string, isPM: bool, isAM: bool)
    requires |hs| >= 1 && AllDigits(hs) && |ms| >= 1 && AllDigits(ms)
    ensures ReadClock([hs, ms], isPM, isAM) == Some(ClockMinutes(DigitsValue(hs), DigitsValue(ms), isPM, isAM))
  {
    NumberOfDigits(hs);
    NumberOfDigits(ms);
  }

  /** A lone piece of digits is the hour, and the minute is 0. */
  lemma ReadClockHour(hs: string, isPM: bool, isAM: bool)
    requires |hs| >= 1 && AllDigits(hs)
    ensures ReadClock([hs], isPM, isAM) == Some(ClockMinutes(DigitsValue(hs), 0, isPM, isAM))
  {
    NumberOfDigits(hs);
  }

  /** `hh:mm` is split into its hour and its minute. */
  lemma SplitClock(hs: string, ms: string)
    requires AllDigits(hs) && AllDigits(ms)
    ensures Split(hs + ":" + ms, ':') == [hs, ms]
  {
    assert Join([hs, ms], ':') == hs + ":" + ms;
    JoinSplit([hs, ms], ':');
  }

  /** Digits, colons and small letters are not white space. */
  lemma PlainHasNoSpace(s: string)
    requires forall i :: 0 <= i < |s| ==> PlainTimeChar(s[i])
    ensures forall i :: 0 <= i < |s| ==> !IsSpace(s[i])
  {
  }

  /** Text of digits, colons and small letters goes to the reader unchanged. */
  lemma ParseTimeOfPlain(s: string)
    requires |s| >= 1 && s != "-" && forall i :: 0 <= i < |s| ==> PlainTimeChar(s[i])
    ensures ParseTime(s) == ParseCleaned(s)
  {
    ToLowerOfPlain(s);
    PlainHasNoSpace(s);
    TrimOfTrimmed(s);
  }

  /** `hh:mm` in digits is read on the 24-hour clock. */
  lemma ParseTimeOfDigits(hs: string, ms: string)
    requires |hs| >= 1 && AllDigits(hs) && |ms| >= 1 && AllDigits(ms)
    ensures ParseTime(hs + ":" + ms) == Some(ClockMinutes(DigitsValue(hs), DigitsValue(ms), false, false))
  {
    var s := hs + ":" + ms;
    assert ClockText(s);
    ParseTimeOfPlain(s);
    ParseCleanedPlain(s);
    SplitClock(hs, ms);
    ReadClockDigits(hs, ms, false, false);
  }

  /** `h:mm` in digits followed by a marker is read on the 12-hour clock. */
  lemma ParseTimeOfDigitsMarker(hs: string, ms: string, marker: string)
    requires |hs| >= 1 && AllDigits(hs) && |ms| >= 1 && AllDigits(ms)
    requires marker == "am" || marker == "pm"
    ensures ParseTime(hs + ":" + ms + marker)
      == Some(ClockMinutes(DigitsValue(hs), DigitsValue(ms), marker == "pm", marker == "am"))
  {
    var s := hs + ":" + ms;
    assert ClockText(s);
    ParseTimeOfPlain(s + marker);
    ParseCleanedMarker(s, marker);
    SplitClock(hs, ms);
    ReadClockDigits(hs, ms, marker == "pm", marker == "am");
  }

  /** Every minute of the day printed by `minToHHMM` is read back by `parseTime`. */
  lemma ParseTimeOfHHMM(n: int)
    requires 0 <= n < 1440
    ensures ParseTime(MinToHHMM(n)) == Some(n)
  {
    MinToHHMMPads(n);
    ParseTimeOfPads(n / 60, n % 60);
  }

  /** For a minute of the day, `minToHHMM` pads the hour and the minute, which make up that minute again. */
  lemma MinToHHMMPads(n: int)
    requires 0 <= n < 1440
    ensures MinToHHMM(n) == Pad2(n / 60) + ":" + Pad2(n % 60)
    ensures ClockMinutes(n / 60, n % 60, false, false) == n
  {
  }

  /** Two-digit hours and minutes `hh:mm` are read on the 24-hour clock. */
  lemma ParseTimeOfPads(h: int, m: int)
    requires 0 <= h < 100 && 0 <= m < 100
    ensures ParseTime(Pad2(h) + ":" + Pad2(m)) == Some(ClockMinutes(h, m, false, false))
  {
    Pad2Digits(h);
    Pad2Digits(m);
    ParseTimeOfDigits(Pad2(h), Pad2(m));
  }

  /** `h:mm` with a marker, for an hour of one or two digits, reaches the hour adjustment. */
  lemma ParseTimeOfClockMarker(h: int, m: int, isPM: bool)
    requires 1 <= h <= 12 && 0 <= m < 60
    ensures ParseTime(IntToString(h) + ":" + Pad2(m) + (if isPM then "pm" else "am"))
      == Some(ClockMinutes(h, m, isPM, !isPM))
  {
    var marker := if isPM then "pm" else "am";
    assert IntToString(h) == NatToString(h);
    DigitsOfNat(h);
    Pad2Digits(m);
    ParseTimeOfDigitsMarker(IntToString(h), Pad2(m), marker);
    assert (marker == "pm") == isPM && (marker == "am") == !isPM by {
      assert "pm"[0] != "am"[0];
    }
  }

  /**
    A 12-hour time `h:mm` followed by `am` or `pm` (h from 1 to 12) is read
    as the 24-hour minute of the day: `12:mm am` is just after midnight,
    `12:mm pm` just after noon.
   */
  lemma ParseTimeTwelveHour(h: int, m: int, isPM: bool)
    requires 1 <= h <= 12 && 0 <= m < 60
    ensures ParseTime(IntToString(h) + ":" + Pad2(m) + (if isPM then "pm" else "am"))
      == Some(TwelveHourMinutes(h, m, isPM))
  {
    ParseTimeOfClockMarker(h, m, isPM);
  }

  /** A bare hour with a marker (`7am`, `12pm`) is read on the 12-hour clock with minute 0. */
  lemma ParseTimeHourOnly(h: int, isPM: bool)
    requires 1 <= h <= 12
    ensures ParseTime(IntToString(h) + (if isPM then "pm" else "am")) == Some(TwelveHourMinutes(h, 0, isPM))
  {
    var hs, marker := IntToString(h), if isPM then "pm" else "am";
    assert hs == NatToString(h);
    DigitsOfNat(h);
    assert ClockText(hs);
    ParseTimeOfPlain(hs + marker);
    ParseCleanedMarker(hs, marker);
    SplitNoSep(hs, ':');
    ReadClockHour(hs, marker == "pm", marker == "am");
    assert (marker == "pm") == isPM && (marker == "am") == !isPM by {
      assert "pm"[0] != "am"[0];
    }
  }

  /**
    A word of small letters with no `a` and no `p` in it (so no marker) is
    not a number, and the time is "no time".
   */
  lemma ParseTimeRejectsLetters(s: string)
    requires |s| >= 1 && forall i :: 0 <= i < |s| ==> 'b' <= s[i] <= 'z' && s[i] != 'p'
    ensures ParseTime(s) == None
  {
    var last := s[|s| - 1];
    assert 'b' <= last <= 'z';
    assert !IsSpace(s[0]) && !IsSpace(last) && !IsDigit(s[0]) && s[0] != '-';
    NumberOfWord(s);
    ParseTimeOfPlain(s);
    assert forall i :: 0 <= i < |s| ==> s[i] != 'a' && s[i] != 'p' && s[i] != ':';
    RemoveAmPmNone(s);
    SplitNoSep(s, ':');
    ReadClockRejects(Split(RemoveAmPm(s), ':'), Contains(s, "pm"), Contains(s, "am"));
  }

  /** A first piece that `Number()` cannot read makes the time "no time". */
  lemma ReadClockRejects(parts: seq<string>, isPM: bool, isAM: bool)
    requires |parts| >= 1 && parts[0] != [] && JsNumber(parts[0]) == None
    ensures ReadClock(parts, isPM, isAM) == None
  {
  }

  /** `Number()` of a text that starts with neither a sign nor a digit is `NaN`. */
  lemma NumberOfWord(s: string)
    requires |s| >= 1 && !IsSpace(s[0]) && !IsSpace(s[|s| - 1])
    requires !IsDigit(s[0]) && s[0] != '-' && s[0] != '+'
    ensures JsNumber(s) == None
  {
    NumberOfUntrimmed(s);
  }

  // ----- lemmas about the date parser -----

  /** `d/m/y` is split into its three fields. */
  lemma SplitDMY(a: string, b: string, c: string)
    requires forall k :: 0 <= k < |a| ==> a[k] != '/'
    requires forall k :: 0 <= k < |b| ==> b[k] != '/'
    requires forall k :: 0 <= k < |c| ==> c[k] != '/'
    ensures Split(a + "/" + b + "/" + c, '/') == [a, b, c]
  {
    assert Join([a, b, c], '/') == a + "/" + b + "/" + c by {
      assert Join([b, c], '/') == b + "/" + c;
      assert [a, b, c][1..] == [b, c];
    }
    JoinSplit([a, b, c], '/');
  }

  /** `d/m/y` with no white space around it reaches the field reader as its three fields. */
  lemma ParseDMYFields(a: string, b: string, c: string)
    requires |a| >= 1 && !IsSpace(a[0]) && |c| >= 1 && !IsSpace(c[|c| - 1])
    requires forall k :: 0 <= k < |a| ==> a[k] != '/'
    requires forall k :: 0 <= k < |b| ==> b[k] != '/'
    requires forall k :: 0 <= k < |c| ==> c[k] != '/'
    ensures ParseDMY(a + "/" + b + "/" + c) == DateOfFields(JsNumber(a), JsNumber(b), JsNumber(c))
  {
    EndsOfDMY(a, b, c);
    TrimOfTrimmed(a + "/" + b + "/" + c);
    SplitDMY(a, b, c);
  }

  /** `d/m/y` starts where `d` starts and ends where `y` ends. */
  lemma EndsOfDMY(a: string, b: string, c: string)
    requires |a| >= 1 && |c| >= 1
    ensures (a + "/" + b + "/" + c)[0] == a[0]
    ensures (a + "/" + b + "/" + c)[|a + "/" + b + "/" + c| - 1] == c[|c| - 1]
  {
  }

  /** A day, month and year written in digits are read as `new Date(year, month - 1, day)`, and 0 in any of them is rejected. */
  lemma ParseDMYDigits(ds: string, ms: string, ys: string)
    requires |ds| >= 1 && AllDigits(ds) && |ms| >= 1 && AllDigits(ms) && |ys| >= 1 && AllDigits(ys)
    ensures ParseDMY(ds + "/" + ms + "/" + ys)
      == DateOfFields(Some(DigitsValue(ds)), Some(DigitsValue(ms)), Some(DigitsValue(ys)))
  {
    ParseDMYFields(ds, ms, ys);
    NumberOfDigits(ds);
    NumberOfDigits(ms);
    NumberOfDigits(ys);
  }

  /** Day, month and year printed by `String()` are read back as those numbers. */
  lemma ParseDMYOfNats(d: nat, m: nat, y: nat)
    ensures ParseDMY(NatToString(d) + "/" + NatToString(m) + "/" + NatToString(y))
      == DateOfFields(Some(d), Some(m), Some(y))
  {
    ParseDMYDigits(NatToString(d), NatToString(m), NatToString(y));
    DigitsOfNat(d);
    DigitsOfNat(m);
    DigitsOfNat(y);
  }

  /** A two-digit year is read as a year of the twentieth century: `1/1/26` is 1 January 1926. */
  lemma ParseDMYTwoDigitYear(d: nat, m: nat, yy: nat)
    requires 1 <= d && 1 <= m && 1 <= yy <= 99
    ensures ParseDMY(NatToString(d) + "/" + NatToString(m) + "/" + NatToString(yy))
      == Some(NewDate(1900 + yy, m - 1, d))
  {
    ParseDMYOfNats(d, m, yy);
    FieldsTwoDigitYear(d, m, yy);
  }

  lemma FieldsTwoDigitYear(d: int, m: int, yy: int)
    requires 1 <= d && 1 <= m && 1 <= yy <= 99
    ensures DateOfFields(Some(d), Some(m), Some(yy)) == Some(NewDate(1900 + yy, m - 1, d))
  {
    NewDateTwoDigitYear(yy, m - 1, d);
  }

  /**
    A day past the end of the month rolls into the next: `31/2/y` is 3 March
    of year `y`, or 2 March in a leap year.
   */
  lemma ParseDMYRollsOver(y: nat)
    requires y >= 100
    ensures ParseDMY(NatToString(31) + "/" + NatToString(2) + "/" + NatToString(y)) == Some(NewDate(y, 1, 31))
    ensures NewDate(y, 1, 31).Month() == 2
    ensures NewDate(y, 1, 31).DateOfMonth() == if IsLeap(y) then 2 else 3
  {
    ParseDMYOfNats(31, 2, y);
    FieldsOfNonZero(31, 2, y);
    NewDateRollsOver(y);
  }

  /** Three non-zero numbers give the date `new Date(y, m - 1, d)`. */
  lemma FieldsOfNonZero(d: int, m: int, y: int)
    requires d != 0 && m != 0 && y != 0
    ensures DateOfFields(Some(d), Some(m), Some(y)) == Some(NewDate(y, m - 1, d))
  {
  }

  /** A day of 0 is rejected rather than rolled back into the previous month. */
  lemma ParseDMYRejectsZeroDay(m: nat, y: nat)
    ensures ParseDMY(NatToString(0) + "/" + NatToString(m) + "/" + NatToString(y)) == None
  {
    ParseDMYOfNats(0, m, y);
  }

  /** Text without a slash has fewer than three fields and is rejected. */
  lemma ParseDMYNoSlash(s: string)
    requires |s| >= 1 && !IsSpace(s[0]) && !IsSpace(s[|s| - 1])
    requires forall k :: 0 <= k < |s| ==> s[k] != '/'
    ensures ParseDMY(s) == None
  {
    TrimOfTrimmed(s);
    SplitNoSep(s, '/');
  }

  /** `String(y)` is a possible minus sign and digits: no slash, and a digit at the end. */
  lemma IntToStringChars(y: int)
    ensures forall k :: 0 <= k < |IntToString(y)| ==> IntToString(y)[k] != '/'
    ensures IsDigit(IntToString(y)[|IntToString(y)| - 1])
  {
    var t := NatToString(if y < 0 then -y else y);
    assert IntToString(y) == if y < 0 then "-" + t else t;
    assert IsDigit(t[|t| - 1]);
  }

  /** A field built from digits by `Pad2` has no slash. */
  lemma Pad2Chars(n: int)
    requires 0 <= n < 100
    ensures forall k :: 0 <= k < |Pad2(n)| ==> Pad2(n)[k] != '/'
    ensures IsDigit(Pad2(n)[0])
  {
  }

  /**
    `parseDMY` reads back what `fmtDMY` prints, for every date whose year is
    not from 0 to 99 (those are printed as they are but read as 19xx).
   */
  lemma ParseFmtDMY(date: Date)
    requires !(0 <= date.FullYear() <= 99)
    ensures ParseDMY(FmtDMY(date)) == Some(date)
  {
    var y, m, d := date.FullYear(), date.Month(), date.DateOfMonth();
    assert ValidCivil(Civil(y, m, d));
    assert FmtDMY(date) == Pad2(d) + "/" + Pad2(m + 1) + "/" + IntToString(y);
    ParseFmtCivil(Civil(y, m, d));
    NewDateOfOwnCivil(date);
  }

  /** `fmtDMY` of a calendar date with a year outside 0..99 is read back as that date. */
  lemma ParseFmtCivil(c: Civil)
    requires ValidCivil(c) && !(0 <= c.year <= 99)
    ensures ParseDMY(Pad2(c.day) + "/" + Pad2(c.month + 1) + "/" + IntToString(c.year))
      == Some(NewDate(c.year, c.month, c.day))
  {
    var a, b, e := Pad2(c.day), Pad2(c.month + 1), IntToString(c.year);
    Pad2Chars(c.day);
    Pad2Chars(c.month + 1);
    IntToStringChars(c.year);
    ParseDMYFields(a, b, e);
    NumberOfPad2(c.day);
    NumberOfPad2(c.month + 1);
    NumberOfString(c.year);
    FieldsOfNonZero(c.day, c.month + 1, c.year);
  }

  // ----- the by-date key -----

  /** Two keys with two-character month and day pieces are equal only piece by piece. */
  lemma KeyPiecesEqual(ya: string, ma: string, da: string, yb: string, mb: string, db: string)
    requires |ma| == 2 && |da| == 2 && |mb| == 2 && |db| == 2
    requires ya + "-" + ma + "-" + da == yb + "-" + mb + "-" + db
    ensures ya == yb && ma == mb && da == db
  {
    var k := ya + "-" + ma + "-" + da;
    assert |ya| == |yb|;
    assert k[..|ya|] == ya && (yb + "-" + mb + "-" + db)[..|yb|] == yb;
    assert k[|ya| + 1..|ya| + 3] == ma && (yb + "-" + mb + "-" + db)[|yb| + 1..|yb| + 3] == mb;
    assert k[|ya| + 4..] == da && (yb + "-" + mb + "-" + db)[|yb| + 4..] == db;
  }

  /** Different dates have different keys: the by-date index never merges two days. */
  lemma IsoKeyInjective(a: Date, b: Date)
    requires IsoKey(a) == IsoKey(b)
    ensures a == b
  {
    KeyPiecesEqual(IntToString(a.FullYear()), Pad2(a.Month() + 1), Pad2(a.DateOfMonth()),
                   IntToString(b.FullYear()), Pad2(b.Month() + 1), Pad2(b.DateOfMonth()));
    PrintedAlike(a.FullYear(), a.Month() + 1, a.DateOfMonth(), b.FullYear(), b.Month() + 1, b.DateOfMonth());
    SameCivilSameDate(a, b);
  }

  /** Numbers printed alike by `String()` and `pad2` are the same numbers. */
  lemma PrintedAlike(y1: int, m1: int, d1: int, y2: int, m2: int, d2: int)
    requires IntToString(y1) == IntToString(y2) && Pad2(m1) == Pad2(m2) && Pad2(d1) == Pad2(d2)
    ensures y1 == y2 && m1 == m2 && d1 == d2
  {
    NumberOfString(y1);
    NumberOfString(y2);
    NumberOfPad2(m1);
    NumberOfPad2(m2);
    NumberOfPad2(d1);
    NumberOfPad2(d2);
  }

  /** Dates with the same year, month and day are the same date. */
  lemma SameCivilSameDate(a: Date, b: Date)
    requires a.FullYear() == b.FullYear() && a.Month() == b.Month() && a.DateOfMonth() == b.DateOfMonth()
    ensures a == b
  {
    assert CivilFromDay(a.day) == CivilFromDay(b.day);
  }
}
