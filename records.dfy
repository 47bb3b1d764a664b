/**
  The record builder: `tsvToRows` and the per-row logic of `buildFromTSV`
  (column layout, one day record per accepted row, and the two indexes it
  fills: every record in file order, and the last record of each date).
 */
module DayRecords {
  import opened Wrappers
  import opened Text
  import opened Calendar
  import opened TimeParse
  import opened Lunch

  // ----- tsvToRows -----

  /** `s.replace(/\r/g, "")` */
  function RemoveCR(s: string): (r: string)
    ensures forall i :: 0 <= i < |r| ==> r[i] != '\r'
    ensures (forall i :: 0 <= i < |s| ==> s[i] != '\r') ==> r == s
    ensures |s| == 1 ==> r == (if s[0] == '\r' then [] else s)
  {
    if s == [] then [] else (if s[0] == '\r' then [] else [s[0]]) + RemoveCR(s[1..])
  }

  /** Dropping carriage returns works piece by piece: nothing else is dropped, and the order is kept. */
  lemma {:induction false} RemoveCRAppend(a: string, b: string)
    ensures RemoveCR(a + b) == RemoveCR(a) + RemoveCR(b)
  {
    if a == [] {
      assert a + b == b;
    } else {
      var head := if a[0] != '\r' then [a[0]] else [];
      assert RemoveCR(a + b) == head + RemoveCR(a[1..] + b) by {
        assert (a + b)[0] == a[0] && (a + b)[1..] == a[1..] + b;
      }
      RemoveCRAppend(a[1..], b);
    }
  }

  /** `.filter(l => l.trim())`: the lines that are not all white space, in order. */
  function NonBlank(lines: seq<string>): (kept: seq<string>)
    ensures |kept| <= |lines|
    ensures |lines| == 1 ==> kept == (if Trim(lines[0]) != [] then lines else [])
  {
    if lines == [] then []
    else (if Trim(lines[0]) != [] then [lines[0]] else []) + NonBlank(lines[1..])
  }

  /** Dropping blank lines works piece by piece: every other line is kept, in order. */
  lemma {:induction false} NonBlankAppend(a: seq<string>, b: seq<string>)
    ensures NonBlank(a + b) == NonBlank(a) + NonBlank(b)
  {
    if a == [] {
      assert a + b == b;
    } else {
      assert a + b == [a[0]] + (a[1..] + b);
      assert a == [a[0]] + a[1..];
      NonBlankCons(a[0], a[1..] + b);
      NonBlankCons(a[0], a[1..]);
      NonBlankAppend(a[1..], b);
      AppendAssoc(NonBlank([a[0]]), NonBlank(a[1..]), NonBlank(b));
    }
  }

  /** Sequence concatenation is associative, whatever the elements. */
  lemma AppendAssoc<T>(x: seq<T>, y: seq<T>, z: seq<T>)
    ensures x + (y + z) == (x + y) + z
  {
  }

  /** The first line is kept or dropped on its own. */
  lemma NonBlankCons(line: string, rest: seq<string>)
    ensures NonBlank([line] + rest) == NonBlank([line]) + NonBlank(rest)
  {
    assert ([line] + rest)[1..] == rest;
  }

  /** Every kept line has something besides white space. */
  lemma {:induction false} NonBlankKept(lines: seq<string>)
    ensures forall i :: 0 <= i < |NonBlank(lines)| ==> Trim(NonBlank(lines)[i]) != []
  {
    if lines != [] {
      NonBlankKept(lines[1..]);
    }
  }

  /** No line is dropped when none is blank. */
  lemma {:induction false} NonBlankKeepsAll(lines: seq<string>)
    requires forall i :: 0 <= i < |lines| ==> Trim(lines[i]) != []
    ensures NonBlank(lines) == lines
  {
    if lines != [] {
      NoneBlankInTail(lines);
      NonBlankKeepsAll(lines[1..]);
      HeadAndTail(lines);
    }
  }

  lemma NoneBlankInTail(lines: seq<string>)
    requires lines != [] && forall i :: 0 <= i < |lines| ==> Trim(lines[i]) != []
    ensures Trim(lines[0]) != [] && forall i :: 0 <= i < |lines[1..]| ==> Trim(lines[1..][i]) != []
  {
    assert forall i :: 0 <= i < |lines[1..]| ==> lines[1..][i] == lines[i + 1];
  }

  lemma HeadAndTail(lines: seq<string>)
    requires lines != []
    ensures [lines[0]] + lines[1..] == lines
  {
  }

  /** `.map(v => v.trim())` */
  function TrimAll(fields: seq<string>): (r: seq<string>)
    ensures |r| == |fields| && forall i :: 0 <= i < |r| ==> r[i] == Trim(fields[i])
  {
    seq(|fields|, i requires 0 <= i < |fields| => Trim(fields[i]))
  }

  /** One line: its tab-separated fields, each trimmed. */
  function LineFields(line: string): (fields: seq<string>)
    ensures |fields| >= 1
  {
    TrimAll(Split(line, '\t'))
  }

  function AllLineFields(lines: seq<string>): (rows: seq<seq<string>>)
    ensures |rows| == |lines| && forall i :: 0 <= i < |rows| ==> rows[i] == LineFields(lines[i])
  {
    seq(|lines|, i requires 0 <= i < |lines| => LineFields(lines[i]))
  }

  /**
    `tsvToRows(tsv)`: carriage returns are dropped, the text is cut into
    lines, blank lines are skipped, and each line is cut at its tabs into
    trimmed fields.  Every row has at least one field.
   */
  function TsvToRows(tsv: string): (rows: seq<seq<string>>)
    ensures forall i :: 0 <= i < |rows| ==> |rows[i]| >= 1
  {
    AllLineFields(NonBlank(Split(RemoveCR(tsv), '\n')))
  }

  /** Cells of a table that `tsvToRows` reads back unchanged. */
  predicate PlainCell(f: string) {
    Trim(f) == f && forall k :: 0 <= k < |f| ==> f[k] != '\t' && f[k] != '\n' && f[k] != '\r'
  }

  /** A row that `tsvToRows` reads back: plain cells, at least one of them not empty. */
  predicate PlainRow(row: seq<string>) {
    |row| >= 1 && (forall j :: 0 <= j < |row| ==> PlainCell(row[j])) && exists j :: 0 <= j < |row| && row[j] != []
  }

  function JoinLines(rows: seq<seq<string>>): (lines: seq<string>)
    requires forall i :: 0 <= i < |rows| ==> |rows[i]| >= 1
    ensures |lines| == |rows| && forall i :: 0 <= i < |rows| ==> lines[i] == Join(rows[i], '\t')
  {
    seq(|rows|, i requires 0 <= i < |rows| => Join(rows[i], '\t'))
  }

  /** The tab-separated text of a table: rows joined by new lines, cells by tabs. */
  function ToTsv(rows: seq<seq<string>>): string
    requires |rows| >= 1 && forall i :: 0 <= i < |rows| ==> |rows[i]| >= 1
  {
    Join(JoinLines(rows), '\n')
  }

  lemma {:induction false} JoinAvoids(parts: seq<string>, sep: char, c: char)
    requires |parts| >= 1 && c != sep
    requires forall i, k :: 0 <= i < |parts| && 0 <= k < |parts[i]| ==> parts[i][k] != c
    ensures forall k :: 0 <= k < |Join(parts, sep)| ==> Join(parts, sep)[k] != c
  {
    if |parts| > 1 {
      JoinAvoids(parts[1..], sep, c);
    }
  }

  /** Every character of every part appears in the joined text. */
  lemma {:induction false} JoinHolds(parts: seq<string>, sep: char, i: int, k: int)
    requires |parts| >= 1 && 0 <= i < |parts| && 0 <= k < |parts[i]|
    ensures exists n :: 0 <= n < |Join(parts, sep)| && Join(parts, sep)[n] == parts[i][k]
  {
    if i == 0 {
      assert Join(parts, sep)[k] == parts[0][k];
    } else {
      JoinHolds(parts[1..], sep, i - 1, k);
      var n :| 0 <= n < |Join(parts[1..], sep)| && Join(parts[1..], sep)[n] == parts[i][k];
      assert Join(parts, sep)[|parts[0]| + 1 + n] == parts[i][k];
    }
  }

  /** Text whose `trim()` is empty is all white space. */
  lemma TrimEmpty(s: string)
    ensures Trim(s) == [] <==> forall k :: 0 <= k < |s| ==> IsSpace(s[k])
  {
    if Trim(s) == [] {
      EmptyTrimAllSpace(s);
    } else {
      TrimKeepsNonSpace(s);
    }
  }

  /** An empty `trim()` leaves only white space behind. */
  lemma EmptyTrimAllSpace(s: string)
    requires Trim(s) == []
    ensures forall k :: 0 <= k < |s| ==> IsSpace(s[k])
  {
    var i :| && 0 <= i <= |s|
             && (forall k :: 0 <= k < i ==> IsSpace(s[k]))
             && (forall k :: i <= k < |s| ==> IsSpace(s[k]));
  }

  /** A non-empty `trim()` starts at a character that is not white space. */
  lemma TrimKeepsNonSpace(s: string)
    requires Trim(s) != []
    ensures exists k :: 0 <= k < |s| && !IsSpace(s[k])
  {
    var r := Trim(s);
    var i :| 0 <= i <= |s| - |r| && s[i..][..|r|] == r;
    assert r[0] == s[i] && !IsSpace(s[i]);
  }

  /** A line joined from plain cells, one of them not empty, is not blank. */
  lemma PlainRowNotBlank(row: seq<string>)
    requires PlainRow(row)
    ensures Trim(Join(row, '\t')) != []
  {
    var j :| 0 <= j < |row| && row[j] != [];
    assert !IsSpace(row[j][0]) by {
      assert Trim(row[j]) == row[j];
    }
    JoinHolds(row, '\t', j, 0);
    TrimEmpty(Join(row, '\t'));
  }

  /** A line joined from plain cells splits back into those cells. */
  lemma PlainRowFields(row: seq<string>)
    requires PlainRow(row)
    ensures LineFields(Join(row, '\t')) == row
  {
    NoTabInCells(row);
    JoinSplit(row, '\t');
    TrimAllPlain(row);
  }

  lemma NoTabInCells(row: seq<string>)
    requires forall j :: 0 <= j < |row| ==> PlainCell(row[j])
    ensures forall i, k :: 0 <= i < |row| && 0 <= k < |row[i]| ==> row[i][k] != '\t'
  {
    forall i, k | 0 <= i < |row| && 0 <= k < |row[i]| ensures row[i][k] != '\t' {
      assert PlainCell(row[i]);
    }
  }

  /** Trimming plain cells changes none of them. */
  lemma TrimAllPlain(row: seq<string>)
    requires forall j :: 0 <= j < |row| ==> PlainCell(row[j])
    ensures TrimAll(row) == row
  {
    forall i | 0 <= i < |row| ensures TrimAll(row)[i] == row[i] {
      assert PlainCell(row[i]);
    }
  }

  /** `tsvToRows` reads back the text of a table of plain rows. */
  lemma TsvToRowsOfTsv(rows: seq<seq<string>>)
    requires |rows| >= 1 && forall i :: 0 <= i < |rows| ==> |rows[i]| >= 1 && PlainRow(rows[i])
    ensures TsvToRows(ToTsv(rows)) == rows
  {
    var lines := JoinLines(rows);
    forall i | 0 <= i < |lines|
      ensures PlainLine(lines[i]) && LineFields(lines[i]) == rows[i]
    {
      LineOfPlainRow(rows[i]);
    }
    ReadBackLines(lines);
    FieldsOfLines(lines, rows);
  }

  /** Text whose carriage returns are the only difference is read as the same table. */
  lemma TsvToRowsOfClean(a: string, b: string)
    requires RemoveCR(a) == RemoveCR(b)
    ensures TsvToRows(a) == TsvToRows(b)
  {
  }

  /** `tsvToRows` also reads back the table when its text ends in a new line. */
  lemma TsvToRowsTrailingNewline(rows: seq<seq<string>>)
    requires |rows| >= 1 && forall i :: 0 <= i < |rows| ==> |rows[i]| >= 1 && PlainRow(rows[i])
    ensures TsvToRows(ToTsv(rows) + "\n") == rows
  {
    var lines := JoinLines(rows);
    forall i | 0 <= i < |lines|
      ensures PlainLine(lines[i]) && LineFields(lines[i]) == rows[i]
    {
      LineOfPlainRow(rows[i]);
    }
    ReadBackEndedLines(lines);
    FieldsOfLines(lines, rows);
  }

  /** Lines joined by a carriage return and a new line, as in text with Windows line ends. */
  function CrlfJoin(lines: seq<string>): string
    requires |lines| >= 1
  {
    if |lines| == 1 then lines[0] else lines[0] + "\r\n" + CrlfJoin(lines[1..])
  }

  /** Dropping the carriage returns of lines joined with `\r\n` gives the lines joined with `\n`. */
  lemma {:induction false} RemoveCRCrlf(lines: seq<string>)
    requires |lines| >= 1 && forall i, k :: 0 <= i < |lines| && 0 <= k < |lines[i]| ==> lines[i][k] != '\r'
    ensures RemoveCR(CrlfJoin(lines)) == Join(lines, '\n')
  {
    if |lines| > 1 {
      RemoveCRCrlf(lines[1..]);
      RemoveCRLine(lines[0], CrlfJoin(lines[1..]));
    }
  }

  /** A line with no carriage return, ended by `\r\n`, keeps the line and the new line. */
  lemma RemoveCRLine(line: string, rest: string)
    requires forall k :: 0 <= k < |line| ==> line[k] != '\r'
    ensures RemoveCR(line + "\r\n" + rest) == line + "\n" + RemoveCR(rest)
  {
    assert line + "\r\n" + rest == line + ("\r\n" + rest);
    RemoveCRAppend(line, "\r\n" + rest);
    RemoveCRAppend("\r\n", rest);
    assert RemoveCR("\r\n") == "\n" by {
      assert "\r\n"[1..] == "\n";
    }
    AppendAssoc(line, "\n", RemoveCR(rest));
  }

  /** `tsvToRows` reads back the table from text with Windows line ends, with or without a final line end. */
  lemma TsvToRowsOfCrlf(rows: seq<seq<string>>)
    requires |rows| >= 1 && forall i :: 0 <= i < |rows| ==> |rows[i]| >= 1 && PlainRow(rows[i])
    ensures TsvToRows(CrlfJoin(JoinLines(rows))) == rows
    ensures TsvToRows(CrlfJoin(JoinLines(rows)) + "\r\n") == rows
  {
    var lines := JoinLines(rows);
    forall i | 0 <= i < |lines|
      ensures PlainLine(lines[i])
    {
      LineOfPlainRow(rows[i]);
    }
    RemoveCRCrlf(lines);
    JoinAvoids(lines, '\n', '\r');
    assert RemoveCR(ToTsv(rows)) == ToTsv(rows);
    TsvToRowsOfClean(CrlfJoin(lines), ToTsv(rows));
    TsvToRowsOfTsv(rows);

    RemoveCRAppend(CrlfJoin(lines), "\r\n");
    RemoveCRAppend(ToTsv(rows), "\n");
    assert RemoveCR("\r\n") == "\n" by {
      assert "\r\n"[1..] == "\n";
    }
    TsvToRowsOfClean(CrlfJoin(lines) + "\r\n", ToTsv(rows) + "\n");
    TsvToRowsTrailingNewline(rows);
  }

  /** A line with no line break or carriage return that is not all white space. */
  predicate PlainLine(line: string) {
    Trim(line) != [] && forall k :: 0 <= k < |line| ==> line[k] != '\n' && line[k] != '\r'
  }

  /** One plain row, joined by tabs, is a plain line that cuts back into the row. */
  lemma LineOfPlainRow(row: seq<string>)
    requires |row| >= 1 && PlainRow(row)
    ensures PlainLine(Join(row, '\t')) && LineFields(Join(row, '\t')) == row
  {
    JoinAvoids(row, '\t', '\n');
    JoinAvoids(row, '\t', '\r');
    PlainRowNotBlank(row);
    PlainRowFields(row);
  }

  /** Plain lines joined by new lines come back as the same lines. */
  lemma ReadBackLines(lines: seq<string>)
    requires |lines| >= 1 && forall i :: 0 <= i < |lines| ==> PlainLine(lines[i])
    ensures NonBlank(Split(RemoveCR(Join(lines, '\n')), '\n')) == lines
  {
    JoinAvoids(lines, '\n', '\r');
    JoinSplit(lines, '\n');
    NonBlankKeepsAll(lines);
  }

  /** The same, when the text ends in a new line: the empty last piece is dropped as blank. */
  lemma ReadBackEndedLines(lines: seq<string>)
    requires |lines| >= 1 && forall i :: 0 <= i < |lines| ==> PlainLine(lines[i])
    ensures NonBlank(Split(RemoveCR(Join(lines, '\n') + "\n"), '\n')) == lines
  {
    forall i, k | 0 <= i < |lines| && 0 <= k < |lines[i]|
      ensures lines[i][k] != '\n' && lines[i][k] != '\r'
    {
      assert PlainLine(lines[i]);
    }
    SplitEnded(lines);
    NonBlankKeepsAll(lines);
    NonBlankAppend(lines, [""]);
  }

  /** Lines joined by new lines, with one more at the end, cut into the lines and an empty last piece. */
  lemma SplitEnded(lines: seq<string>)
    requires |lines| >= 1
    requires forall i, k :: 0 <= i < |lines| && 0 <= k < |lines[i]| ==> lines[i][k] != '\n' && lines[i][k] != '\r'
    ensures Split(RemoveCR(Join(lines, '\n') + "\n"), '\n') == lines + [""]
  {
    var all := lines + [""];
    JoinSnoc(lines, "", '\n');
    assert Join(lines, '\n') + "\n" == Join(all, '\n');
    assert forall i :: 0 <= i < |all| - 1 ==> all[i] == lines[i];
    JoinAvoids(all, '\n', '\r');
    JoinSplit(all, '\n');
  }

  lemma FieldsOfLines(lines: seq<string>, rows: seq<seq<string>>)
    requires |lines| == |rows| && forall i :: 0 <= i < |lines| ==> LineFields(lines[i]) == rows[i]
    ensures AllLineFields(lines) == rows
  {
  }

  // ----- column layout -----

  /** `r[i]` read as text: a missing cell reads as the empty text, as `undefined` does in every test the builder makes. */
  function Field(row: seq<string>, i: int): (f: string)
    ensures 0 <= i < |row| ==> f == row[i]
    ensures !(0 <= i < |row|) ==> f == []
  {
    if 0 <= i < |row| then row[i] else []
  }

  /** `h.includes(k1) || h.includes(k2) || ...` */
  predicate MatchesAny(cell: string, keys: seq<string>) {
    exists k :: 0 <= k < |keys| && Contains(cell, keys[k])
  }

  /** `i` is the first cell that matches one of `keys`. */
  predicate FirstMatch(cells: seq<string>, keys: seq<string>, i: int) {
    && 0 <= i < |cells| && MatchesAny(cells[i], keys)
    && forall j :: 0 <= j < i ==> !MatchesAny(cells[j], keys)
  }

  /** `cells.findIndex(h => MatchesAny(h, keys))`: the first matching cell, or -1 when none matches. */
  function FindIndex(cells: seq<string>, keys: seq<string>): (r: int)
    ensures r == -1 || FirstMatch(cells, keys, r)
    ensures r == -1 <==> forall j :: 0 <= j < |cells| ==> !MatchesAny(cells[j], keys)
  {
    if cells == [] then -1
    else if MatchesAny(cells[0], keys) then 0
    else
      var t := FindIndex(cells[1..], keys);
      if t == -1 then -1 else t + 1
  }

  const HeaderKeys: seq<string> := ["fecha", "d\U{ED}a", "inicio", "fin"]
  const DateKeys: seq<string> := ["fecha"]
  const StartKeys: seq<string> := ["inicio", "entrada", "hora inicio"]
  const EndKeys: seq<string> := ["fin", "salida", "hora fin"]
  const NoteKeys: seq<string> := ["nota", "observ", "coment"]

  /** The columns the builder reads, and the row the data starts at. */
  datatype Layout = Layout(dateCol: int, startCol: int, endCol: int, noteA: int, noteB: int, firstRow: int)

  /** The layout used when the first row is not a header: date in column 1, start 2, end 3, notes 4 and 5. */
  const Fallback := Layout(1, 2, 3, 4, 5, 0)

  /** `headerRow.some(...)`: some cell of the lower-cased first row names a date, a day, a start or an end. */
  predicate HasHeader(header: seq<string>) {
    exists i :: 0 <= i < |header| && MatchesAny(header[i], HeaderKeys)
  }

  /** The column chosen for `keys`: the first header cell that matches, or `fallback` when none does. */
  predicate ColumnFor(header: seq<string>, keys: seq<string>, fallback: int, col: int) {
    FirstMatch(header, keys, col)
    || ((forall j :: 0 <= j < |header| ==> !MatchesAny(header[j], keys)) && col == fallback)
  }

  function OrElse(i: int, fallback: int): int {
    if i >= 0 then i else fallback
  }

  /**
    The header mapping of `buildFromTSV`: without a header the fixed layout
    and data from row 0; with one, each column is the first header cell that
    names it (else its fixed place), one note column serves as both notes,
    and data starts at row 1.
   */
  function DetectLayout(rows: seq<seq<string>>): (l: Layout)
    requires |rows| >= 1
    ensures var header := ToLowerAll(rows[0]);
      && (!HasHeader(header) ==> l == Fallback)
      && (HasHeader(header) ==>
            && l.firstRow == 1
            && ColumnFor(header, DateKeys, 1, l.dateCol)
            && ColumnFor(header, StartKeys, 2, l.startCol)
            && ColumnFor(header, EndKeys, 3, l.endCol)
            && (ColumnFor(header, NoteKeys, 4, l.noteA) && ColumnFor(header, NoteKeys, 5, l.noteB))
            && (l.noteA == l.noteB || (l.noteA, l.noteB) == (4, 5)))
  {
    var header := ToLowerAll(rows[0]);
    if !HasHeader(header) then Fallback
    else
      var note := FindIndex(header, NoteKeys);
      Layout(OrElse(FindIndex(header, DateKeys), 1), OrElse(FindIndex(header, StartKeys), 2),
             OrElse(FindIndex(header, EndKeys), 3), OrElse(note, 4), OrElse(note, 5), 1)
  }

  /** `rows[0].map(x => x.toLowerCase())` */
  function ToLowerAll(cells: seq<string>): (r: seq<string>)
    ensures |r| == |cells| && forall i :: 0 <= i < |r| ==> r[i] == ToLower(cells[i])
  {
    seq(|cells|, i requires 0 <= i < |cells| => ToLower(cells[i]))
  }

  // ----- one day record -----

  /** `CFG.YEAR`: the only year the planner keeps. */
  const Year := 2026

  /** The record `buildFromTSV` keeps for one accepted row. */
  datatype DayRecord = DayRecord(
    date: Date, iso: string, y: int, m: int, d: int, weekday: int,
    hasShift: bool, startMin: Option<int>, endMin: Option<int>,
    rawHours: real, lunchHours: real, hours: real,
    caption: string, note: string)

  /** `Math.max(0, (endMin - startMin) / 60)`: the length of the shift in hours, 0 when it ends before it starts. */
  function RawHours(startMin: int, endMin: int): (h: real)
    ensures h >= 0.0
    ensures endMin >= startMin ==> h * 60.0 == (endMin - startMin) as real
    ensures endMin <= startMin ==> h == 0.0
  {
    if endMin - startMin > 0 then (endMin - startMin) as real / 60.0 else 0.0
  }

  /** The label of a day with a shift: `HH:MM – HH:MM`, with an en dash. */
  function ShiftLabel(startMin: int, endMin: int): (caption: string)
    ensures 0 <= startMin < 6000 && 0 <= endMin < 6000 ==>
      && |caption| == 13 && caption[5..8] == " \U{2013} "
      && caption[..5] == MinToHHMM(startMin) && caption[8..] == MinToHHMM(endMin)
  {
    MinToHHMM(startMin) + " \U{2013} " + MinToHHMM(endMin)
  }

  /** Both ends of the label of a shift within one day read back, with `parseTime`, as its two times. */
  lemma ShiftLabelReadsBack(startMin: int, endMin: int)
    requires 0 <= startMin < 1440 && 0 <= endMin < 1440
    ensures ParseTime(ShiftLabel(startMin, endMin)[..5]) == Some(startMin)
    ensures ParseTime(ShiftLabel(startMin, endMin)[8..]) == Some(endMin)
  {
    ParseTimeOfHHMM(startMin);
    ParseTimeOfHHMM(endMin);
  }

  /** `(r[idxNotaB] || r[idxNotaA] || "").trim()` */
  function Note(row: seq<string>, l: Layout): (n: string)
    ensures Field(row, l.noteB) != [] ==> n == Trim(Field(row, l.noteB))
    ensures Field(row, l.noteB) == [] ==> n == Trim(Field(row, l.noteA))
  {
    Trim(if Field(row, l.noteB) != [] then Field(row, l.noteB) else Field(row, l.noteA))
  }

  /**
    What every kept record satisfies: its calendar fields, weekday and key
    are those of its date; it has a shift exactly when both times parsed;
    its hours come from the shift under the lunch rule, and are all zero
    without one; and its label shows the shift, else the note, else
    "Sin jornada".
   */
  predicate WellFormed(rec: DayRecord) {
    && rec.iso == IsoKey(rec.date)
    && rec.y == rec.date.FullYear() && rec.m == rec.date.Month() && rec.d == rec.date.DateOfMonth()
    && rec.weekday == rec.date.MondayIndex()
    && (rec.hasShift <==> rec.startMin.Some? && rec.endMin.Some?)
    && (rec.hasShift ==>
          && rec.rawHours == RawHours(rec.startMin.value, rec.endMin.value)
          && rec.lunchHours == LunchDeduction(rec.rawHours)
          && rec.hours == EffectiveHours(rec.rawHours)
          && rec.caption == ShiftLabel(rec.startMin.value, rec.endMin.value))
    && (!rec.hasShift ==>
          && rec.rawHours == 0.0 && rec.lunchHours == 0.0 && rec.hours == 0.0
          && rec.caption == (if rec.note != [] then rec.note else "Sin jornada"))
  }

  /** The date cell of a row, parsed. */
  function RowDate(row: seq<string>, l: Layout): Option<Date> {
    ParseDMY(Field(row, l.dateCol))
  }

  /** A row is kept when its date parses and falls in the planner's year. */
  predicate Accepted(row: seq<string>, l: Layout) {
    RowDate(row, l).Some? && RowDate(row, l).value.FullYear() == Year
  }

  /**
    The body of the loop in `buildFromTSV`: the record of one row, or `None`
    for a row that is skipped.
   */
  function BuildRecord(row: seq<string>, l: Layout): (r: Option<DayRecord>)
    ensures r.Some? <==> Accepted(row, l)
    ensures r.Some? ==>
      && r.value.y == Year
      && Some(r.value.date) == RowDate(row, l)
      && r.value.startMin == ParseTime(Field(row, l.startCol))
      && r.value.endMin == ParseTime(Field(row, l.endCol))
      && r.value.note == Note(row, l)
  {
    var date := RowDate(row, l);
    if date.None? || date.value.FullYear() != Year then None
    else
      var date := date.value;
      var startMin := ParseTime(Field(row, l.startCol));
      var endMin := ParseTime(Field(row, l.endCol));
      var hasShift := startMin.Some? && endMin.Some?;
      var note := Note(row, l);
      var raw := if hasShift then RawHours(startMin.value, endMin.value) else 0.0;
      var lunch := if hasShift then LunchDeduction(raw) else 0.0;
      var hours := if hasShift then EffectiveHours(raw) else 0.0;
      var caption :=
        if hasShift then ShiftLabel(startMin.value, endMin.value)
        else if note != [] then note else "Sin jornada";
      Some(DayRecord(date, IsoKey(date), date.FullYear(), date.Month(), date.DateOfMonth(), date.MondayIndex(),
                     hasShift, startMin, endMin, raw, lunch, hours, caption, note))
  }

  /** A record built from a row is well formed. */
  lemma BuildRecordWellFormed(row: seq<string>, l: Layout)
    ensures BuildRecord(row, l).Some? ==> WellFormed(BuildRecord(row, l).value)
  {
  }

  /**
    A kept row with an 08:00 to 16:00 shift: eight raw hours, one hour of
    lunch, seven hours that count, and the label `08:00 – 16:00` made of the
    two cells as typed.
   */
  lemma EightHourShift(row: seq<string>, l: Layout)
    requires Accepted(row, l)
    requires Field(row, l.startCol) == Pad2(8) + ":" + Pad2(0)
    requires Field(row, l.endCol) == Pad2(16) + ":" + Pad2(0)
    ensures var rec := BuildRecord(row, l).value;
      && rec.hasShift && rec.startMin == Some(480) && rec.endMin == Some(960)
      && rec.rawHours == 8.0 && rec.lunchHours == 1.0 && rec.hours == 7.0
      && rec.caption == Field(row, l.startCol) + " \U{2013} " + Field(row, l.endCol)
  {
    ParseTimeOfPads(8, 0);
    ParseTimeOfPads(16, 0);
    MinToHHMMPads(480);
    MinToHHMMPads(960);
    BuildRecordWellFormed(row, l);
  }

  /**
    The facts about one record that the totals rely on: a month and a
    Monday-first weekday in range, the year of the planner, and effective
    hours that, with the lunch hour (0 or 1), make up the raw hours, all zero
    on a day without a shift.
   */
  predicate Bounded(rec: DayRecord) {
    && 0 <= rec.m < 12 && 0 <= rec.weekday < 7 && rec.y == Year
    && 0.0 <= rec.hours <= rec.rawHours
    && rec.hours + rec.lunchHours == rec.rawHours
    && (rec.lunchHours == 0.0 || rec.lunchHours == 1.0)
    && (!rec.hasShift ==> rec.rawHours == 0.0)
  }

  /** What a well-formed record of the planner's year promises the views. */
  lemma WellFormedBounds(rec: DayRecord)
    requires WellFormed(rec) && rec.y == Year
    ensures Bounded(rec)
    ensures 1 <= rec.d <= 31
  {
    if rec.hasShift {
      EffectiveHoursPieces(rec.rawHours);
    }
  }

  /** Two well-formed records under the same key are records of the same date. */
  lemma SameKeySameDate(a: DayRecord, b: DayRecord)
    requires WellFormed(a) && WellFormed(b) && a.iso == b.iso
    ensures a.date == b.date
  {
    IsoKeyInjective(a.date, b.date);
  }

  // ----- the two indexes -----

  /** `allDays` after the loop over `rows`: the records of the accepted rows, in file order. */
  function Records(rows: seq<seq<string>>, l: Layout): (recs: seq<DayRecord>)
    ensures |recs| <= |rows|
  {
    if rows == [] then [] else Records(rows[..|rows| - 1], l) + Kept(rows[|rows| - 1], l)
  }

  /** Every record is well formed and dated in the planner's year. */
  predicate AllWellFormed(recs: seq<DayRecord>) {
    recs == [] || (AllWellFormed(recs[..|recs| - 1]) && WellFormed(recs[|recs| - 1]) && recs[|recs| - 1].y == Year)
  }

  predicate AllBounded(recs: seq<DayRecord>) {
    forall i :: 0 <= i < |recs| ==> Bounded(recs[i])
  }

  /** Every record the builder keeps has its fields in range. */
  lemma {:induction false} RecordsBounded(rows: seq<seq<string>>, l: Layout)
    ensures AllBounded(Records(rows, l))
  {
    if rows != [] {
      RecordsBounded(rows[..|rows| - 1], l);
      KeptBounded(rows[|rows| - 1], l);
    }
  }

  lemma KeptBounded(row: seq<string>, l: Layout)
    ensures AllBounded(Kept(row, l))
  {
    if BuildRecord(row, l).Some? {
      BuildRecordBounded(row, l);
    }
  }

  lemma BuildRecordBounded(row: seq<string>, l: Layout)
    requires BuildRecord(row, l).Some?
    ensures Bounded(BuildRecord(row, l).value)
  {
    BuildRecordWellFormed(row, l);
    WellFormedBounds(BuildRecord(row, l).value);
  }

  /** A record's date lies between the first and the last day of its month. */
  predicate InItsMonth(rec: DayRecord) {
    NewDate(rec.y, rec.m, 1).day <= rec.date.day <= NewDate(rec.y, rec.m + 1, 0).day
  }

  predicate AllInItsMonth(recs: seq<DayRecord>) {
    forall i :: 0 <= i < |recs| ==> InItsMonth(recs[i])
  }

  /** The month field of a well-formed record is the month its date falls in. */
  lemma WellFormedInItsMonth(rec: DayRecord)
    requires WellFormed(rec) && !(0 <= rec.y <= 99)
    ensures InItsMonth(rec)
  {
    InOwnMonth(rec.date);
  }

  /** Each record of a well-formed sequence is well formed and of the planner's year. */
  lemma {:induction false} WellFormedAt(recs: seq<DayRecord>, i: int)
    requires AllWellFormed(recs) && 0 <= i < |recs|
    ensures WellFormed(recs[i]) && recs[i].y == Year
    decreases |recs|
  {
    if i < |recs| - 1 {
      var init := recs[..|recs| - 1];
      WellFormedAt(init, i);
      assert init[i] == recs[i];
    }
  }

  /** Well-formed records of the planner's year lie in their own months. */
  lemma AllInTheirMonths(recs: seq<DayRecord>)
    requires AllWellFormed(recs)
    ensures AllInItsMonth(recs)
  {
    forall i | 0 <= i < |recs|
      ensures InItsMonth(recs[i])
    {
      WellFormedAt(recs, i);
      WellFormedInItsMonth(recs[i]);
    }
  }

  /** Every record the builder keeps is well formed and dated in the planner's year. */
  lemma {:induction false} RecordsWellFormed(rows: seq<seq<string>>, l: Layout)
    ensures AllWellFormed(Records(rows, l))
  {
    if rows != [] {
      var init := rows[..|rows| - 1];
      RecordsWellFormed(init, l);
      var kept := Kept(rows[|rows| - 1], l);
      KeptWellFormed(rows[|rows| - 1], l);
      var recs := Records(rows, l);
      if kept != [] {
        assert recs[..|recs| - 1] == Records(init, l);
      } else {
        assert recs == Records(init, l);
      }
    }
  }

  /** The records one row contributes: its own, or none when it is skipped. */
  function Kept(row: seq<string>, l: Layout): (recs: seq<DayRecord>)
    ensures recs == [] <==> !Accepted(row, l)
    ensures |recs| <= 1
  {
    var r := BuildRecord(row, l);
    if r.Some? then [r.value] else []
  }

  lemma KeptWellFormed(row: seq<string>, l: Layout)
    ensures Kept(row, l) == [] || (WellFormed(Kept(row, l)[0]) && Kept(row, l)[0].y == Year)
  {
    BuildRecordWellFormed(row, l);
  }

  /** Reading one more row adds what that row contributes. */
  lemma RecordsStep(rows: seq<seq<string>>, first: int, i: int, l: Layout)
    requires 0 <= first <= i < |rows|
    ensures Records(rows[first..i + 1], l) == Records(rows[first..i], l) + Kept(rows[i], l)
  {
    var window := rows[first..i + 1];
    assert window[..|window| - 1] == rows[first..i];
    assert window[|window| - 1] == rows[i];
  }

  lemma RecordsOfNoRows(rows: seq<seq<string>>, first: int, l: Layout)
    requires 0 <= first <= |rows|
    ensures Records(rows[first..first], l) == []
  {
    assert rows[first..first] == [];
  }

  lemma RecordsOfRest(rows: seq<seq<string>>, first: int, l: Layout)
    requires 0 <= first <= |rows|
    ensures Records(rows[first..|rows|], l) == Records(rows[first..], l)
  {
    assert rows[first..|rows|] == rows[first..];
  }

  /** A row is kept exactly when it is accepted, and then as its own record. */
  lemma RecordsOfRow(row: seq<string>, l: Layout)
    ensures Records([row], l) == Kept(row, l)
  {
    assert [row][..0] == [];
  }

  /** `dayByISO` after `set(iso, rec)` for each record in turn: the key of each date maps to its last record. */
  function IndexOf(recs: seq<DayRecord>): (index: map<string, DayRecord>)
    ensures forall k :: k in index ==> index[k].iso == k
  {
    if recs == [] then map[]
    else
      var last := recs[|recs| - 1];
      IndexOf(recs[..|recs| - 1])[last.iso := last]
  }

  /** Adding a record sets its key, over any earlier record of that date. */
  /**
    What the builder leaves behind: well-formed records of the planner's
    year with their fields in range, and the index of those records.
   */
  predicate Indexed(recs: seq<DayRecord>, index: map<string, DayRecord>) {
    AllWellFormed(recs) && AllBounded(recs) && index == IndexOf(recs)
  }

  lemma IndexOfSnoc(recs: seq<DayRecord>, rec: DayRecord)
    ensures IndexOf(recs + [rec]) == IndexOf(recs)[rec.iso := rec]
  {
    assert (recs + [rec])[..|recs|] == recs;
  }

  /** The index holds a key exactly when some record has it. */
  lemma {:induction false} IndexOfKeys(recs: seq<DayRecord>, k: string)
    ensures k in IndexOf(recs) <==> exists i :: 0 <= i < |recs| && recs[i].iso == k
  {
    if recs != [] {
      var init := recs[..|recs| - 1];
      IndexOfKeys(init, k);
      if exists i :: 0 <= i < |init| && init[i].iso == k {
        var i :| 0 <= i < |init| && init[i].iso == k;
        assert recs[i].iso == k;
      }
    }
  }

  /** What the year views rely on: a record sits under its own date's key and is dated in the planner's year. */
  predicate Keyed(rec: DayRecord) {
    rec.iso == IsoKey(rec.date) && rec.date.FullYear() == Year
  }

  /** Every record the index holds is filed under its own date's key. */
  lemma {:induction false} IndexOfKeyed(recs: seq<DayRecord>)
    requires AllWellFormed(recs)
    ensures forall k :: k in IndexOf(recs) ==> Keyed(IndexOf(recs)[k])
  {
    if recs != [] {
      IndexOfKeyed(recs[..|recs| - 1]);
    }
  }

  /** When the same date appears twice, the later record wins. */
  lemma {:induction false} IndexOfLatest(recs: seq<DayRecord>, i: int)
    requires 0 <= i < |recs|
    requires forall j :: i < j < |recs| ==> recs[j].iso != recs[i].iso
    ensures recs[i].iso in IndexOf(recs) && IndexOf(recs)[recs[i].iso] == recs[i]
  {
    if i < |recs| - 1 {
      IndexOfLatest(recs[..|recs| - 1], i);
    }
  }
}
