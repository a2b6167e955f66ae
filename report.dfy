/**
 * What is done with the aggregated rows: the grand total of the hours, and
 * the CSV text written to the timesheet file, a `Date,Hours,Notes` header
 * followed by one line per row, each line put after a "\n".
 *
 * Hours are integer hundredths; `HoursText` is how JavaScript writes such
 * a Number (`${row.hours}`): no trailing zeros and no decimal point for a
 * whole number. A reader for the CSV text inverts `Csv`.
 */
module Report {
  import opened Optional
  import opened JsText
  import opened JsonString
  import opened Aggregation

  // ---------------------------------------------------------------------
  // The total
  // ---------------------------------------------------------------------

  /** `rows.reduce((total, { hours }) => total += hours, 0)`. */
  function Total(rows: seq<Row>): (total: int)
  {
    if rows == [] then 0 else Total(rows[..|rows| - 1]) + rows[|rows| - 1].hours
  }

  /** Replacing one row changes the total by the change in that row's hours. */
  lemma {:induction false} TotalUpdate(rows: seq<Row>, i: nat, r: Row)
    requires i < |rows|
    ensures Total(rows[i := r]) == Total(rows) - rows[i].hours + r.hours
  {
    var n := |rows| - 1;
    if i < n {
      assert rows[i := r][..n] == rows[..n][i := r];
      TotalUpdate(rows[..n], i, r);
    } else {
      assert rows[i := r][..n] == rows[..n];
    }
  }

  lemma TotalAddEntry(rows: seq<Row>, entry: Entry)
    ensures Total(AddEntry(rows, entry)) == Total(rows) + entry.roundedHours
  {
    match FindRow(rows, entry.spentDate)
    case Some(i) =>
      TotalUpdate(rows, i, Row(entry.spentDate, rows[i].hours + entry.roundedHours, MergeNotes(rows[i].notes, entry.taskName)));
    case None =>
      var r := Row(entry.spentDate, entry.roundedHours, NormalizeTask(entry.taskName));
      assert (rows + [r])[..|rows|] == rows;
  }

  /** Aggregation loses no hours: the total of the rows is the sum over all fetched entries. */
  lemma {:induction false} TotalConservesHours(entries: seq<Entry>)
    ensures Total(Aggregate(entries)) == SumHours(entries)
  {
    if entries != [] {
      var init := entries[..|entries| - 1];
      TotalConservesHours(init);
      TotalAddEntry(Aggregate(init), entries[|entries| - 1]);
    }
  }

  // ---------------------------------------------------------------------
  // Hours as text
  // ---------------------------------------------------------------------

  /** The digits after the decimal point of f hundredths: none, one, or two without a trailing zero. */
  function Fraction(f: nat): (s: string)
    requires f < 100
    ensures |s| <= 3
  {
    if f == 0 then ""
    else if f % 10 == 0 then ['.', DigitChar(f / 10)]
    else ['.', DigitChar(f / 10), DigitChar(f % 10)]
  }

  /** `String(hours)` for a Number holding h hundredths. */
  function HoursText(h: nat): (s: string)
  {
    Digits(h / 100) + Fraction(h % 100)
  }

  /** The value of one or two digits after a decimal point, in hundredths. */
  function ParseFraction(f: string): (r: Option<nat>)
    ensures r.Some? ==> r.value < 100
  {
    if |f| == 1 && IsDigit(f[0]) then Some(DigitValue(f[0]) * 10)
    else if |f| == 2 && IsDigit(f[0]) && IsDigit(f[1]) then Some(DigitValue(f[0]) * 10 + DigitValue(f[1]))
    else None
  }

  /** Reads a number written with at most two decimals back as hundredths. */
  function ParseHours(s: string): (r: Option<nat>)
  {
    var parts := Split(s, '.');
    if |parts| == 1 then
      match ParseNat(s)
      case None => None
      case Some(v) => Some(v * 100)
    else if |parts| == 2 then
      match (ParseNat(parts[0]), ParseFraction(parts[1]))
      case (Some(v), Some(f)) => Some(v * 100 + f)
      case _ => None
    else None
  }

  lemma DigitsWithoutPoint(n: nat)
    ensures '.' !in Digits(n) && ',' !in Digits(n) && '\n' !in Digits(n)
  {
    var d := Digits(n);
    assert forall i :: 0 <= i < |d| ==> IsDigit(d[i]);
  }

  lemma FractionRoundTrip(f: nat)
    requires 0 < f < 100
    ensures '.' !in Fraction(f)[1..]
    ensures ParseFraction(Fraction(f)[1..]) == Some(f)
  {
    var hi, lo := f / 10, f % 10;
    DigitCharValue(hi);
    DigitCharValue(lo);
    if lo == 0 {
      assert Fraction(f)[1..] == [DigitChar(hi)];
    } else {
      assert Fraction(f)[1..] == [DigitChar(hi), DigitChar(lo)];
    }
  }

  /** Whole hours: the digits alone. */
  lemma WholeHoursRoundTrip(q: nat)
    ensures ParseHours(Digits(q)) == Some(q * 100)
  {
    DigitsWithoutPoint(q);
    SplitWithout(Digits(q), '.');
    ParseDigits(q);
  }

  /** Hours with a fraction: the digits, a point and one or two digits. */
  lemma FractionalHoursRoundTrip(q: nat, f: nat)
    requires 0 < f < 100
    ensures ParseHours(Digits(q) + Fraction(f)) == Some(q * 100 + f)
  {
    var whole, b := Digits(q), Fraction(f)[1..];
    assert Digits(q) + Fraction(f) == whole + ['.'] + b;
    DigitsWithoutPoint(q);
    FractionRoundTrip(f);
    SplitAtFirst(whole, '.', b);
    SplitWithout(b, '.');
    ParseDigits(q);
  }

  /** Reading the hours text back gives the hundredths it was written from. */
  lemma HoursRoundTrip(h: nat)
    ensures ParseHours(HoursText(h)) == Some(h)
  {
    var q, f := h / 100, h % 100;
    assert h == q * 100 + f;
    if f == 0 {
      assert HoursText(h) == Digits(q);
      WholeHoursRoundTrip(q);
    } else {
      FractionalHoursRoundTrip(q, f);
    }
  }

  /** Whole hours are written without a decimal point, a half hour ends in ".5". */
  lemma HoursTextShape(h: nat)
    ensures h % 100 == 0 ==> HoursText(h) == Decimal(h / 100)
    ensures h % 100 == 50 ==> HoursText(h) == Decimal(h / 100) + ".5"
  {
  }

  /** The hours field holds neither the field separator nor the line separator. */
  lemma HoursTextSeparators(h: nat)
    ensures ',' !in HoursText(h) && '\n' !in HoursText(h)
  {
    DigitsWithoutPoint(h / 100);
    var fr := Fraction(h % 100);
    assert forall i :: 1 <= i < |fr| ==> IsDigit(fr[i]);
  }

  // ---------------------------------------------------------------------
  // The CSV text
  // ---------------------------------------------------------------------

  const Header: string := "Date,Hours,Notes"

  /** `${row.date},${row.hours},${JSON.stringify(row.notes)}`. */
  function RowLine(row: Row): (line: string)
  {
    row.date + "," + HoursText(row.hours) + "," + Quote(row.notes)
  }

  /** The reduce that starts from the header and appends "\n" and a line per row. */
  function Csv(rows: seq<Row>): (csv: string)
    ensures Header <= csv
  {
    if rows == [] then Header else Csv(rows[..|rows| - 1]) + "\n" + RowLine(rows[|rows| - 1])
  }

  predicate PlainDates(rows: seq<Row>)
  {
    forall i :: 0 <= i < |rows| ==> ',' !in rows[i].date && '\n' !in rows[i].date
  }

  lemma LineWithoutNewline(row: Row)
    requires '\n' !in row.date
    ensures '\n' !in RowLine(row)
  {
    HoursTextSeparators(row.hours);
  }

  /** The row lines, in row order. */
  function Lines(rows: seq<Row>): (lines: seq<string>)
    ensures |lines| == |rows|
  {
    Each(RowLine, rows)
  }

  /** The text f gives for each element, in order. */
  function Each<T>(f: T -> string, xs: seq<T>): (ys: seq<string>)
    ensures |ys| == |xs|
  {
    if xs == [] then [] else Each(f, xs[..|xs| - 1]) + [f(xs[|xs| - 1])]
  }

  lemma {:induction false} EachAt<T>(f: T -> string, xs: seq<T>)
    ensures forall i :: 0 <= i < |xs| ==> Each(f, xs)[i] == f(xs[i])
  {
    if xs != [] {
      var init := xs[..|xs| - 1];
      EachAt(f, init);
      assert forall i :: 0 <= i < |init| ==> init[i] == xs[i];
    }
  }

  /** Line i is the line of row i. */
  lemma LinesAt(rows: seq<Row>)
    ensures forall i :: 0 <= i < |rows| ==> Lines(rows)[i] == RowLine(rows[i])
  {
    EachAt(RowLine, rows);
  }

  /** The header followed by the given lines, each put after a "\n". */
  function Joined(lines: seq<string>): (text: string)
  {
    if lines == [] then Header else Joined(lines[..|lines| - 1]) + "\n" + lines[|lines| - 1]
  }

  lemma {:induction false} CsvJoinsLines(rows: seq<Row>)
    ensures Csv(rows) == Joined(Lines(rows))
  {
    if rows != [] {
      var init := rows[..|rows| - 1];
      CsvJoinsLines(init);
      var lines := Lines(rows);
      assert lines[..|lines| - 1] == Lines(init);
    }
  }

  lemma {:induction false} SplitJoined(lines: seq<string>)
    requires forall i :: 0 <= i < |lines| ==> '\n' !in lines[i]
    ensures Split(Joined(lines), '\n') == [Header] + lines
  {
    if lines == [] {
      SplitWithout(Header, '\n');
    } else {
      var n := |lines| - 1;
      var init := lines[..n];
      SplitJoined(init);
      SplitAppend(Joined(init), '\n', lines[n]);
      assert init + [lines[n]] == lines;
    }
  }

  /**
   * The text is the header and then exactly one line per row, in order:
   * splitting at "\n" gives |rows| + 1 lines, and the last line is the
   * last row's, so there is no trailing newline.
   */
  lemma CsvLines(rows: seq<Row>)
    requires forall i :: 0 <= i < |rows| ==> '\n' !in rows[i].date
    ensures Split(Csv(rows), '\n') == [Header] + Lines(rows)
    ensures forall i :: 0 <= i < |rows| ==> Lines(rows)[i] == RowLine(rows[i])
  {
    LinesAt(rows);
    forall i | 0 <= i < |rows| ensures '\n' !in Lines(rows)[i] {
      LineWithoutNewline(rows[i]);
    }
    CsvJoinsLines(rows);
    SplitJoined(Lines(rows));
  }

  /** The last character is the closing quote of the last row's notes: no newline at the end. */
  lemma CsvEnding(rows: seq<Row>)
    ensures rows == [] ==> Csv(rows) == Header
    ensures rows != [] ==> Csv(rows)[|Csv(rows)| - 1] == '"'
  {
  }

  // ---------------------------------------------------------------------
  // Reading the CSV back
  // ---------------------------------------------------------------------

  /** A line `date,hours,"notes"`: the text before the first comma, between the first two commas, and after the second. */
  function SplitFields(line: string): (r: Option<(string, string, string)>)
  {
    match IndexOf(line, ",")
    case None => None
    case Some(i) =>
      var rest := line[i + 1..];
      match IndexOf(rest, ",")
      case None => None
      case Some(j) => Some((line[..i], rest[..j], rest[j + 1..]))
  }

  /** One CSV line read back as a row: a date, hours with at most two decimals, a JSON string. */
  function ParseRowLine(line: string): (r: Option<Row>)
  {
    match SplitFields(line)
    case None => None
    case Some((date, hours, notes)) =>
      match (ParseHours(hours), Unquote(notes))
      case (Some(h), Some(n)) => Some(Row(date, h, n))
      case _ => None
  }

  function ParseRows(lines: seq<string>): (r: Option<seq<Row>>)
    ensures r.Some? ==> |r.value| == |lines|
  {
    if lines == [] then Some([])
    else
      match (ParseRows(lines[..|lines| - 1]), ParseRowLine(lines[|lines| - 1]))
      case (Some(rows), Some(row)) => Some(rows + [row])
      case _ => None
  }

  /** The rows of a CSV text with the expected header. */
  function ParseCsv(text: string): (r: Option<seq<Row>>)
  {
    var lines := Split(text, '\n');
    if lines[0] == Header then ParseRows(lines[1..]) else None
  }

  /** The first two commas split a line into its three fields. */
  lemma ParseFields(date: string, hours: string, notes: string)
    requires ',' !in date && ',' !in hours
    ensures SplitFields(date + "," + hours + "," + notes) == Some((date, hours, notes))
  {
    var line := date + "," + hours + "," + notes;
    var rest := hours + [','] + notes;
    assert line == date + [','] + rest;
    IndexOfSeparator(date, ',', rest);
    assert line[..|date|] == date && line[|date| + 1..] == rest;
    IndexOfSeparator(hours, ',', notes);
    assert rest[..|hours|] == hours && rest[|hours| + 1..] == notes;
  }

  lemma RowLineRoundTrip(row: Row)
    requires ',' !in row.date
    ensures ParseRowLine(RowLine(row)) == Some(row)
  {
    HoursTextSeparators(row.hours);
    ParseFields(row.date, HoursText(row.hours), Quote(row.notes));
    HoursRoundTrip(row.hours);
    QuoteRoundTrip(row.notes);
  }

  lemma {:induction false} ParseRowsOfLines(rows: seq<Row>)
    requires PlainDates(rows)
    ensures ParseRows(Lines(rows)) == Some(rows)
  {
    if rows != [] {
      var n := |rows| - 1;
      assert rows[..n] + [rows[n]] == rows;
      var lines := Lines(rows);
      assert lines[..n] == Lines(rows[..n]);
      assert PlainDates(rows[..n]);
      ParseRowsOfLines(rows[..n]);
      RowLineRoundTrip(rows[n]);
    }
  }

  /** Reading the written CSV gives back the rows, when no date holds a comma or a newline. */
  lemma CsvRoundTrip(rows: seq<Row>)
    requires PlainDates(rows)
    ensures ParseCsv(Csv(rows)) == Some(rows)
  {
    CsvLines(rows);
    assert ([Header] + Lines(rows))[1..] == Lines(rows);
    ParseRowsOfLines(rows);
  }

  /** Different row lists give different files. */
  lemma CsvInjective(rows: seq<Row>, other: seq<Row>)
    requires PlainDates(rows) && PlainDates(other)
    requires Csv(rows) == Csv(other)
    ensures rows == other
  {
    CsvRoundTrip(rows);
    CsvRoundTrip(other);
  }
}
