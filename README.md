# Harvest to Toptal timesheets, modelled in Dafny

`index.js` is a command-line tool. It fetches one client's Harvest time
entries for a half-month period and writes them as a Toptal-style CSV timesheet.
This project models the computational core of that tool and proves what it
computes:

- **Date formatting** (`DateFormat`). `pad` writes a two-digit field and
  `toDateString` writes `YYYY-MM-DD`. A reader for that text inverts it.
- **The calendar** (`Calendar`). This models the JavaScript `Date`
  constructor `new Date(year, monthIndex, day)`:
  - a month index outside 0..11, or a day outside the month, rolls over into
    neighbouring months and years;
  - years 0..99 mean 1900..1999.

  A proleptic Gregorian day count (`DayNumber`) is the independent reference
  against which the constructor and the periods are checked.
- **Timesheet periods** (`Periods`). `getTimesheetPeriods` offers the two
  half-months of the current month after the 15th. Until then it also offers
  the second half of the previous month. `timesheetPeriodChoices` turns each
  period into a titled choice such as `March 16 to 31`. The clock reading
  ("today") is a parameter.
- **Aggregation** (`Aggregation`). The `reduce` folds the time entries into a
  `Map` from `spent_date` to one row per day:
  - it sums `rounded_hours`;
  - it collects task names into the notes: the first `" / "` in a name
    becomes `" & "`, and a name is appended after `"; "` unless the raw name
    already occurs in the notes.

  `Array.from(map.values())` then lists the rows in the order their dates
  were first seen. `Aggregation.AggregateEntries` is the loop over an
  insertion-ordered map (a key sequence plus a `map`). It is proved to compute
  the fold `Aggregation.Aggregate`. That fold is characterised entry by entry:
  - one row per distinct date;
  - each row's hours are the sum of its day's entries;
  - its notes are built from that day's task names in order;
  - the rows come in first-seen order.
- **Report** (`Report`). This covers the printed total and the CSV text.
  - The CSV is the header `Date,Hours,Notes`, then for each row a `"\n"` and
    `date,hours,notes`.
  - The notes are written with `JSON.stringify` (`JsonString`), which applies
    the string escapes of section 7 of RFC 8259.
  - A reader for the CSV text inverts the writer.
- `JsText` holds the JavaScript string operations the code uses:
  - `indexOf`, `includes`, and `replace` with a string pattern;
  - the decimal text of an integer.

  It also holds a `split` on one character. The code never calls `split`;
  the model's own readers (`Report.ParseHours`, `Report.ParseCsv`) and
  `Periods.TitleWords` use it.

Hours are kept as whole hundredths of an hour. `Report.HoursText` writes such
a number the way JavaScript prints it:
- a whole number has no decimal point;
- a fraction has no trailing zero.

The duplicate test of the notes follows the code: `includes` is applied to the
raw task name, not the normalised one (index.js:195). A name containing
`" / "` never occurs in its own normalised form. So when the entry right
after a day's first entry has the same such name, the name is appended again
(`Aggregation.RepeatedSlashTaskIsDuplicated`). The notes field is quoted by
`JSON.stringify`, which escapes `"` as `\"` and does not double it, and the
model does the same.

## Model

| member | source | states |
|---|---|---|
| DateFormat.PadTwoDigits | index.js:8-13 | for 0 <= n < 100, `pad(n)` is exactly two decimal digits whose value is n |
| DateFormat.PadAddsZeroBelowTen | index.js:8-13 | a zero is put in front exactly when the number is below ten; otherwise the number's own text is returned |
| DateFormat.DateStringRoundTrip | index.js:15-19 | reading `YYYY-MM-DD` back gives the date it was written from; the text is the year's digits plus six characters |
| DateFormat.DateStringLength | index.js:15-19 | a date of a four-digit year is written in exactly ten characters |
| DateFormat.DateStringInjective | index.js:15-19 | two different valid dates never give the same text |
| Calendar.ConstructorYear | index.js:28-48 | the `Date` constructor keeps a year outside 0..99 and maps 0..99 into 1900..1999, keeping the last two digits |
| Calendar.MakeDate | index.js:28-48 | `new Date(year, monthIndex, day)` always yields a valid calendar date, whatever the month index and day |
| Calendar.MakeDateDayNumber | index.js:28-48 | the constructed date lies `day - 1` days after the first of month `monthIndex` of the constructor's year, so out-of-range days and months roll over |
| Calendar.MakeDateInMonth | index.js:28-48 | a day from 1 to 28 stays in the month the month index names, across year boundaries |
| Calendar.MakeDateDayZero | index.js:28-48 | day 0 is the last day of the previous month |
| Calendar.DayNumberInjective | index.js:28-48 | distinct valid dates have distinct day numbers, so day counts identify dates |
| Calendar.DayNumberOrdered | index.js:28-48 | day numbers follow calendar order |
| Calendar.MonthEndThenMonthStart | index.js:28-48 | the first of a month is the day after the last day of the month before |
| Periods.TimesheetPeriods | index.js:21-52 | two periods after the 15th and three otherwise, each between valid dates |
| Periods.PeriodsByMonthNumber | index.js:21-52 | the periods are the half-months around the first of the constructor's current month: the current halves when late, the previous month's second half first when early |
| Periods.PeriodsAreHalfMonths | index.js:21-52 | after the 15th: the 1st-15th then the 16th-last of a month; otherwise: a second half then a first half then a second half; each period starts no later than it ends |
| Periods.HalfMonthLength | index.js:21-52 | a first half spans 15 days, a second half 13 to 16 days |
| Periods.PeriodsContiguous | index.js:21-52 | each period starts the day after the previous one ends |
| Periods.ConstructorMonthStart | index.js:21-52 | the periods are built around the first of today's month in the year the constructor reads |
| Periods.PeriodsAroundToday | index.js:21-52 | the middle-or-second period is today's month's and contains today; the last ends on its last day (years outside 0..99) |
| Periods.JanuaryStartsInDecember | index.js:36-51 | on the 1st to 15th of January the first period is 16-31 December of the year before the constructor's year |
| Periods.TwoDigitYearsMeanThe1900s | index.js:21-52 | in years 0..99 the last period ends on the last day of today's month of 1900 + year, and the second period starts in that month; every period lies in 1900 + year, except that from 1 to 15 January the first period lies in December of 1899 + year |
| Periods.TimesheetPeriodChoices | index.js:54-63 | one choice per period, in order, whose value is the period and whose title is its title |
| Periods.TitleWords | index.js:54-63 | a title is the long month name of the start, the start day, `to`, and the end day, separated by single spaces |
| Periods.MonthNameInjective | index.js:54-63 | the twelve English month names are distinct |
| Periods.ChoiceTitlesDistinct | index.js:54-63 | no two offered choices have the same title |
| Aggregation.NormalizeTask | index.js:197 | only the first `" / "` is replaced by `" & "`; every other character keeps its place; without one the name is unchanged |
| Aggregation.MergeNotes | index.js:195-199 | the notes only grow; they stay the same exactly when the raw task name already occurs in them; otherwise `"; "` and the normalised name are appended |
| Aggregation.FindRow | index.js:190 | `rows.get(date)` finds the row of that date, or reports that no row has that date |
| Aggregation.Store | index.js:190-207 | one call of the callback on the map keeps the keys distinct and in insertion order, and changes the listed rows as one fold step does |
| Aggregation.AggregateEntries | index.js:187-211 | the loop over the map followed by `Array.from(rows.values())` yields exactly the fold of the entries |
| Aggregation.Values | index.js:210-211 | `Array.from(rows.values())` lists the stored rows in key insertion order |
| Aggregation.AggregateGroupsByDate | index.js:187-211 | one row per distinct date; every entry's date has a row; each row's hours are the sum of its day's entries and its notes are built from that day's task names in order; rows are in first-seen order |
| Aggregation.AggregateOneEntry | index.js:202-206 | a single entry gives one row with its date, hours and normalised task name |
| Aggregation.AggregateNormalizedDuplicate | index.js:192-200 | a second entry of the same day named like the first's normalised name adds its hours and leaves the notes as they were |
| Aggregation.NotesStartWithFirstTask | index.js:202-206 | a day's notes begin with the normalised name of its first task |
| Aggregation.NotesGrowAtTheEnd | index.js:195-199 | the notes after any number of a day's entries are a prefix of the final notes |
| Aggregation.MergeNotesIdempotent | index.js:195-199 | for a task name without `" / "`, merging it twice is the same as merging it once |
| Aggregation.RepeatedSlashTaskIsDuplicated | index.js:195-199 | a name containing `" / "` never occurs in its own normalised form, so an entry with that name right after the day's first entry with the same name appends it again |
| Report.TotalConservesHours | index.js:218-221 | the printed total of the rows equals the sum of all entries' rounded hours |
| Report.TotalUpdate | index.js:218-221 | replacing one row changes the total by that row's change in hours |
| Report.HoursRoundTrip | index.js:232 | reading the written hours back gives the hundredths they were written from |
| Report.HoursTextShape | index.js:232 | whole hours are written as the plain integer, a half hour ends in `.5` |
| Report.HoursTextSeparators | index.js:232 | the hours field never holds a comma or a newline |
| Report.Csv | index.js:228-236 | the text always starts with the header `Date,Hours,Notes` |
| Report.CsvLines | index.js:228-236 | when no date holds a newline, splitting the text at `"\n"` gives the header and then exactly one line per row, in row order, so there are rows + 1 lines and no trailing newline |
| Report.CsvEnding | index.js:228-236 | no rows gives the bare header; otherwise the last character is the closing quote of the last notes |
| Report.RowLineRoundTrip | index.js:232 | a row line reads back as the row, when the date holds no comma |
| Report.CsvRoundTrip | index.js:228-236 | reading the CSV text gives back the rows, when no date holds a comma or a newline |
| Report.CsvInjective | index.js:228-236 | different row lists give different file contents, when no date holds a comma or a newline |
| JsonString.Quote | index.js:232 | `JSON.stringify` of a string starts and ends with a quote and holds no raw newline or carriage return |
| JsonString.QuoteRoundTrip | index.js:232 | decoding an RFC 8259 string literal written by `JSON.stringify` gives back the original notes |
| JsonString.QuoteInjective | index.js:232 | different notes are quoted differently |
| JsonString.QuotePlain | index.js:232 | text without quotes, backslashes or control characters is only wrapped in quotes |
| JsText.IndexOf | index.js:195-197 | `indexOf` finds the first occurrence of the pattern, or reports that it occurs nowhere |
| JsText.Includes | index.js:195 | `includes` holds exactly when the pattern occurs somewhere |
| JsText.ReplaceFirstSameLength | index.js:197 | with an equally long replacement, `replace` overwrites the first occurrence and keeps every other character |
| JsText.ParseDecimal | index.js:15-19 | the decimal text of an integer reads back as that integer |

## Left out

- Reading `.env`, the configuration wizard and writing `.env` (index.js:66-142): interactive I/O and the file system.
- The Harvest client, the list of active clients and the time-entry request (index.js:144-180): network calls. The entries are a parameter of the aggregation.
- The `total_pages > 1` exit (index.js:182-185): it ends the process and computes nothing.
- The prompts (index.js:154-174): user interaction. The client list's `reverse()` only orders a menu.
- Printing the rows and the total to the console, the output file name, and writing the file (index.js:213-238): output. The printed total and the file contents are modelled.
- The clock: `new Date()` in `getTimesheetPeriods` becomes the parameter `today`, a valid calendar date. Time zones and the time of day are not modelled.
- Calendar.MakeDate: the JavaScript `Date` range limit of ±8.64e15 ms is not modelled; years are unbounded integers.
- Periods.MonthName: `Intl.DateTimeFormat("en-US", { month: "long" })` is a fixed table of the twelve English month names; other locales are not modelled.
- Periods.PeriodsAroundToday: stated for years outside 0..99 only. Only there does the constructor build the periods in today's own year, so only there does the second period contain today. Periods.TwoDigitYearsMeanThe1900s states where the periods lie in years 0..99.
- Report.HoursText: hours are whole hundredths of an hour, not IEEE-754 doubles. Sums of hours are exact, and the text is that of the exact decimal; floating-point rounding in sums such as 0.1 + 0.2 is not modelled.
- JsonString.Quote: strings are sequences of Unicode scalar values, so the escaping of lone surrogates by `JSON.stringify` is not modelled, and the decoder rejects `\u` escapes of surrogates.
- Report.CsvRoundTrip, Report.CsvInjective: stated for dates without commas or newlines. Harvest's `spent_date` is a `YYYY-MM-DD` string, but the model takes it as arbitrary text. A date holding a comma or a newline can make two different row lists give the same text.
- Report.CsvLines: stated for dates without newlines; a newline in a date adds a line.
