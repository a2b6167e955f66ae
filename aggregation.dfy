/**
 * The time-entry aggregation: a `reduce` that folds the fetched time
 * entries into a `Map` from `spent_date` to one row per day, summing the
 * hours and collecting task names into the notes, followed by
 * `Array.from(rows.values())`, which lists the rows in the order their
 * keys were first inserted.
 *
 * `Aggregate` is the fold on an association list (the Map's entries in
 * insertion order); `AggregateEntries` is the loop over a key sequence
 * and a map, proved to compute it.
 */
module Aggregation {
  import opened Optional
  import opened JsText

  /** The fields of a Harvest time entry that the aggregation reads; the rounded duration in hundredths of an hour. */
  datatype Entry = Entry(spentDate: string, roundedHours: nat, taskName: string)

  /** One CSV row: a day, its hours (hundredths) and its notes. */
  datatype Row = Row(date: string, hours: nat, notes: string)

  // ---------------------------------------------------------------------
  // Building the notes
  // ---------------------------------------------------------------------

  /** `name.replace(" / ", " & ")`: only the first " / " becomes " & ". */
  function NormalizeTask(name: string): (r: string)
    ensures |r| == |name|
    ensures !Includes(name, " / ") ==> r == name
    ensures Includes(name, " / ") ==>
      var i := IndexOf(name, " / ").value;
      && r[i..i + 3] == " & "
      && (forall k :: 0 <= k < |name| && !(i <= k < i + 3) ==> r[k] == name[k])
  {
    ReplaceFirstSameLength(name, " / ", " & ");
    ReplaceFirst(name, " / ", " & ")
  }

  /**
   * The notes after a later entry of the same day: the normalised task name
   * is appended after "; " unless the RAW task name already occurs in them.
   */
  function MergeNotes(notes: string, taskName: string): (r: string)
    ensures notes <= r
    ensures r == notes <==> Includes(notes, taskName)
    ensures r != notes ==> r[|notes|..] == "; " + NormalizeTask(taskName)
  {
    if Includes(notes, taskName) then notes else notes + "; " + NormalizeTask(taskName)
  }

  // ---------------------------------------------------------------------
  // The reduce over an insertion-ordered map
  // ---------------------------------------------------------------------

  /** `rows.get(date)` on the map's entries: the position of the row for a date. */
  function FindRow(rows: seq<Row>, date: string): (r: Option<nat>)
    ensures r.Some? ==> r.value < |rows| && rows[r.value].date == date
    ensures r.None? ==> forall i :: 0 <= i < |rows| ==> rows[i].date != date
  {
    if rows == [] then None
    else if rows[0].date == date then Some(0)
    else match FindRow(rows[1..], date)
      case None => None
      case Some(i) => Some(i + 1)
  }

  /**
   * The reduce callback: with a row for the entry's date, `set` replaces
   * that row in its place; without one, `set` adds a row at the end.
   */
  function AddEntry(rows: seq<Row>, entry: Entry): (r: seq<Row>)
  {
    match FindRow(rows, entry.spentDate)
    case Some(i) =>
      rows[i := Row(entry.spentDate, rows[i].hours + entry.roundedHours, MergeNotes(rows[i].notes, entry.taskName))]
    case None =>
      rows + [Row(entry.spentDate, entry.roundedHours, NormalizeTask(entry.taskName))]
  }

  /** The rows that the reduce and `Array.from(rows.values())` produce. */
  function Aggregate(entries: seq<Entry>): (rows: seq<Row>)
  {
    if entries == [] then [] else AddEntry(Aggregate(entries[..|entries| - 1]), entries[|entries| - 1])
  }

  // ---------------------------------------------------------------------
  // The same computation with a mutable map, as the source does it
  // ---------------------------------------------------------------------

  /** The map's values listed in key insertion order. */
  function InOrder(keys: seq<string>, byDate: map<string, Row>): (rows: seq<Row>)
    requires forall i :: 0 <= i < |keys| ==> keys[i] in byDate
    ensures |rows| == |keys|
    ensures forall i :: 0 <= i < |keys| ==> rows[i] == byDate[keys[i]]
  {
    seq(|keys|, i requires 0 <= i < |keys| => byDate[keys[i]])
  }

  predicate DistinctKeys(keys: seq<string>)
  {
    forall i, j :: 0 <= i < j < |keys| ==> keys[i] != keys[j]
  }

  /** The state the loop keeps: the keys in insertion order, each once, and the row stored under each. */
  predicate OrderedMap(keys: seq<string>, byDate: map<string, Row>)
  {
    && DistinctKeys(keys)
    && (forall i :: 0 <= i < |keys| ==> keys[i] in byDate)
    && (forall k :: k in byDate ==> k in keys && byDate[k].date == k)
  }

  lemma FindRowInOrder(keys: seq<string>, byDate: map<string, Row>, date: string)
    requires OrderedMap(keys, byDate)
    ensures date in byDate ==> FindRow(InOrder(keys, byDate), date).Some? && keys[FindRow(InOrder(keys, byDate), date).value] == date
    ensures date !in byDate ==> FindRow(InOrder(keys, byDate), date).None?
  {
    var rows := InOrder(keys, byDate);
    assert forall i :: 0 <= i < |keys| ==> rows[i].date == keys[i];
    if date in byDate {
      assert exists j :: 0 <= j < |keys| && keys[j] == date;
      var i := FindRow(rows, date).value;
      assert keys[i] == date;
    }
  }

  /** `set` on a stored key replaces the value in its place in the key order. */
  lemma SetStored(keys: seq<string>, byDate: map<string, Row>, i: nat, r: Row)
    requires OrderedMap(keys, byDate) && i < |keys| && keys[i] == r.date
    ensures OrderedMap(keys, byDate[r.date := r])
    ensures InOrder(keys, byDate[r.date := r]) == InOrder(keys, byDate)[i := r]
  {
    assert forall j :: 0 <= j < |keys| && j != i ==> keys[j] != r.date;
  }

  /** `set` on a new key adds the value at the end of the key order. */
  lemma SetNew(keys: seq<string>, byDate: map<string, Row>, r: Row)
    requires OrderedMap(keys, byDate) && r.date !in byDate
    ensures OrderedMap(keys + [r.date], byDate[r.date := r])
    ensures InOrder(keys + [r.date], byDate[r.date := r]) == InOrder(keys, byDate) + [r]
  {
    assert r.date !in keys;
    var keys' := keys + [r.date];
    assert DistinctKeys(keys');
    assert forall j :: 0 <= j < |keys| ==> InOrder(keys', byDate[r.date := r])[j] == InOrder(keys, byDate)[j];
  }

  /** A later entry of a stored date replaces the row under that date; the key order is kept. */
  lemma UpdateStoredRow(keys: seq<string>, byDate: map<string, Row>, entry: Entry, r: Row)
    requires OrderedMap(keys, byDate) && entry.spentDate in byDate
    requires var prev := byDate[entry.spentDate];
      r == Row(entry.spentDate, prev.hours + entry.roundedHours, MergeNotes(prev.notes, entry.taskName))
    ensures OrderedMap(keys, byDate[entry.spentDate := r])
    ensures InOrder(keys, byDate[entry.spentDate := r]) == AddEntry(InOrder(keys, byDate), entry)
  {
    var d, rows := entry.spentDate, InOrder(keys, byDate);
    FindRowInOrder(keys, byDate, d);
    var i := FindRow(rows, d).value;
    assert rows[i] == byDate[d];
    SetStored(keys, byDate, i, r);
    AddEntryAt(rows, entry, i);
  }

  /** The first entry of a date stores a row under a new key at the end. */
  lemma StoreNewRow(keys: seq<string>, byDate: map<string, Row>, entry: Entry, r: Row)
    requires OrderedMap(keys, byDate) && entry.spentDate !in byDate
    requires r == Row(entry.spentDate, entry.roundedHours, NormalizeTask(entry.taskName))
    ensures OrderedMap(keys + [entry.spentDate], byDate[entry.spentDate := r])
    ensures InOrder(keys + [entry.spentDate], byDate[entry.spentDate := r]) == AddEntry(InOrder(keys, byDate), entry)
  {
    FindRowInOrder(keys, byDate, entry.spentDate);
    SetNew(keys, byDate, r);
    AddEntryNew(InOrder(keys, byDate), entry);
  }

  /**
   * One call of the reduce callback on the mutable map: `rows.get` the
   * entry's date, then `rows.set` the merged or the new row.
   */
  method Store(keys: seq<string>, byDate: map<string, Row>, entry: Entry) returns (keys': seq<string>, byDate': map<string, Row>)
    requires OrderedMap(keys, byDate)
    ensures OrderedMap(keys', byDate')
    ensures InOrder(keys', byDate') == AddEntry(InOrder(keys, byDate), entry)
  {
    var d := entry.spentDate;
    if d in byDate {
      var prev := byDate[d];
      var row := Row(d, prev.hours + entry.roundedHours, MergeNotes(prev.notes, entry.taskName));
      UpdateStoredRow(keys, byDate, entry, row);
      keys', byDate' := keys, byDate[d := row];
    } else {
      var row := Row(d, entry.roundedHours, NormalizeTask(entry.taskName));
      StoreNewRow(keys, byDate, entry, row);
      keys', byDate' := keys + [d], byDate[d := row];
    }
  }

  /** The reduce over the fetched entries followed by `Array.from(rows.values())`. */
  method AggregateEntries(entries: seq<Entry>) returns (rows: seq<Row>)
    ensures rows == Aggregate(entries)
  {
    var keys: seq<string> := [];
    var byDate: map<string, Row> := map[];
    for n := 0 to |entries|
      invariant OrderedMap(keys, byDate)
      invariant InOrder(keys, byDate) == Aggregate(entries[..n])
    {
      assert entries[..n + 1][..n] == entries[..n];
      keys, byDate := Store(keys, byDate, entries[n]);
    }
    assert entries[..|entries|] == entries;
    rows := Values(keys, byDate);
  }

  /** `Array.from(rows.values())`: the stored rows in key insertion order. */
  method Values(keys: seq<string>, byDate: map<string, Row>) returns (rows: seq<Row>)
    requires forall i :: 0 <= i < |keys| ==> keys[i] in byDate
    ensures rows == InOrder(keys, byDate)
  {
    rows := [];
    for n := 0 to |keys|
      invariant |rows| == n
      invariant forall i :: 0 <= i < n ==> rows[i] == byDate[keys[i]]
    {
      rows := rows + [byDate[keys[n]]];
    }
  }

  // ---------------------------------------------------------------------
  // What the rows are, entry by entry
  // ---------------------------------------------------------------------

  /** The entries of one day, in input order. */
  function EntriesOn(entries: seq<Entry>, date: string): (r: seq<Entry>)
    ensures forall k :: 0 <= k < |r| ==> r[k].spentDate == date
  {
    if entries == [] then []
    else
      var last := entries[|entries| - 1];
      EntriesOn(entries[..|entries| - 1], date) + (if last.spentDate == date then [last] else [])
  }

  function SumHours(entries: seq<Entry>): (hours: nat)
  {
    if entries == [] then 0 else SumHours(entries[..|entries| - 1]) + entries[|entries| - 1].roundedHours
  }

  function TaskNames(entries: seq<Entry>): (names: seq<string>)
    ensures |names| == |entries|
  {
    if entries == [] then [] else TaskNames(entries[..|entries| - 1]) + [entries[|entries| - 1].taskName]
  }

  /** The notes of a day with the given task names, in order: the first normalised, the rest merged. */
  function Notes(names: seq<string>): (notes: string)
    requires |names| >= 1
  {
    if |names| == 1 then NormalizeTask(names[0]) else MergeNotes(Notes(names[..|names| - 1]), names[|names| - 1])
  }

  /** The index of the first entry of a date; |entries| when there is none. */
  function FirstIndex(entries: seq<Entry>, date: string): (k: nat)
    ensures k <= |entries|
    ensures k < |entries| ==> entries[k].spentDate == date
    ensures forall j :: 0 <= j < k ==> entries[j].spentDate != date
  {
    if entries == [] then 0
    else if entries[0].spentDate == date then 0
    else 1 + FirstIndex(entries[1..], date)
  }

  lemma EntriesOnAppend(entries: seq<Entry>, entry: Entry, date: string)
    ensures EntriesOn(entries + [entry], date) == EntriesOn(entries, date) + (if entry.spentDate == date then [entry] else [])
  {
    assert (entries + [entry])[..|entries|] == entries;
  }

  lemma SumHoursAppend(entries: seq<Entry>, entry: Entry)
    ensures SumHours(entries + [entry]) == SumHours(entries) + entry.roundedHours
    ensures TaskNames(entries + [entry]) == TaskNames(entries) + [entry.taskName]
  {
    assert (entries + [entry])[..|entries|] == entries;
  }

  lemma {:induction false} FirstIndexAppend(entries: seq<Entry>, entry: Entry, date: string)
    ensures FirstIndex(entries + [entry], date) ==
      if FirstIndex(entries, date) < |entries| then FirstIndex(entries, date)
      else if entry.spentDate == date then |entries|
      else |entries| + 1
  {
    if entries != [] {
      assert (entries + [entry])[1..] == entries[1..] + [entry];
      FirstIndexAppend(entries[1..], entry, date);
    }
  }

  lemma {:induction false} EntriesOnAbsent(entries: seq<Entry>, date: string)
    requires forall k :: 0 <= k < |entries| ==> entries[k].spentDate != date
    ensures EntriesOn(entries, date) == []
  {
    if entries != [] {
      EntriesOnAbsent(entries[..|entries| - 1], date);
    }
  }

  /** A row holds the total hours and the notes of the entries of its day. */
  ghost predicate Summarises(entries: seq<Entry>, row: Row)
  {
    && |EntriesOn(entries, row.date)| >= 1
    && row.hours == SumHours(EntriesOn(entries, row.date))
    && row.notes == Notes(TaskNames(EntriesOn(entries, row.date)))
  }

  ghost predicate DistinctDates(rows: seq<Row>)
  {
    forall i, j :: 0 <= i < j < |rows| ==> rows[i].date != rows[j].date
  }

  /** Some row is for the given date. */
  ghost predicate HasRow(rows: seq<Row>, date: string)
  {
    exists i :: 0 <= i < |rows| && rows[i].date == date
  }

  ghost predicate CoversDates(entries: seq<Entry>, rows: seq<Row>)
  {
    forall k :: 0 <= k < |entries| ==> HasRow(rows, entries[k].spentDate)
  }

  ghost predicate FirstSeenOrder(entries: seq<Entry>, rows: seq<Row>)
  {
    && (forall i :: 0 <= i < |rows| ==> FirstIndex(entries, rows[i].date) < |entries|)
    && (forall i, j :: 0 <= i < j < |rows| ==> FirstIndex(entries, rows[i].date) < FirstIndex(entries, rows[j].date))
  }

  ghost predicate GroupedByDate(entries: seq<Entry>, rows: seq<Row>)
  {
    && DistinctDates(rows)
    && CoversDates(entries, rows)
    && (forall i :: 0 <= i < |rows| ==> Summarises(entries, rows[i]))
    && FirstSeenOrder(entries, rows)
  }

  /** A row of another date still summarises its day after an entry is added. */
  lemma SummarisesOtherDay(entries: seq<Entry>, entry: Entry, row: Row)
    requires Summarises(entries, row) && row.date != entry.spentDate
    ensures Summarises(entries + [entry], row)
  {
    EntriesOnAppend(entries, entry, row.date);
    assert EntriesOn(entries + [entry], row.date) == EntriesOn(entries, row.date);
  }

  /** The row of the entry's own date, updated by AddEntry, summarises the longer day. */
  lemma SummarisesMerged(entries: seq<Entry>, entry: Entry, row: Row)
    requires Summarises(entries, row) && row.date == entry.spentDate
    ensures Summarises(entries + [entry], Row(row.date, row.hours + entry.roundedHours, MergeNotes(row.notes, entry.taskName)))
  {
    var on := EntriesOn(entries, row.date);
    EntriesOnAppend(entries, entry, row.date);
    SumHoursAppend(on, entry);
    assert TaskNames(on + [entry])[..|on|] == TaskNames(on);
  }

  /** The first entry of a date makes a row that summarises its one-entry day. */
  lemma SummarisesFirst(entries: seq<Entry>, entry: Entry)
    requires forall k :: 0 <= k < |entries| ==> entries[k].spentDate != entry.spentDate
    ensures Summarises(entries + [entry], Row(entry.spentDate, entry.roundedHours, NormalizeTask(entry.taskName)))
  {
    EntriesOnAppend(entries, entry, entry.spentDate);
    EntriesOnAbsent(entries, entry.spentDate);
    SumHoursAppend([], entry);
  }

  /** Rows that keep the old dates in their places, and have one for the new entry, still cover every date. */
  lemma CoversAfterAdd(entries: seq<Entry>, rows: seq<Row>, entry: Entry, rows': seq<Row>, w: nat)
    requires CoversDates(entries, rows)
    requires |rows| <= |rows'| && forall j :: 0 <= j < |rows| ==> rows'[j].date == rows[j].date
    requires w < |rows'| && rows'[w].date == entry.spentDate
    ensures CoversDates(entries + [entry], rows')
  {
    var all := entries + [entry];
    forall k | 0 <= k < |all| ensures HasRow(rows', all[k].spentDate) {
      if k < |entries| {
        assert HasRow(rows, entries[k].spentDate);
        var j :| 0 <= j < |rows| && rows[j].date == entries[k].spentDate;
        assert rows'[j].date == all[k].spentDate;
      } else {
        assert rows'[w].date == all[k].spentDate;
      }
    }
  }

  /** An entry of a date already seen leaves every first index in place. */
  lemma OrderAfterUpdate(entries: seq<Entry>, rows: seq<Row>, entry: Entry, rows': seq<Row>)
    requires FirstSeenOrder(entries, rows)
    requires |rows'| == |rows| && forall j :: 0 <= j < |rows| ==> rows'[j].date == rows[j].date
    ensures FirstSeenOrder(entries + [entry], rows')
  {
    forall j | 0 <= j < |rows'| ensures FirstIndex(entries + [entry], rows'[j].date) == FirstIndex(entries, rows[j].date) {
      FirstIndexAppend(entries, entry, rows[j].date);
    }
  }

  /** The first entry of a new date is seen after every date before it. */
  lemma OrderAfterNew(entries: seq<Entry>, rows: seq<Row>, entry: Entry, rows': seq<Row>)
    requires FirstSeenOrder(entries, rows)
    requires forall k :: 0 <= k < |entries| ==> entries[k].spentDate != entry.spentDate
    requires |rows'| == |rows| + 1 && rows'[|rows|].date == entry.spentDate
    requires forall j :: 0 <= j < |rows| ==> rows'[j].date == rows[j].date
    ensures FirstSeenOrder(entries + [entry], rows')
  {
    var all := entries + [entry];
    FirstIndexAppend(entries, entry, entry.spentDate);
    assert FirstIndex(all, rows'[|rows|].date) == |entries|;
    forall j | 0 <= j < |rows| ensures FirstIndex(all, rows'[j].date) == FirstIndex(entries, rows[j].date) < |entries| {
      FirstIndexAppend(entries, entry, rows[j].date);
    }
    assert forall j :: 0 <= j < |rows'| ==> FirstIndex(all, rows'[j].date) < |all|;
    forall j, k | 0 <= j < k < |rows'| ensures FirstIndex(all, rows'[j].date) < FirstIndex(all, rows'[k].date) {
      if k < |rows| {
        assert FirstIndex(entries, rows[j].date) < FirstIndex(entries, rows[k].date);
      }
    }
  }

  lemma SummariesAfterUpdate(entries: seq<Entry>, rows: seq<Row>, entry: Entry, i: nat)
    requires DistinctDates(rows) && i < |rows| && rows[i].date == entry.spentDate
    requires forall j :: 0 <= j < |rows| ==> Summarises(entries, rows[j])
    ensures var rows' := rows[i := Row(entry.spentDate, rows[i].hours + entry.roundedHours, MergeNotes(rows[i].notes, entry.taskName))];
      forall j :: 0 <= j < |rows'| ==> Summarises(entries + [entry], rows'[j])
  {
    var merged := Row(entry.spentDate, rows[i].hours + entry.roundedHours, MergeNotes(rows[i].notes, entry.taskName));
    var rows' := rows[i := merged];
    forall j | 0 <= j < |rows'| ensures Summarises(entries + [entry], rows'[j]) {
      if j == i {
        SummarisesMerged(entries, entry, rows[i]);
      } else {
        SummarisesOtherDay(entries, entry, rows[j]);
      }
    }
  }

  lemma AddEntryNew(rows: seq<Row>, entry: Entry)
    requires FindRow(rows, entry.spentDate).None?
    ensures AddEntry(rows, entry) == rows + [Row(entry.spentDate, entry.roundedHours, NormalizeTask(entry.taskName))]
  {
  }

  lemma AddEntryAt(rows: seq<Row>, entry: Entry, i: nat)
    requires FindRow(rows, entry.spentDate) == Some(i)
    ensures AddEntry(rows, entry) == rows[i := Row(entry.spentDate, rows[i].hours + entry.roundedHours, MergeNotes(rows[i].notes, entry.taskName))]
  {
  }

  /** An entry for a date that has a row updates that row in its place. */
  lemma AddEntryToRow(entries: seq<Entry>, rows: seq<Row>, entry: Entry, i: nat)
    requires GroupedByDate(entries, rows)
    requires FindRow(rows, entry.spentDate) == Some(i)
    ensures GroupedByDate(entries + [entry], AddEntry(rows, entry))
  {
    var all := entries + [entry];
    var merged := Row(entry.spentDate, rows[i].hours + entry.roundedHours, MergeNotes(rows[i].notes, entry.taskName));
    var rows' := rows[i := merged];
    AddEntryAt(rows, entry, i);
    assert forall j :: 0 <= j < |rows| ==> rows'[j].date == rows[j].date;
    CoversAfterAdd(entries, rows, entry, rows', i);
    OrderAfterUpdate(entries, rows, entry, rows');
    SummariesAfterUpdate(entries, rows, entry, i);
    assert DistinctDates(rows');
  }

  /** An entry for a new date adds a row at the end. */
  lemma AddEntryAsRow(entries: seq<Entry>, rows: seq<Row>, entry: Entry)
    requires GroupedByDate(entries, rows)
    requires FindRow(rows, entry.spentDate).None?
    ensures GroupedByDate(entries + [entry], AddEntry(rows, entry))
  {
    var all, d := entries + [entry], entry.spentDate;
    var rows' := AddEntry(rows, entry);
    assert rows' == rows + [rows'[|rows|]];
    forall k | 0 <= k < |entries| ensures entries[k].spentDate != d {
      var j :| 0 <= j < |rows| && rows[j].date == entries[k].spentDate;
    }
    CoversAfterAdd(entries, rows, entry, rows', |rows|);
    OrderAfterNew(entries, rows, entry, rows');
    SummarisesFirst(entries, entry);
    forall j | 0 <= j < |rows| ensures Summarises(all, rows'[j]) {
      SummarisesOtherDay(entries, entry, rows[j]);
    }
  }

  /** One added entry keeps the rows grouped by date. */
  lemma AddEntryGroups(entries: seq<Entry>, rows: seq<Row>)
    requires entries != [] && GroupedByDate(entries[..|entries| - 1], rows)
    ensures GroupedByDate(entries, AddEntry(rows, entries[|entries| - 1]))
  {
    var init, entry := entries[..|entries| - 1], entries[|entries| - 1];
    assert init + [entry] == entries;
    match FindRow(rows, entry.spentDate)
    case Some(i) => AddEntryToRow(init, rows, entry, i);
    case None => AddEntryAsRow(init, rows, entry);
  }

  lemma {:induction false} AggregateGrouped(entries: seq<Entry>)
    ensures GroupedByDate(entries, Aggregate(entries))
  {
    if entries != [] {
      AggregateGrouped(entries[..|entries| - 1]);
      AddEntryGroups(entries, Aggregate(entries[..|entries| - 1]));
    }
  }

  /**
   * What the aggregation computes: one row per distinct `spent_date`, in
   * the order each date first appears; each row holds the sum of that
   * day's hours and the notes built from that day's task names in order.
   */
  lemma AggregateGroupsByDate(entries: seq<Entry>)
    ensures var rows := Aggregate(entries);
      && (forall i, j :: 0 <= i < j < |rows| ==> rows[i].date != rows[j].date)
      && (forall k :: 0 <= k < |entries| ==> HasRow(rows, entries[k].spentDate))
      && (forall i :: 0 <= i < |rows| ==>
            && |EntriesOn(entries, rows[i].date)| >= 1
            && rows[i].hours == SumHours(EntriesOn(entries, rows[i].date))
            && rows[i].notes == Notes(TaskNames(EntriesOn(entries, rows[i].date))))
      && (forall i, j :: 0 <= i < j < |rows| ==> FirstIndex(entries, rows[i].date) < FirstIndex(entries, rows[j].date))
  {
    AggregateGrouped(entries);
    GroupedMeans(entries, Aggregate(entries));
  }

  /** GroupedByDate written out. */
  lemma GroupedMeans(entries: seq<Entry>, rows: seq<Row>)
    requires GroupedByDate(entries, rows)
    ensures && (forall i, j :: 0 <= i < j < |rows| ==> rows[i].date != rows[j].date)
      && (forall k :: 0 <= k < |entries| ==> HasRow(rows, entries[k].spentDate))
      && (forall i :: 0 <= i < |rows| ==>
            && |EntriesOn(entries, rows[i].date)| >= 1
            && rows[i].hours == SumHours(EntriesOn(entries, rows[i].date))
            && rows[i].notes == Notes(TaskNames(EntriesOn(entries, rows[i].date))))
      && (forall i, j :: 0 <= i < j < |rows| ==> FirstIndex(entries, rows[i].date) < FirstIndex(entries, rows[j].date))
  {
    assert forall i :: 0 <= i < |rows| ==> Summarises(entries, rows[i]);
  }

  /** Each day's notes start with that day's first task name, normalised. */
  lemma {:induction false} NotesStartWithFirstTask(names: seq<string>)
    requires |names| >= 1
    ensures NormalizeTask(names[0]) <= Notes(names)
  {
    if |names| > 1 {
      NotesStartWithFirstTask(names[..|names| - 1]);
    }
  }

  /** Notes only ever grow at the end: the notes after k entries are a prefix of the final notes. */
  lemma {:induction false} NotesGrowAtTheEnd(names: seq<string>, k: nat)
    requires 1 <= k <= |names|
    ensures Notes(names[..k]) <= Notes(names)
    decreases |names|
  {
    if k < |names| {
      var init := names[..|names| - 1];
      assert init[..k] == names[..k];
      NotesGrowAtTheEnd(init, k);
    } else {
      assert names[..k] == names;
    }
  }

  // ---------------------------------------------------------------------
  // The duplicate test compares the raw task name
  // ---------------------------------------------------------------------

  /** A single entry gives a single row: its own date, hours and normalised task name. */
  lemma AggregateOneEntry(entry: Entry)
    ensures Aggregate([entry]) == [Row(entry.spentDate, entry.roundedHours, NormalizeTask(entry.taskName))]
  {
    assert [entry][..0] == [];
  }

  /**
   * A second entry of the same day whose task name is the first one's
   * normalised name is a duplicate: the hours add up and the notes stay.
   */
  lemma AggregateNormalizedDuplicate(first: Entry, second: Entry)
    requires first.spentDate == second.spentDate && second.taskName == NormalizeTask(first.taskName)
    ensures Aggregate([first, second]) ==
      [Row(first.spentDate, first.roundedHours + second.roundedHours, NormalizeTask(first.taskName))]
  {
    AggregateOneEntry(first);
    assert [first, second][..1] == [first];
    assert OccursAt(NormalizeTask(first.taskName), second.taskName, 0);
  }

  /** A task name without " / " is added to a day's notes at most once in a row. */
  lemma MergeNotesIdempotent(notes: string, taskName: string)
    requires !Includes(taskName, " / ")
    ensures MergeNotes(MergeNotes(notes, taskName), taskName) == MergeNotes(notes, taskName)
  {
    var r := MergeNotes(notes, taskName);
    if r != notes {
      assert r[|notes| + 2..] == taskName;
      assert OccursAt(r, taskName, |notes| + 2);
    }
  }

  /** A string of the same length occurs in another only if the two are equal. */
  lemma SameLengthIncludes(s: string, t: string)
    requires |s| == |t| && Includes(s, t)
    ensures s == t
  {
    var i :| OccursAt(s, t, i);
    assert i == 0;
  }

  /**
   * A name containing " / " never occurs in its own normalised form, so an
   * entry with that name right after the day's first entry with the same
   * name appends it again.
   */
  lemma RepeatedSlashTaskIsDuplicated(name: string)
    requires Includes(name, " / ")
    ensures MergeNotes(NormalizeTask(name), name) == NormalizeTask(name) + "; " + NormalizeTask(name)
  {
    var n := NormalizeTask(name);
    var i := IndexOf(name, " / ").value;
    assert n[i..i + 3] != name[i..i + 3];
    if Includes(n, name) {
      SameLengthIncludes(n, name);
      assert false;
    }
  }
}
