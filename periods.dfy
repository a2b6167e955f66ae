/**
 * `getTimesheetPeriods` and `timesheetPeriodChoices`: the semi-monthly
 * billing periods offered for "today" (1st to 15th, 16th to the last day
 * of the month), and the titles shown for them in the selection prompt.
 * "Today" is a parameter here; the source reads it from the clock.
 */
module Periods {
  import opened JsText
  import opened Calendar

  /** An inclusive range of calendar days. */
  datatype Period = Period(start: Date, end: Date)

  /** `getTimesheetPeriods()` for the given day. */
  function TimesheetPeriods(today: Date): (periods: seq<Period>)
    requires ValidDate(today)
    ensures |periods| == if today.day > 15 then 2 else 3
    ensures forall i :: 0 <= i < |periods| ==> ValidDate(periods[i].start) && ValidDate(periods[i].end)
  {
    // date.getFullYear() and date.getMonth(), which counts months from 0
    var year, month := today.year, today.month - 1;
    if today.day > 15 then
      [ Period(MakeDate(year, month, 1), MakeDate(year, month, 15)),
        Period(MakeDate(year, month, 16), MakeDate(year, month + 1, 0)) ]
    else
      [ Period(MakeDate(year, month - 1, 16), MakeDate(year, month, 0)),
        Period(MakeDate(year, month, 1), MakeDate(year, month, 15)),
        Period(MakeDate(year, month, 16), MakeDate(year, month + 1, 0)) ]
  }

  /**
   * The given day of the month that s starts. The ensures repeats the body
   * field by field; it is there for the solver, which otherwise runs out of
   * resource in EarlyPeriods.
   */
  function DayOfMonth(s: Date, day: int): (d: Date)
    ensures d.year == s.year && d.month == s.month && d.day == day
  {
    Date(s.year, s.month, day)
  }

  /** The last day of the month that s starts. */
  function LastDayOf(s: Date): (d: Date)
    requires FirstOfMonth(s)
    ensures ValidDate(d) && d.year == s.year && d.month == s.month
  {
    Date(s.year, s.month, DaysInMonth(s.year, s.month))
  }

  /** The month (counted as a month number) that the Date constructor places the periods in. */
  function CurrentMonthNumber(today: Date): (k: int)
  {
    ConstructorYear(today.year) * 12 + today.month - 1
  }

  /** `new Date(year, month, day)` for a day that every month has is that day of the month s starts. */
  lemma DayInMonthCall(year: int, month: int, day: int, s: Date)
    requires s == MonthStart(ConstructorYear(year) * 12 + month) && 1 <= day <= 28
    ensures MakeDate(year, month, day) == DayOfMonth(s, day)
  {
    MakeDateInMonth(year, month, day);
  }

  /** `new Date(year, month + 1, 0)` is the last day of the month s starts. */
  lemma LastDayCall(year: int, month: int, s: Date)
    requires s == MonthStart(ConstructorYear(year) * 12 + month)
    ensures MakeDate(year, month + 1, 0) == LastDayOf(s)
  {
    MakeDateDayZero(year, month + 1);
  }

  /**
   * The periods with every rollover of the Date constructor resolved, for
   * the month that s starts: late says whether today is after the 15th.
   */
  function HalfMonths(s: Date, late: bool): (periods: seq<Period>)
    requires FirstOfMonth(s)
  {
    var p := PreviousMonthStart(s);
    if late then
      [ Period(DayOfMonth(s, 1), DayOfMonth(s, 15)),
        Period(DayOfMonth(s, 16), LastDayOf(s)) ]
    else
      [ Period(DayOfMonth(p, 16), LastDayOf(p)),
        Period(DayOfMonth(s, 1), DayOfMonth(s, 15)),
        Period(DayOfMonth(s, 16), LastDayOf(s)) ]
  }

  /** After the 15th, the two Date constructor pairs name the two halves of this month. */
  lemma LatePeriods(today: Date)
    requires ValidDate(today) && today.day > 15
    ensures TimesheetPeriods(today) == HalfMonths(MonthStart(CurrentMonthNumber(today)), true)
  {
    var year, month := today.year, today.month - 1;
    var s := MonthStart(CurrentMonthNumber(today));
    assert s == MonthStart(ConstructorYear(year) * 12 + month);
    assert HalfMonths(s, true) == [ Period(DayOfMonth(s, 1), DayOfMonth(s, 15)),
      Period(DayOfMonth(s, 16), LastDayOf(s)) ];
    assert TimesheetPeriods(today) == [ Period(MakeDate(year, month, 1), MakeDate(year, month, 15)),
      Period(MakeDate(year, month, 16), MakeDate(year, month + 1, 0)) ];
    DayInMonthCall(year, month, 1, s);
    DayInMonthCall(year, month, 15, s);
    DayInMonthCall(year, month, 16, s);
    LastDayCall(year, month, s);
  }

  /** Up to the 15th, the three Date constructor pairs start with the second half of the month before. */
  lemma EarlyPeriods(today: Date)
    requires ValidDate(today) && today.day <= 15
    ensures TimesheetPeriods(today) == HalfMonths(MonthStart(CurrentMonthNumber(today)), false)
  {
    var year, month := today.year, today.month - 1;
    var k := CurrentMonthNumber(today);
    var s := MonthStart(k);
    var p := PreviousMonthStart(s);
    assert s == MonthStart(ConstructorYear(year) * 12 + month);
    assert p == MonthStart(ConstructorYear(year) * 12 + (month - 1)) by {
      MonthStartSteps(k);
    }
    assert HalfMonths(s, false) == [ Period(DayOfMonth(p, 16), LastDayOf(p)),
      Period(DayOfMonth(s, 1), DayOfMonth(s, 15)),
      Period(DayOfMonth(s, 16), LastDayOf(s)) ];
    assert TimesheetPeriods(today) == [ Period(MakeDate(year, month - 1, 16), MakeDate(year, month, 0)),
      Period(MakeDate(year, month, 1), MakeDate(year, month, 15)),
      Period(MakeDate(year, month, 16), MakeDate(year, month + 1, 0)) ];
    DayInMonthCall(year, month - 1, 16, p);
    LastDayCall(year, month - 1, p);
    DayInMonthCall(year, month, 1, s);
    DayInMonthCall(year, month, 15, s);
    DayInMonthCall(year, month, 16, s);
    LastDayCall(year, month, s);
  }

  /** The Date constructor calls of `getTimesheetPeriods` give the half months of its month. */
  lemma PeriodsByMonthNumber(today: Date)
    requires ValidDate(today)
    ensures TimesheetPeriods(today) == HalfMonths(MonthStart(CurrentMonthNumber(today)), today.day > 15)
  {
    if today.day > 15 {
      LatePeriods(today);
    } else {
      EarlyPeriods(today);
    }
  }

  /** The 1st to the 15th of one month. */
  predicate FirstHalf(p: Period)
  {
    && ValidDate(p.start) && ValidDate(p.end)
    && p.start.year == p.end.year && p.start.month == p.end.month
    && p.start.day == 1 && p.end.day == 15
  }

  /** The 16th to the last day of one month. */
  predicate SecondHalf(p: Period)
  {
    && ValidDate(p.start) && ValidDate(p.end)
    && p.start.year == p.end.year && p.start.month == p.end.month
    && p.start.day == 16 && p.end.day == DaysInMonth(p.end.year, p.end.month)
  }

  /** A half-month period never ends before it starts and spans 13 to 16 days. */
  lemma HalfMonthLength(p: Period)
    requires FirstHalf(p) || SecondHalf(p)
    ensures DayNumber(p.start) <= DayNumber(p.end)
    ensures 13 <= DayNumber(p.end) - DayNumber(p.start) + 1 <= 16
    ensures FirstHalf(p) ==> DayNumber(p.end) - DayNumber(p.start) + 1 == 15
  {
  }

  lemma HalfMonthsShape(s: Date, late: bool)
    requires FirstOfMonth(s)
    ensures var periods := HalfMonths(s, late);
      if late then FirstHalf(periods[0]) && SecondHalf(periods[1])
      else SecondHalf(periods[0]) && FirstHalf(periods[1]) && SecondHalf(periods[2])
  {
  }

  lemma HalfMonthsContiguous(s: Date, late: bool)
    requires FirstOfMonth(s)
    ensures var periods := HalfMonths(s, late);
      forall i :: 0 <= i < |periods| - 1 ==> DayNumber(periods[i + 1].start) == DayNumber(periods[i].end) + 1
  {
    NextMonthStartDayNumber(PreviousMonthStart(s));
  }

  /**
   * After the 15th there are two periods, the two halves of this month; otherwise first comes the second half of the
   * month before.
   */
  lemma PeriodsAreHalfMonths(today: Date)
    requires ValidDate(today)
    ensures var periods := TimesheetPeriods(today);
      if today.day > 15 then FirstHalf(periods[0]) && SecondHalf(periods[1])
      else SecondHalf(periods[0]) && FirstHalf(periods[1]) && SecondHalf(periods[2])
    ensures var periods := TimesheetPeriods(today);
      forall i :: 0 <= i < |periods| ==> DayNumber(periods[i].start) <= DayNumber(periods[i].end)
  {
    var s := MonthStart(CurrentMonthNumber(today));
    PeriodsByMonthNumber(today);
    var periods := HalfMonths(s, today.day > 15);
    HalfMonthsShape(s, today.day > 15);
    forall i | 0 <= i < |periods|
      ensures DayNumber(periods[i].start) <= DayNumber(periods[i].end)
    {
      HalfMonthLength(periods[i]);
    }
  }

  /** Each period ends on the day before the next one starts: no gap and no overlap. */
  lemma PeriodsContiguous(today: Date)
    requires ValidDate(today)
    ensures var periods := TimesheetPeriods(today);
      forall i :: 0 <= i < |periods| - 1 ==> DayNumber(periods[i + 1].start) == DayNumber(periods[i].end) + 1
  {
    PeriodsByMonthNumber(today);
    HalfMonthsContiguous(MonthStart(CurrentMonthNumber(today)), today.day > 15);
  }

  /** The periods are built in today's month of the year the Date constructor reads. */
  lemma ConstructorMonthStart(today: Date)
    requires ValidDate(today)
    ensures MonthStart(CurrentMonthNumber(today)) == Date(ConstructorYear(today.year), today.month, 1)
  {
    MonthStartOfMonthNumber(Date(ConstructorYear(today.year), today.month, 1));
  }

  /**
   * Outside the years 0 to 99 the periods are those of today's own month:
   * the second one holds today, the first is the half month before it and
   * the last ends on the last day of today's month.
   */
  lemma PeriodsAroundToday(today: Date)
    requires ValidDate(today) && !(0 <= today.year <= 99)
    ensures var periods := TimesheetPeriods(today);
      && DayNumber(periods[1].start) <= DayNumber(today) <= DayNumber(periods[1].end)
      && DayNumber(periods[0].end) + 1 == DayNumber(periods[1].start)
      && periods[|periods| - 1].end == Date(today.year, today.month, DaysInMonth(today.year, today.month))
      && periods[1].start.year == today.year && periods[1].start.month == today.month
  {
    var s := Date(today.year, today.month, 1);
    ConstructorMonthStart(today);
    PeriodsByMonthNumber(today);
    HalfMonthsContiguous(s, today.day > 15);
  }

  /**
   * In the first half of January the first period is 16 to 31 December of
   * the year before the one the Date constructor reads.
   */
  lemma JanuaryStartsInDecember(today: Date)
    requires ValidDate(today) && today.month == 1 && today.day <= 15
    ensures var y := ConstructorYear(today.year);
      TimesheetPeriods(today)[0] == Period(Date(y - 1, 12, 16), Date(y - 1, 12, 31))
  {
    ConstructorMonthStart(today);
    PeriodsByMonthNumber(today);
  }

  /**
   * A year from 0 to 99 is read by the Date constructor as 1900 to 1999:
   * the second period starts and the last ends in today's month of
   * 1900 + year, and every period lies in 1900 + year, except the first
   * one from 1 to 15 January, which lies in December of 1899 + year.
   */
  lemma TwoDigitYearsMeanThe1900s(today: Date)
    requires ValidDate(today) && 0 <= today.year <= 99
    ensures var periods := TimesheetPeriods(today);
      var y := 1900 + today.year;
      && periods[|periods| - 1].end == Date(y, today.month, DaysInMonth(y, today.month))
      && periods[1].start.year == y && periods[1].start.month == today.month
      && (forall i :: 0 <= i < |periods| ==>
            var inYear := if i == 0 && today.month == 1 && today.day <= 15 then y - 1 else y;
            periods[i].start.year == inYear && periods[i].end.year == inYear)
  {
    ConstructorMonthStart(today);
    PeriodsByMonthNumber(today);
  }

  // ---------------------------------------------------------------------
  // The selection prompt
  // ---------------------------------------------------------------------

  /**
   * The English month names. The source asks `Intl.DateTimeFormat` for
   * the "long" month in the "en-US" locale; this table stands for it.
   */
  function MonthName(m: int): (name: string)
    requires 1 <= m <= 12
    ensures |name| >= 3 && ' ' !in name
  {
    ["January", "February", "March", "April", "May", "June",
     "July", "August", "September", "October", "November", "December"][m - 1]
  }

  lemma MonthNameInjective(m: int, n: int)
    requires 1 <= m <= 12 && 1 <= n <= 12 && MonthName(m) == MonthName(n)
    ensures m == n
  {
  }

  /** A choice of the selection prompt: the title shown and the period returned. */
  datatype Choice = Choice(title: string, value: Period)

  /** `<Month name of the start> <start day> to <end day>`. */
  function PeriodTitle(p: Period): (title: string)
    requires 1 <= p.start.month <= 12
  {
    MonthName(p.start.month) + " " + Decimal(p.start.day) + " to " + Decimal(p.end.day)
  }

  /** `timesheetPeriodChoices()`: one titled choice per period, in the same order. */
  function TimesheetPeriodChoices(today: Date): (choices: seq<Choice>)
    requires ValidDate(today)
    ensures |choices| == |TimesheetPeriods(today)|
    ensures forall i :: 0 <= i < |choices| ==>
      choices[i].value == TimesheetPeriods(today)[i] && choices[i].title == PeriodTitle(choices[i].value)
  {
    var periods := TimesheetPeriods(today);
    seq(|periods|, i requires 0 <= i < |periods| => Choice(PeriodTitle(periods[i]), periods[i]))
  }

  /** A title reads back, word by word, as the month name, the start day, "to" and the end day. */
  lemma TitleWords(p: Period)
    requires 1 <= p.start.month <= 12
    ensures Split(PeriodTitle(p), ' ') == [MonthName(p.start.month), Decimal(p.start.day), "to", Decimal(p.end.day)]
  {
    var name, a, b := MonthName(p.start.month), Decimal(p.start.day), Decimal(p.end.day);
    DecimalCharacters(p.start.day);
    DecimalCharacters(p.end.day);
    var rest2 := "to" + [' '] + b;
    var rest1 := a + [' '] + rest2;
    assert PeriodTitle(p) == name + [' '] + rest1;
    SplitAtFirst(name, ' ', rest1);
    SplitAtFirst(a, ' ', rest2);
    SplitAtFirst("to", ' ', b);
    SplitWithout(b, ' ');
  }

  /** Two periods get different titles when they start on different days or in consecutive months. */
  lemma TitlesDiffer(p: Period, q: Period)
    requires 1 <= p.start.month <= 12 && 1 <= q.start.month <= 12
    requires p.start.day != q.start.day || MonthNumber(p.start) + 1 == MonthNumber(q.start)
    ensures PeriodTitle(p) != PeriodTitle(q)
  {
    TitleWords(p);
    TitleWords(q);
    if PeriodTitle(p) == PeriodTitle(q) {
      assert MonthName(p.start.month) == MonthName(q.start.month);
      assert Decimal(p.start.day) == Decimal(q.start.day);
      MonthNameInjective(p.start.month, q.start.month);
      DecimalInjective(p.start.day, q.start.day);
      assert false;
    }
  }

  /** Two of the periods start on different days of the month or in consecutive months. */
  lemma HalfMonthsStartApart(s: Date, late: bool)
    requires FirstOfMonth(s)
    ensures var periods := HalfMonths(s, late);
      forall i, j :: 0 <= i < j < |periods| ==>
        1 <= periods[i].start.month <= 12 && 1 <= periods[j].start.month <= 12 &&
        (periods[i].start.day != periods[j].start.day || MonthNumber(periods[i].start) + 1 == MonthNumber(periods[j].start))
  {
  }

  /** The prompt never shows two choices with the same title. */
  lemma ChoiceTitlesDistinct(today: Date)
    requires ValidDate(today)
    ensures var choices := TimesheetPeriodChoices(today);
      forall i, j :: 0 <= i < j < |choices| ==> choices[i].title != choices[j].title
  {
    var choices := TimesheetPeriodChoices(today);
    var s, late := MonthStart(CurrentMonthNumber(today)), today.day > 15;
    PeriodsByMonthNumber(today);
    HalfMonthsStartApart(s, late);
    var periods := HalfMonths(s, late);
    forall i, j | 0 <= i < j < |choices|
      ensures choices[i].title != choices[j].title
    {
      TitlesDiffer(periods[i], periods[j]);
    }
  }
}
