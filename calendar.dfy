/**
 * Calendar days in the proleptic Gregorian calendar, and the normalisation
 * that the JavaScript Date constructor `new Date(year, monthIndex, day)`
 * performs on out-of-range month indexes and day numbers.
 */
module Calendar {

  /** A calendar day; `month` runs from 1 to 12 (JavaScript's getMonth() + 1). */
  datatype Date = Date(year: int, month: int, day: int)

  predicate IsLeapYear(y: int)
  {
    y % 4 == 0 && (y % 100 != 0 || y % 400 == 0)
  }

  function DaysInMonth(y: int, m: int): (n: int)
    requires 1 <= m <= 12
    ensures 28 <= n <= 31
    ensures m == 2 ==> (n == 29 <==> IsLeapYear(y))
  {
    if m == 2 then (if IsLeapYear(y) then 29 else 28)
    else if m == 4 || m == 6 || m == 9 || m == 11 then 30
    else 31
  }

  /** A date that names a real day: what every JavaScript Date getter reports. */
  predicate ValidDate(d: Date)
  {
    1 <= d.month <= 12 && 1 <= d.day <= DaysInMonth(d.year, d.month)
  }

  // ---------------------------------------------------------------------
  // Counting days, the reference against which rollover is checked
  // ---------------------------------------------------------------------

  /** Leap days before 1 January of year y, counted from year 0 (negative before year 0). */
  function Leaps(y: int): (leaps: int)
  {
    (y + 3) / 4 - (y + 99) / 100 + (y + 399) / 400
  }

  /** Days from 1 January of year 0 to 1 January of year y (negative before year 0). */
  function DaysBeforeYear(y: int): (days: int)
  {
    365 * y + Leaps(y)
  }

  /** Days from 1 January of year y to the first of month m of that year. */
  function DaysBeforeMonth(y: int, m: int): (days: int)
    requires 1 <= m <= 12
  {
    if m == 1 then 0 else DaysBeforeMonth(y, m - 1) + DaysInMonth(y, m - 1)
  }

  /** The months before December hold 334 days, or 335 in a leap year. */
  lemma DaysBeforeDecember(y: int)
    ensures DaysBeforeMonth(y, 12) == if IsLeapYear(y) then 335 else 334
  {
    assert DaysBeforeMonth(y, 2) == 31;
    assert DaysBeforeMonth(y, 3) == 31 + DaysInMonth(y, 2);
    assert DaysBeforeMonth(y, 4) == 62 + DaysInMonth(y, 2);
    assert DaysBeforeMonth(y, 5) == 92 + DaysInMonth(y, 2);
    assert DaysBeforeMonth(y, 6) == 123 + DaysInMonth(y, 2);
    assert DaysBeforeMonth(y, 7) == 153 + DaysInMonth(y, 2);
    assert DaysBeforeMonth(y, 8) == 184 + DaysInMonth(y, 2);
    assert DaysBeforeMonth(y, 9) == 215 + DaysInMonth(y, 2);
    assert DaysBeforeMonth(y, 10) == 245 + DaysInMonth(y, 2);
    assert DaysBeforeMonth(y, 11) == 276 + DaysInMonth(y, 2);
  }

  /** The number of the day, counted from 1 January of year 0 (day 0). */
  function DayNumber(d: Date): (n: int)
    requires 1 <= d.month <= 12
  {
    DaysBeforeYear(d.year) + DaysBeforeMonth(d.year, d.month) + d.day - 1
  }

  /** A multiple of 400 is a multiple of 100. */
  lemma MultipleOf400(y: int)
    requires y % 400 == 0
    ensures y % 100 == 0
  {
    var q := y / 400;
    assert y == 100 * (4 * q);
  }

  /** A multiple of 100 is a multiple of 4. */
  lemma MultipleOf100(y: int)
    requires y % 100 == 0
    ensures y % 4 == 0
  {
    var q := y / 100;
    assert y == 4 * (25 * q);
  }

  /** Year y adds a leap day exactly when it is a leap year. */
  lemma LeapsStep(y: int)
    ensures Leaps(y + 1) - Leaps(y) == if IsLeapYear(y) then 1 else 0
  {
    if y % 400 == 0 { MultipleOf400(y); }
    if y % 100 == 0 { MultipleOf100(y); }
    StepOfFloorDiv4(y);
    StepOfFloorDiv100(y);
    StepOfFloorDiv400(y);
  }

  /** (y + 3) / 4, the leap-year term of Leaps, rises by one from y to y + 1 exactly when 4 divides y. */
  lemma StepOfFloorDiv4(y: int)
    ensures (y + 4) / 4 - (y + 3) / 4 == if y % 4 == 0 then 1 else 0
  {
  }

  /** The same step for multiples of 100. */
  lemma StepOfFloorDiv100(y: int)
    ensures (y + 100) / 100 - (y + 99) / 100 == if y % 100 == 0 then 1 else 0
  {
  }

  /** The same step for multiples of 400. */
  lemma StepOfFloorDiv400(y: int)
    ensures (y + 400) / 400 - (y + 399) / 400 == if y % 400 == 0 then 1 else 0
  {
  }

  /** A year has 366 days exactly when it is a leap year, 365 otherwise. */
  lemma YearLength(y: int)
    ensures DaysBeforeYear(y + 1) - DaysBeforeYear(y) == if IsLeapYear(y) then 366 else 365
  {
    LeapsStep(y);
  }

  // ---------------------------------------------------------------------
  // Months counted as one sequence: month number k is month k % 12 + 1
  // of year k / 12 (division rounding down, as Dafny's does for 12)
  // ---------------------------------------------------------------------

  function MonthNumber(d: Date): (k: int)
  {
    d.year * 12 + d.month - 1
  }

  /** The first day of month number k. */
  function MonthStart(k: int): (d: Date)
    ensures ValidDate(d) && d.day == 1
    ensures MonthNumber(d) == k
  {
    Date(k / 12, k % 12 + 1, 1)
  }

  /** The last day of month number k. */
  function MonthEnd(k: int): (d: Date)
    ensures ValidDate(d) && MonthNumber(d) == k
    ensures d.day == DaysInMonth(d.year, d.month)
  {
    var s := MonthStart(k);
    Date(s.year, s.month, DaysInMonth(s.year, s.month))
  }

  lemma MonthStartOfMonthNumber(d: Date)
    requires 1 <= d.month <= 12
    ensures MonthStart(MonthNumber(d)) == Date(d.year, d.month, 1)
  {
  }

  /** The first of the next month within one year follows by the length of this month. */
  lemma NextMonthSameYear(y: int, m: int)
    requires 1 <= m < 12
    ensures DayNumber(Date(y, m + 1, 1)) == DayNumber(Date(y, m, 1)) + DaysInMonth(y, m)
  {
  }

  /** 1 January follows 1 December of the year before by 31 days. */
  lemma NextMonthNewYear(y: int)
    ensures DayNumber(Date(y + 1, 1, 1)) == DayNumber(Date(y, 12, 1)) + 31
  {
    YearLength(y);
    DaysBeforeDecember(y);
  }

  /** How the year and month of month number k + 1 follow from those of k. */
  lemma NextMonthNumber(k: int)
    ensures k % 12 == 11 ==> (k + 1) / 12 == k / 12 + 1 && (k + 1) % 12 == 0
    ensures k % 12 != 11 ==> (k + 1) / 12 == k / 12 && (k + 1) % 12 == k % 12 + 1
  {
    var q, r := k / 12, k % 12;
    assert k + 1 == 12 * q + r + 1;
    if r == 11 {
      assert k + 1 == 12 * (q + 1) + 0;
    } else {
      assert 0 <= r + 1 < 12;
    }
  }

  /** The first day of some month. */
  predicate FirstOfMonth(s: Date)
  {
    1 <= s.month <= 12 && s.day == 1
  }

  /** The first day of the month after the one s starts. */
  function NextMonthStart(s: Date): (t: Date)
    requires FirstOfMonth(s)
    ensures FirstOfMonth(t)
  {
    if s.month == 12 then Date(s.year + 1, 1, 1) else Date(s.year, s.month + 1, 1)
  }

  /** The first day of the month before the one s starts. */
  function PreviousMonthStart(s: Date): (p: Date)
    requires FirstOfMonth(s)
    ensures FirstOfMonth(p) && NextMonthStart(p) == s
  {
    if s.month == 1 then Date(s.year - 1, 12, 1) else Date(s.year, s.month - 1, 1)
  }

  /** The next month starts as many days later as the month has days. */
  lemma NextMonthStartDayNumber(s: Date)
    requires FirstOfMonth(s)
    ensures DayNumber(NextMonthStart(s)) == DayNumber(s) + DaysInMonth(s.year, s.month)
  {
    if s.month == 12 {
      NextMonthNewYear(s.year);
    } else {
      NextMonthSameYear(s.year, s.month);
    }
  }

  /** Stepping a month forward or back from the first of month k gives the first of month k + 1 or k - 1. */
  lemma MonthStartSteps(k: int)
    ensures NextMonthStart(MonthStart(k)) == MonthStart(k + 1)
    ensures PreviousMonthStart(MonthStart(k)) == MonthStart(k - 1)
  {
    NextMonthNumber(k);
    NextMonthNumber(k - 1);
  }

  /** The first of month k + 1 follows the first of month k by the length of month k. */
  lemma MonthLength(k: int)
    ensures DayNumber(MonthStart(k + 1)) == DayNumber(MonthStart(k)) + DaysInMonth(MonthStart(k).year, MonthStart(k).month)
  {
    MonthStartSteps(k);
    NextMonthStartDayNumber(MonthStart(k));
  }

  /** The day after the last day of month k is the first day of month k + 1. */
  lemma MonthEndThenMonthStart(k: int)
    ensures DayNumber(MonthStart(k + 1)) == DayNumber(MonthEnd(k)) + 1
  {
    MonthLength(k);
  }

  /** The day number of the first day of month number k. */
  function StartDay(k: int): (n: int)
  {
    DayNumber(MonthStart(k))
  }

  /** The length of month number k. */
  function MonthDays(k: int): (n: int)
  {
    var s := MonthStart(k);
    DaysInMonth(s.year, s.month)
  }

  /** A sequence that grows by a positive step each time is strictly increasing. */
  lemma {:induction false} StepsIncrease(start: int -> int, len: int -> int, j: int, k: int)
    requires forall i {:trigger len(i)} :: start(i + 1) == start(i) + len(i)
    requires forall i :: len(i) >= 1
    requires j < k
    ensures start(j) + len(j) <= start(k)
    decreases k - j
  {
    assert start(j + 1) == start(j) + len(j);
    if j + 1 < k {
      StepsIncrease(start, len, j + 1, k);
      assert len(j + 1) >= 1;
    }
  }

  /** Month starts are strictly increasing in the month number. */
  lemma MonthStartMonotone(j: int, k: int)
    requires j < k
    ensures DayNumber(MonthStart(j)) + DaysInMonth(MonthStart(j).year, MonthStart(j).month) <= DayNumber(MonthStart(k))
  {
    forall i ensures StartDay(i + 1) == StartDay(i) + MonthDays(i) {
      MonthLength(i);
    }
    StepsIncrease(StartDay, MonthDays, j, k);
    assert StartDay(j) + MonthDays(j) <= StartDay(k);
  }

  /** A valid date lies inside its own month. */
  lemma WithinMonth(d: Date)
    requires ValidDate(d)
    ensures DayNumber(MonthStart(MonthNumber(d))) <= DayNumber(d)
    ensures DayNumber(d) < DayNumber(MonthStart(MonthNumber(d))) + DaysInMonth(d.year, d.month)
  {
    MonthStartOfMonthNumber(d);
  }

  /** Day numbers are ordered like the dates they number. */
  lemma DayNumberOrdered(a: Date, b: Date)
    requires ValidDate(a) && ValidDate(b)
    requires MonthNumber(a) < MonthNumber(b) || (MonthNumber(a) == MonthNumber(b) && a.day < b.day)
    ensures DayNumber(a) < DayNumber(b)
  {
    if MonthNumber(a) < MonthNumber(b) {
      WithinMonth(a);
      WithinMonth(b);
      MonthStartOfMonthNumber(a);
      MonthStartMonotone(MonthNumber(a), MonthNumber(b));
    } else {
      assert a.year == b.year && a.month == b.month by {
        MonthStartOfMonthNumber(a);
        MonthStartOfMonthNumber(b);
      }
    }
  }

  /** Two valid dates with the same day number are the same date. */
  lemma DayNumberInjective(a: Date, b: Date)
    requires ValidDate(a) && ValidDate(b)
    requires DayNumber(a) == DayNumber(b)
    ensures a == b
  {
    if MonthNumber(a) < MonthNumber(b) || (MonthNumber(a) == MonthNumber(b) && a.day < b.day) {
      DayNumberOrdered(a, b);
    } else if MonthNumber(b) < MonthNumber(a) || (MonthNumber(a) == MonthNumber(b) && b.day < a.day) {
      DayNumberOrdered(b, a);
    } else {
      MonthStartOfMonthNumber(a);
      MonthStartOfMonthNumber(b);
    }
  }

  // ---------------------------------------------------------------------
  // The Date constructor
  // ---------------------------------------------------------------------

  /** A day number past the end of the month that s starts rolls forward into the following months. */
  function RollForward(s: Date, day: int): (d: Date)
    requires FirstOfMonth(s) && day >= 1
    ensures ValidDate(d)
    decreases day
  {
    var n := DaysInMonth(s.year, s.month);
    if day <= n then Date(s.year, s.month, day) else RollForward(NextMonthStart(s), day - n)
  }

  /** Rolling forward lands day - 1 days after s. */
  lemma {:induction false} RollForwardDayNumber(s: Date, day: int)
    requires FirstOfMonth(s) && day >= 1
    ensures DayNumber(RollForward(s, day)) == DayNumber(s) + day - 1
    decreases day
  {
    var n := DaysInMonth(s.year, s.month);
    if day > n {
      NextMonthStartDayNumber(s);
      RollForwardDayNumber(NextMonthStart(s), day - n);
    }
  }

  /** A day number of 0 or less rolls back into the months before the one s starts. */
  function RollBackward(s: Date, day: int): (d: Date)
    requires FirstOfMonth(s) && day < 1
    ensures ValidDate(d)
    decreases -day
  {
    var p := PreviousMonthStart(s);
    var back := day + DaysInMonth(p.year, p.month);
    if back >= 1 then Date(p.year, p.month, back) else RollBackward(p, back)
  }

  /** Rolling back lands 1 - day days before s. */
  lemma {:induction false} RollBackwardDayNumber(s: Date, day: int)
    requires FirstOfMonth(s) && day < 1
    ensures DayNumber(RollBackward(s, day)) == DayNumber(s) + day - 1
    decreases -day
  {
    var p := PreviousMonthStart(s);
    var back := day + DaysInMonth(p.year, p.month);
    NextMonthStartDayNumber(p);
    if back < 1 {
      RollBackwardDayNumber(p, back);
    }
  }

  /** The year the Date constructor uses: 0 to 99 stand for 1900 to 1999. */
  function ConstructorYear(year: int): (y: int)
    ensures !(0 <= year <= 99) ==> y == year
    ensures 0 <= year <= 99 ==> 1900 <= y <= 1999 && y % 100 == year
  {
    if 0 <= year <= 99 then 1900 + year else year
  }

  /**
   * `new Date(year, monthIndex, day)`: monthIndex counts from 0 and may lie
   * outside 0..11, day may lie outside the month; both roll over.
   */
  function MakeDate(year: int, monthIndex: int, day: int): (d: Date)
    ensures ValidDate(d)
  {
    var s := MonthStart(ConstructorYear(year) * 12 + monthIndex);
    if day >= 1 then RollForward(s, day) else RollBackward(s, day)
  }

  /** The date made lies day - 1 days after the first of the month, counted in real days. */
  lemma MakeDateDayNumber(year: int, monthIndex: int, day: int)
    ensures DayNumber(MakeDate(year, monthIndex, day)) == DayNumber(MonthStart(ConstructorYear(year) * 12 + monthIndex)) + day - 1
  {
    var s := MonthStart(ConstructorYear(year) * 12 + monthIndex);
    if day >= 1 {
      RollForwardDayNumber(s, day);
    } else {
      RollBackwardDayNumber(s, day);
    }
  }

  /** A day that exists in the target month is kept as it is. */
  lemma MakeDateInMonth(year: int, monthIndex: int, day: int)
    requires 1 <= day <= 28
    ensures MakeDate(year, monthIndex, day) ==
      var s := MonthStart(ConstructorYear(year) * 12 + monthIndex); Date(s.year, s.month, day)
  {
  }

  /** Day 0 of a month is the last day of the month before it. */
  lemma MakeDateDayZero(year: int, monthIndex: int)
    ensures MakeDate(year, monthIndex, 0) == MonthEnd(ConstructorYear(year) * 12 + monthIndex - 1)
  {
    MonthStartSteps(ConstructorYear(year) * 12 + monthIndex);
  }
}
