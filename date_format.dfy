/**
 * `pad` and `toDateString`: the `YYYY-MM-DD` text of a date that the
 * timesheet code sends as the `from` and `to` of the time-entry query.
 */
module DateFormat {
  import opened Optional
  import opened JsText
  import opened Calendar

  /** `pad(number)`: a "0" is put in front exactly when the number is below 10. */
  function Pad(number: int): (s: string)
  {
    if number < 10 then "0" + Decimal(number) else Decimal(number)
  }

  /** A value from 0 to 99 pads to exactly two digits that read back as the value. */
  lemma PadTwoDigits(n: int)
    requires 0 <= n < 100
    ensures |Pad(n)| == 2 && AllDigits(Pad(n))
    ensures DigitValue(Pad(n)[0]) * 10 + DigitValue(Pad(n)[1]) == n
  {
    DigitsLength(n);
    if n >= 10 {
      ParseDigits(n);
      var s := Digits(n);
      assert s[..1] == [s[0]];
    }
  }

  /** The "0" is added exactly for values below 10; from 10 on the number's own text is returned. */
  lemma PadAddsZeroBelowTen(n: int)
    ensures n < 10 <==> Pad(n) == "0" + Decimal(n)
    ensures n >= 10 ==> Pad(n) == Decimal(n)
  {
    if n >= 10 {
      assert Pad(n) == Decimal(n);
      assert |"0" + Decimal(n)| == |Decimal(n)| + 1;
    }
  }

  /** `toDateString(date)`: the full year, then the month and the day of the month, padded. */
  function ToDateString(d: Date): (s: string)
  {
    Decimal(d.year) + "-" + Pad(d.month) + "-" + Pad(d.day)
  }

  /** The value of exactly two decimal digits. */
  function TwoDigitValue(s: string): (r: Option<int>)
  {
    if |s| == 2 && AllDigits(s) then Some(DigitValue(s[0]) * 10 + DigitValue(s[1])) else None
  }

  /** Reads `<year>-MM-DD` back; None when the text is not the string of a real date. */
  function ParseDateString(s: string): (r: Option<Date>)
    ensures r.Some? ==> ValidDate(r.value)
  {
    if |s| < 7 || s[|s| - 6] != '-' || s[|s| - 3] != '-' then None
    else
      match (ParseInt(s[..|s| - 6]), TwoDigitValue(s[|s| - 5..|s| - 3]), TwoDigitValue(s[|s| - 2..]))
      case (Some(y), Some(m), Some(d)) =>
        if ValidDate(Date(y, m, d)) then Some(Date(y, m, d)) else None
      case _ => None
  }

  /** Where the parts of `<year>-<MM>-<DD>` sit, counted from the end. */
  lemma DateParts(year: string, mm: string, dd: string)
    requires |year| >= 1 && |mm| == 2 && |dd| == 2
    ensures var s := year + "-" + mm + "-" + dd;
      && |s| == |year| + 6
      && s[|s| - 6] == '-' && s[|s| - 3] == '-'
      && s[..|s| - 6] == year && s[|s| - 5..|s| - 3] == mm && s[|s| - 2..] == dd
  {
    var s := year + "-" + mm + "-" + dd;
    var n := |year|;
    assert s[..n] == year;
    assert s[n + 1..n + 3] == mm;
    assert s[n + 4..] == dd;
  }

  /** Reading the three parts of a real date back gives the date. */
  lemma ParseDateParts(year: string, mm: string, dd: string, d: Date)
    requires ValidDate(d)
    requires ParseInt(year) == Some(d.year) && |year| >= 1
    requires TwoDigitValue(mm) == Some(d.month) && TwoDigitValue(dd) == Some(d.day)
    ensures ParseDateString(year + "-" + mm + "-" + dd) == Some(d)
  {
    DateParts(year, mm, dd);
  }

  /**
   * For every real date, the text ends in `-MM-DD` with two-digit month and
   * day, and reading it back gives the same date.
   */
  lemma DateStringRoundTrip(d: Date)
    requires ValidDate(d)
    ensures |ToDateString(d)| == |Decimal(d.year)| + 6
    ensures ParseDateString(ToDateString(d)) == Some(d)
  {
    PadTwoDigits(d.month);
    PadTwoDigits(d.day);
    DecimalCharacters(d.year);
    ParseDecimal(d.year);
    DateParts(Decimal(d.year), Pad(d.month), Pad(d.day));
    ParseDateParts(Decimal(d.year), Pad(d.month), Pad(d.day), d);
  }

  /** For years 1000 to 9999 the text has the ten characters of `YYYY-MM-DD`. */
  lemma DateStringLength(d: Date)
    requires ValidDate(d) && 1000 <= d.year <= 9999
    ensures |ToDateString(d)| == 10
  {
    DateStringRoundTrip(d);
    DigitsLength(d.year);
  }

  /** Different real dates get different strings. */
  lemma DateStringInjective(a: Date, b: Date)
    requires ValidDate(a) && ValidDate(b)
    requires ToDateString(a) == ToDateString(b)
    ensures a == b
  {
    DateStringRoundTrip(a);
    DateStringRoundTrip(b);
  }
}
