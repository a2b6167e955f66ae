/**
 * The JavaScript string operations the timesheet code relies on:
 * `String.prototype.indexOf`, `includes` and `replace` with a string
 * pattern, and the decimal rendering of an integer Number (`String(n)`,
 * template-literal interpolation), with a parser that inverts it.
 */
module JsText {
  import opened Optional

  /** `pattern` occurs in `s` starting at index i. */
  predicate OccursAt(s: string, pattern: string, i: int)
  {
    0 <= i && i + |pattern| <= |s| && s[i..i + |pattern|] == pattern
  }

  /** `s.indexOf(pattern)`: the first index where `pattern` occurs, None for -1. */
  function IndexOf(s: string, pattern: string): (r: Option<nat>)
    ensures r.Some? ==> OccursAt(s, pattern, r.value)
    ensures r.Some? ==> forall j :: 0 <= j < r.value ==> !OccursAt(s, pattern, j)
    ensures r.None? ==> forall j :: !OccursAt(s, pattern, j)
    decreases |s|
  {
    if |pattern| > |s| then None
    else if s[..|pattern|] == pattern then Some(0)
    else
      var rest := IndexOf(s[1..], pattern);
      assert !OccursAt(s, pattern, 0);
      assert forall j :: 1 <= j ==> (OccursAt(s[1..], pattern, j - 1) <==> OccursAt(s, pattern, j)) by {
        forall j | 1 <= j
          ensures OccursAt(s[1..], pattern, j - 1) <==> OccursAt(s, pattern, j)
        {
          if j - 1 + |pattern| <= |s[1..]| {
            assert s[1..][j - 1..j - 1 + |pattern|] == s[j..j + |pattern|];
          }
        }
      }
      match rest
      case None => None
      case Some(i) => Some(i + 1)
  }

  /** `s.includes(pattern)`. */
  function Includes(s: string, pattern: string): (b: bool)
    ensures b <==> exists i :: OccursAt(s, pattern, i)
  {
    IndexOf(s, pattern).Some?
  }

  /** `s.replace(pattern, replacement)` with a string pattern: only the first occurrence is replaced. */
  function ReplaceFirst(s: string, pattern: string, replacement: string): (r: string)
  {
    match IndexOf(s, pattern)
    case None => s
    case Some(i) => s[..i] + replacement + s[i + |pattern|..]
  }

  /**
   * What replacing the first occurrence means, stated position by position:
   * without an occurrence nothing changes; otherwise the first occurrence
   * is overwritten and every other character keeps its place.
   */
  lemma ReplaceFirstSameLength(s: string, pattern: string, replacement: string)
    requires |replacement| == |pattern|
    ensures |ReplaceFirst(s, pattern, replacement)| == |s|
    ensures !Includes(s, pattern) ==> ReplaceFirst(s, pattern, replacement) == s
    ensures Includes(s, pattern) ==>
      var i := IndexOf(s, pattern).value;
      var r := ReplaceFirst(s, pattern, replacement);
      && r[i..i + |pattern|] == replacement
      && (forall k :: 0 <= k < i ==> r[k] == s[k])
      && (forall k :: i + |pattern| <= k < |s| ==> r[k] == s[k])
  {
    if Includes(s, pattern) {
      var i := IndexOf(s, pattern).value;
      var r := ReplaceFirst(s, pattern, replacement);
      assert r == s[..i] + replacement + s[i + |pattern|..];
      assert r[i..i + |pattern|] == replacement;
    }
  }

  // ---------------------------------------------------------------------
  // Integers as decimal text
  // ---------------------------------------------------------------------

  predicate IsDigit(c: char)
  {
    '0' <= c <= '9'
  }

  function DigitChar(v: int): (c: char)
    requires 0 <= v <= 9
    ensures IsDigit(c)
  {
    ['0', '1', '2', '3', '4', '5', '6', '7', '8', '9'][v]
  }

  function DigitValue(c: char): (v: nat)
    requires IsDigit(c)
    ensures v <= 9 && DigitChar(v) == c
  {
    (c as int - '0' as int) as nat
  }

  lemma DigitCharValue(v: int)
    requires 0 <= v <= 9
    ensures DigitValue(DigitChar(v)) == v
  {
    assert DigitChar(v) as int == '0' as int + v;
  }

  predicate AllDigits(s: string)
  {
    forall i :: 0 <= i < |s| ==> IsDigit(s[i])
  }

  /** The decimal digits of n, without leading zeros. */
  function Digits(n: nat): (s: string)
    ensures |s| >= 1 && AllDigits(s)
    ensures s[0] == '0' ==> n == 0
  {
    if n < 10 then [DigitChar(n)] else Digits(n / 10) + [DigitChar(n % 10)]
  }

  /** `String(n)` for an integer Number n: a minus sign, then the digits of |n|. */
  function Decimal(n: int): (s: string)
  {
    if n < 0 then "-" + Digits(-n) else Digits(n)
  }

  /** The value of a non-empty string of decimal digits. */
  function ParseNat(s: string): (r: Option<nat>)
    ensures r.Some? ==> |s| >= 1 && AllDigits(s)
  {
    if |s| == 0 || !IsDigit(s[|s| - 1]) then None
    else if |s| == 1 then Some(DigitValue(s[0]))
    else match ParseNat(s[..|s| - 1])
      case None => None
      case Some(v) => Some(v * 10 + DigitValue(s[|s| - 1]))
  }

  /** An optional minus sign followed by decimal digits. */
  function ParseInt(s: string): (r: Option<int>)
  {
    if |s| > 0 && s[0] == '-' then
      match ParseNat(s[1..])
      case None => None
      case Some(v) => var w: int := v; Some(-w)
    else
      match ParseNat(s)
      case None => None
      case Some(v) => Some(v)
  }

  lemma {:induction false} ParseDigits(n: nat)
    ensures ParseNat(Digits(n)) == Some(n)
  {
    if n >= 10 {
      var s := Digits(n);
      assert s[..|s| - 1] == Digits(n / 10);
      ParseDigits(n / 10);
      DigitCharValue(n % 10);
      assert (n / 10) * 10 + n % 10 == n;
    }
  }

  lemma ParseSigned(ds: string, v: nat)
    requires ParseNat(ds) == Some(v)
    ensures ParseInt("-" + ds) == Some(-(v as int))
  {
    assert ("-" + ds)[1..] == ds;
  }

  lemma ParseUnsigned(ds: string, v: nat)
    requires ParseNat(ds) == Some(v)
    ensures ParseInt(ds) == Some(v)
  {
    assert IsDigit(ds[0]);
  }

  /** Parsing the decimal text of an integer gives the integer back. */
  lemma ParseDecimal(n: int)
    ensures ParseInt(Decimal(n)) == Some(n)
  {
    if n < 0 {
      assert Decimal(n) == "-" + Digits(-n);
      ParseDigits(-n);
      ParseSigned(Digits(-n), -n);
    } else {
      assert Decimal(n) == Digits(n);
      ParseDigits(n);
      ParseUnsigned(Digits(n), n);
    }
  }

  /** Distinct integers have distinct decimal texts. */
  lemma DecimalInjective(a: int, b: int)
    requires Decimal(a) == Decimal(b)
    ensures a == b
  {
    ParseDecimal(a);
    ParseDecimal(b);
  }

  /** Decimal text is made of digits and at most a leading minus sign. */
  lemma DecimalCharacters(n: int)
    ensures |Decimal(n)| >= 1
    ensures forall i :: 0 <= i < |Decimal(n)| ==> IsDigit(Decimal(n)[i]) || (i == 0 && n < 0 && Decimal(n)[i] == '-')
  {
    if n < 0 {
      var d := Digits(-n);
      assert forall i :: 1 <= i < |Decimal(n)| ==> Decimal(n)[i] == d[i - 1];
    }
  }

  /** How many digits the numbers below 10000 have. */
  lemma {:induction false} DigitsLength(n: nat)
    ensures n < 10 <==> |Digits(n)| == 1
    ensures 10 <= n < 100 <==> |Digits(n)| == 2
    ensures 100 <= n < 1000 <==> |Digits(n)| == 3
    ensures 1000 <= n < 10000 <==> |Digits(n)| == 4
  {
    if n >= 10 {
      DigitsLength(n / 10);
    }
  }

  // ---------------------------------------------------------------------
  // Splitting at a separator character
  // ---------------------------------------------------------------------

  /** `s.split(sep)` for a one-character separator: the pieces between the separators. */
  function Split(s: string, sep: char): (pieces: seq<string>)
    ensures |pieces| >= 1
    ensures forall i :: 0 <= i < |pieces| ==> sep !in pieces[i]
  {
    if s == [] then [[]]
    else
      var rest := Split(s[1..], sep);
      if s[0] == sep then [[]] + rest else [[s[0]] + rest[0]] + rest[1..]
  }

  /** Text without the separator is a single piece. */
  lemma {:induction false} SplitWithout(s: string, sep: char)
    requires sep !in s
    ensures Split(s, sep) == [s]
  {
    if s != [] {
      SplitWithout(s[1..], sep);
      assert [s[0]] + s[1..] == s;
    }
  }

  /** A separator that does not occur before position |a| is found there. */
  lemma IndexOfSeparator(a: string, sep: char, b: string)
    requires sep !in a
    ensures IndexOf(a + [sep] + b, [sep]) == Some(|a|)
  {
    var s := a + [sep] + b;
    assert OccursAt(s, [sep], |a|);
    forall j | 0 <= j < |a| ensures !OccursAt(s, [sep], j) {
      assert s[j..j + 1][0] == s[j] == a[j];
    }
  }

  /** The first separator ends the first piece. */
  lemma {:induction false} SplitAtFirst(a: string, sep: char, b: string)
    requires sep !in a
    ensures Split(a + [sep] + b, sep) == [a] + Split(b, sep)
  {
    var s := a + [sep] + b;
    if a == [] {
      assert s[1..] == b;
    } else {
      assert s[1..] == a[1..] + [sep] + b;
      SplitAtFirst(a[1..], sep, b);
      assert [a[0]] + a[1..] == a;
    }
  }

  /** A piece added after a last separator becomes the last piece. */
  lemma {:induction false} SplitAppend(a: string, sep: char, b: string)
    requires sep !in b
    ensures Split(a + [sep] + b, sep) == Split(a, sep) + [b]
  {
    var s := a + [sep] + b;
    if a == [] {
      assert s[1..] == b;
      SplitWithout(b, sep);
    } else {
      assert s[1..] == a[1..] + [sep] + b;
      SplitAppend(a[1..], sep, b);
      var rest := Split(a[1..], sep);
      if a[0] != sep {
        assert (rest + [b])[0] == rest[0];
        assert (rest + [b])[1..] == rest[1..] + [b];
      }
    }
  }
}
