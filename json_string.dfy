/**
 * `JSON.stringify` applied to a string, which the CSV writer uses to quote
 * the notes field: the string escaping of section 7 of RFC 8259, in the
 * choice of escapes that ECMAScript's QuoteJSONString makes. A decoder
 * accepting RFC 8259 strings (except escaped surrogates) inverts it.
 */
module JsonString {
  import opened Optional

  function HexDigit(v: int): (c: char)
    requires 0 <= v < 16
  {
    "0123456789abcdef"[v]
  }

  /** One character as JSON.stringify writes it inside the quotes. */
  function EscapeChar(c: char): (s: string)
    ensures |s| >= 1 && '\n' !in s && '\r' !in s
    ensures s[0] == '\\' || s == [c]
  {
    if c == '"' then "\\\""
    else if c == '\\' then "\\\\"
    else if c as int == 0x08 then "\\b"
    else if c == '\t' then "\\t"
    else if c == '\n' then "\\n"
    else if c as int == 0x0C then "\\f"
    else if c == '\r' then "\\r"
    else if (c as int) < 0x20 then "\\u00" + [HexDigit(c as int / 16), HexDigit(c as int % 16)]
    else [c]
  }

  function Escape(s: string): (e: string)
    ensures '\n' !in e && '\r' !in e
  {
    if s == [] then "" else EscapeChar(s[0]) + Escape(s[1..])
  }

  /** `JSON.stringify(s)` for a string s. */
  function Quote(s: string): (q: string)
    ensures |q| >= 2 && q[0] == '"' && q[|q| - 1] == '"'
    ensures '\n' !in q && '\r' !in q
  {
    "\"" + Escape(s) + "\""
  }

  // ---------------------------------------------------------------------
  // Decoding
  // ---------------------------------------------------------------------

  predicate IsHexDigit(c: char)
  {
    '0' <= c <= '9' || 'a' <= c <= 'f' || 'A' <= c <= 'F'
  }

  function HexValue(c: char): (v: int)
    requires IsHexDigit(c)
    ensures 0 <= v < 16
  {
    if '0' <= c <= '9' then c as int - '0' as int
    else if 'a' <= c <= 'f' then c as int - 'a' as int + 10
    else c as int - 'A' as int + 10
  }

  function Prepend(c: char, r: Option<string>): (prefixed: Option<string>)
  {
    match r
    case None => None
    case Some(s) => Some([c] + s)
  }

  /** The characters a JSON string body (between the quotes) stands for. */
  function Unescape(t: string): (r: Option<string>)
    decreases |t|
  {
    if t == [] then Some([])
    else if t[0] == '\\' then
      if |t| < 2 then None
      else if t[1] == '"' then Prepend('"', Unescape(t[2..]))
      else if t[1] == '\\' then Prepend('\\', Unescape(t[2..]))
      else if t[1] == '/' then Prepend('/', Unescape(t[2..]))
      else if t[1] == 'b' then Prepend(0x08 as char, Unescape(t[2..]))
      else if t[1] == 'f' then Prepend(0x0C as char, Unescape(t[2..]))
      else if t[1] == 'n' then Prepend('\n', Unescape(t[2..]))
      else if t[1] == 'r' then Prepend('\r', Unescape(t[2..]))
      else if t[1] == 't' then Prepend('\t', Unescape(t[2..]))
      else if t[1] == 'u' && |t| >= 6 && IsHexDigit(t[2]) && IsHexDigit(t[3]) && IsHexDigit(t[4]) && IsHexDigit(t[5]) then
        var code := ((HexValue(t[2]) * 16 + HexValue(t[3])) * 16 + HexValue(t[4])) * 16 + HexValue(t[5]);
        if 0xD800 <= code < 0xE000 then None
        else Prepend(code as char, Unescape(t[6..]))
      else None
    else if t[0] == '"' || (t[0] as int) < 0x20 then None
    else Prepend(t[0], Unescape(t[1..]))
  }

  /** The value of a JSON string literal, quotes included. */
  function Unquote(q: string): (r: Option<string>)
  {
    if |q| >= 2 && q[0] == '"' && q[|q| - 1] == '"' then Unescape(q[1..|q| - 1]) else None
  }

  lemma UnescapeControl(c: char, rest: string)
    requires (c as int) < 0x20
    ensures var t := "\\u00" + [HexDigit(c as int / 16), HexDigit(c as int % 16)] + rest;
      Unescape(t) == Prepend(c, Unescape(rest))
  {
    var hi, lo := c as int / 16, c as int % 16;
    var t := "\\u00" + [HexDigit(hi), HexDigit(lo)] + rest;
    assert t[0] == '\\' && t[1] == 'u';
    assert HexValue(t[2]) == 0 && HexValue(t[3]) == 0;
    assert HexValue(t[4]) == hi && HexValue(t[5]) == lo;
    assert t[6..] == rest;
  }

  lemma UnescapePair(c: char, e: char, rest: string)
    requires [e] in ["\"", "\\", "b", "t", "n", "f", "r"]
    requires c == (if e == '"' then '"' else if e == '\\' then '\\' else if e == 'b' then 0x08 as char
      else if e == 't' then '\t' else if e == 'n' then '\n' else if e == 'f' then 0x0C as char else '\r')
    ensures Unescape(['\\', e] + rest) == Prepend(c, Unescape(rest))
  {
    assert (['\\', e] + rest)[2..] == rest;
  }

  lemma UnescapeChar(c: char, rest: string)
    ensures Unescape(EscapeChar(c) + rest) == Prepend(c, Unescape(rest))
  {
    if c == '"' {
      UnescapePair(c, '"', rest);
    } else if c == '\\' {
      UnescapePair(c, '\\', rest);
    } else if c as int == 0x08 {
      UnescapePair(c, 'b', rest);
    } else if c == '\t' {
      UnescapePair(c, 't', rest);
    } else if c == '\n' {
      UnescapePair(c, 'n', rest);
    } else if c as int == 0x0C {
      UnescapePair(c, 'f', rest);
    } else if c == '\r' {
      UnescapePair(c, 'r', rest);
    } else if (c as int) < 0x20 {
      UnescapeControl(c, rest);
    } else {
      assert ([c] + rest)[1..] == rest;
    }
  }

  lemma {:induction false} UnescapeEscape(s: string)
    ensures Unescape(Escape(s)) == Some(s)
  {
    if s != [] {
      UnescapeChar(s[0], Escape(s[1..]));
      UnescapeEscape(s[1..]);
      assert [s[0]] + s[1..] == s;
    }
  }

  /** Decoding what JSON.stringify wrote gives back the original string. */
  lemma QuoteRoundTrip(s: string)
    ensures Unquote(Quote(s)) == Some(s)
  {
    var q := Quote(s);
    assert q[1..|q| - 1] == Escape(s);
    UnescapeEscape(s);
  }

  /** Different strings are quoted differently. */
  lemma QuoteInjective(s: string, t: string)
    requires Quote(s) == Quote(t)
    ensures s == t
  {
    QuoteRoundTrip(s);
    QuoteRoundTrip(t);
  }

  /** Text without quotes, backslashes or control characters is only wrapped in quotes. */
  lemma QuotePlain(s: string)
    requires forall i :: 0 <= i < |s| ==> s[i] != '"' && s[i] != '\\' && (s[i] as int) >= 0x20
    ensures Quote(s) == "\"" + s + "\""
  {
    PlainEscape(s);
  }

  lemma {:induction false} PlainEscape(s: string)
    requires forall i :: 0 <= i < |s| ==> s[i] != '"' && s[i] != '\\' && (s[i] as int) >= 0x20
    ensures Escape(s) == s
  {
    if s != [] {
      PlainEscape(s[1..]);
      assert [s[0]] + s[1..] == s;
    }
  }
}
