/**
 * A decimal model of JavaScript's global `parseInt(string)` as the
 * pagination middleware uses it (no radix argument): leading white space
 * is skipped, an optional `+` or `-` sign is read, then the longest run of
 * decimal digits; anything after that run is ignored. No digits at all is
 * NaN, written here as `None`.
 */
module JsParseInt {
  import opened Wrappers

  /** The white space and line terminators `parseInt` skips (the common ones). */
  predicate IsWhitespace(c: char) {
    c == ' ' || c == '\t' || c == '\n' || c == '\r' || c == '\U{B}' || c == '\U{C}'
    || c == '\U{A0}' || c == '\U{2028}' || c == '\U{2029}' || c == '\U{FEFF}'
  }

  predicate IsDigit(c: char) {
    '0' <= c <= '9'
  }

  predicate AllDigits(s: string) {
    forall i :: 0 <= i < |s| ==> IsDigit(s[i])
  }

  function DigitValue(c: char): (d: nat)
    requires IsDigit(c)
    ensures d < 10
  {
    c as int - '0' as int
  }

  function DigitChar(d: nat): (c: char)
    requires d < 10
    ensures IsDigit(c) && DigitValue(c) == d
  {
    ('0' as int + d) as char
  }

  /** Drops the leading white space of `s`. */
  function TrimStart(s: string): (t: string)
    ensures |t| <= |s| && t == s[|s| - |t|..]
    ensures forall i :: 0 <= i < |s| - |t| ==> IsWhitespace(s[i])
    ensures t != [] ==> !IsWhitespace(t[0])
  {
    if s != [] && IsWhitespace(s[0]) then TrimStart(s[1..]) else s
  }

  /** The longest prefix of `s` made of decimal digits. */
  function DigitPrefix(s: string): (p: string)
    ensures p <= s && AllDigits(p)
    ensures |p| < |s| ==> !IsDigit(s[|p|])
  {
    if s != [] && IsDigit(s[0]) then [s[0]] + DigitPrefix(s[1..]) else []
  }

  /** The value of a string of decimal digits, most significant first. */
  function DigitsValue(d: string): (value: nat)
    requires AllDigits(d)
  {
    if d == [] then 0 else DigitsValue(d[..|d| - 1]) * 10 + DigitValue(d[|d| - 1])
  }

  /** The text after the optional sign of an already trimmed string. */
  function Unsigned(t: string): (u: string) {
    if t != [] && (t[0] == '-' || t[0] == '+') then t[1..] else t
  }

  /** Reads the optional sign and the digits of a string whose white space is already skipped. */
  function ParseTrimmed(t: string): (r: Option<int>)
    ensures r.Some? <==> DigitPrefix(Unsigned(t)) != []
  {
    var digits := DigitPrefix(Unsigned(t));
    var magnitude: int := if digits == [] then 0 else DigitsValue(digits);
    if digits == [] then None
    else if t[0] == '-' then Some(-magnitude)
    else Some(magnitude)
  }

  /** `parseInt(s)`: `None` stands for NaN. */
  function ParseInt(s: string): (r: Option<int>)
    ensures r.Some? ==> exists i :: 0 <= i < |s| && IsDigit(s[i])
  {
    ParseTrimmed(TrimStart(s))
  }

  /** `parseInt(req.query.x)`: an absent parameter is `undefined`, which parses to NaN. */
  function ParseQuery(raw: Option<string>): (r: Option<int>)
    ensures raw.None? ==> r.None?
  {
    match raw
    case None => None
    case Some(s) => ParseInt(s)
  }

  /** The shortest decimal numeral of `n`. */
  function NatToString(n: nat): (s: string)
    ensures s != [] && AllDigits(s)
    ensures n > 0 ==> s[0] != '0'
  {
    if n < 10 then [DigitChar(n)] else NatToString(n / 10) + [DigitChar(n % 10)]
  }

  /** The decimal numeral of `n`, with a `-` in front when it is negative. */
  function IntToString(n: int): (s: string)
    ensures s != [] && (IsDigit(s[0]) || s[0] == '-')
  {
    if n < 0 then "-" + NatToString(-n) else NatToString(n)
  }

  lemma {:induction false} DigitsValueOfNatToString(n: nat)
    ensures DigitsValue(NatToString(n)) == n
  {
    if n >= 10 {
      var s := NatToString(n);
      assert s[..|s| - 1] == NatToString(n / 10);
      DigitsValueOfNatToString(n / 10);
    }
  }

  /** A run of digits followed by a non-digit (or nothing) is read up to that non-digit. */
  lemma {:induction false} DigitPrefixStopsAtNonDigit(d: string, rest: string)
    requires AllDigits(d)
    requires rest == [] || !IsDigit(rest[0])
    ensures DigitPrefix(d + rest) == d
  {
    if d != [] {
      assert (d + rest)[1..] == d[1..] + rest;
      DigitPrefixStopsAtNonDigit(d[1..], rest);
    }
  }

  /** Leading white space does not change what `parseInt` reads. */
  lemma {:induction false} TrimStartSkipsWhitespace(ws: string, s: string)
    requires forall i :: 0 <= i < |ws| ==> IsWhitespace(ws[i])
    ensures TrimStart(ws + s) == TrimStart(s)
  {
    if ws != [] {
      var whole := ws + s;
      assert whole[0] == ws[0] && IsWhitespace(whole[0]);
      assert whole[1..] == ws[1..] + s;
      assert TrimStart(whole) == TrimStart(whole[1..]);
      TrimStartSkipsWhitespace(ws[1..], s);
    } else {
      assert ws + s == s;
    }
  }

  lemma ParseIntSkipsWhitespace(ws: string, s: string)
    requires forall i :: 0 <= i < |ws| ==> IsWhitespace(ws[i])
    ensures ParseInt(ws + s) == ParseInt(s)
  {
    TrimStartSkipsWhitespace(ws, s);
  }

  /** An unsigned run of digits followed by a non-digit (or nothing) is read as its value. */
  lemma ParseTrimmedDigits(d: string, rest: string)
    requires d != [] && AllDigits(d)
    requires rest == [] || !IsDigit(rest[0])
    ensures ParseTrimmed(d + rest) == Some(DigitsValue(d) as int)
  {
    var t := d + rest;
    assert t[0] == d[0];
    assert Unsigned(t) == t;
    DigitPrefixStopsAtNonDigit(d, rest);
  }

  /** A run of digits after a `-`, followed by a non-digit (or nothing), is read as the negated value. */
  lemma ParseTrimmedNegativeDigits(d: string, rest: string)
    requires d != [] && AllDigits(d)
    requires rest == [] || !IsDigit(rest[0])
    ensures ParseTrimmed("-" + d + rest) == Some(-(DigitsValue(d) as int))
  {
    var t := "-" + d + rest;
    assert t[0] == '-';
    assert t[1..] == d + rest;
    assert Unsigned(t) == d + rest;
    DigitPrefixStopsAtNonDigit(d, rest);
  }

  /** A run of digits after a `+`, followed by a non-digit (or nothing), is read as its value. */
  lemma ParseTrimmedPlusDigits(d: string, rest: string)
    requires d != [] && AllDigits(d)
    requires rest == [] || !IsDigit(rest[0])
    ensures ParseTrimmed("+" + d + rest) == Some(DigitsValue(d) as int)
  {
    var t := "+" + d + rest;
    assert t[0] == '+';
    assert t[1..] == d + rest;
    assert Unsigned(t) == d + rest;
    DigitPrefixStopsAtNonDigit(d, rest);
  }

  /**
   * `parseInt` reads back the numeral of every integer, also when the numeral
   * is followed by text that does not start with a digit ("25abc", "7.5").
   */
  lemma ParseIntRoundTrip(n: int, rest: string)
    requires rest == [] || !IsDigit(rest[0])
    ensures ParseInt(IntToString(n) + rest) == Some(n)
  {
    if n < 0 {
      var digits := NatToString(-n);
      var s := "-" + digits + rest;
      assert IntToString(n) + rest == s;
      TrimStartKeepsNonWhitespace(s);
      DigitsValueOfNatToString(-n);
      ParseTrimmedNegativeDigits(digits, rest);
    } else {
      var digits := NatToString(n);
      var s := digits + rest;
      assert IntToString(n) + rest == s;
      assert s[0] == digits[0];
      TrimStartKeepsNonWhitespace(s);
      DigitsValueOfNatToString(n);
      ParseTrimmedDigits(digits, rest);
    }
  }

  /** A string that does not start with white space is left as it is. */
  lemma TrimStartKeepsNonWhitespace(s: string)
    requires s != [] && !IsWhitespace(s[0])
    ensures TrimStart(s) == s
  {
  }

  /** Only the digits in a string can make `parseInt` return a number. */
  lemma ParseIntNeedsADigit(s: string)
    requires forall i :: 0 <= i < |s| ==> !IsDigit(s[i])
    ensures ParseInt(s) == None
  {
  }
}
