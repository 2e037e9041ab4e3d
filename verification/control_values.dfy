/** The value sanitization algorithms of the HTML Living Standard (section 4.10.5.1, the
    states of the `type` attribute) for the controls the inputs create: what a control's
    `value` reads back after a script assigns a string to it. */
module ControlValues {
  import opened Wrappers
  import opened Text
  import Dates

  // ---- line breaks and whitespace ----

  predicate IsNewline(c: char) {
    c == '\n' || c == '\r'
  }

  /** "Strip newlines": every LF and CR removed, every other character kept. Text, tel,
      password, email and url controls do this. */
  function StripNewlines(s: string): (r: string)
    ensures forall k :: 0 <= k < |r| ==> !IsNewline(r[k])
    decreases |s|
  {
    if |s| == 0 then ""
    else
      var rest := StripNewlines(s[1..]);
      if IsNewline(s[0]) then rest else [s[0]] + rest
  }

  /** Stripping newlines keeps every other character, as often as it occurs. */
  lemma {:induction false} StripNewlinesKeepsOthers(s: string)
    ensures forall c :: !IsNewline(c) ==> multiset(StripNewlines(s))[c] == multiset(s)[c]
    decreases |s|
  {
    if |s| > 0 {
      StripNewlinesKeepsOthers(s[1..]);
      HeadTail(s);
    }
  }

  /** A string without line breaks passes through unchanged. */
  lemma {:induction false} StripNewlinesOfClean(s: string)
    requires forall k :: 0 <= k < |s| ==> !IsNewline(s[k])
    ensures StripNewlines(s) == s
    decreases |s|
  {
    if |s| > 0 {
      StripNewlinesOfClean(s[1..]);
      HeadTail(s);
    }
  }

  /** ASCII whitespace: tab, line feed, form feed, carriage return and space. */
  predicate IsAsciiSpace(c: char) {
    c == '\t' || c == '\n' || c == '\U{000C}' || c == '\r' || c == ' '
  }

  predicate IsAsciiTrimmed(s: string) {
    |s| == 0 || (!IsAsciiSpace(s[0]) && !IsAsciiSpace(s[|s| - 1]))
  }

  /** How many ASCII whitespace characters the string starts with. */
  function LeadingSpaces(s: string): (n: nat)
    ensures n <= |s| && (n == |s| || !IsAsciiSpace(s[n]))
    ensures forall k :: 0 <= k < n ==> IsAsciiSpace(s[k])
    decreases |s|
  {
    if |s| > 0 && IsAsciiSpace(s[0]) then 1 + LeadingSpaces(s[1..]) else 0
  }

  /** How many ASCII whitespace characters the string ends with. */
  function TrailingSpaces(s: string): (n: nat)
    ensures n <= |s| && (n == |s| || !IsAsciiSpace(s[|s| - n - 1]))
    ensures forall k :: |s| - n <= k < |s| ==> IsAsciiSpace(s[k])
    decreases |s|
  {
    if |s| > 0 && IsAsciiSpace(s[|s| - 1]) then 1 + TrailingSpaces(s[..|s| - 1]) else 0
  }

  /** "Strip leading and trailing ASCII whitespace", which email and url controls apply
      after stripping newlines. */
  function StripAsciiWhitespace(s: string): (r: string)
    ensures IsAsciiTrimmed(r) && |r| <= |s|
  {
    var a := s[LeadingSpaces(s)..];
    a[..|a| - TrailingSpaces(a)]
  }

  /** Stripping the ends keeps a string free of line breaks. */
  lemma StripAsciiKeepsOut(s: string)
    requires forall k :: 0 <= k < |s| ==> !IsNewline(s[k])
    ensures forall k :: 0 <= k < |StripAsciiWhitespace(s)| ==> !IsNewline(StripAsciiWhitespace(s)[k])
  {
    var n := LeadingSpaces(s);
    var a := s[n..];
    var r := StripAsciiWhitespace(s);
    forall k | 0 <= k < |r| ensures !IsNewline(r[k]) {
      assert r[k] == a[k] == s[n + k];
    }
  }

  /** A string without whitespace at its ends passes through unchanged. */
  lemma StripAsciiOfTrimmed(s: string)
    requires IsAsciiTrimmed(s)
    ensures StripAsciiWhitespace(s) == s
  {
    assert LeadingSpaces(s) == 0;
    assert TrailingSpaces(s) == 0;
  }

  /** A textarea's API value: its raw value with every CR LF pair and every lone CR turned
      into a single LF. */
  function NormalizeNewlines(s: string): (r: string)
    ensures forall k :: 0 <= k < |r| ==> r[k] != '\r'
    decreases |s|
  {
    if |s| == 0 then ""
    else if s[0] == '\r' then "\n" + NormalizeNewlines(if |s| > 1 && s[1] == '\n' then s[2..] else s[1..])
    else [s[0]] + NormalizeNewlines(s[1..])
  }

  /** Normalising changes only the line breaks: with the breaks stripped, the text before and
      after is the same. */
  lemma {:induction false} NormalizeKeepsText(s: string)
    ensures StripNewlines(NormalizeNewlines(s)) == StripNewlines(s)
    decreases |s|
  {
    if |s| > 0 {
      if s[0] == '\r' {
        var rest := if |s| > 1 && s[1] == '\n' then s[2..] else s[1..];
        NormalizeKeepsText(rest);
        assert NormalizeNewlines(s) == "\n" + NormalizeNewlines(rest);
        assert ("\n" + NormalizeNewlines(rest))[1..] == NormalizeNewlines(rest);
        if |s| > 1 && s[1] == '\n' {
          assert s[1..][1..] == s[2..];
        }
      } else {
        NormalizeKeepsText(s[1..]);
        assert ([s[0]] + NormalizeNewlines(s[1..]))[1..] == NormalizeNewlines(s[1..]);
      }
    }
  }

  /** Text without carriage returns is left as it is. */
  lemma {:induction false} NormalizeNewlinesOfClean(s: string)
    requires forall k :: 0 <= k < |s| ==> s[k] != '\r'
    ensures NormalizeNewlines(s) == s
    decreases |s|
  {
    if |s| > 0 {
      NormalizeNewlinesOfClean(s[1..]);
      HeadTail(s);
    }
  }

  // ---- floating-point numbers ----

  /** The end of the run of digits starting at `i`. */
  function DigitsEnd(s: string, i: nat): (r: nat)
    requires i <= |s|
    ensures i <= r <= |s| && AllDigits(s[i..r]) && (r == |s| || !IsDigit(s[r]))
    ensures r > i ==> IsDigit(s[i]) && IsDigit(s[r - 1])
    decreases |s| - i
  {
    if i < |s| && IsDigit(s[i]) then
      var r := DigitsEnd(s, i + 1);
      assert forall k :: 0 <= k < r - i ==> s[i..r][k] == s[i + k];
      r
    else i
  }

  /** A decimal number: `mantissa` × 10^`scale`, negated when `negative`. */
  datatype Decimal = Decimal(negative: bool, mantissa: nat, scale: int)

  function Pow10(k: nat): (r: nat)
    ensures r >= 1
  {
    if k == 0 then 1 else 10 * Pow10(k - 1)
  }

  /** `n` × 10^`k`. */
  function Shifted(n: nat, k: nat): nat {
    n * Pow10(k)
  }

  function DecimalValue(d: Decimal): real {
    var m := if d.scale >= 0 then (d.mantissa * Pow10(d.scale)) as real
      else d.mantissa as real / Pow10(-d.scale) as real;
    if d.negative then -m else m
  }

  /** The exponent part of a floating-point number, from index `b` to the end: nothing at
      all (exponent 0), or "e" or "E", an optional sign and at least one digit. */
  function ExponentFrom(s: string, b: nat): (r: Option<int>)
    requires b <= |s|
    ensures r.Some? && b < |s| ==> IsDigit(s[|s| - 1])
  {
    if b == |s| then Some(0)
    else if !(s[b] == 'e' || s[b] == 'E') then None
    else
      var signed := b + 1 < |s| && (s[b + 1] == '-' || s[b + 1] == '+');
      var j := if signed then b + 2 else b + 1;
      var c := DigitsEnd(s, j);
      if c == j || c != |s| then None
      else
        var e: int := ParseDigits(s[j..c]);
        Some(if signed && s[b + 1] == '-' then -e else e)
  }

  /** A valid floating-point number: an optional "-", digits with an optional fraction (or
      a fraction alone: "." and at least one digit), then an optional exponent. `None` for
      any other string. */
  function ParseFloat(s: string): (r: Option<Decimal>)
    ensures r.Some? ==> |s| > 0 && (s[0] == '-' || s[0] == '.' || IsDigit(s[0])) && IsDigit(s[|s| - 1])
  {
    var neg := |s| > 0 && s[0] == '-';
    var i := if neg then 1 else 0;
    var a := DigitsEnd(s, i);
    var hasDot := a < |s| && s[a] == '.';
    var f := if hasDot then a + 1 else a;
    var b := DigitsEnd(s, f);
    if (hasDot && b == f) || (!hasDot && a == i) then None
    else
      match ExponentFrom(s, b)
      case None => None
      case Some(e) =>
        assert IsDigit(s[|s| - 1]) by {
          if b == |s| {
            if hasDot { assert b > f; } else { assert b == a && a > i; }
          }
        }
        assert s[0] == '-' || s[0] == '.' || IsDigit(s[0]) by {
          if !neg && a == 0 { assert hasDot; }
        }
        Some(Decimal(neg, Shifted(ParseDigits(s[i..a]), b - f) + ParseDigits(s[f..b]), e - (b - f)))
  }

  predicate IsValidFloat(s: string) {
    ParseFloat(s).Some?
  }

  /** A run of digits, all the way to the end, is read as the number it spells. */
  lemma {:induction false} DigitsEndOfDigits(s: string, i: nat)
    requires i <= |s| && AllDigits(s[i..])
    ensures DigitsEnd(s, i) == |s|
    decreases |s| - i
  {
    if i < |s| {
      assert s[i..][0] == s[i];
      assert s[i + 1..] == s[i..][1..];
      DigitsEndOfDigits(s, i + 1);
    }
  }

  /** A sign-free run of digits, optionally after a leading '-', is read as the integer
      it spells with exponent 0. */
  lemma ParseFloatOfDigitRun(s: string, i: nat)
    requires i == 0 || i == 1
    requires i < |s| && AllDigits(s[i..])
    requires (i == 1) == (s[0] == '-')
    ensures ParseFloat(s) == Some(Decimal(i == 1, ParseDigits(s[i..]), 0))
  {
    assert s[0] != '-' ==> i == 0;
    assert IsDigit(s[i..][0]);
    DigitsEndOfDigits(s, i);
    assert s[i..|s|] == s[i..];
    assert s[|s|..|s|] == "";
    assert Shifted(ParseDigits(s[i..]), 0) == ParseDigits(s[i..]);
  }

  /** The decimal text of an integer is a valid floating-point number denoting it. */
  lemma ParseFloatOfInt(n: int)
    ensures ParseFloat(IntToString(n)) == Some(Decimal(n < 0, if n < 0 then -n else n, 0))
    ensures DecimalValue(Decimal(n < 0, if n < 0 then -n else n, 0)) == n as real
  {
    var s := IntToString(n);
    var m := if n < 0 then -n else n;
    ParseNatToString(m);
    if n < 0 {
      assert s[1..] == NatToString(m);
      ParseFloatOfDigitRun(s, 1);
    } else {
      assert s[0..] == s;
      assert s[0] != '-' by { assert IsDigit(NatToString(m)[0]); }
      ParseFloatOfDigitRun(s, 0);
    }
  }

  // ---- number and range controls ----

  /** A number control keeps a valid floating-point number and reads "" for anything
      else. */
  function NumberControlValue(s: string): (r: string)
    ensures r == "" || (r == s && IsValidFloat(s))
    ensures IsValidFloat(s) ==> r == s
  {
    if IsValidFloat(s) then s else ""
  }

  /** A whole number between the default minimum 0 and maximum 100 of a range control
      (step 1). */
  predicate InDefaultRange(s: string) {
    match ParseFloat(s)
    case Some(d) =>
      var x := DecimalValue(d);
      0.0 <= x <= 100.0 && x == x.Floor as real
    case None => false
  }

  /** A range control with the default bounds: an invalid number becomes the default value
      50, a number below 0 or above 100 becomes that bound, a fraction is rounded to the
      nearest whole number (halves upwards), and anything else is kept. */
  function RangeControlValue(s: string): (r: string)
    ensures InDefaultRange(r)
    ensures InDefaultRange(s) ==> r == s
    ensures !IsValidFloat(s) ==> r == "50"
  {
    match ParseFloat(s)
    case None => RangeWhole(50)
    case Some(d) =>
      var x := DecimalValue(d);
      if x < 0.0 then RangeWhole(0)
      else if x > 100.0 then RangeWhole(100)
      else if x == x.Floor as real then s
      else RangeWhole((x + 0.5).Floor)
  }

  /** A whole number put into a range control is kept within the bounds and clamped to
      the nearer bound outside them. */
  lemma RangeOfInt(n: int)
    ensures RangeControlValue(IntToString(n)) == if n < 0 then "0" else if n > 100 then "100" else IntToString(n)
  {
    ParseFloatOfInt(n);
    if 0 <= n <= 100 {
      assert InDefaultRange(IntToString(n));
    }
  }

  /** The text of a whole number the range control holds. */
  function RangeWhole(n: int): (r: string)
    requires 0 <= n <= 100
    ensures InDefaultRange(r)
    ensures n == 0 ==> r == "0"
    ensures n == 50 ==> r == "50"
    ensures n == 100 ==> r == "100"
  {
    ParseFloatOfInt(n);
    NatToStringLength(n);
    var r := IntToString(n);
    assert n == 50 ==> r == NatToString(5) + [DigitChar(0)];
    assert n == 100 ==> r == NatToString(10) + [DigitChar(0)] && NatToString(10) == NatToString(1) + [DigitChar(0)];
    r
  }

  // ---- date controls ----

  /** The calendar fields of a date string: a year of four or more digits above zero, then
      a two-digit month and a two-digit day that exist in that year. */
  predicate IsValidDateString(s: string) {
    var n := |s| - 6;
    && n >= 4 && AllDigits(s[..n]) && ParseDigits(s[..n]) > 0
    && s[n] == '-' && s[n + 3] == '-'
    && match (Dates.Digits2At(s, n + 1), Dates.Digits2At(s, n + 4))
       case (Some(m), Some(d)) => 1 <= m <= 12 && 1 <= d <= Dates.DaysInMonth(ParseDigits(s[..n]), m)
       case _ => false
  }

  /** A date control keeps a valid date string and reads "" for anything else. */
  function DateControlValue(s: string): (r: string)
    ensures r == "" || (r == s && IsValidDateString(s))
    ensures IsValidDateString(s) ==> r == s
  {
    if IsValidDateString(s) then s else ""
  }

  /** A local date and time to the minute: a valid date string, "T" or a space, then
      `HH:MM` with an hour below 24 and a minute below 60. */
  predicate IsValidLocalDateTime(s: string) {
    var n := |s| - 6;
    && n >= 10 && IsValidDateString(s[..n]) && (s[n] == 'T' || s[n] == ' ') && s[n + 3] == ':'
    && match (Dates.Digits2At(s, n + 1), Dates.Digits2At(s, n + 4))
       case (Some(h), Some(mi)) => h < 24 && mi < 60
       case _ => false
  }

  /** A `datetime-local` control keeps a date and time to the minute in its normalised form,
      with "T" between date and time, and reads "" for anything else. */
  function DateTimeControlValue(s: string): (r: string)
    ensures r == "" || (IsValidLocalDateTime(r) && r[|r| - 6] == 'T')
    ensures IsValidLocalDateTime(s) && s[|s| - 6] == 'T' ==> r == s
    ensures !IsValidLocalDateTime(s) ==> r == ""
  {
    if IsValidLocalDateTime(s) then
      var n := |s| - 6;
      var r := s[..n] + "T" + s[n + 1..];
      assert r[..n] == s[..n] && r[n + 1..] == s[n + 1..];
      assert Dates.Digits2At(r, n + 1) == Dates.Digits2At(s, n + 1) by { assert r[n + 1..n + 3] == s[n + 1..n + 3]; }
      assert Dates.Digits2At(r, n + 4) == Dates.Digits2At(s, n + 4) by { assert r[n + 4..n + 6] == s[n + 4..n + 6]; }
      assert s[n] == 'T' ==> r == s;
      r
    else ""
  }

  /** The date a four-digit-year date control is given is a valid date string. */
  lemma FormatDateIsValid(d: Dates.DateRec)
    requires Dates.ShowableRec(d)
    ensures IsValidDateString(Dates.FormatDate(d))
  {
    var s := Dates.FormatDate(d);
    Dates.FormatDateShape(d);
    ParseNatToString(d.year);
    assert s[..|s| - 6] == NatToString(d.year);
    assert Dates.Digits2At(s, 5) == Some(d.month);
    assert Dates.Digits2At(s, 8) == Some(d.day);
  }

  /** The `YYYY-MM-DDTHH:MM` string of a four-digit-year date is a valid local date and
      time in normalised form. */
  lemma FormatDateTimeLocalIsValid(d: Dates.DateRec)
    requires Dates.ShowableRec(d)
    ensures var s := Dates.FormatDateTimeLocal(d); IsValidLocalDateTime(s) && s[|s| - 6] == 'T'
  {
    var f := Dates.FormatDate(d);
    var p, q := Pad2(d.hour), Pad2(d.minute);
    FormatDateIsValid(d);
    DateTimeSlices(f, p, q);
    LocalDateTimeOfParts(f + "T" + p + ":" + q, f, p, q);
  }

  /** Where the parts of a date, "T", hour, ":" and minute sit in their concatenation. */
  lemma DateTimeSlices(f: string, p: string, q: string)
    requires |p| == 2 && |q| == 2
    ensures var s := f + "T" + p + ":" + q;
      && |s| == |f| + 6 && s[..|f|] == f && s[|f|] == 'T' && s[|f| + 3] == ':'
      && s[|f| + 1..|f| + 3] == p && s[|f| + 4..] == q
  {
    var s := f + "T" + p + ":" + q;
    var n := |f|;
    assert s[..n] == f;
    assert s[n + 1..n + 3] == p;
    assert s[n + 4..] == q;
  }

  /** A valid date, "T", and a two-digit hour and minute in range, in that order, make a
      normalised local date and time. */
  lemma LocalDateTimeOfParts(s: string, f: string, p: string, q: string)
    requires IsValidDateString(f)
    requires |p| == 2 && AllDigits(p) && ParseDigits(p) < 24
    requires |q| == 2 && AllDigits(q) && ParseDigits(q) < 60
    requires |s| == |f| + 6 && s[..|f|] == f && s[|f|] == 'T' && s[|f| + 3] == ':'
    requires s[|f| + 1..|f| + 3] == p && s[|f| + 4..] == q
    ensures IsValidLocalDateTime(s) && s[|s| - 6] == 'T'
  {
    var n := |f|;
    assert s[n + 4..n + 6] == q;
  }

  /** A local date and time starts with a valid date. */
  lemma LocalDateTimeNeedsDate(s: string, f: string)
    requires |s| == |f| + 6 && s[..|f|] == f && !IsValidDateString(f)
    ensures !IsValidLocalDateTime(s)
  {
  }

  /** A year below 1000 is written with fewer than four digits (or with a minus sign), so
      the date string is not valid. */
  lemma ShortYearDateIsInvalid(d: Dates.DateRec)
    requires Dates.ValidRec(d) && d.year < 1000
    ensures !IsValidDateString(Dates.FormatDate(d))
  {
    var y := IntToString(d.year);
    var s := Dates.FormatDate(d);
    var p, q := Pad2(d.month), Pad2(d.day);
    assert s == y + "-" + p + "-" + q;
    assert |s| == |y| + 6 && s[..|y|] == y;
    if d.year >= 0 {
      NatToStringLength(d.year);
    } else {
      assert s[..|y|][0] == '-';
    }
  }

  /** Neither date string the controls are given for a year below 1000 is valid. */
  lemma ShortYearIsInvalid(d: Dates.DateRec)
    requires Dates.ValidRec(d) && d.year < 1000
    ensures !IsValidDateString(Dates.FormatDate(d))
    ensures !IsValidLocalDateTime(Dates.FormatDateTimeLocal(d))
  {
    var f := Dates.FormatDate(d);
    ShortYearDateIsInvalid(d);
    DateTimeSlices(f, Pad2(d.hour), Pad2(d.minute));
    LocalDateTimeNeedsDate(Dates.FormatDateTimeLocal(d), f);
  }
}
