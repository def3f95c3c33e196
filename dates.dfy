/**
 * The exact date parse of the loader, for its one pattern (month, day, four-digit year, twelve-hour
 * time and AM/PM designator) in the invariant culture: a parser driven by the tokens of the pattern,
 * followed by the Gregorian calendar's range checks.
 */
module Dates {
  import opened Wrappers
  import opened Digits

  datatype DateTime = DateTime(year: int, month: int, day: int, hour: int, minute: int, second: int)

  predicate IsLeapYear(year: int)
  {
    year % 4 == 0 && (year % 100 != 0 || year % 400 == 0)
  }

  function DaysInMonth(year: int, month: int): int
  {
    if month == 2 then (if IsLeapYear(year) then 29 else 28)
    else if month == 4 || month == 6 || month == 9 || month == 11 then 30
    else 31
  }

  /** The values a .NET DateTime can hold (to the second). */
  predicate ValidDateTime(d: DateTime)
  {
    && 1 <= d.year <= 9999
    && 1 <= d.month <= 12
    && 1 <= d.day <= DaysInMonth(d.year, d.month)
    && 0 <= d.hour < 24
    && 0 <= d.minute < 60
    && 0 <= d.second < 60
  }

  // ----- Format tokens -----

  /**
   * One element of a format string: a number of `min` to `max` digits ("M" and "d" and "h" are 1 to 2,
   * "yyyy" exactly 4, "mm" and "ss" exactly 2), a literal character, or the AM/PM designator "tt".
   */
  datatype Token = Number(min: nat, max: nat) | Literal(c: char) | Designator

  /** "M/d/yyyy h:mm:ss tt" with the invariant culture's date separator '/' and time separator ':'. */
  const Pattern: seq<Token> := [
    Number(1, 2), Literal('/'), Number(1, 2), Literal('/'), Number(4, 4), Literal(' '),
    Number(1, 2), Literal(':'), Number(2, 2), Literal(':'), Number(2, 2), Literal(' '),
    Designator
  ]

  /** Reads one token from the front of `s`; literals yield 0, AM yields 0 and PM yields 1. */
  function ParseToken(t: Token, s: string): (r: Option<(nat, string)>)
    ensures r.Some? ==> |r.value.1| < |s|
  {
    match t
    case Number(min, max) =>
      var (ds, rest) := Span(s, max);
      if |ds| < min || ds == [] then None else Some((Value(ds), rest))
    case Literal(c) =>
      if s != [] && s[0] == c then Some((0, s[1..])) else None
    case Designator =>
      // the designators are matched ignoring case
      if |s| >= 2 && (s[1] == 'M' || s[1] == 'm') && (s[0] == 'A' || s[0] == 'a') then Some((0, s[2..]))
      else if |s| >= 2 && (s[1] == 'M' || s[1] == 'm') && (s[0] == 'P' || s[0] == 'p') then Some((1, s[2..]))
      else None
  }

  /** Reads the tokens in order; the whole string must be consumed. One value per token. */
  function ParseTokens(p: seq<Token>, s: string): (r: Option<seq<nat>>)
    ensures r.Some? ==> |r.value| == |p|
  {
    if p == [] then (if s == [] then Some([]) else None)
    else
      match ParseToken(p[0], s)
      case None => None
      case Some((v, rest)) =>
        match ParseTokens(p[1..], rest)
        case None => None
        case Some(vs) => Some([v] + vs)
  }

  /** Twelve-hour clock to 24-hour clock: 12 AM is 0, 12 PM is 12, other PM hours add 12. */
  function To24(hour12: nat, pm: bool): nat
  {
    if !pm then (if hour12 == 12 then 0 else hour12)
    else (if hour12 == 12 then 12 else hour12 + 12)
  }

  /**
   * The date of `s` in the pattern, or None for the FormatException. The hour must be at most 12;
   * the date must exist in the Gregorian calendar.
   */
  function ParseDate(s: string): (r: Option<DateTime>)
    ensures r.Some? ==> ValidDateTime(r.value)
  {
    match ParseTokens(Pattern, s)
    case None => None
    case Some(vs) =>
      if vs[6] > 12 then None
      else
        var d := DateTime(vs[4], vs[0], vs[2], To24(vs[6], vs[12] == 1), vs[8], vs[10]);
        if ValidDateTime(d) then Some(d) else None
  }

  // ----- Formatting, the inverse -----

  function FormatToken(t: Token, v: nat): string
  {
    match t
    case Number(min, _) => Padded(v, min)
    case Literal(c) => [c]
    case Designator => if v == 0 then "AM" else "PM"
  }

  function FormatTokens(p: seq<Token>, vs: seq<nat>): string
    requires |vs| == |p|
  {
    if p == [] then [] else FormatToken(p[0], vs[0]) + FormatTokens(p[1..], vs[1..])
  }

  function Hour12(hour: nat): nat
  {
    if hour % 12 == 0 then 12 else hour % 12
  }

  /** The token values of a date, in the order of Pattern. */
  function Fields(d: DateTime): seq<nat>
    requires ValidDateTime(d)
  {
    [d.month, 0, d.day, 0, d.year, 0, Hour12(d.hour), 0, d.minute, 0, d.second, 0, if d.hour < 12 then 0 else 1]
  }

  /** The text of `d` printed with the same pattern in the invariant culture. */
  function FormatDate(d: DateTime): string
    requires ValidDateTime(d)
  {
    FormatTokens(Pattern, Fields(d))
  }

  // ----- Properties -----

  /** A value its token can print and read back. */
  predicate Fits(t: Token, v: nat)
  {
    match t
    case Number(min, max) => 1 <= min && |Padded(v, min)| <= max
    case Literal(c) => v == 0
    case Designator => v <= 1
  }

  /** No two number tokens are adjacent and no literal is a digit, so the greedy digit scans stop in time. */
  predicate Separated(p: seq<Token>)
  {
    && (forall i :: 0 <= i < |p| - 1 && p[i].Number? ==> !p[i + 1].Number?)
    && (forall i :: 0 <= i < |p| && p[i].Literal? ==> !IsDigit(p[i].c))
  }

  lemma ParseFormatToken(t: Token, v: nat, rest: string)
    requires Fits(t, v)
    requires t.Number? ==> rest == [] || !IsDigit(rest[0])
    ensures ParseToken(t, FormatToken(t, v) + rest) == Some((v, rest))
  {
    match t
    case Number(min, max) =>
      SpanOf(Padded(v, min), rest, max);
      ValuePadded(v, min);
    case Literal(c) =>
      assert ([c] + rest)[1..] == rest;
    case Designator =>
      assert (FormatToken(t, v) + rest)[2..] == rest;
  }

  lemma FormatTokensHead(p: seq<Token>, vs: seq<nat>)
    requires |vs| == |p| && p != [] && !p[0].Number? && Separated(p)
    ensures FormatTokens(p, vs) != [] && !IsDigit(FormatTokens(p, vs)[0])
  {
    var s := FormatTokens(p, vs);
    assert s[0] == FormatToken(p[0], vs[0])[0];
  }

  /** Printing values that fit a separated pattern and reading them back gives the same values. */
  lemma {:induction false} ParseFormatTokens(p: seq<Token>, vs: seq<nat>)
    requires |vs| == |p| && Separated(p)
    requires forall i :: 0 <= i < |p| ==> Fits(p[i], vs[i])
    ensures ParseTokens(p, FormatTokens(p, vs)) == Some(vs)
  {
    if p != [] {
      var rest := FormatTokens(p[1..], vs[1..]);
      SeparatedTail(p);
      assert forall i :: 0 <= i < |p[1..]| ==> Fits(p[1..][i], vs[1..][i]) by {
        forall i | 0 <= i < |p[1..]| ensures Fits(p[1..][i], vs[1..][i]) {
          assert p[1..][i] == p[i + 1] && vs[1..][i] == vs[i + 1];
        }
      }
      if p[0].Number? && p[1..] != [] {
        assert p[1..][0] == p[1];
        FormatTokensHead(p[1..], vs[1..]);
      }
      ParseFormatToken(p[0], vs[0], rest);
      ParseFormatTokens(p[1..], vs[1..]);
      assert [vs[0]] + vs[1..] == vs;
    }
  }

  lemma SeparatedTail(p: seq<Token>)
    requires p != [] && Separated(p)
    ensures Separated(p[1..])
  {
    forall i | 0 <= i < |p[1..]| - 1 && p[1..][i].Number? ensures !p[1..][i + 1].Number? {
      assert p[1..][i] == p[i + 1] && p[1..][i + 1] == p[i + 2];
    }
    forall i | 0 <= i < |p[1..]| && p[1..][i].Literal? ensures !IsDigit(p[1..][i].c) {
      assert p[1..][i] == p[i + 1];
    }
  }

  lemma PatternSeparated()
    ensures Separated(Pattern)
  {
    forall i | 0 <= i < |Pattern| - 1 && Pattern[i].Number? ensures !Pattern[i + 1].Number? {
      assert i in {0, 2, 4, 6, 8, 10};
    }
  }

  lemma FieldsFit(d: DateTime)
    requires ValidDateTime(d)
    ensures forall i :: 0 <= i < |Pattern| ==> Fits(Pattern[i], Fields(d)[i])
  {
    var vs := Fields(d);
    assert Pow10(2) == 100 && Pow10(4) == 10000;
    FromNatLength(vs[0], 2);
    FromNatLength(vs[2], 2);
    FromNatLength(vs[4], 4);
    FromNatLength(vs[6], 2);
    FromNatLength(vs[8], 2);
    FromNatLength(vs[10], 2);
    forall i | 0 <= i < |Pattern| ensures Fits(Pattern[i], vs[i]) {
      assert i in {0, 1, 2, 3, 4, 5, 6, 7, 8, 9, 10, 11, 12};
    }
  }

  /** Every valid date, printed in the pattern, parses back to itself. */
  lemma ParseFormatDate(d: DateTime)
    requires ValidDateTime(d)
    ensures ParseDate(FormatDate(d)) == Some(d)
  {
    var vs := Fields(d);
    PatternSeparated();
    FieldsFit(d);
    ParseFormatTokens(Pattern, vs);
    assert ParseTokens(Pattern, FormatDate(d)) == Some(vs);
    ClockRoundTrip(d.hour);
    assert vs[6] == Hour12(d.hour) && (vs[12] == 1) == (d.hour >= 12);
    assert DateTime(vs[4], vs[0], vs[2], To24(vs[6], vs[12] == 1), vs[8], vs[10]) == d;
  }

  /** The twelve-hour clock loses nothing: the designator restores the hour. */
  lemma ClockRoundTrip(hour: int)
    requires 0 <= hour < 24
    ensures 1 <= Hour12(hour) <= 12 && To24(Hour12(hour), hour >= 12) == hour
  {
  }

  /** ParseExact does not skip white space: a leading blank is a FormatException. */
  lemma ParseDateLeadingBlank(s: string)
    ensures ParseDate(" " + s) == None
  {
    assert Pattern[0] == Number(1, 2);
    assert (" " + s)[0] == ' ';
  }

  /** The printed tokens hold only digits, the designator letters and the pattern's literals. */
  lemma {:induction false} FormatTokensAvoid(p: seq<Token>, vs: seq<nat>, c: char)
    requires |vs| == |p|
    requires !IsDigit(c) && c != 'A' && c != 'P' && c != 'M'
    requires forall i :: 0 <= i < |p| ==> p[i] != Literal(c)
    ensures c !in FormatTokens(p, vs)
  {
    if p != [] {
      assert forall i :: 0 <= i < |p[1..]| ==> p[1..][i] == p[i + 1];
      FormatTokensAvoid(p[1..], vs[1..], c);
      match p[0]
      case Number(min, _) =>
        assert forall i :: 0 <= i < |Padded(vs[0], min)| ==> IsDigit(Padded(vs[0], min)[i]);
      case Literal(_) =>
      case Designator =>
    }
  }

  /** A printed date contains no character other than digits, '/', ' ', ':', 'A', 'P' and 'M'. */
  lemma FormatDateAvoids(d: DateTime, c: char)
    requires ValidDateTime(d)
    requires !IsDigit(c) && c !in "/ :APM"
    ensures c !in FormatDate(d)
  {
    forall i | 0 <= i < |Pattern| ensures Pattern[i] != Literal(c) {
      assert i in {0, 1, 2, 3, 4, 5, 6, 7, 8, 9, 10, 11, 12};
    }
    FormatTokensAvoid(Pattern, Fields(d), c);
  }
}
