/**
 * The two numeric conversions of the loader, with the invariant culture:
 * `Convert.ToInt32(string, provider)`, which parses with NumberStyles.Integer, and
 * `Convert.ToDecimal(string, provider)`, which parses with NumberStyles.Number.
 */
module Numbers {
  import opened Wrappers
  import opened Digits

  /** The C# `int`: a 32-bit two's-complement integer. */
  newtype int32 = x: int | -0x8000_0000 <= x < 0x8000_0000

  /** FormatException and OverflowException. */
  datatype NumberError = FormatError | OverflowError

  /** A `decimal` as mantissa and scale: the value is mantissa / 10^scale, and "1.50" keeps scale 2. */
  datatype Decimal = Decimal(mantissa: int, scale: nat)

  /** .NET's number-parsing white space: U+0020 and U+0009..U+000D. */
  predicate IsWhite(c: char) { c == ' ' || '\t' <= c <= '\r' }

  predicate AllWhite(s: string) { forall i :: 0 <= i < |s| ==> IsWhite(s[i]) }

  /** The invariant culture's PositiveSign and NegativeSign. */
  predicate IsSign(c: char) { c == '+' || c == '-' }

  function SkipWhite(s: string): (r: string)
    ensures |r| <= |s|
    ensures r == [] || !IsWhite(r[0])
  {
    if s != [] && IsWhite(s[0]) then SkipWhite(s[1..]) else s
  }

  /** Whether `t` starts with a sign, whether that sign is '-', and the text after it. */
  function LeadingSign(t: string): (r: (bool, bool, string))
    ensures !r.0 ==> !r.1 && r.2 == t
    ensures r.0 ==> t != [] && IsSign(t[0]) && r.1 == (t[0] == '-') && r.2 == t[1..]
  {
    if t != [] && IsSign(t[0]) then (true, t[0] == '-', t[1..]) else (false, false, t)
  }

  /** The characters of `s` that are not white space, in order. */
  function NonWhite(s: string): (r: string)
    ensures |r| <= |s|
  {
    if s == [] then []
    else (if IsWhite(s[0]) then [] else [s[0]]) + NonWhite(s[1..])
  }

  function Signed(negative: bool, magnitude: nat): int
  {
    if negative then -(magnitude as int) else magnitude
  }

  function Magnitude(x: int): nat
  {
    if x < 0 then -x else x
  }

  // ----- Convert.ToInt32 -----

  /**
   * Optional leading white space, an optional leading sign, at least one digit, optional trailing
   * white space. A malformed string is a FormatError even when its digits would overflow; a
   * well-formed one outside the 32-bit range is an OverflowError.
   */
  function ParseInt32(s: string): (r: Result<int32, NumberError>)
  {
    var (_, negative, u) := LeadingSign(SkipWhite(s));
    var (ds, tail) := Span(u, |u|);
    if ds == [] || !AllWhite(tail) then Failure(FormatError)
    else
      var v := Signed(negative, Value(ds));
      if -0x8000_0000 <= v < 0x8000_0000 then Success(v as int32) else Failure(OverflowError)
  }

  /** The invariant-culture text of an `int`: a minus sign for negative values, then the digits. */
  function FormatInt32(v: int32): string
  {
    if v < 0 then "-" + FromNat(-(v as int)) else FromNat(v as int)
  }

  // ----- Convert.ToDecimal -----

  /**
   * The fraction after the integer digits: ("", rest) without a '.', or the digits after the '.'
   * and what follows them.
   */
  function Fraction(afterInt: string): (r: (bool, string, string))
    ensures AllDigits(r.1)
  {
    if afterInt != [] && afterInt[0] == '.' then
      var (fs, tail) := Span(afterInt[1..], |afterInt| - 1);
      (true, fs, tail)
    else (false, [], afterInt)
  }

  /**
   * Optional leading white space, then either a leading sign or (after the number and among the
   * trailing white space) one trailing sign, digits with at most one '.', and at least one digit on
   * either side of it. The group separator ',' of NumberStyles.AllowThousands never reaches this
   * parser, because the line was split on ','.
   */
  function ParseDecimal(s: string): (r: Option<Decimal>)
  {
    var (leading, negativeLead, u) := LeadingSign(SkipWhite(s));
    DecimalBody(leading, negativeLead, u)
  }

  /** The number after the optional leading sign, with the trailing-sign rule applied. */
  function DecimalBody(leading: bool, negativeLead: bool, u: string): (r: Option<Decimal>)
  {
    var (intPart, afterInt) := Span(u, |u|);
    var (_, frac, tail) := Fraction(afterInt);
    var marks := NonWhite(tail);
    if intPart + frac == [] then None
    else if marks != [] && (leading || |marks| > 1 || !IsSign(marks[0])) then None
    else
      var negative := negativeLead || marks == "-";
      Some(Decimal(Signed(negative, Value(intPart + frac)), |frac|))
  }

  /** The invariant-culture text of a decimal: sign, integer digits, and exactly `scale` fraction digits. */
  function FormatDecimal(d: Decimal): string
  {
    PointText(d.mantissa < 0, Padded(Magnitude(d.mantissa), d.scale + 1), d.scale)
  }

  /** A sign, then a digit string with its last `scale` digits after a '.'. */
  function PointText(negative: bool, ds: string, scale: nat): string
    requires scale < |ds|
  {
    var k := |ds| - scale;
    (if negative then "-" else "") + (if scale == 0 then ds else ds[..k] + "." + ds[k..])
  }

  // ----- Properties -----

  lemma {:induction false} SkipWhitePrefix(w: string, x: string)
    requires AllWhite(w)
    requires x == [] || !IsWhite(x[0])
    ensures SkipWhite(w + x) == x
  {
    if w == [] {
      assert w + x == x;
    } else {
      assert (w + x)[0] == w[0];
      assert (w + x)[1..] == w[1..] + x;
      SkipWhitePrefix(w[1..], x);
    }
  }

  lemma {:induction false} SkipWhiteSuffix(s: string)
    ensures SkipWhite(s) == s[|s| - |SkipWhite(s)|..]
  {
    if s != [] && IsWhite(s[0]) {
      SkipWhiteSuffix(s[1..]);
    }
  }

  /** Every `int`, with any white space around it, converts back to itself. */
  lemma ParseFormatInt32(w1: string, v: int32, w2: string)
    requires AllWhite(w1) && AllWhite(w2)
    ensures ParseInt32(w1 + FormatInt32(v) + w2) == Success(v)
  {
    var magnitude: nat := if v < 0 then -(v as int) else v as int;
    var ds := FromNat(magnitude);
    var x := FormatInt32(v) + w2;
    assert w1 + FormatInt32(v) + w2 == w1 + x;
    SkipWhitePrefix(w1, x);
    var u := ds + w2;
    if v < 0 {
      assert x == "-" + u;
      assert x[1..] == u;
    } else {
      assert x == u;
    }
    assert LeadingSign(x) == (v < 0, v < 0, u);
    if w2 != [] {
      assert !IsDigit(w2[0]);
    }
    SpanOf(ds, w2, |u|);
    ValueFromNat(magnitude);
  }

  /**
   * A well-formed number outside the 32-bit range is an OverflowError, not a wrapped value, whatever
   * white space surrounds it, whichever sign it has and however many leading zeros it carries.
   */
  lemma ParseInt32Overflow(w1: string, sign: string, ds: string, w2: string)
    requires AllWhite(w1) && AllWhite(w2)
    requires sign == "" || sign == "-" || sign == "+"
    requires ds != [] && AllDigits(ds)
    requires !(-0x8000_0000 <= Signed(sign == "-", Value(ds)) < 0x8000_0000)
    ensures ParseInt32(w1 + sign + ds + w2) == Failure(OverflowError)
  {
    var u := ds + w2;
    var x := sign + u;
    assert w1 + sign + ds + w2 == w1 + x;
    assert x[0] == if sign == "" then ds[0] else sign[0];
    SkipWhitePrefix(w1, x);
    if sign == "" {
      assert x == u;
    } else {
      assert x[1..] == u;
    }
    assert LeadingSign(x) == (sign != "", sign == "-", u);
    if w2 != [] {
      assert !IsDigit(w2[0]);
    }
    SpanOf(ds, w2, |u|);
  }

  /** -2147483649, one below the 32-bit range, is an OverflowError. */
  lemma ParseInt32BelowRange()
    ensures ParseInt32("-2147483649") == Failure(OverflowError)
  {
    var ds := "2";
    assert Value(ds) == 2;
    ValueAppend(ds, '1');
    ds := ds + ['1'];
    assert Value(ds) == 21;
    ValueAppend(ds, '4');
    ds := ds + ['4'];
    assert Value(ds) == 214;
    ValueAppend(ds, '7');
    ds := ds + ['7'];
    assert Value(ds) == 2147;
    ValueAppend(ds, '4');
    ds := ds + ['4'];
    assert Value(ds) == 21474;
    ValueAppend(ds, '8');
    ds := ds + ['8'];
    assert Value(ds) == 214748;
    ValueAppend(ds, '3');
    ds := ds + ['3'];
    assert Value(ds) == 2147483;
    ValueAppend(ds, '6');
    ds := ds + ['6'];
    assert Value(ds) == 21474836;
    ValueAppend(ds, '4');
    ds := ds + ['4'];
    assert Value(ds) == 214748364;
    ValueAppend(ds, '9');
    ds := ds + ['9'];
    assert Value(ds) == 2147483649;
    assert "" + "-" + ds + "" == "-2147483649";
    ParseInt32Overflow("", "-", ds, "");
  }

  /** NumberStyles.Integer has no trailing sign: "5-" and "5+" are FormatErrors. */
  lemma ParseInt32TrailingSign(n: nat, b: char)
    requires IsSign(b)
    ensures ParseInt32(FromNat(n) + [b]) == Failure(FormatError)
  {
    var ds := FromNat(n);
    var u := ds + [b];
    assert SkipWhite(u) == u;
    assert LeadingSign(u) == (false, false, u);
    SpanOf(ds, [b], |u|);
  }

  /** A string without a digit is a FormatError. */
  lemma ParseInt32NoDigit(s: string)
    requires forall i :: 0 <= i < |s| ==> !IsDigit(s[i])
    ensures ParseInt32(s) == Failure(FormatError)
  {
    var t := SkipWhite(s);
    SkipWhiteSuffix(s);
    assert forall i :: 0 <= i < |t| ==> t[i] == s[|s| - |t| + i];
  }

  lemma DecimalBodyOf(negative: bool, intPart: string, frac: string, point: bool)
    requires AllDigits(intPart) && AllDigits(frac) && intPart != []
    requires !point ==> frac == []
    ensures DecimalBody(negative, negative, intPart + (if point then "." + frac else ""))
         == Some(Decimal(Signed(negative, Value(intPart + frac)), |frac|))
  {
    var rest := if point then "." + frac else "";
    SpanOf(intPart, rest, |intPart + rest|);
    if point {
      assert rest[1..] == frac;
      SpanOf(frac, [], |frac|);
      assert frac + [] == frac;
      assert Fraction(rest) == (true, frac, []);
    } else {
      assert Fraction(rest) == (false, [], []);
      assert intPart + frac == intPart;
    }
  }

  lemma ParseDecimalSigned(negative: bool, body: string)
    requires body != [] && IsDigit(body[0])
    ensures ParseDecimal((if negative then "-" else "") + body) == DecimalBody(negative, negative, body)
  {
    var s := (if negative then "-" else "") + body;
    assert s[0] == if negative then '-' else body[0];
    assert SkipWhite(s) == s;
    if negative {
      assert s[1..] == body;
    } else {
      assert s == body;
    }
    assert LeadingSign(s) == (negative, negative, body);
  }

  lemma {:induction false} ParsePointText(negative: bool, ds: string, scale: nat)
    requires AllDigits(ds) && scale < |ds|
    ensures ParseDecimal(PointText(negative, ds, scale)) == Some(Decimal(Signed(negative, Value(ds)), scale))
  {
    var k := |ds| - scale;
    var intPart, frac := ds[..k], ds[k..];
    assert ds == intPart + frac;
    var point := scale > 0;
    var body := intPart + (if point then "." + frac else "");
    assert PointText(negative, ds, scale) == (if negative then "-" else "") + body;
    assert body[0] == ds[0];
    ParseDecimalSigned(negative, body);
    DecimalBodyOf(negative, intPart, frac, point);
  }

  lemma ParsePaddedText(negative: bool, magnitude: nat, scale: nat)
    ensures ParseDecimal(PointText(negative, Padded(magnitude, scale + 1), scale))
         == Some(Decimal(Signed(negative, magnitude), scale))
  {
    ValuePadded(magnitude, scale + 1);
    ParsePointText(negative, Padded(magnitude, scale + 1), scale);
  }

  /** Every decimal converts back from its text to the same mantissa and scale. */
  lemma ParseFormatDecimal(d: Decimal)
    ensures ParseDecimal(FormatDecimal(d)) == Some(d)
  {
    ParsePaddedText(d.mantissa < 0, Magnitude(d.mantissa), d.scale);
  }

  /** NumberStyles.Number takes a trailing sign: "5-" is -5. */
  lemma ParseDecimalTrailingSign(n: nat)
    ensures ParseDecimal(FromNat(n) + "-") == Some(Decimal(-(n as int), 0))
  {
    var ds := FromNat(n);
    var a := ds + "-";
    assert a[0] == ds[0];
    assert SkipWhite(a) == a;
    assert LeadingSign(a) == (false, false, a);
    SpanOf(ds, "-", |a|);
    assert Fraction("-") == (false, [], "-");
    assert NonWhite("-") == "-" by { assert "-"[1..] == []; }
    assert ds + [] == ds;
    ValueFromNat(n);
  }

  /** ... and a leading one: "-5" is -5 as well. */
  lemma ParseDecimalLeadingSign(n: nat)
    ensures ParseDecimal("-" + FromNat(n)) == Some(Decimal(-(n as int), 0))
  {
    var ds := FromNat(n);
    ParseDecimalSigned(true, ds);
    DecimalBodyOf(true, ds, [], false);
    assert ds + "" == ds && ds + [] == ds;
    ValueFromNat(n);
  }

  /** A sign on both sides, whichever the two signs are, is a FormatError. */
  lemma ParseDecimalTwoSigns(a: char, n: nat, b: char)
    requires IsSign(a) && IsSign(b)
    ensures ParseDecimal([a] + FromNat(n) + [b]) == None
  {
    var ds := FromNat(n);
    var s := [a] + FromNat(n) + [b];
    assert SkipWhite(s) == s;
    assert s[1..] == ds + [b];
    assert LeadingSign(s) == (true, a == '-', ds + [b]);
    SpanOf(ds, [b], |ds + [b]|);
    assert Fraction([b]) == (false, [], [b]);
    assert NonWhite([b]) == [b] by { assert [b][1..] == []; }
  }

  /** A printed `int` contains only digits and '-'. */
  lemma FormatInt32Avoids(v: int32, c: char)
    requires !IsDigit(c) && c != '-'
    ensures c !in FormatInt32(v)
  {
    var ds := if v < 0 then FromNat(-(v as int)) else FromNat(v as int);
    assert forall i :: 0 <= i < |ds| ==> IsDigit(ds[i]);
  }

  /** A printed decimal contains only digits, '-' and '.'. */
  lemma FormatDecimalAvoids(d: Decimal, c: char)
    requires !IsDigit(c) && c != '-' && c != '.'
    ensures c !in FormatDecimal(d)
  {
    var ds := Padded(Magnitude(d.mantissa), d.scale + 1);
    var k := |ds| - d.scale;
    assert forall i :: 0 <= i < |ds| ==> IsDigit(ds[i]);
    assert forall i :: 0 <= i < k ==> ds[..k][i] == ds[i];
    assert forall i :: 0 <= i < |ds| - k ==> ds[k..][i] == ds[k + i];
  }
}
