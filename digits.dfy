/** Decimal digit strings: the invariant-culture digits '0'..'9' that every parser of the model reads. */
module Digits {

  predicate IsDigit(c: char) { '0' <= c <= '9' }

  predicate AllDigits(s: string) { forall i :: 0 <= i < |s| ==> IsDigit(s[i]) }

  function DigitValue(c: char): (d: nat)
    requires IsDigit(c)
    ensures d < 10
  {
    c as int - '0' as int
  }

  function DigitChar(d: nat): (c: char)
    requires d < 10
    ensures IsDigit(c) && DigitValue(c) == d
  {
    ('0' as int + d) as char
  }

  /** The number a digit string denotes, most significant digit first. */
  function Value(ds: string): nat
    requires AllDigits(ds)
  {
    if ds == [] then 0 else Value(ds[..|ds| - 1]) * 10 + DigitValue(ds[|ds| - 1])
  }

  /** The shortest digit string of a natural number (no leading zeros). */
  function FromNat(n: nat): (ds: string)
    ensures AllDigits(ds) && |ds| >= 1
  {
    if n < 10 then [DigitChar(n)] else FromNat(n / 10) + [DigitChar(n % 10)]
  }

  function Zeros(k: nat): (zs: string)
    ensures |zs| == k && AllDigits(zs)
    ensures forall i :: 0 <= i < k ==> zs[i] == '0'
  {
    if k == 0 then [] else Zeros(k - 1) + ['0']
  }

  /** FromNat(n) left-padded with zeros to at least `width` digits (the "yyyy", "mm" and "ss" form). */
  function Padded(n: nat, width: nat): (ds: string)
    ensures AllDigits(ds)
    ensures |ds| == if |FromNat(n)| < width then width else |FromNat(n)|
  {
    if |FromNat(n)| < width then Zeros(width - |FromNat(n)|) + FromNat(n) else FromNat(n)
  }

  function Pow10(k: nat): (p: nat)
    ensures p >= 1
  {
    if k == 0 then 1 else 10 * Pow10(k - 1)
  }

  /**
   * The longest all-digit prefix of `s` that is at most `max` long, and what follows it:
   * a greedy digit scan.
   */
  function Span(s: string, max: nat): (r: (string, string))
    ensures r.0 + r.1 == s
    ensures |r.0| <= max && AllDigits(r.0)
    ensures |r.0| < max ==> r.1 == [] || !IsDigit(r.1[0])
  {
    if max == 0 || s == [] || !IsDigit(s[0]) then ([], s)
    else
      var (ds, rest) := Span(s[1..], max - 1);
      assert [s[0]] + ds + rest == s;
      ([s[0]] + ds, rest)
  }

  /** One more digit at the least significant end. */
  lemma ValueAppend(ds: string, c: char)
    requires AllDigits(ds) && IsDigit(c)
    ensures AllDigits(ds + [c]) && Value(ds + [c]) == Value(ds) * 10 + DigitValue(c)
  {
    assert (ds + [c])[..|ds|] == ds;
  }

  lemma {:induction false} ValueFromNat(n: nat)
    ensures Value(FromNat(n)) == n
  {
    if n >= 10 {
      var ds := FromNat(n);
      assert ds[..|ds| - 1] == FromNat(n / 10);
      ValueFromNat(n / 10);
    }
  }

  lemma {:induction false} ValueLeadingZeros(k: nat, ds: string)
    requires AllDigits(ds)
    ensures Value(Zeros(k) + ds) == Value(ds)
  {
    if ds == [] {
      assert Zeros(k) + ds == Zeros(k);
      ZerosValue(k);
    } else {
      var s := Zeros(k) + ds;
      assert s[..|s| - 1] == Zeros(k) + ds[..|ds| - 1];
      ValueLeadingZeros(k, ds[..|ds| - 1]);
    }
  }

  lemma {:induction false} ZerosValue(k: nat)
    ensures Value(Zeros(k)) == 0
  {
    if k > 0 {
      assert Zeros(k)[..k - 1] == Zeros(k - 1);
      ZerosValue(k - 1);
    }
  }

  /** Padding never changes the number a digit string denotes. */
  lemma ValuePadded(n: nat, width: nat)
    ensures Value(Padded(n, width)) == n
  {
    ValueFromNat(n);
    if |FromNat(n)| < width {
      ValueLeadingZeros(width - |FromNat(n)|, FromNat(n));
    }
  }

  /** A number below 10^k has at most k digits. */
  lemma {:induction false} FromNatLength(n: nat, k: nat)
    requires 1 <= k && n < Pow10(k)
    ensures |FromNat(n)| <= k
  {
    if n >= 10 {
      assert Pow10(1) == 10;
      assert n / 10 < Pow10(k - 1);
      FromNatLength(n / 10, k - 1);
    }
  }

  /** The greedy scan stops exactly at the end of a digit string followed by a non-digit. */
  lemma {:induction false} SpanOf(ds: string, rest: string, max: nat)
    requires AllDigits(ds) && |ds| <= max
    requires |ds| == max || rest == [] || !IsDigit(rest[0])
    ensures Span(ds + rest, max) == (ds, rest)
  {
    if ds != [] {
      assert (ds + rest)[0] == ds[0];
      assert (ds + rest)[1..] == ds[1..] + rest;
      SpanOf(ds[1..], rest, max - 1);
      assert [ds[0]] + ds[1..] == ds;
    } else {
      assert ds + rest == rest;
    }
  }
}
