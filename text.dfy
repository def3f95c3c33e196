/**
 * The two string operations the loader applies to a CSV line: `String.Split(char)` and
 * `String.Trim(params char[])` with the quote characters `'` and `"`.
 */
module Text {

  // ----- Split on a single separator character, with no escaping -----

  /** The segments of `s` between occurrences of `sep`; empty segments are kept, as `Split(char)` does. */
  function Split(s: string, sep: char): (r: seq<string>)
    ensures |r| >= 1
    ensures forall i :: 0 <= i < |r| ==> sep !in r[i]
  {
    if s == [] then [""]
    else
      var rest := Split(s[1..], sep);
      if s[0] == sep then [""] + rest
      else [[s[0]] + rest[0]] + rest[1..]
  }

  /** The segments separated by `sep`: the inverse of Split. */
  function Join(segments: seq<string>, sep: char): string
  {
    if segments == [] then ""
    else if |segments| == 1 then segments[0]
    else segments[0] + [sep] + Join(segments[1..], sep)
  }

  /** Splitting yields exactly one more segment than the line has separators. */
  lemma {:induction false} SplitCount(s: string, sep: char)
    ensures |Split(s, sep)| == multiset(s)[sep] + 1
  {
    if s != [] {
      assert s == [s[0]] + s[1..];
      assert multiset(s) == multiset([s[0]]) + multiset(s[1..]);
      SplitCount(s[1..], sep);
    }
  }

  /** Re-joining the segments with the separator gives back the original line. */
  lemma {:induction false} JoinSplit(s: string, sep: char)
    ensures Join(Split(s, sep), sep) == s
  {
    if s != [] {
      var rest := Split(s[1..], sep);
      JoinSplit(s[1..], sep);
      if s[0] == sep {
        assert ([""] + rest)[1..] == rest;
      } else {
        var r := [[s[0]] + rest[0]] + rest[1..];
        if |rest| > 1 {
          assert r[1..] == rest[1..];
        }
      }
    }
  }

  /** Splitting a joined line gives back its segments when none of them contains the separator. */
  lemma {:induction false} SplitJoin(segments: seq<string>, sep: char)
    requires |segments| >= 1
    requires forall i :: 0 <= i < |segments| ==> sep !in segments[i]
    ensures Split(Join(segments, sep), sep) == segments
  {
    if |segments| == 1 {
      SplitNoSeparator(segments[0], sep);
    } else {
      SplitJoin(segments[1..], sep);
      SplitAfterSegment(segments[0], Join(segments[1..], sep), sep);
      assert segments == [segments[0]] + segments[1..];
    }
  }

  lemma {:induction false} SplitNoSeparator(s: string, sep: char)
    requires sep !in s
    ensures Split(s, sep) == [s]
  {
    if s != [] {
      assert sep !in s[1..] by { assert forall c :: c in s[1..] ==> c in s; }
      SplitNoSeparator(s[1..], sep);
      assert [s[0]] + s[1..] == s;
    }
  }

  lemma {:induction false} SplitAfterSegment(a: string, b: string, sep: char)
    requires sep !in a
    ensures Split(a + [sep] + b, sep) == [a] + Split(b, sep)
  {
    if a == [] {
      assert a + [sep] + b == [sep] + b;
      assert ([sep] + b)[1..] == b;
    } else {
      var s := a + [sep] + b;
      assert s[0] == a[0];
      assert s[1..] == a[1..] + [sep] + b;
      assert sep !in a[1..] by { assert forall c :: c in a[1..] ==> c in a; }
      SplitAfterSegment(a[1..], b, sep);
      assert [a[0]] + a[1..] == a;
    }
  }

  // ----- Trim of the quote characters -----

  predicate IsQuote(c: char) { c == '\'' || c == '"' }

  predicate AllQuotes(s: string) { forall i :: 0 <= i < |s| ==> IsQuote(s[i]) }

  /** Neither end of `s` is a quote character. */
  predicate Unquoted(s: string) { s == [] || (!IsQuote(s[0]) && !IsQuote(s[|s| - 1])) }

  /** Drops every leading quote. */
  function TrimStart(s: string): string
  {
    if s != [] && IsQuote(s[0]) then TrimStart(s[1..]) else s
  }

  /** Drops every trailing quote. */
  function TrimEnd(s: string): string
  {
    if s != [] && IsQuote(s[|s| - 1]) then TrimEnd(s[..|s| - 1]) else s
  }

  /** Trim with the two quote characters: every leading and trailing quote removed, matched or not. */
  function Trim(s: string): string
  {
    TrimEnd(TrimStart(s))
  }

  /** TrimStart keeps a suffix, drops only quotes, and stops at the first character that is not one. */
  lemma {:induction false} TrimStartSpec(s: string)
    ensures var r := TrimStart(s);
      && |r| <= |s| && r == s[|s| - |r|..]
      && AllQuotes(s[..|s| - |r|])
      && (r == [] || !IsQuote(r[0]))
  {
    if s != [] && IsQuote(s[0]) {
      TrimStartSpec(s[1..]);
      var r := TrimStart(s[1..]);
      assert s[..|s| - |r|] == [s[0]] + s[1..][..|s| - 1 - |r|];
    }
  }

  /** TrimEnd keeps a prefix, drops only quotes, and stops at the last character that is not one. */
  lemma {:induction false} TrimEndSpec(s: string)
    ensures var r := TrimEnd(s);
      && |r| <= |s| && r == s[..|r|]
      && AllQuotes(s[|r|..])
      && (r == [] || !IsQuote(r[|r| - 1]))
  {
    if s != [] && IsQuote(s[|s| - 1]) {
      TrimEndSpec(s[..|s| - 1]);
      var r := TrimEnd(s[..|s| - 1]);
      assert s[|r|..] == s[..|s| - 1][|r|..] + [s[|s| - 1]];
    }
  }

  /** Neither end of a trimmed segment is a quote. */
  lemma TrimmedUnquoted(s: string)
    ensures Unquoted(Trim(s))
  {
    var t := TrimStart(s);
    var r := TrimEnd(t);
    TrimStartSpec(s);
    TrimEndSpec(t);
    if r != [] {
      assert r[0] == t[..|r|][0] == t[0];
    }
  }

  /** The trimmed segment is the middle of the original with only quotes cut from either side. */
  lemma TrimIsInfix(s: string)
    ensures exists i, j :: 0 <= i <= j <= |s| && Trim(s) == s[i..j] && AllQuotes(s[..i]) && AllQuotes(s[j..])
  {
    var t := TrimStart(s);
    var r := TrimEnd(t);
    TrimStartSpec(s);
    TrimEndSpec(t);
    var i := |s| - |t|;
    var j := i + |r|;
    assert r == s[i..j] by {
      assert t == s[i..] && r == t[..|r|];
    }
    assert AllQuotes(s[j..]) by {
      assert s[j..] == t[|r|..];
    }
    assert 0 <= i <= j <= |s| && Trim(s) == s[i..j] && AllQuotes(s[..i]) && AllQuotes(s[j..]);
  }

  lemma TrimUnquoted(s: string)
    requires Unquoted(s)
    ensures Trim(s) == s
  {
  }

  /** Trimming twice is trimming once. */
  lemma TrimIdempotent(s: string)
    ensures Trim(Trim(s)) == Trim(s)
  {
    TrimmedUnquoted(s);
    TrimUnquoted(Trim(s));
  }

  lemma {:induction false} TrimStartQuotes(p: string, s: string)
    requires AllQuotes(p)
    ensures TrimStart(p + s) == TrimStart(s)
  {
    if p != [] {
      assert (p + s)[0] == p[0];
      assert (p + s)[1..] == p[1..] + s;
      TrimStartQuotes(p[1..], s);
    } else {
      assert p + s == s;
    }
  }

  lemma {:induction false} TrimEndQuotes(s: string, q: string)
    requires AllQuotes(q)
    ensures TrimEnd(s + q) == TrimEnd(s)
  {
    if q != [] {
      assert (s + q)[|s + q| - 1] == q[|q| - 1];
      assert (s + q)[..|s + q| - 1] == s + q[..|q| - 1];
      TrimEndQuotes(s, q[..|q| - 1]);
    } else {
      assert s + q == s;
    }
  }

  /** Text after a segment that is not all quotes survives TrimStart untouched. */
  lemma {:induction false} TrimStartAppend(s: string, q: string)
    requires TrimStart(s) != []
    ensures TrimStart(s + q) == TrimStart(s) + q
  {
    assert (s + q)[0] == s[0];
    if IsQuote(s[0]) {
      assert (s + q)[1..] == s[1..] + q;
      TrimStartAppend(s[1..], q);
    }
  }

  lemma {:induction false} TrimStartAllQuotes(q: string)
    requires AllQuotes(q)
    ensures TrimStart(q) == []
  {
    if q != [] {
      TrimStartAllQuotes(q[1..]);
    }
  }

  /** Any run of quotes around a segment is irrelevant: 'MSFT', "MSFT" and MSFT trim alike. */
  lemma QuotesAroundIgnored(p: string, s: string, q: string)
    requires AllQuotes(p) && AllQuotes(q)
    ensures Trim(p + s + q) == Trim(s)
  {
    assert p + s + q == p + (s + q);
    TrimStartQuotes(p, s + q);
    if TrimStart(s) != [] {
      TrimStartAppend(s, q);
      TrimEndQuotes(TrimStart(s), q);
    } else {
      TrimStartSpec(s);
      assert AllQuotes(s);
      assert AllQuotes(s + q);
      TrimStartAllQuotes(s + q);
    }
  }
}
