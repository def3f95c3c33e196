/** The filter that keeps the loaded records whose ticker equals the requested text: ordinal string equality, order kept. */
module TickerFilter {
  import opened Domain

  /** `s` is `t` with some elements left out, the rest in their original order. */
  predicate IsSubsequence<T(==)>(s: seq<T>, t: seq<T>)
    decreases |t|
  {
    if s == [] then true
    else if t == [] then false
    else (s[0] == t[0] && IsSubsequence(s[1..], t[1..])) || IsSubsequence(s, t[1..])
  }

  /** The records whose ticker equals `ticker`, in their original order. */
  function WithTicker(records: seq<StockPrice>, ticker: string): (r: seq<StockPrice>)
    ensures |r| <= |records|
    ensures forall i :: 0 <= i < |r| ==> r[i].ticker == ticker
    ensures forall i :: 0 <= i < |records| && records[i].ticker == ticker ==> records[i] in r
  {
    if records == [] then []
    else (if records[0].ticker == ticker then [records[0]] else []) + WithTicker(records[1..], ticker)
  }

  /** The filter keeps the order of what it keeps. */
  lemma {:induction false} WithTickerIsSubsequence(records: seq<StockPrice>, ticker: string)
    ensures IsSubsequence(WithTicker(records, ticker), records)
  {
    if records != [] {
      WithTickerIsSubsequence(records[1..], ticker);
      var rest := WithTicker(records[1..], ticker);
      if records[0].ticker == ticker {
        assert ([records[0]] + rest)[1..] == rest;
      } else {
        assert [] + rest == rest;
        SubsequenceDropHead(rest, records);
      }
    }
  }

  lemma SubsequenceDropHead<T>(s: seq<T>, t: seq<T>)
    requires t != [] && IsSubsequence(s, t[1..])
    ensures IsSubsequence(s, t)
  {
  }

  /** Filtering a concatenation filters each part: records of earlier lines stay first. */
  lemma {:induction false} WithTickerAppend(a: seq<StockPrice>, b: seq<StockPrice>, ticker: string)
    ensures WithTicker(a + b, ticker) == WithTicker(a, ticker) + WithTicker(b, ticker)
  {
    if a == [] {
      assert a + b == b;
    } else {
      assert (a + b)[0] == a[0];
      assert (a + b)[1..] == a[1..] + b;
      WithTickerAppend(a[1..], b, ticker);
    }
  }

  /** Filtering twice by the same ticker is filtering once. */
  lemma {:induction false} WithTickerIdempotent(records: seq<StockPrice>, ticker: string)
    ensures WithTicker(WithTicker(records, ticker), ticker) == WithTicker(records, ticker)
  {
    var r := WithTicker(records, ticker);
    WithTickerKeepsAll(r, ticker);
  }

  /** A sequence whose every record has the ticker passes the filter unchanged. */
  lemma {:induction false} WithTickerKeepsAll(records: seq<StockPrice>, ticker: string)
    requires forall i :: 0 <= i < |records| ==> records[i].ticker == ticker
    ensures WithTicker(records, ticker) == records
  {
    if records != [] {
      WithTickerKeepsAll(records[1..], ticker);
      assert [records[0]] + records[1..] == records;
    }
  }

  /** When no record has the ticker the filter keeps nothing. */
  lemma {:induction false} WithTickerNone(records: seq<StockPrice>, ticker: string)
    requires forall i :: 0 <= i < |records| ==> records[i].ticker != ticker
    ensures WithTicker(records, ticker) == []
  {
    if records != [] {
      WithTickerNone(records[1..], ticker);
    }
  }

  /** Each record occurs in the result exactly as often as in the input if it has the ticker, else never. */
  lemma {:induction false} WithTickerCounts(records: seq<StockPrice>, ticker: string, p: StockPrice)
    ensures multiset(WithTicker(records, ticker))[p] == if p.ticker == ticker then multiset(records)[p] else 0
  {
    if records != [] {
      WithTickerCounts(records[1..], ticker, p);
      assert records == [records[0]] + records[1..];
      assert multiset(records) == multiset([records[0]]) + multiset(records[1..]);
    }
  }

  lemma {:induction false} SubsequenceOfMatching(s: seq<StockPrice>, records: seq<StockPrice>, ticker: string)
    requires IsSubsequence(s, records)
    requires forall i :: 0 <= i < |s| ==> s[i].ticker == ticker
    ensures IsSubsequence(s, WithTicker(records, ticker))
    decreases |records|
  {
    if s != [] {
      var rest := WithTicker(records[1..], ticker);
      if records[0].ticker == ticker {
        var f := [records[0]] + rest;
        assert f[0] == records[0] && f[1..] == rest;
        if s[0] == records[0] && IsSubsequence(s[1..], records[1..]) {
          SubsequenceOfMatching(s[1..], records[1..], ticker);
        } else {
          SubsequenceOfMatching(s, records[1..], ticker);
        }
      } else {
        assert WithTicker(records, ticker) == rest;
        SubsequenceOfMatching(s, records[1..], ticker);
      }
    }
  }

  lemma {:induction false} SubsequenceLength<T>(s: seq<T>, t: seq<T>)
    requires IsSubsequence(s, t)
    ensures |s| <= |t|
    decreases |t|
  {
    if s != [] {
      if s[0] == t[0] && IsSubsequence(s[1..], t[1..]) {
        SubsequenceLength(s[1..], t[1..]);
      } else {
        SubsequenceLength(s, t[1..]);
      }
    }
  }

  lemma {:induction false} SubsequenceFull<T>(s: seq<T>, t: seq<T>)
    requires IsSubsequence(s, t) && |s| >= |t|
    ensures s == t
    decreases |t|
  {
    if s != [] {
      if s[0] == t[0] && IsSubsequence(s[1..], t[1..]) {
        SubsequenceFull(s[1..], t[1..]);
        assert s == [s[0]] + s[1..] && t == [t[0]] + t[1..];
      } else {
        SubsequenceLength(s, t[1..]);
      }
    }
  }

  /**
   * The filter's result is the only answer: an order-preserving selection of the records, all with
   * the ticker, and no shorter than the filter's result, is the filter's result.
   */
  lemma WithTickerUnique(s: seq<StockPrice>, records: seq<StockPrice>, ticker: string)
    requires IsSubsequence(s, records)
    requires forall i :: 0 <= i < |s| ==> s[i].ticker == ticker
    requires |s| >= |WithTicker(records, ticker)|
    ensures s == WithTicker(records, ticker)
  {
    SubsequenceOfMatching(s, records, ticker);
    SubsequenceFull(s, WithTicker(records, ticker));
  }
}
