/** What the search handler promises about its result, stated over the model of its body. */
module LoaderProperties {
  import opened Wrappers
  import opened Digits
  import opened Text
  import opened Numbers
  import opened Dates
  import opened Domain
  import opened TickerFilter
  import opened Loader

  /** No segment of these contains the separator. */
  predicate CommaFree(segments: seq<string>)
  {
    forall i :: 0 <= i < |segments| ==> ',' !in segments[i]
  }

  // ----- Header and line order -----

  /** The first line is only skipped: whatever it says, the result is the same. */
  lemma HeaderIgnored(h1: string, h2: string, body: seq<string>, ticker: string)
    ensures SearchResult([h1] + body, ticker) == SearchResult([h2] + body, ticker)
  {
    assert DataLines([h1] + body) == body == DataLines([h2] + body);
  }

  /** On success there is one record per line after the header, in line order. */
  lemma OneRecordPerDataLine(lines: seq<string>)
    requires LoadedRecords(lines).Success?
    ensures var data := LoadedRecords(lines).value;
      && |data| == (if lines == [] then 0 else |lines| - 1)
      && forall i :: 0 <= i < |data| ==> LineRecord(lines[i + 1]) == Success(data[i])
  {
    var data := LoadedRecords(lines).value;
    var results := LineResults(DataLines(lines));
    forall i | 0 <= i < |data| ensures LineRecord(lines[i + 1]) == Success(data[i]) {
      assert results[i] == LineRecord(DataLines(lines)[i]);
    }
  }

  // ----- Failure of the whole load -----

  /** One failing data line fails the whole load; no partial result is returned. */
  lemma BadLineFailsLoad(lines: seq<string>, k: nat, ticker: string)
    requires 1 <= k < |lines| && LineRecord(lines[k]).Failure?
    ensures SearchResult(lines, ticker).Failure?
    ensures SearchResult(lines, ticker).error.dataLine <= k - 1
  {
    var results := LineResults(DataLines(lines));
    assert results[k - 1] == LineRecord(lines[k]);
  }

  /** The load fails exactly when some data line fails, and then at the first one. */
  lemma LoadFailsAtFirstBadLine(lines: seq<string>, ticker: string)
    ensures SearchResult(lines, ticker).Failure? <==>
      exists k :: 1 <= k < |lines| && LineRecord(lines[k]).Failure?
    ensures SearchResult(lines, ticker).Failure? ==>
      var e := SearchResult(lines, ticker).error;
      && e.dataLine + 1 < |lines|
      && LineRecord(lines[e.dataLine + 1]) == Failure(e.cause)
      && forall j :: 1 <= j <= e.dataLine ==> LineRecord(lines[j]).Success?
  {
    var body := DataLines(lines);
    var results := LineResults(body);
    assert forall i :: 0 <= i < |body| ==> results[i] == LineRecord(lines[i + 1]);
    if SearchResult(lines, ticker).Failure? {
      var e := SearchResult(lines, ticker).error;
      assert LineRecord(lines[e.dataLine + 1]).Failure?;
      forall j | 1 <= j <= e.dataLine ensures LineRecord(lines[j]).Success? {
        assert results[j - 1].Success?;
      }
    } else {
      forall k | 1 <= k < |lines| ensures LineRecord(lines[k]).Success? {
        assert results[k - 1].Success?;
      }
    }
  }

  /** A line with fewer than eight commas has fewer than nine segments and cannot become a record. */
  lemma ShortLineFails(line: string)
    requires multiset(line)[','] < 8
    ensures LineRecord(line).Failure?
  {
    SplitCount(line, ',');
  }

  // ----- Which segments matter -----

  /** A line joined from comma-free segments is read back as those segments, trimmed. */
  lemma LineOfSegments(segments: seq<string>)
    requires |segments| >= 1 && CommaFree(segments)
    ensures LineRecord(Join(segments, ',')) == RecordOf(TrimAll(segments))
  {
    SplitJoin(segments, ',');
  }

  /** The record depends only on segments 0, 1, 6, 7 and 8 and on how many segments there are. */
  lemma RecordOfUsedSegments(a: seq<string>, b: seq<string>)
    requires |a| == |b|
    requires forall i :: 0 <= i < |a| && (i < 2 || 6 <= i <= 8) ==> a[i] == b[i]
    ensures RecordOf(a) == RecordOf(b)
  {
    if |a| >= 9 {
      assert a[0] == b[0] && a[1] == b[1] && a[6] == b[6] && a[7] == b[7] && a[8] == b[8];
    } else if |a| >= 7 {
      assert a[1] == b[1] && a[6] == b[6];
    } else if |a| >= 2 {
      assert a[1] == b[1];
    }
  }

  /** Segments that trim alike give the same record: the quotes around a field are irrelevant. */
  lemma SameTrimmedSameRecord(a: seq<string>, b: seq<string>)
    requires |a| == |b| >= 1 && CommaFree(a) && CommaFree(b)
    requires forall i :: 0 <= i < |a| ==> Trim(a[i]) == Trim(b[i])
    ensures LineRecord(Join(a, ',')) == LineRecord(Join(b, ','))
  {
    LineOfSegments(a);
    LineOfSegments(b);
    assert TrimAll(a) == TrimAll(b);
  }

  /** A ticker written as 'MSFT', "MSFT" or MSFT yields the same record. */
  lemma QuotedTickerSameRecord(p: string, ticker: string, q: string, rest: seq<string>)
    requires AllQuotes(p) && AllQuotes(q) && ',' !in ticker && CommaFree(rest)
    ensures LineRecord(Join([p + ticker + q] + rest, ',')) == LineRecord(Join([ticker] + rest, ','))
  {
    QuotesHoldNoComma(p, ticker, q);
    CommaFreeCons(p + ticker + q, rest);
    CommaFreeCons(ticker, rest);
    QuotesAroundIgnored(p, ticker, q);
    SameTailSameTrims([p + ticker + q] + rest, [ticker] + rest);
    SameTrimmedSameRecord([p + ticker + q] + rest, [ticker] + rest);
  }

  lemma QuotesHoldNoComma(p: string, s: string, q: string)
    requires AllQuotes(p) && AllQuotes(q) && ',' !in s
    ensures ',' !in p + s + q
  {
    assert ',' !in p && ',' !in q;
  }

  lemma CommaFreeCons(s: string, rest: seq<string>)
    requires ',' !in s && CommaFree(rest)
    ensures CommaFree([s] + rest)
  {
    forall i | 1 <= i < |[s] + rest| ensures ',' !in ([s] + rest)[i] {
      assert ([s] + rest)[i] == rest[i - 1];
    }
  }

  lemma SameTailSameTrims(a: seq<string>, b: seq<string>)
    requires |a| == |b| >= 1 && Trim(a[0]) == Trim(b[0]) && a[1..] == b[1..]
    ensures forall i :: 0 <= i < |a| ==> Trim(a[i]) == Trim(b[i])
  {
    forall i | 1 <= i < |a| ensures a[i] == b[i] {
      assert a[i] == a[1..][i - 1];
    }
  }

  /** A record's fields come only from segments 0, 1, 6, 7 and 8: columns 2 to 5 and those after 8 never matter. */
  lemma UnusedSegmentsIgnored(a: seq<string>, b: seq<string>)
    requires |a| == |b| >= 1 && CommaFree(a) && CommaFree(b)
    requires forall i :: 0 <= i < |a| && (i < 2 || 6 <= i <= 8) ==> a[i] == b[i]
    ensures LineRecord(Join(a, ',')) == LineRecord(Join(b, ','))
  {
    LineOfSegments(a);
    LineOfSegments(b);
    RecordOfUsedSegments(TrimAll(a), TrimAll(b));
  }

  // ----- Round trip of a line -----

  /** A record that can be written as a line and read back: a valid date, a plain ticker. */
  predicate Writable(p: StockPrice)
  {
    ValidDateTime(p.tradeDate) && ',' !in p.ticker && Unquoted(p.ticker)
  }

  /** The nine segments of a line, with the four unused columns 2 to 5 in the middle. */
  function Row(ticker: string, date: string, unused: seq<string>, volume: string, change: string, percent: string): (r: seq<string>)
    requires |unused| == 4
    ensures |r| == 9
  {
    [ticker, date, unused[0], unused[1], unused[2], unused[3], volume, change, percent]
  }

  /** The used segments of a row are the given fields, and the row is comma-free when they all are. */
  lemma RowFields(ticker: string, date: string, unused: seq<string>, volume: string, change: string, percent: string)
    requires |unused| == 4
    ensures var s := Row(ticker, date, unused, volume, change, percent);
      s[0] == ticker && s[1] == date && s[6] == volume && s[7] == change && s[8] == percent
      && s[2..6] == unused
    ensures (CommaFree(unused) && ',' !in ticker && ',' !in date && ',' !in volume && ',' !in change
             && ',' !in percent) ==> CommaFree(Row(ticker, date, unused, volume, change, percent))
  {
    var s := Row(ticker, date, unused, volume, change, percent);
    assert s[2..6] == unused;
  }

  /** The segments of a CSV line written from a record, with any text in the unused columns. */
  function FormatSegments(p: StockPrice, unused: seq<string>): (r: seq<string>)
    requires ValidDateTime(p.tradeDate) && |unused| == 4
    ensures |r| == 9
  {
    Row(p.ticker, FormatDate(p.tradeDate), unused, FormatInt32(p.volume), FormatDecimal(p.change), FormatDecimal(p.changePercent))
  }

  function FormatLine(p: StockPrice, unused: seq<string>): string
    requires ValidDateTime(p.tradeDate) && |unused| == 4
  {
    Join(FormatSegments(p, unused), ',')
  }

  /** Text with no quote at all is left alone by Trim. */
  lemma PlainTrim(s: string)
    requires '\'' !in s && '"' !in s
    ensures Trim(s) == s
  {
    TrimUnquoted(s);
  }

  /** A printed date holds no comma and reads back, once trimmed, as the same date. */
  lemma DateField(d: DateTime)
    requires ValidDateTime(d)
    ensures ',' !in FormatDate(d) && ParseDate(Trim(FormatDate(d))) == Some(d)
  {
    FormatDateAvoids(d, ',');
    FormatDateAvoids(d, '\'');
    FormatDateAvoids(d, '"');
    PlainTrim(FormatDate(d));
    ParseFormatDate(d);
  }

  /** A printed volume holds no comma and reads back, once trimmed, as the same volume. */
  lemma VolumeField(v: int32)
    ensures ',' !in FormatInt32(v) && ParseInt32(Trim(FormatInt32(v))) == Success(v)
  {
    FormatInt32Avoids(v, ',');
    FormatInt32Avoids(v, '\'');
    FormatInt32Avoids(v, '"');
    PlainTrim(FormatInt32(v));
    ParseFormatInt32([], v, []);
    assert [] + FormatInt32(v) + [] == FormatInt32(v);
  }

  /** A printed decimal holds no comma and reads back, once trimmed, as the same decimal. */
  lemma DecimalField(x: Decimal)
    ensures ',' !in FormatDecimal(x) && ParseDecimal(Trim(FormatDecimal(x))) == Some(x)
  {
    FormatDecimalAvoids(x, ',');
    FormatDecimalAvoids(x, '\'');
    FormatDecimalAvoids(x, '"');
    PlainTrim(FormatDecimal(x));
    ParseFormatDecimal(x);
  }

  /** A line whose used segments read back as the fields of `p` is read as `p`. */
  lemma LineOfFields(p: StockPrice, s: seq<string>)
    requires |s| == 9 && CommaFree(s) && s[0] == p.ticker && Unquoted(p.ticker)
    requires ParseDate(Trim(s[1])) == Some(p.tradeDate)
    requires ParseInt32(Trim(s[6])) == Success(p.volume)
    requires ParseDecimal(Trim(s[7])) == Some(p.change) && ParseDecimal(Trim(s[8])) == Some(p.changePercent)
    ensures LineRecord(Join(s, ',')) == Success(p)
  {
    LineOfSegments(s);
    TrimUnquoted(p.ticker);
    RecordOfParsed(TrimAll(s), p);
  }

  /** Segments whose used fields parse to the fields of `p` make `p`. */
  lemma RecordOfParsed(t: seq<string>, p: StockPrice)
    requires |t| >= 9 && t[0] == p.ticker && ParseDate(t[1]) == Some(p.tradeDate)
    requires ParseInt32(t[6]) == Success(p.volume)
    requires ParseDecimal(t[7]) == Some(p.change) && ParseDecimal(t[8]) == Some(p.changePercent)
    ensures RecordOf(t) == Success(p)
  {
  }

  /** Reading back a line written from a record gives the record. */
  lemma LineRoundTrip(p: StockPrice, unused: seq<string>)
    requires Writable(p) && |unused| == 4 && CommaFree(unused)
    ensures LineRecord(FormatLine(p, unused)) == Success(p)
  {
    DateField(p.tradeDate);
    VolumeField(p.volume);
    DecimalField(p.change);
    DecimalField(p.changePercent);
    RowFields(p.ticker, FormatDate(p.tradeDate), unused, FormatInt32(p.volume),
              FormatDecimal(p.change), FormatDecimal(p.changePercent));
    LineOfFields(p, FormatSegments(p, unused));
  }

  // ----- The ticker filter applied to the loaded records -----

  /**
   * The search succeeds exactly when the load does, and then returns the order-preserving selection
   * of the loaded records with the requested ticker: all of them and nothing else.
   */
  lemma SearchSelectsTicker(lines: seq<string>, ticker: string)
    ensures SearchResult(lines, ticker).Success? <==> LoadedRecords(lines).Success?
    ensures SearchResult(lines, ticker).Success? ==>
      var data, r := LoadedRecords(lines).value, SearchResult(lines, ticker).value;
      && IsSubsequence(r, data)
      && (forall i :: 0 <= i < |r| ==> r[i].ticker == ticker)
      && (forall i :: 0 <= i < |data| && data[i].ticker == ticker ==> data[i] in r)
      && |r| <= |DataLines(lines)|
  {
    if LoadedRecords(lines).Success? {
      WithTickerIsSubsequence(LoadedRecords(lines).value, ticker);
    }
  }

  /** A ticker that no data line has yields an empty result, not a failure. */
  lemma AbsentTickerEmpty(lines: seq<string>, ticker: string)
    requires LoadedRecords(lines).Success?
    requires forall i :: 1 <= i < |lines| && LineRecord(lines[i]).Success? ==> LineRecord(lines[i]).value.ticker != ticker
    ensures SearchResult(lines, ticker) == Success([])
  {
    var data := LoadedRecords(lines).value;
    OneRecordPerDataLine(lines);
    forall i | 0 <= i < |data| ensures data[i].ticker != ticker {
      assert LineRecord(lines[i + 1]) == Success(data[i]);
    }
    WithTickerNone(data, ticker);
  }

  // ----- Files written from records -----

  /** The data lines of a file written from `records`, one line per record. */
  function WrittenLines(records: seq<StockPrice>, unused: seq<string>): (r: seq<string>)
    requires forall i :: 0 <= i < |records| ==> Writable(records[i])
    requires |unused| == 4
    ensures |r| == |records|
  {
    seq(|records|, i requires 0 <= i < |records| && Writable(records[i]) => FormatLine(records[i], unused))
  }

  /** Loading a file written from records, whatever its header, gives back the records in order. */
  lemma LoadWrittenLines(header: string, records: seq<StockPrice>, unused: seq<string>)
    requires forall i :: 0 <= i < |records| ==> Writable(records[i])
    requires |unused| == 4 && CommaFree(unused)
    ensures LoadedRecords([header] + WrittenLines(records, unused)) == Success(records)
  {
    var lines := [header] + WrittenLines(records, unused);
    var results := LineResults(DataLines(lines));
    assert DataLines(lines) == WrittenLines(records, unused);
    forall i | 0 <= i < |records| ensures results[i] == Success(records[i]) {
      LineRoundTrip(records[i], unused);
    }
    var data := Collect(results).value;
    assert data == records by {
      forall i | 0 <= i < |records| ensures data[i] == records[i] {
        assert results[i] == Success(data[i]);
      }
    }
  }

  /** Searching such a file returns exactly the written records with the ticker, in order. */
  lemma SearchWrittenLines(header: string, records: seq<StockPrice>, unused: seq<string>, ticker: string)
    requires forall i :: 0 <= i < |records| ==> Writable(records[i])
    requires |unused| == 4 && CommaFree(unused)
    ensures SearchResult([header] + WrittenLines(records, unused), ticker) == Success(WithTicker(records, ticker))
  {
    LoadWrittenLines(header, records, unused);
  }

  /** A header and two data rows, for MSFT and AAPL: searching MSFT returns exactly the MSFT row. */
  lemma TwoRowExample(header: string, msft: StockPrice, aapl: StockPrice, unused: seq<string>)
    requires Writable(msft) && Writable(aapl) && msft.ticker == "MSFT" && aapl.ticker == "AAPL"
    requires |unused| == 4 && CommaFree(unused)
    ensures SearchResult([header] + WrittenLines([msft, aapl], unused), "MSFT") == Success([msft])
  {
    SearchWrittenLines(header, [msft, aapl], unused, "MSFT");
    KeepFirstOfTwo(msft, aapl, "MSFT");
  }

  lemma KeepFirstOfTwo(a: StockPrice, b: StockPrice, ticker: string)
    requires a.ticker == ticker && b.ticker != ticker
    ensures WithTicker([a, b], ticker) == [a]
  {
    assert [a, b][1..] == [b];
  }
}
