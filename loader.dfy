/**
 * The body of the file-based search handler: every line after the header is split on ',', each
 * segment is trimmed of quotes in place, a StockPrice is built from segments 0, 1, 6, 7 and 8 and
 * appended to a list, and the list is filtered by the requested ticker. The first exception
 * (a missing segment, an unparsable date or number) ends the whole load.
 */
module Loader {
  import opened Wrappers
  import opened Text
  import opened Numbers
  import opened Dates
  import opened Domain
  import opened TickerFilter

  /** The exception that building one record throws. */
  datatype FieldError =
    | MissingSegment(index: nat)                    // IndexOutOfRangeException on segments[index]
    | InvalidDate                                   // FormatException from DateTime.ParseExact
    | InvalidNumber(index: nat, cause: NumberError) // FormatException or OverflowException from Convert

  /** The first failing data line (0 is the line after the header) and its exception. */
  datatype LoadError = LoadError(dataLine: nat, cause: FieldError)

  // ----- Specification -----

  function TrimAll(segments: seq<string>): (r: seq<string>)
    ensures |r| == |segments|
  {
    seq(|segments|, i requires 0 <= i < |segments| => Trim(segments[i]))
  }

  /** The trimmed segments of one line. */
  function Segments(line: string): seq<string>
  {
    TrimAll(Split(line, ','))
  }

  /**
   * The object initializer, evaluated member by member: Ticker, TradeDate, Volume, Change,
   * ChangePercent, each indexing the segment array before converting it.
   */
  function RecordOf(segments: seq<string>): (r: Result<StockPrice, FieldError>)
    ensures r.Success? <==>
      && |segments| >= 9
      && ParseDate(segments[1]).Some?
      && ParseInt32(segments[6]).Success?
      && ParseDecimal(segments[7]).Some?
      && ParseDecimal(segments[8]).Some?
    ensures r.Success? ==>
      && r.value.ticker == segments[0]
      && Some(r.value.tradeDate) == ParseDate(segments[1])
      && Success(r.value.volume) == ParseInt32(segments[6])
      && Some(r.value.change) == ParseDecimal(segments[7])
      && Some(r.value.changePercent) == ParseDecimal(segments[8])
    ensures r.Failure? && r.error.MissingSegment? ==> r.error.index >= |segments|
  {
    if |segments| == 0 then Failure(MissingSegment(0))
    else if |segments| == 1 then Failure(MissingSegment(1))
    else
      match ParseDate(segments[1])
      case None => Failure(InvalidDate)
      case Some(date) =>
        if |segments| <= 6 then Failure(MissingSegment(6))
        else
          match ParseInt32(segments[6])
          case Failure(e) => Failure(InvalidNumber(6, e))
          case Success(volume) =>
            if |segments| == 7 then Failure(MissingSegment(7))
            else
              match ParseDecimal(segments[7])
              case None => Failure(InvalidNumber(7, FormatError))
              case Some(change) =>
                if |segments| == 8 then Failure(MissingSegment(8))
                else
                  match ParseDecimal(segments[8])
                  case None => Failure(InvalidNumber(8, FormatError))
                  case Some(changePercent) =>
                    Success(StockPrice(segments[0], date, volume, change, changePercent))
  }

  /** The record of one data line. */
  function LineRecord(line: string): Result<StockPrice, FieldError>
  {
    RecordOf(Segments(line))
  }

  /** Every line but the first, which is the header; nothing of an empty file. */
  function DataLines(lines: seq<string>): (r: seq<string>)
    ensures |r| == if lines == [] then 0 else |lines| - 1
  {
    if lines == [] then [] else lines[1..]
  }

  /** The per-line results of the data lines, in order. */
  function LineResults(ls: seq<string>): (r: seq<Result<StockPrice, FieldError>>)
    ensures |r| == |ls| && forall i :: 0 <= i < |ls| ==> r[i] == LineRecord(ls[i])
  {
    seq(|ls|, i requires 0 <= i < |ls| => LineRecord(ls[i]))
  }

  /**
   * The values of the results in order when all succeed, otherwise the first failure with its
   * position: what appending inside a loop that the first exception leaves produces.
   */
  function Collect<T>(results: seq<Result<T, FieldError>>): (r: Result<seq<T>, LoadError>)
    ensures r.Success? <==> forall i :: 0 <= i < |results| ==> results[i].Success?
    ensures r.Success? ==> |r.value| == |results| && forall i :: 0 <= i < |results| ==> results[i] == Success(r.value[i])
    ensures r.Failure? ==>
      && r.error.dataLine < |results|
      && results[r.error.dataLine] == Failure(r.error.cause)
      && forall i :: 0 <= i < r.error.dataLine ==> results[i].Success?
  {
    if results == [] then Success([])
    else
      var last := |results| - 1;
      match Collect(results[..last])
      case Failure(e) => Failure(e)
      case Success(data) =>
        match results[last]
        case Failure(e) => Failure(LoadError(last, e))
        case Success(v) => Success(data + [v])
  }

  /** The first failing result decides the whole collection, whatever follows it. */
  lemma CollectFirstFailure<T>(results: seq<Result<T, FieldError>>, i: nat)
    requires i < |results| && results[i].Failure?
    requires Collect(results[..i]).Success?
    ensures Collect(results) == Failure(LoadError(i, results[i].error))
  {
    assert forall j :: 0 <= j < i ==> results[..i][j] == results[j];
  }

  /** One more successful result appends its value. */
  lemma CollectStep<T>(results: seq<Result<T, FieldError>>, i: nat, data: seq<T>)
    requires i < |results| && results[i].Success?
    requires Collect(results[..i]) == Success(data)
    ensures Collect(results[..i + 1]) == Success(data + [results[i].value])
  {
    assert results[..i + 1][..i] == results[..i];
  }

  /** The list `data` after the loop over the file's lines. */
  function LoadedRecords(lines: seq<string>): Result<seq<StockPrice>, LoadError>
  {
    Collect(LineResults(DataLines(lines)))
  }

  /** What the handler binds to the grid: the loaded records with the requested ticker. */
  function SearchResult(lines: seq<string>, ticker: string): Result<seq<StockPrice>, LoadError>
  {
    match LoadedRecords(lines)
    case Failure(e) => Failure(e)
    case Success(data) => Success(WithTicker(data, ticker))
  }

  // ----- The handler's loops -----

  /** The in-place loop that replaces every cell of the segment array by its quote-trimmed text. */
  method TrimSegments(segments: array<string>)
    modifies segments
    ensures forall k :: 0 <= k < segments.Length ==> segments[k] == Trim(old(segments[k]))
  {
    for i := 0 to segments.Length
      invariant forall k :: 0 <= k < i ==> segments[k] == Trim(old(segments[k]))
      invariant forall k :: i <= k < segments.Length ==> segments[k] == old(segments[k])
    {
      segments[i] := Trim(segments[i]);
    }
  }

  /** One iteration of the foreach: split, trim in place, build the record. */
  method ParseLine(line: string) returns (r: Result<StockPrice, FieldError>)
    ensures r == LineRecord(line)
  {
    var parts := Split(line, ',');
    var segments := new string[|parts|](i requires 0 <= i < |parts| => parts[i]);
    TrimSegments(segments);
    assert segments[..] == TrimAll(parts) by {
      forall k | 0 <= k < |parts| ensures segments[..][k] == TrimAll(parts)[k] {
        assert segments[k] == Trim(parts[k]);
      }
    }
    r := RecordOf(segments[..]);
  }

  /** The loop over the data lines that appends each line's record to the list, left by the first exception. */
  method Load(lines: seq<string>) returns (r: Result<seq<StockPrice>, LoadError>)
    ensures r == LoadedRecords(lines)
  {
    var body := DataLines(lines);
    ghost var results := LineResults(body);
    var data: seq<StockPrice> := [];
    for i := 0 to |body|
      invariant Collect(results[..i]) == Success(data)
    {
      var price := ParseLine(body[i]);
      if price.Failure? {
        CollectFirstFailure(results, i);
        return Failure(LoadError(i, price.error));
      }
      CollectStep(results, i, data);
      data := data + [price.value];
    }
    assert results[..|body|] == results;
    r := Success(data);
  }

  /** The file-based search handler, given the file's lines and the ticker box's text. */
  method SearchClick(lines: seq<string>, ticker: string) returns (r: Result<seq<StockPrice>, LoadError>)
    ensures r == SearchResult(lines, ticker)
  {
    var loaded := Load(lines);
    if loaded.Failure? {
      return Failure(loaded.error);
    }
    r := Success(WithTicker(loaded.value, ticker));
  }
}
