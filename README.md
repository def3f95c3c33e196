# Stock price CSV loader of the Erbium search window

The Erbium desktop window's `Search_Click` handler reads the stock-price file and turns each line
after the header into a `StockPrice`. It does this in these steps:

1. Split the line on `,`.
2. Trim every leading and trailing `'` and `"` from each segment, in place in the segment array.
3. Build the record from segment 0 (ticker), segment 1 (`DateTime.ParseExact` with
   `M/d/yyyy h:mm:ss tt` and the invariant culture), segment 6 (`Convert.ToInt32`), and segments 7
   and 8 (`Convert.ToDecimal`).
4. Append the record to a list.

Finally it binds the records whose ticker equals the text of the ticker box. The handler has no
`try`/`catch`, so the first exception ends the whole load.

The model has these modules:

- `Text`: `String.Split(char)` and `String.Trim('\'', '"')`.
- `Digits`: digit strings and their values.
- `Numbers`: `Convert.ToInt32` (`NumberStyles.Integer`, 32-bit range) and `Convert.ToDecimal`
  (`NumberStyles.Number`), both with the invariant culture. A decimal is a mantissa and a scale.
- `Dates`: `DateTime.ParseExact` for that one pattern, as a token-driven parser. It has a printer
  whose output parses back to the same date.
- `Domain`: the `StockPrice` record.
- `TickerFilter`: the LINQ `Where` on the ticker.
- `Loader`: the handler's body.
  - The functions `RecordOf`, `LineRecord`, `Collect`, `LoadedRecords` and `SearchResult` specify
    it.
  - The methods `TrimSegments` (the in-place `for` loop over the segment array), `ParseLine`, `Load`
    (the `foreach` that appends to the list) and `SearchClick` implement it. `ParseLine`, `Load` and
    `SearchClick` are each proved equal to their specification function. `TrimSegments` is proved
    to leave, in every cell, the `Trim` of the cell's old value.
- `LoaderProperties`: what the handler promises about its result. This covers:
  - the header is ignored;
  - one record per data line, in order;
  - one bad line fails the load;
  - which segments matter and that quotes around fields do not;
  - a line written from a record reads back as that record;
  - the filter returns exactly the matching records.

Each exception the handler can raise is kept as a distinct error value:

- `IndexOutOfRangeException` on `segments[k]` is `MissingSegment(k)`.
- The `FormatException` of `ParseExact` is `InvalidDate`.
- The `FormatException` or `OverflowException` of `Convert` is `InvalidNumber(k, cause)`.

The load failure also records which data line failed. The C# initializer evaluates its members in
order (`Ticker`, `TradeDate`, `Volume`, `Change`, `ChangePercent`), and each member indexes its
segment before converting it. So the error of a line is the first of these that fails.

The file's lines are an input: `File.ReadAllLines` is not part of the model. The text of the ticker
box is an input too.

## Model

| member | source | states |
|---|---|---|
| Loader.SearchClick | Erbium/StockAnalyzer.Windows/MainWindow.xaml.cs:61-78 | the handler's result (load, then filter) is exactly `SearchResult` of the lines and the ticker |
| Loader.Load | Erbium/StockAnalyzer.Windows/MainWindow.xaml.cs:62-77 | the `foreach` over the lines after the header, which appends one record per line and stops at the first exception, computes exactly `LoadedRecords` |
| Loader.ParseLine | Erbium/StockAnalyzer.Windows/MainWindow.xaml.cs:65-75 | splitting, trimming the segment array in place and building the record gives exactly `LineRecord` of the line |
| Loader.TrimSegments | Erbium/StockAnalyzer.Windows/MainWindow.xaml.cs:67 | after the loop every array cell holds the trim of its old value |
| Loader.RecordOf | Erbium/StockAnalyzer.Windows/MainWindow.xaml.cs:68-75 | a record is built exactly when there are at least 9 segments and the date, volume, change and changePercent all parse; its fields are segment 0 and those parsed values; a missing-segment error names an index beyond the last segment |
| Loader.LineRecord | Erbium/StockAnalyzer.Windows/MainWindow.xaml.cs:65-75 | the record or exception of one data line: split, trimmed, then built; stated by ParseLine, ShortLineFails, LineRoundTrip, UnusedSegmentsIgnored and QuotedTickerSameRecord |
| Loader.LoadedRecords | Erbium/StockAnalyzer.Windows/MainWindow.xaml.cs:62-77 | the list after the loop over the data lines; stated by Load, Collect, OneRecordPerDataLine, LoadFailsAtFirstBadLine and LoadWrittenLines |
| Loader.SearchResult | Erbium/StockAnalyzer.Windows/MainWindow.xaml.cs:61-78 | what the handler binds to the grid; stated by SearchClick, HeaderIgnored, SearchSelectsTicker, AbsentTickerEmpty and SearchWrittenLines |
| Loader.Collect | Erbium/StockAnalyzer.Windows/MainWindow.xaml.cs:63-77 | the loop succeeds exactly when every line succeeds, and then yields their records in line order; otherwise it reports the first failing line and its error, and every line before it succeeded |
| Loader.CollectFirstFailure | Erbium/StockAnalyzer.Windows/MainWindow.xaml.cs:63-77 | the first failing line decides the failure, whatever follows it |
| Loader.DataLines | Erbium/StockAnalyzer.Windows/MainWindow.xaml.cs:63 | `Skip(1)` leaves one line fewer, or none of an empty file |
| LoaderProperties.HeaderIgnored | Erbium/StockAnalyzer.Windows/MainWindow.xaml.cs:63 | the first line never influences the result |
| LoaderProperties.OneRecordPerDataLine | Erbium/StockAnalyzer.Windows/MainWindow.xaml.cs:63-76 | on success there is exactly one record per line after the header, and record i is the record of line i+1 |
| LoaderProperties.BadLineFailsLoad | Erbium/StockAnalyzer.Windows/MainWindow.xaml.cs:63-76 | a data line whose record fails makes the whole search fail, at that line or an earlier one; no partial result |
| LoaderProperties.LoadFailsAtFirstBadLine | Erbium/StockAnalyzer.Windows/MainWindow.xaml.cs:63-77 | the search fails if and only if some data line fails; the reported line is a failing line, reported with its own error, and all lines before it succeed |
| LoaderProperties.ShortLineFails | Erbium/StockAnalyzer.Windows/MainWindow.xaml.cs:65-74 | a line with fewer than 8 commas (fewer than 9 segments) never becomes a record |
| LoaderProperties.RecordOfUsedSegments | Erbium/StockAnalyzer.Windows/MainWindow.xaml.cs:70-74 | two segment lists of the same length that agree on segments 0, 1, 6, 7 and 8 give the same record or the same error |
| LoaderProperties.UnusedSegmentsIgnored | Erbium/StockAnalyzer.Windows/MainWindow.xaml.cs:65-74 | changing columns 2 to 5 (or any after 8) of a line does not change its record |
| LoaderProperties.SameTrimmedSameRecord | Erbium/StockAnalyzer.Windows/MainWindow.xaml.cs:65-75 | lines whose segments trim alike give the same record |
| LoaderProperties.QuotedTickerSameRecord | Erbium/StockAnalyzer.Windows/MainWindow.xaml.cs:67-70 | a ticker written as 'MSFT', "MSFT" or MSFT (any run of quotes on either side) gives the same record |
| LoaderProperties.LineRoundTrip | Erbium/StockAnalyzer.Windows/MainWindow.xaml.cs:65-75 | a line written from a record (valid date, ticker without commas or quotes at its ends, any comma-free text in columns 2 to 5) is read back as exactly that record |
| LoaderProperties.DateField | Erbium/StockAnalyzer.Windows/MainWindow.xaml.cs:67-71 | a printed date has no comma and, trimmed, parses back to the same date |
| LoaderProperties.VolumeField | Erbium/StockAnalyzer.Windows/MainWindow.xaml.cs:67-72 | a printed volume has no comma and, trimmed, converts back to the same int |
| LoaderProperties.DecimalField | Erbium/StockAnalyzer.Windows/MainWindow.xaml.cs:67-74 | a printed decimal has no comma and, trimmed, converts back to the same decimal |
| LoaderProperties.SearchSelectsTicker | Erbium/StockAnalyzer.Windows/MainWindow.xaml.cs:78 | the search succeeds exactly when the load does; the result keeps the loaded order, every record in it has the requested ticker, every loaded record with that ticker is in it, and it is no longer than the number of data lines |
| LoaderProperties.AbsentTickerEmpty | Erbium/StockAnalyzer.Windows/MainWindow.xaml.cs:78 | a ticker no data line has gives an empty result, not a failure |
| LoaderProperties.LoadWrittenLines | Erbium/StockAnalyzer.Windows/MainWindow.xaml.cs:61-77 | a file written from records, whatever its header, loads back as exactly those records in order |
| LoaderProperties.SearchWrittenLines | Erbium/StockAnalyzer.Windows/MainWindow.xaml.cs:61-78 | searching such a file gives exactly the written records with the ticker, in order |
| LoaderProperties.TwoRowExample | Erbium/StockAnalyzer.Windows/MainWindow.xaml.cs:61-78 | a header and an MSFT row and an AAPL row, searched for MSFT, give exactly the MSFT record |
| Text.Split | Erbium/StockAnalyzer.Windows/MainWindow.xaml.cs:65 | a line always has at least one segment, and no segment contains the separator |
| Text.SplitCount | Erbium/StockAnalyzer.Windows/MainWindow.xaml.cs:65 | there is exactly one segment more than the line has commas |
| Text.JoinSplit | Erbium/StockAnalyzer.Windows/MainWindow.xaml.cs:65 | re-joining the untrimmed segments with the separator gives back the line |
| Text.SplitJoin | Erbium/StockAnalyzer.Windows/MainWindow.xaml.cs:65 | splitting the join of separator-free segments gives back those segments |
| Text.Trim | Erbium/StockAnalyzer.Windows/MainWindow.xaml.cs:67 | the trim of the two quote characters from both ends; its contract is stated by TrimStartSpec, TrimEndSpec, TrimmedUnquoted, TrimIsInfix, TrimUnquoted, TrimIdempotent and QuotesAroundIgnored |
| Text.TrimStartSpec | Erbium/StockAnalyzer.Windows/MainWindow.xaml.cs:67 | the leading trim keeps a suffix, drops only quotes, and leaves no quote at the front |
| Text.TrimEndSpec | Erbium/StockAnalyzer.Windows/MainWindow.xaml.cs:67 | the trailing trim keeps a prefix, drops only quotes, and leaves no quote at the end |
| Text.TrimmedUnquoted | Erbium/StockAnalyzer.Windows/MainWindow.xaml.cs:67 | after trimming, a segment neither starts nor ends with a quote |
| Text.TrimIsInfix | Erbium/StockAnalyzer.Windows/MainWindow.xaml.cs:67 | a trimmed segment is a middle part of the original, and only quotes were cut from either side |
| Text.TrimUnquoted | Erbium/StockAnalyzer.Windows/MainWindow.xaml.cs:67 | a segment that neither starts nor ends with a quote is left unchanged |
| Text.TrimIdempotent | Erbium/StockAnalyzer.Windows/MainWindow.xaml.cs:67 | trimming twice is trimming once |
| Text.QuotesAroundIgnored | Erbium/StockAnalyzer.Windows/MainWindow.xaml.cs:67 | any runs of quotes around a segment, matched or not, are removed and nothing else changes |
| Numbers.ParseFormatInt32 | Erbium/StockAnalyzer.Windows/MainWindow.xaml.cs:72 | every int, printed and padded with white space on either side, converts back to itself |
| Numbers.ParseInt32 | Erbium/StockAnalyzer.Windows/MainWindow.xaml.cs:72 | the integer conversion of the volume; its contract is stated by ParseFormatInt32, ParseInt32Overflow, ParseInt32BelowRange, ParseInt32TrailingSign and ParseInt32NoDigit |
| Numbers.ParseInt32Overflow | Erbium/StockAnalyzer.Windows/MainWindow.xaml.cs:72 | optional white space, an optional sign and any digit string (leading zeros allowed) whose signed value lies outside the 32-bit range are an overflow error, not a wrapped value |
| Numbers.ParseInt32BelowRange | Erbium/StockAnalyzer.Windows/MainWindow.xaml.cs:72 | "-2147483649", one below the smallest int, is an overflow error |
| Numbers.ParseInt32TrailingSign | Erbium/StockAnalyzer.Windows/MainWindow.xaml.cs:72 | the integer style takes no trailing sign: digits followed by "-" or "+" are a format error |
| Numbers.ParseInt32NoDigit | Erbium/StockAnalyzer.Windows/MainWindow.xaml.cs:72 | text without a digit is a format error |
| Numbers.ParseDecimal | Erbium/StockAnalyzer.Windows/MainWindow.xaml.cs:73-74 | the decimal conversion of change and changePercent; its contract is stated by ParseFormatDecimal, ParseDecimalTrailingSign, ParseDecimalLeadingSign and ParseDecimalTwoSigns |
| Numbers.ParseFormatDecimal | Erbium/StockAnalyzer.Windows/MainWindow.xaml.cs:73-74 | every decimal, printed with its scale, converts back to the same mantissa and scale |
| Numbers.ParseDecimalTrailingSign | Erbium/StockAnalyzer.Windows/MainWindow.xaml.cs:73-74 | the number style takes a trailing sign: "5-" is -5 |
| Numbers.ParseDecimalLeadingSign | Erbium/StockAnalyzer.Windows/MainWindow.xaml.cs:73-74 | a leading sign works as well: "-5" is -5 |
| Numbers.ParseDecimalTwoSigns | Erbium/StockAnalyzer.Windows/MainWindow.xaml.cs:73-74 | a sign on both sides of the digits, any of "-", "+" on either side, is a format error |
| Dates.ParseDate | Erbium/StockAnalyzer.Windows/MainWindow.xaml.cs:71 | every parsed date exists in the Gregorian calendar and has a valid time of day |
| Dates.ParseFormatTokens | Erbium/StockAnalyzer.Windows/MainWindow.xaml.cs:71 | for a pattern in which no two numbers are adjacent, printing values that fit their tokens and parsing the result gives back the values |
| Dates.ParseFormatDate | Erbium/StockAnalyzer.Windows/MainWindow.xaml.cs:71 | every valid date, printed as M/d/yyyy h:mm:ss tt, parses back to itself |
| Dates.ParseDateLeadingBlank | Erbium/StockAnalyzer.Windows/MainWindow.xaml.cs:71 | the exact parse skips no white space: a leading blank is a format error |
| TickerFilter.WithTicker | Erbium/StockAnalyzer.Windows/MainWindow.xaml.cs:78 | the result is no longer than the input, every record in it has the ticker, and every input record with the ticker is in it |
| TickerFilter.WithTickerIsSubsequence | Erbium/StockAnalyzer.Windows/MainWindow.xaml.cs:78 | the filter keeps the input order |
| TickerFilter.WithTickerCounts | Erbium/StockAnalyzer.Windows/MainWindow.xaml.cs:78 | each record with the ticker occurs as often as in the input; any other record never occurs |
| TickerFilter.WithTickerUnique | Erbium/StockAnalyzer.Windows/MainWindow.xaml.cs:78 | an order-preserving selection whose records all have the ticker, and which is at least as long as the filter's result, is the filter's result |
| TickerFilter.WithTickerAppend | Erbium/StockAnalyzer.Windows/MainWindow.xaml.cs:78 | filtering a concatenation filters each part, the earlier part first |
| TickerFilter.WithTickerIdempotent | Erbium/StockAnalyzer.Windows/MainWindow.xaml.cs:78 | filtering twice by one ticker is filtering once |
| TickerFilter.WithTickerKeepsAll | Erbium/StockAnalyzer.Windows/MainWindow.xaml.cs:78 | records that all have the ticker pass unchanged |
| TickerFilter.WithTickerNone | Erbium/StockAnalyzer.Windows/MainWindow.xaml.cs:78 | records none of which has the ticker give the empty sequence |

## Left out

- `File.ReadAllLines` on the fixed path is file I/O. The lines are an input, so a missing or
  unreadable file (an `IOException`) is not modelled.
- The window's other members are outside this model: `Search_Click_v1`, `GetStocks` (HTTP and JSON
  decoding), `KeyUpHandler`, `Hyperlink_OnRequestNavigate`, `Close_OnClick`, the stopwatch, the
  progress bar and the status text. They are UI, network and timing code.
- `Where` is lazy, and the grid reads `Ticker.Text` only when it enumerates the result. The model
  filters eagerly with the ticker given to the handler, which is the same only if the box does not
  change in between.
- `StockPrice` is defined outside this file; `Domain.StockPrice` holds only the five fields the
  initializer assigns.
- Numbers.ParseDecimal: a `decimal` holds at most 28 or 29 significant digits and rounds or
  overflows beyond that. The model keeps any number of digits exactly, so the overflow error of
  `Convert.ToDecimal` is not modelled.
- Numbers.ParseInt32, Numbers.ParseDecimal: .NET number parsing also accepts trailing `'\0'`
  characters. The model does not.
- Numbers.ParseInt32, Numbers.ParseDecimal: only the invariant culture's symbols are modelled:
  `-`, `+` and `.`. The group separator `,` never reaches these parsers, because the line is split on
  `,` first.
- Dates.ParseDate: only the one pattern the handler uses is modelled, with the invariant culture's
  `AM`/`PM` matched ignoring case. DateTime kinds, offsets and other cultures are not.
- Loader.LoadError: the data-line index it carries is extra. The C# exception does not say which
  line failed.
- Loader.RecordOf accepts a negative volume and an empty ticker, as the handler does: neither is
  checked.
- LoaderProperties.TwoRowExample: it is stated for any two writable records with the tickers MSFT
  and AAPL, so any fixed pair of literal rows is an instance of it. No separate lemma states one
  fixed pair.
