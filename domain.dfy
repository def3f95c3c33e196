/** The record the loader builds: the five fields of `StockPrice` that the loader assigns. */
module Domain {
  import opened Dates
  import opened Numbers

  datatype StockPrice = StockPrice(
    ticker: string,
    tradeDate: DateTime,
    volume: int32,
    change: Decimal,
    changePercent: Decimal)
}
