/** The data shapes of the stock dashboard: the raw records as the stock
    service delivers them and the derived records the dashboard displays.
    Timestamps are integers (milliseconds since the epoch); the parsing of
    ISO-8601 strings into dates is not part of this model. */
module StockTypes {

  /** One stock reading of a variation, as delivered by the service. */
  datatype RawHistoryEntry = RawHistoryEntry(timestamp: int, stock: int)

  /** A purchasable option of a product with its chronological readings. */
  datatype RawVariation = RawVariation(name: string, history: seq<RawHistoryEntry>)

  /** A product as delivered by the service. */
  datatype RawSku = RawSku(id: string, name: string, url: string, variations: seq<RawVariation>)

  /** A reading whose timestamp has been turned into a date value. */
  datatype HistoryEntry = HistoryEntry(timestamp: int, stock: int)

  /** A variation restricted to the analysed window, with its closing stock
      and the change of stock over the window. */
  datatype Variation = Variation(name: string, history: seq<HistoryEntry>, currentStock: int, variation: int)

  /** A product with its derived variations and their totals. */
  datatype Sku = Sku(id: string, name: string, url: string, variations: seq<Variation>,
                     totalStock: int, totalVariation: int)
}
