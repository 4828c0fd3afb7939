/** The records exchanged between the downloader, the exchange service and
    the outputter, and the errors they return. */
module Domain {

  /** Go's `int64`. */
  newtype int64 = x: int | -0x8000_0000_0000_0000 <= x < 0x8000_0000_0000_0000

  /** A wall-clock instant (`time.Time`), abstracted to a number. */
  type Instant = int

  datatype Option<+T> = None | Some(value: T)

  /** A Go `error`. Each constructor other than `External` is one
      `fmt.Errorf` wrapper of the modelled code, holding what it formats. */
  datatype Error =
    | External(message: string)
      // an error produced outside the model: the HTTP client, strconv, the outputter
    | CreatingRequest(cause: Error)
      // "error creating request: %w"
    | GettingRates(cause: Error)
      // "error getting rates: %w"
    | DownloadingRates(cause: Error)
      // "error downloading rates: %w"
    | ConvertingMid(rateNumber: string, midValue: real, parseError: Option<Error>)
      // "error converting %v rate's midValue %v to float64: %w"; the wrapped error may be nil
    | SendingToOutputter(timestamp: Instant, cause: Error)
      // "error sending the structured data with timestamp %v to the outputter: %w"

  /** One dated observation of the exchange rate. */
  datatype SingleRate = SingleRate(rateNumber: string, effectiveDate: string, midValue: real)

  /** The table downloaded from the exchange API. */
  datatype ExchangeRates = ExchangeRates(
    table: string,
    currency: string,
    currencyCode: string,
    rates: seq<SingleRate>)

  /** What the downloader reports about one request. */
  datatype RequestMetadata = RequestMetadata(
    requestDuration: int64,
    responseHTTPCode: string,
    responseContentType: string,
    responseValidJSON: bool)

  /** The record of one check, handed to the outputter. */
  datatype StructuredOutput = StructuredOutput(
    outputTimestamp: Instant,
    requestDuration: int64,
    responseHTTPCode: string,
    responseContentType: string,
    responseValidJSON: bool,
    targetDays: seq<string>)

  /** Go's zero values `domain.ExchangeRates{}` and `domain.RequestMetadata{}`. */
  const ZeroRates: ExchangeRates := ExchangeRates("", "", "", [])
  const ZeroMetadata: RequestMetadata := RequestMetadata(0, "", "", false)
}
