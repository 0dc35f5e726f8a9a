/**
 * The records the search service exchanges with its callers
 * (backend/Models/Message.cs and backend/Models/IndexStats.cs).
 */
module Models {
  import opened Wrappers

  /** `DateTime.MaxValue.Ticks`: the largest instant a .NET `DateTime` can hold. */
  const MaxTicks: int := 3155378975999999999

  /** A `DateTime` instant, as its tick count; `DateTime.MinValue` is 0 ticks. */
  type Ticks = t: int | 0 <= t <= MaxTicks

  /** A message as callers hand it to the service. */
  datatype Message = Message(
    id: string,
    sender: string,
    recipients: seq<string>,
    subject: string,
    body: string,
    timestamp: Ticks)

  /**
   * A message as the search path rebuilds it from a stored document. `Id`, `Sender` and
   * `Subject` are read with `Document.Get`, which yields null (`None`) for a missing field.
   */
  datatype DecodedMessage = DecodedMessage(
    id: Option<string>,
    sender: Option<string>,
    recipients: seq<string>,
    subject: Option<string>,
    body: string,
    timestamp: Ticks)

  /** What a search returns: the hits, the total match count and the diagnostics. */
  datatype SearchResult = SearchResult(
    hits: seq<DecodedMessage>,
    totalHits: int,
    luceneQuery: Option<string>,
    errorMessage: Option<string>)

  /** Index health as reported by the stats path. */
  datatype IndexStats = IndexStats(
    numDocs: int,
    maxDocs: int,
    isOptimized: bool,
    numSegments: int)

  /** `new IndexStats()`: every count 0 and not optimized. */
  const EmptyStats := IndexStats(0, 0, false, 0)

  /** The sentinel the stats path reports after a failure. */
  const FailedStats := IndexStats(-1, -1, false, -1)
}
