/**
 * `SearchController`: the HTTP face of the search service (`GET /api/search` and
 * `POST /api/search/reindex`). Responses are a status code and a body.
 */
module Controllers {
  import opened Wrappers
  import opened Models
  import opened IndexModel
  import opened Services

  const DefaultLimit := 10
  const MaxLimit := 100

  const InternalError := "An internal server error occurred."
  const RebuildStarted := "Index rebuild initiated successfully."
  const RebuildFailed := "Failed to rebuild index."

  /** The `limit` query parameter after the two guards of `SearchMessages`. */
  function ClampLimit(limit: int): (r: int)
    ensures 1 <= r <= MaxLimit
    ensures 1 <= limit <= MaxLimit ==> r == limit
    ensures limit <= 0 ==> r == DefaultLimit
    ensures limit > MaxLimit ==> r == MaxLimit
  {
    var l := if limit <= 0 then DefaultLimit else limit;
    if l > MaxLimit then MaxLimit else l
  }

  /** Clamping twice is clamping once. */
  lemma ClampIdempotent(limit: int)
    ensures ClampLimit(ClampLimit(limit)) == ClampLimit(limit)
  {
  }

  /** The body of the 500 response to a search that threw. */
  const InternalErrorResult := SearchResult([], 0, None, Some(InternalError))

  /**
   * An HTTP response: a `SearchResult` sent as JSON with a status code, or the framework's
   * validation problem report, which goes out with status 400.
   */
  datatype Response = Json(status: int, result: SearchResult) | ValidationProblem

  function StatusOf(response: Response): int {
    match response
    case Json(status, _) => status
    case ValidationProblem => 400
  }

  /**
   * The response to a search: a returned result goes out with 200 whatever its error message;
   * only an exception becomes the 500 response.
   */
  function SearchResponse(outcome: SearchOutcome): Response {
    match outcome
    case Answered(result) => Json(200, result)
    case Thrown => Json(500, InternalErrorResult)
  }

  /**
   * `GET /api/search`. The controller is an `[ApiController]` and `q` is `[Required]`, so a
   * missing, empty or whitespace-only `q` fails model validation and is answered 400 before the
   * action runs; otherwise the action clamps the limit, searches and maps the outcome.
   */
  function SearchEndpoint(q: string, limit: int, directoryOpen: bool, ix: Index, engine: QueryEngine): Response {
    if IsBlank(q) then ValidationProblem
    else SearchResponse(SearchSpec(q, ClampLimit(limit), directoryOpen, ix, engine))
  }

  /** A result that carries an error message is still a 200 response, unchanged. */
  lemma ErrorResultIsOk(outcome: SearchOutcome)
    requires outcome.Answered? && outcome.result.errorMessage.Some?
    ensures SearchResponse(outcome) == Json(200, outcome.result)
  {
  }

  /** The 500 response has no hits and a zero total, and only an exception produces it. */
  lemma InternalErrorShape(outcome: SearchOutcome)
    ensures StatusOf(SearchResponse(outcome)) == 500 <==> outcome.Thrown?
    ensures StatusOf(SearchResponse(outcome)) == 500 ==>
      SearchResponse(outcome).result.hits == [] && SearchResponse(outcome).result.totalHits == 0
    ensures StatusOf(SearchResponse(outcome)) in {200, 500}
  {
  }

  /**
   * A blank query is refused by validation with 400, and only a blank query is; so the
   * service's "Query required." answer never reaches a client of this endpoint.
   */
  lemma BlankQueryIsBadRequest(q: string, limit: int, directoryOpen: bool, ix: Index, engine: QueryEngine)
    ensures StatusOf(SearchEndpoint(q, limit, directoryOpen, ix, engine)) == 400 <==> IsBlank(q)
    ensures SearchEndpoint(q, limit, directoryOpen, ix, engine).Json? ==>
      SearchEndpoint(q, limit, directoryOpen, ix, engine).result.errorMessage != Some(QueryRequired)
  {
    if !IsBlank(q) {
      var outcome := SearchSpec(q, ClampLimit(limit), directoryOpen, ix, engine);
      assert QueryRequired[0] == 'Q';
      assert IndexNotReady[0] != 'Q' && SearchFailed[0] != 'Q' && InternalError[0] != 'Q';
      if outcome.Answered? && outcome.result.errorMessage.Some? {
        var m := outcome.result.errorMessage.value;
        assert m == IndexNotReady || m == SearchFailed || InvalidQueryPrefix <= m;
        assert InvalidQueryPrefix[0] == 'I';
        assert m[0] != 'Q';
      }
    }
  }

  /** A successful search through the controller returns at most 100 hits. */
  lemma ResponseHitsCapped(q: string, limit: int, directoryOpen: bool, ix: Index, engine: QueryEngine)
    requires SearchEndpoint(q, limit, directoryOpen, ix, engine).Json?
    requires SearchEndpoint(q, limit, directoryOpen, ix, engine).result.errorMessage.None?
    ensures |SearchEndpoint(q, limit, directoryOpen, ix, engine).result.hits| <= MaxLimit
  {
    SuccessfulSearch(q, ClampLimit(limit), directoryOpen, ix, engine);
  }

  /** `SearchMessages`, with the validation that runs before it: refuse a blank `q`, else clamp, search, respond. */
  method SearchMessages(service: SearchService, q: string, limit: int, engine: QueryEngine)
    returns (response: Response)
    ensures response == SearchEndpoint(q, limit, service.directoryOpen, service.index, engine)
  {
    if IsBlank(q) {
      return ValidationProblem;
    }
    var clamped := ClampLimit(limit);
    var outcome := service.Search(q, clamped, engine);
    match outcome
    case Answered(result) =>
      response := Json(200, result);
    case Thrown =>
      response := Json(500, InternalErrorResult);
  }

  /**
   * `RebuildIndex`: rebuild from the sample messages with `recreateIndex` set; 200 when the
   * build completes, 500 when it throws.
   */
  method RebuildIndex(service: SearchService, sample: seq<Message>, lockObtained: bool, clearOk: bool,
                      failedAdds: set<nat>, commitOk: bool)
    returns (status: int, message: string)
    requires service.Valid()
    modifies service
    ensures service.Valid()
    ensures service.directoryOpen == old(service.directoryOpen)
    ensures service.writerOpen <==> old(service.writerOpen) || (service.directoryOpen && lockObtained)
    ensures status == 200 || status == 500
    ensures status == 200 ==>
      message == RebuildStarted
      && service.index == AddedAll(Cleared(old(service.index)), Indexed(sample, failedAdds))
    ensures status == 500 ==>
      message == RebuildFailed
      && service.index == if service.writerOpen && clearOk then Cleared(old(service.index)) else old(service.index)
    ensures status == 200 <==>
      (old(service.writerOpen) || (service.directoryOpen && lockObtained)) && clearOk && commitOk
  {
    var r, count := service.BuildIndex(sample, true, lockObtained, clearOk, failedAdds, commitOk);
    if r == Done {
      status, message := 200, RebuildStarted;
    } else {
      status, message := 500, RebuildFailed;
    }
  }
}
