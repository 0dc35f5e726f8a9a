/**
 * `SearchService`: the guardian of the single index writer, and the search path.
 *
 * The service holds a writer that is opened on demand and closed on disposal, a directory
 * handle that disposal closes for good, and the committed index. Every writer operation first
 * makes sure the writer is open, then does its work and commits; a failure in the work or the
 * commit is handed back to the caller and leaves the committed index as it was. Faults of the
 * file system and of Lucene are inputs of each method (`lockObtained`, `writeOk`, ...).
 */
module Services {
  import opened Wrappers
  import opened Models
  import opened QueryNormalizer
  import opened DocumentCodec
  import opened IndexModel

  /** The exceptions a writer operation hands back to its caller. */
  datatype IndexError =
    | DirectoryClosed       // the directory was disposed: `AlreadyClosedException`
    | LockObtainFailed      // another writer holds `write.lock`
    | WriterNotInitialized  // `InvalidOperationException("Writer not init.")`
    | WriteFailed           // adding, deleting, merging or committing threw

  datatype Outcome = Done | Failed(error: IndexError)

  /** The query parser's verdict on a query string: its rendering, or the parser's message. */
  datatype ParseOutcome = Parsed(display: string) | SyntaxError(message: string)

  /**
   * The parts of Lucene the search path calls but the model does not look inside: whether a
   * reader opens, the multi-field query parser, whether `IndexSearcher.Search` runs without
   * throwing, ranking, which lists every document the query matches, best first, and whether
   * `IndexSearcher.Doc` can load a document's stored fields.
   */
  datatype QueryEngine = QueryEngine(
    readerOpens: bool,
    parse: string -> ParseOutcome,
    searchOk: bool,
    rank: (string, seq<Document>) -> seq<Document>,
    readable: Document -> bool)

  /** A search either returns a result or lets an exception escape to the controller. */
  datatype SearchOutcome = Answered(result: SearchResult) | Thrown

  const QueryRequired := "Query required."
  const IndexNotReady := "Index not ready."
  const SearchFailed := "Search error occurred."
  const InvalidQueryPrefix := "Invalid Query: "

  /** `string.IsNullOrWhiteSpace` on a non-null string. */
  predicate IsBlank(q: string) {
    forall i | 0 <= i < |q| :: IsSpace(q[i])
  }

  function Min(a: int, b: int): int {
    if a <= b then a else b
  }

  // ---------------------------------------------------------------------------------------
  // Decoding the top hits

  /** One hit: its stored fields are loaded, which may throw, and decoded, which may throw. */
  function Hit(d: Document, readable: Document -> bool): Option<DecodedMessage> {
    if readable(d) then Decode(Stored(d)) else None
  }

  /**
   * Decodes hits front to back and stops at the first one that cannot be decoded; the flag says
   * whether every hit was decoded.
   */
  function DecodeHits(top: seq<Document>, readable: Document -> bool): (r: (seq<DecodedMessage>, bool))
    ensures |r.0| <= |top|
  {
    if top == [] then ([], true)
    else match Hit(top[0], readable)
      case None => ([], false)
      case Some(hit) =>
        var rest := DecodeHits(top[1..], readable);
        ([hit] + rest.0, rest.1)
  }

  /**
   * The hits are the decodings of the leading documents, in order; the flag is set exactly when
   * every document decodes, and otherwise the document right after the hits is the one that
   * failed.
   */
  lemma DecodeHitsMeaning(top: seq<Document>, readable: Document -> bool)
    ensures DecodeHits(top, readable).1 <==> forall i | 0 <= i < |top| :: Hit(top[i], readable).Some?
    ensures forall i | 0 <= i < |DecodeHits(top, readable).0| :: Hit(top[i], readable) == Some(DecodeHits(top, readable).0[i])
    ensures DecodeHits(top, readable).1 ==> |DecodeHits(top, readable).0| == |top|
    ensures !DecodeHits(top, readable).1 ==>
      |DecodeHits(top, readable).0| < |top| && Hit(top[|DecodeHits(top, readable).0|], readable).None?
  {
    DecodeHitsAreDecodings(top, readable);
    DecodeHitsComplete(top, readable);
    DecodeHitsStopsAtFailure(top, readable);
  }

  lemma {:induction false} DecodeHitsAreDecodings(top: seq<Document>, readable: Document -> bool)
    ensures forall i | 0 <= i < |DecodeHits(top, readable).0| :: Hit(top[i], readable) == Some(DecodeHits(top, readable).0[i])
    decreases |top|
  {
    if top != [] && Hit(top[0], readable).Some? {
      var tail := top[1..];
      DecodeHitsAreDecodings(tail, readable);
      var hits, rest := DecodeHits(top, readable).0, DecodeHits(tail, readable).0;
      assert hits == [Hit(top[0], readable).value] + rest;
      forall i | 0 <= i < |hits| ensures Hit(top[i], readable) == Some(hits[i]) {
        if i > 0 {
          assert top[i] == tail[i - 1] && hits[i] == rest[i - 1];
        }
      }
    }
  }

  lemma {:induction false} DecodeHitsComplete(top: seq<Document>, readable: Document -> bool)
    ensures DecodeHits(top, readable).1 ==>
      |DecodeHits(top, readable).0| == |top| && forall i | 0 <= i < |top| :: Hit(top[i], readable).Some?
    decreases |top|
  {
    if top != [] && Hit(top[0], readable).Some? {
      var tail := top[1..];
      DecodeHitsComplete(tail, readable);
      if DecodeHits(tail, readable).1 {
        forall i | 0 <= i < |top| ensures Hit(top[i], readable).Some? {
          if i > 0 {
            assert top[i] == tail[i - 1];
          }
        }
      }
    }
  }

  lemma {:induction false} DecodeHitsStopsAtFailure(top: seq<Document>, readable: Document -> bool)
    ensures !DecodeHits(top, readable).1 ==>
      |DecodeHits(top, readable).0| < |top| && Hit(top[|DecodeHits(top, readable).0|], readable).None?
    decreases |top|
  {
    if top != [] && Hit(top[0], readable).Some? {
      var tail := top[1..];
      DecodeHitsStopsAtFailure(tail, readable);
      var n := |DecodeHits(tail, readable).0|;
      assert |DecodeHits(top, readable).0| == n + 1;
      if !DecodeHits(tail, readable).1 {
        assert top[n + 1] == tail[n];
      }
    }
  }

  /** One step of decoding from position `i`. */
  lemma DecodeHitsStep(top: seq<Document>, readable: Document -> bool, i: nat)
    requires i < |top|
    ensures Hit(top[i], readable).None? ==> DecodeHits(top[i..], readable) == ([], false)
    ensures Hit(top[i], readable).Some? ==>
      DecodeHits(top[i..], readable) == ([Hit(top[i], readable).value] + DecodeHits(top[i + 1..], readable).0, DecodeHits(top[i + 1..], readable).1)
  {
    assert top[i..][0] == top[i];
    assert top[i..][1..] == top[i + 1..];
  }

  // ---------------------------------------------------------------------------------------
  // The search path

  /**
   * What `Search` returns: the guards in their order (blank query, closed directory, no index),
   * then the normalised query goes to a reader and the parser, the search runs, and the top
   * `maxResults` ranked documents are loaded and decoded. Every exception after the reader is
   * requested ends in the generic error, with the hits decoded before it.
   */
  function SearchSpec(q: string, maxResults: int, directoryOpen: bool, ix: Index, engine: QueryEngine): SearchOutcome {
    if IsBlank(q) then Answered(SearchResult([], 0, None, Some(QueryRequired)))
    else if !directoryOpen then Thrown
    else if !ix.committed then Answered(SearchResult([], 0, None, Some(IndexNotReady)))
    else
      var processed := Normalize(q);
      if !engine.readerOpens then Answered(SearchResult([], 0, Some(""), Some(SearchFailed)))
      else match engine.parse(processed)
        case SyntaxError(msg) =>
          Answered(SearchResult([], 0, Some(processed), Some(InvalidQueryPrefix + msg)))
        case Parsed(display) =>
          if maxResults <= 0 || !engine.searchOk then
            Answered(SearchResult([], 0, Some(display), Some(SearchFailed)))
          else
            var ranked := engine.rank(processed, Docs(ix));
            var decoded := DecodeHits(ranked[..Min(maxResults, |ranked|)], engine.readable);
            if decoded.1 then Answered(SearchResult(decoded.0, |ranked|, Some(display), None))
            else Answered(SearchResult(decoded.0, 0, Some(display), Some(SearchFailed)))
  }

  /** A blank query is refused before anything else is looked at. */
  lemma BlankQueryRefused(q: string, maxResults: int, directoryOpen: bool, ix: Index, engine: QueryEngine)
    requires IsBlank(q)
    ensures SearchSpec(q, maxResults, directoryOpen, ix, engine)
         == Answered(SearchResult([], 0, None, Some(QueryRequired)))
  {
  }

  /** A non-blank query on an open directory without a committed index is refused. */
  lemma MissingIndexRefused(q: string, maxResults: int, ix: Index, engine: QueryEngine)
    requires !IsBlank(q) && !ix.committed
    ensures SearchSpec(q, maxResults, true, ix, engine)
         == Answered(SearchResult([], 0, None, Some(IndexNotReady)))
  {
  }

  /** Only a disposed directory lets an exception escape the search path. */
  lemma SearchThrowsOnlyWhenClosed(q: string, maxResults: int, directoryOpen: bool, ix: Index, engine: QueryEngine)
    ensures SearchSpec(q, maxResults, directoryOpen, ix, engine).Thrown?
        <==> !IsBlank(q) && !directoryOpen
  {
  }

  /** A parse failure reports the normalised query and the parser's message. */
  lemma InvalidQueryReported(q: string, maxResults: int, ix: Index, engine: QueryEngine, msg: string)
    requires !IsBlank(q) && ix.committed && engine.readerOpens
    requires engine.parse(Normalize(q)) == SyntaxError(msg)
    ensures SearchSpec(q, maxResults, true, ix, engine)
         == Answered(SearchResult([], 0, Some(Normalize(q)), Some(InvalidQueryPrefix + msg)))
    ensures InvalidQueryPrefix <= SearchSpec(q, maxResults, true, ix, engine).result.errorMessage.value
  {
  }

  /**
   * Every refusal carries no hits and a zero total, except a failure while decoding hits,
   * which keeps the hits decoded before it (and still reports a zero total).
   */
  lemma ErrorsCarryNoTotal(q: string, maxResults: int, directoryOpen: bool, ix: Index, engine: QueryEngine)
    requires SearchSpec(q, maxResults, directoryOpen, ix, engine).Answered?
    requires SearchSpec(q, maxResults, directoryOpen, ix, engine).result.errorMessage.Some?
    ensures SearchSpec(q, maxResults, directoryOpen, ix, engine).result.totalHits == 0
    ensures SearchSpec(q, maxResults, directoryOpen, ix, engine).result.errorMessage.value != SearchFailed
        ==> SearchSpec(q, maxResults, directoryOpen, ix, engine).result.hits == []
  {
  }

  /**
   * A successful search returns at most `maxResults` hits: the decodings of the best-ranked
   * documents, in rank order, with the total number of matches.
   */
  lemma SuccessfulSearch(q: string, maxResults: int, directoryOpen: bool, ix: Index, engine: QueryEngine)
    requires SearchSpec(q, maxResults, directoryOpen, ix, engine).Answered?
    requires SearchSpec(q, maxResults, directoryOpen, ix, engine).result.errorMessage.None?
    ensures var r := SearchSpec(q, maxResults, directoryOpen, ix, engine).result;
      var ranked := engine.rank(Normalize(q), Docs(ix));
      && |r.hits| <= maxResults
      && |r.hits| == Min(maxResults, |ranked|)
      && r.totalHits == |ranked| >= |r.hits|
      && (forall i | 0 <= i < |r.hits| :: engine.readable(ranked[i]) && Decode(Stored(ranked[i])) == Some(r.hits[i]))
  {
    var processed := Normalize(q);
    var ranked := engine.rank(processed, Docs(ix));
    var top := ranked[..Min(maxResults, |ranked|)];
    var r := SearchSpec(q, maxResults, directoryOpen, ix, engine).result;
    assert !IsBlank(q) && directoryOpen && ix.committed && engine.readerOpens;
    assert engine.parse(processed).Parsed? && maxResults > 0 && engine.searchOk;
    assert DecodeHits(top, engine.readable).1;
    assert r.hits == DecodeHits(top, engine.readable).0 && r.totalHits == |ranked|;
    DecodeHitsMeaning(top, engine.readable);
    forall i | 0 <= i < |r.hits|
      ensures engine.readable(ranked[i]) && Decode(Stored(ranked[i])) == Some(r.hits[i])
    {
      assert top[i] == ranked[i];
    }
  }

  /**
   * When ranking only lists documents of the index, each hit of a successful search is the
   * decoding of a live document of the index.
   */
  lemma HitsComeFromIndex(q: string, maxResults: int, directoryOpen: bool, ix: Index, engine: QueryEngine)
    requires SearchSpec(q, maxResults, directoryOpen, ix, engine).Answered?
    requires SearchSpec(q, maxResults, directoryOpen, ix, engine).result.errorMessage.None?
    requires multiset(engine.rank(Normalize(q), Docs(ix))) <= multiset(Docs(ix))
    ensures var hits := SearchSpec(q, maxResults, directoryOpen, ix, engine).result.hits;
      forall i | 0 <= i < |hits| :: exists d | d in Docs(ix) :: Decode(Stored(d)) == Some(hits[i])
  {
    var ranked := engine.rank(Normalize(q), Docs(ix));
    var hits := SearchSpec(q, maxResults, directoryOpen, ix, engine).result.hits;
    SuccessfulSearch(q, maxResults, directoryOpen, ix, engine);
    forall i | 0 <= i < |hits| ensures exists d | d in Docs(ix) :: Decode(Stored(d)) == Some(hits[i]) {
      assert ranked[i] in multiset(ranked);
      assert ranked[i] in Docs(ix);
    }
  }

  /** A search that throws inside the engine reports the generic error with the parsed query and no total. */
  lemma EngineFaultReported(q: string, maxResults: int, ix: Index, engine: QueryEngine, display: string)
    requires !IsBlank(q) && ix.committed && engine.readerOpens
    requires engine.parse(Normalize(q)) == Parsed(display)
    requires !engine.searchOk
    ensures SearchSpec(q, maxResults, true, ix, engine)
         == Answered(SearchResult([], 0, Some(display), Some(SearchFailed)))
  {
  }

  // ---------------------------------------------------------------------------------------
  // Building a batch

  /** The documents `BuildIndex` adds: the encodings of the messages whose add did not fail. */
  function Indexed(messages: seq<Message>, failedAdds: set<nat>): (ds: seq<Document>)
    ensures |ds| <= |messages|
  {
    if messages == [] then []
    else
      var n := |messages| - 1;
      Indexed(messages[..n], failedAdds) + (if n in failedAdds then [] else [Encode(messages[n])])
  }

  /** Without failures every message is added, in order. */
  lemma {:induction false} IndexedWithoutFailures(messages: seq<Message>, failedAdds: set<nat>)
    requires forall i | 0 <= i < |messages| :: i !in failedAdds
    ensures |Indexed(messages, failedAdds)| == |messages|
    ensures forall i | 0 <= i < |messages| :: Indexed(messages, failedAdds)[i] == Encode(messages[i])
    decreases |messages|
  {
    if messages != [] {
      var n := |messages| - 1;
      IndexedWithoutFailures(messages[..n], failedAdds);
    }
  }

  /** Each failed add leaves out exactly its own message. */
  lemma {:induction false} IndexedCount(messages: seq<Message>, failedAdds: set<nat>)
    ensures |Indexed(messages, failedAdds)|
         == |messages| - |set i | 0 <= i < |messages| && i in failedAdds|
    decreases |messages|
  {
    if messages != [] {
      var n := |messages| - 1;
      IndexedCount(messages[..n], failedAdds);
      var before := set i | 0 <= i < n && i in failedAdds;
      var all := set i | 0 <= i < |messages| && i in failedAdds;
      if n in failedAdds {
        assert all == before + {n};
      } else {
        assert all == before;
      }
    }
  }

  // ---------------------------------------------------------------------------------------
  // The service

  class SearchService {
    /** `_writer != null`. */
    var writerOpen: bool
    /** The `FSDirectory` handle has not been disposed. */
    var directoryOpen: bool
    /** The last committed state of the index. */
    var index: Index

    ghost predicate Valid()
      reads this
    {
      (writerOpen ==> directoryOpen) && IndexModel.Valid(index)
    }

    /** The directory is opened and any stale lock released; no writer exists yet. */
    constructor (stored: Index)
      requires IndexModel.Valid(stored)
      ensures Valid()
      ensures directoryOpen && !writerOpen && index == stored
    {
      writerOpen := false;
      directoryOpen := true;
      index := stored;
    }

    /**
     * Opens the writer unless it is open already. Opening does not commit, so the index is
     * untouched; it fails on a disposed directory or when the lock cannot be obtained.
     */
    method InitializeWriter(lockObtained: bool) returns (r: Outcome)
      requires Valid()
      modifies this
      ensures Valid()
      ensures index == old(index) && directoryOpen == old(directoryOpen)
      ensures old(writerOpen) ==> r == Done
      ensures r == Done <==> old(writerOpen) || (directoryOpen && lockObtained)
      ensures writerOpen <==> r == Done
      ensures r.Failed? ==> r.error == if directoryOpen then LockObtainFailed else DirectoryClosed
    {
      if writerOpen {
        return Done;
      }
      if !directoryOpen {
        return Failed(DirectoryClosed);
      }
      if !lockObtained {
        return Failed(LockObtainFailed);
      }
      writerOpen := true;
      r := Done;
    }

    /** `AddMessageToIndex`: encode, add, commit. */
    method AddMessageToIndex(m: Message, lockObtained: bool, writeOk: bool) returns (r: Outcome)
      requires Valid()
      modifies this
      ensures Valid()
      ensures directoryOpen == old(directoryOpen)
      ensures writerOpen <==> old(writerOpen) || (directoryOpen && lockObtained)
      ensures r == Done <==> writerOpen && writeOk
      ensures r == Done ==> index == Added(old(index), Encode(m))
      ensures r != Done ==> index == old(index)
      ensures r != Failed(WriterNotInitialized)
    {
      r := InitializeWriter(lockObtained);
      if r.Failed? {
        return;
      }
      if !writerOpen {
        return Failed(WriterNotInitialized);
      }
      if !writeOk {
        return Failed(WriteFailed);
      }
      index := Added(index, Encode(m));
      OperationsPreserveValid(old(index), [], "", Encode(m));
    }

    /**
     * `BuildIndex`: optionally clear the index and commit, add every message whose add does
     * not fail (a failing one is skipped), then commit the batch. `count` is the number of
     * messages added.
     */
    method BuildIndex(messages: seq<Message>, recreateIndex: bool, lockObtained: bool, clearOk: bool,
                      failedAdds: set<nat>, commitOk: bool)
      returns (r: Outcome, count: nat)
      requires Valid()
      modifies this
      ensures Valid()
      ensures directoryOpen == old(directoryOpen)
      ensures writerOpen <==> old(writerOpen) || (directoryOpen && lockObtained)
      ensures r == Done <==> writerOpen && (recreateIndex ==> clearOk) && commitOk
      ensures r == Done ==>
        index == AddedAll(if recreateIndex then Cleared(old(index)) else old(index), Indexed(messages, failedAdds))
        && count == |Indexed(messages, failedAdds)|
      ensures r != Done ==>
        index == if writerOpen && recreateIndex && clearOk then Cleared(old(index)) else old(index)
      ensures r != Failed(WriterNotInitialized)
    {
      count := 0;
      r := InitializeWriter(lockObtained);
      if r.Failed? {
        return;
      }
      if !writerOpen {
        return Failed(WriterNotInitialized), count;
      }
      if recreateIndex {
        if !clearOk {
          return Failed(WriteFailed), 0;
        }
        OperationsPreserveValid(index, [], "", []);
        index := Cleared(index);
      }
      var batch: seq<Document> := [];
      var i := 0;
      while i < |messages|
        invariant 0 <= i <= |messages|
        invariant batch == Indexed(messages[..i], failedAdds)
        invariant count == |batch|
      {
        assert messages[..i + 1][..i] == messages[..i];
        if i !in failedAdds {
          batch := batch + [Encode(messages[i])];
          count := count + 1;
        }
        i := i + 1;
      }
      assert messages[..i] == messages;
      if !commitOk {
        return Failed(WriteFailed), count;
      }
      OperationsPreserveValid(index, batch, "", []);
      index := AddedAll(index, batch);
    }

    /**
     * `UpdateMessageInIndex`: delete every document whose `Id` is `messageId`, add the new
     * encoding, commit. The caller guarantees `m.id == messageId`; the method does not check.
     */
    method UpdateMessageInIndex(messageId: string, m: Message, lockObtained: bool, writeOk: bool)
      returns (r: Outcome)
      requires Valid()
      modifies this
      ensures Valid()
      ensures directoryOpen == old(directoryOpen)
      ensures writerOpen <==> old(writerOpen) || (directoryOpen && lockObtained)
      ensures r == Done <==> writerOpen && writeOk
      ensures r == Done ==> index == Updated(old(index), messageId, Encode(m))
      ensures r != Done ==> index == old(index)
      ensures r != Failed(WriterNotInitialized)
    {
      r := InitializeWriter(lockObtained);
      if r.Failed? {
        return;
      }
      if !writerOpen {
        return Failed(WriterNotInitialized);
      }
      if !writeOk {
        return Failed(WriteFailed);
      }
      OperationsPreserveValid(index, [], messageId, Encode(m));
      index := Updated(index, messageId, Encode(m));
    }

    /** `DeleteMessageFromIndex`: delete every document whose `Id` is `messageId`, commit. */
    method DeleteMessageFromIndex(messageId: string, lockObtained: bool, writeOk: bool) returns (r: Outcome)
      requires Valid()
      modifies this
      ensures Valid()
      ensures directoryOpen == old(directoryOpen)
      ensures writerOpen <==> old(writerOpen) || (directoryOpen && lockObtained)
      ensures r == Done <==> writerOpen && writeOk
      ensures r == Done ==> index == Deleted(old(index), messageId)
      ensures r != Done ==> index == old(index)
      ensures r != Failed(WriterNotInitialized)
    {
      r := InitializeWriter(lockObtained);
      if r.Failed? {
        return;
      }
      if !writerOpen {
        return Failed(WriterNotInitialized);
      }
      if !writeOk {
        return Failed(WriteFailed);
      }
      OperationsPreserveValid(index, [], messageId, []);
      index := Deleted(index, messageId);
    }

    /** `OptimizeIndex`: merge down to one segment, commit. */
    method OptimizeIndex(lockObtained: bool, writeOk: bool) returns (r: Outcome)
      requires Valid()
      modifies this
      ensures Valid()
      ensures directoryOpen == old(directoryOpen)
      ensures writerOpen <==> old(writerOpen) || (directoryOpen && lockObtained)
      ensures r == Done <==> writerOpen && writeOk
      ensures r == Done ==> index == Merged(old(index))
      ensures r != Done ==> index == old(index)
      ensures r != Failed(WriterNotInitialized)
    {
      r := InitializeWriter(lockObtained);
      if r.Failed? {
        return;
      }
      if !writerOpen {
        return Failed(WriterNotInitialized);
      }
      if !writeOk {
        return Failed(WriteFailed);
      }
      OperationsPreserveValid(index, [], "", []);
      index := Merged(index);
    }

    /**
     * `GetIndexStats`: zeros when no commit exists yet, what a reader reports otherwise, and
     * the -1 sentinel when the directory is disposed or no reader opens.
     */
    function GetIndexStats(readerOpens: bool): (s: IndexStats)
      reads this
      ensures !directoryOpen ==> s == FailedStats
      ensures directoryOpen && !index.committed ==> s == EmptyStats
      ensures directoryOpen && index.committed && !readerOpens ==> s == FailedStats
      ensures Valid() && s != FailedStats && s != EmptyStats ==>
        s.maxDocs >= s.numDocs >= 0 && s.isOptimized == (s.numSegments <= 1)
    {
      if !directoryOpen then FailedStats
      else if !index.committed then EmptyStats
      else if !readerOpens then FailedStats
      else StatsOf(index)
    }

    /** `Search`: the guards, then the top hits decoded one by one. */
    method Search(queryString: string, maxResults: int, engine: QueryEngine) returns (r: SearchOutcome)
      ensures r == SearchSpec(queryString, maxResults, directoryOpen, index, engine)
    {
      var results: seq<DecodedMessage> := [];
      if IsBlank(queryString) {
        return Answered(SearchResult(results, 0, None, Some(QueryRequired)));
      }
      if !directoryOpen {
        return Thrown;
      }
      if !index.committed {
        return Answered(SearchResult(results, 0, None, Some(IndexNotReady)));
      }
      var processed := Normalize(queryString);
      if !engine.readerOpens {
        return Answered(SearchResult(results, 0, Some(""), Some(SearchFailed)));
      }
      var parsed := engine.parse(processed);
      if parsed.SyntaxError? {
        return Answered(SearchResult(results, 0, Some(processed), Some(InvalidQueryPrefix + parsed.message)));
      }
      var display := parsed.display;
      if maxResults <= 0 || !engine.searchOk {
        return Answered(SearchResult(results, 0, Some(display), Some(SearchFailed)));
      }
      var ranked := engine.rank(processed, Docs(index));
      var top := ranked[..Min(maxResults, |ranked|)];
      var i := 0;
      assert top[i..] == top;
      assert results + DecodeHits(top, engine.readable).0 == DecodeHits(top, engine.readable).0;
      while i < |top|
        invariant 0 <= i <= |top|
        invariant DecodeHits(top, engine.readable)
               == (results + DecodeHits(top[i..], engine.readable).0, DecodeHits(top[i..], engine.readable).1)
      {
        DecodeHitsStep(top, engine.readable, i);
        if !engine.readable(top[i]) {
          return Answered(SearchResult(results, 0, Some(display), Some(SearchFailed)));
        }
        var hit := Decode(Stored(top[i]));
        if hit.None? {
          return Answered(SearchResult(results, 0, Some(display), Some(SearchFailed)));
        }
        SeqAssoc(results, [hit.value], DecodeHits(top[i + 1..], engine.readable).0);
        results := results + [hit.value];
        i := i + 1;
      }
      assert top[i..] == [];
      r := Answered(SearchResult(results, |ranked|, Some(display), None));
    }

    /**
     * `Dispose`: close the writer if there is one, then the directory. The index keeps its last
     * commit, and a second call changes nothing.
     */
    method Dispose()
      requires Valid()
      modifies this
      ensures Valid()
      ensures !writerOpen && !directoryOpen && index == old(index)
    {
      if writerOpen {
        writerOpen := false;
      }
      directoryOpen := false;
    }

    /**
     * `EnsureIndexExists`: build the sample index (recreating it) when no commit exists. Every
     * exception is caught and logged, so a failed build leaves what the build left: the cleared
     * index when only the final commit failed, the index as found when the writer or the clear
     * failed.
     */
    method EnsureIndexExists(sample: seq<Message>, lockObtained: bool, clearOk: bool,
                             failedAdds: set<nat>, commitOk: bool)
      requires Valid()
      modifies this
      ensures Valid()
      ensures directoryOpen == old(directoryOpen)
      ensures old(writerOpen) ==> writerOpen
      ensures !directoryOpen || old(index).committed ==> index == old(index) && writerOpen == old(writerOpen)
      ensures directoryOpen && !old(index).committed ==>
        (writerOpen <==> old(writerOpen) || lockObtained)
        && index == if writerOpen && clearOk && commitOk then AddedAll(Cleared(old(index)), Indexed(sample, failedAdds))
                    else if writerOpen && clearOk then Cleared(old(index))
                    else old(index)
    {
      if !directoryOpen || index.committed {
        return;
      }
      var built, count := BuildIndex(sample, true, lockObtained, clearOk, failedAdds, commitOk);
    }

    /**
     * The constructor's last two steps: open the writer (a failure aborts the constructor), then
     * make sure an index exists.
     */
    method Start(sample: seq<Message>, lockObtained: bool, clearOk: bool, failedAdds: set<nat>, commitOk: bool)
      returns (r: Outcome)
      requires Valid()
      modifies this
      ensures Valid()
      ensures directoryOpen == old(directoryOpen)
      ensures r == Done <==> old(writerOpen) || (directoryOpen && lockObtained)
      ensures writerOpen <==> r == Done
      ensures r != Done ==> index == old(index)
      ensures r == Done ==>
        index == if old(index).committed then old(index)
                 else if clearOk && commitOk then AddedAll(Cleared(old(index)), Indexed(sample, failedAdds))
                 else if clearOk then Cleared(old(index))
                 else old(index)
    {
      r := InitializeWriter(lockObtained);
      if r.Failed? {
        return;
      }
      EnsureIndexExists(sample, lockObtained, clearOk, failedAdds, commitOk);
    }
  }
}
