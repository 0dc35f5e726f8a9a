# Full-text message search over Lucene.NET — a Dafny model

The system is a small ASP.NET service that keeps e-mail-like messages (id, sender, recipients,
subject, body, timestamp) in a Lucene.NET index and searches them. Its core is
`SearchService`, and `SearchController` puts it on the web:

- `SearchService` owns the one `IndexWriter`. It opens the writer on demand and builds a
  sample index on start-up when none exists. Its operations add, bulk-build, update (upsert by
  id), delete and optimise; each one commits. It also reports index statistics, runs searches
  and disposes the writer and the directory.
- A search rewrites the field names in the user's query to their canonical case
  (`sender:` → `Sender:`). It parses the query over five fields, ranks the matches and decodes
  the stored fields of the top hits back into messages.
- `SearchController` clamps the `limit` parameter to 1..100, turns a search into an HTTP
  response and rebuilds the index on request.

The model has these modules:

- `QueryNormalizer` (query_normalizer.dfy) is the field-name rewrite. It is an explicit
  left-to-right scan that does what the source's regular expression does. It comes with
  lemmas for:
  - rewriting a known field token;
  - leaving every other token alone;
  - text that no rewrite can touch.
- `DocumentCodec` (document_codec.dfy) maps a message to its Lucene document, and maps a
  search hit's stored fields back to a message. It comes with:
  - the round trip;
  - the defaults used when a field is missing;
  - the case where a tick count is out of range.
- `IndexModel` (lucene_index.dfy) is the committed state of the index: a sequence of
  segments, each with its live documents and its deleted slots, and whether a commit exists.
  A commit flushes the buffered documents as one new segment; deletions are applied at the
  commit, and a segment left without live documents is dropped. It defines the effect of each
  writer operation as a function, and proves:
  - delete and update by `Id` term (a partition and an upsert);
  - the statistics invariant `MaxDocs >= NumDocs >= NumSegments`.
- `Services` (search_service.dfy) is the `SearchService` class:
  - its fields are the writer, the directory handle and the committed index;
  - each writer operation is a method whose contract gives the new state and the error cases;
  - `Search` is a method with a decoding loop, proved against the specification function
    `SearchSpec`, and lemmas state what that function guarantees.
- `Controllers` (search_controller.dfy) holds `SearchMessages` and `RebuildIndex`.

Faults of the file system and of Lucene are inputs of the model:
- for the writer operations, boolean parameters: whether the lock is obtained, whether a write
  or commit succeeds, and the set of messages whose add fails;
- for the search path, a `QueryEngine` value: whether a reader opens, the parser's verdict,
  whether the search itself runs, the ranking, and which documents' stored fields can be
  loaded.

Behaviour that follows from the code as written:
- when decoding a hit throws (a tick count past `DateTime.MaxValue`), the catch at
  backend/Services/SearchService.cs:243 returns the hits decoded so far, not zero hits. The
  result still has a zero total and the generic error message;
- a missing `Body` decodes as the placeholder, while missing `Id`, `Sender` and `Subject`
  decode as null (`None`). The placeholder applies only to `Body`;
- the reader is opened before the query is parsed (line 225 comes before line 229). A reader
  that fails to open therefore reports an empty `LuceneQuery` together with the generic error.

## Model

| member | source | states |
|---|---|---|
| QueryNormalizer.CanonicalFieldKeepsSpelling | backend/Services/SearchService.cs:33-37 | a name the case-insensitive lookup finds has a canonical form that differs from it only in letter case, is itself a valid identifier and looks up to itself, so rewriting a rewritten field name changes nothing |
| QueryNormalizer.NormalizeRewritesFieldToken | backend/Services/SearchService.cs:249-254 | a field token (identifier, optional whitespace, colon) at the start of the query or after whitespace becomes `Canonical:` when its identifier is a known field (ignoring case), with the gap dropped. An unknown identifier leaves the token as written. Text before the token is normalised independently; text after it is scanned as not following whitespace |
| QueryNormalizer.NormalizeWithoutTableHit | backend/Services/SearchService.cs:249-257 | a query in which no match position holds a known field name comes back unchanged |
| QueryNormalizer.NormalizeWithoutColon | backend/Services/SearchService.cs:249-257 | a query without a colon comes back unchanged |
| QueryNormalizer.ScanWithoutBoundary | backend/Services/SearchService.cs:249 | text with no whitespace that does not start the query is never rewritten; the pattern only matches after `^` or `\s` |
| QueryNormalizer.ScanSplitAfterSpace | backend/Services/SearchService.cs:249-250 | when a prefix ends in whitespace and the text after it starts with neither whitespace nor a colon, the rewrite of the whole is the rewrite of the prefix followed by the rewrite of the rest, and the rest starts at a match position |
| QueryNormalizer.NormalizeExampleTwoFields | backend/Services/SearchService.cs:247-258 | `sender:alice AND subject:kickoff` becomes `Sender:alice AND Subject:kickoff` |
| QueryNormalizer.NormalizeExampleUnknownField | backend/Services/SearchService.cs:253-254 | an identifier outside the table (`unknownfield:x`) is kept as written |
| QueryNormalizer.NormalizeExampleGluedField | backend/Services/SearchService.cs:249 | `x:sender:y` is unchanged: `sender` is not at a match position |
| QueryNormalizer.NormalizeExampleLongerIdentifier | backend/Services/SearchService.cs:249 | `sender1:x` is unchanged: the identifier is the whole run `sender1`, not its prefix `sender` |
| QueryNormalizer.NormalizeExampleGapAndCase | backend/Services/SearchService.cs:249-253 | `SUBJECT  :hi` becomes `Subject:hi`: case is ignored and the whitespace before the colon is dropped |
| DocumentCodec.EncodeEmitsFields | backend/Services/SearchService.cs:115-127 | the encoding holds exactly one `Id`, `Sender`, `Subject` and `Body` value, the ticks twice and the recipients in list order, under those field names |
| DocumentCodec.StoredEncoding | backend/Services/SearchService.cs:117-125 | a hit sees every field of the encoding except the unstored doc-values copy of the ticks, in the order added |
| DocumentCodec.StoredEmitsFields | backend/Services/SearchService.cs:115-127 | the stored fields of an encoding hold each message field once, the ticks once and the recipients in order |
| DocumentCodec.DecodeEncode | backend/Services/SearchService.cs:235-240 | round trip: decoding the stored fields of an encoded message gives back its id, sender, recipients (in order), subject, body and timestamp |
| DocumentCodec.EncodeIdMatches | backend/Services/SearchService.cs:118 | a `Term("Id", id)` selects an encoded message exactly when `id` equals its id (both directions) |
| DocumentCodec.DecodeWithoutRecipients | backend/Services/SearchService.cs:236 | a hit without `Recipient` fields decodes to an empty recipient list |
| DocumentCodec.DecodeWithoutTimestamp | backend/Services/SearchService.cs:237-238 | a hit with no `TimestampTicks`, or whose first one is 0 or negative, decodes successfully with `DateTime.MinValue` |
| DocumentCodec.DecodeKeepsTimestamp | backend/Services/SearchService.cs:237-238 | a positive in-range tick count is the decoded timestamp |
| DocumentCodec.DecodeRejectsTimestamp | backend/Services/SearchService.cs:238 | a tick count beyond `DateTime.MaxValue.Ticks` makes decoding fail |
| DocumentCodec.DecodeWithoutBody | backend/Services/SearchService.cs:239 | a hit without a `Body` field decodes with the placeholder `[Body not stored]` |
| DocumentCodec.DecodeNumericBody | backend/Services/SearchService.cs:239 | a `Body` stored as a number decodes as the number's decimal text, never as the placeholder |
| IndexModel.WithoutPartitions | backend/Services/SearchService.cs:187-188 | deleting by `Id` term splits the documents into those kept (none with the id) and those removed (all with the id), which together are the original multiset |
| IndexModel.WithoutKeepsOthers | backend/Services/SearchService.cs:187-188 | a document without the id survives a delete as often as it occurred |
| IndexModel.DeleteInDocs | backend/Services/SearchService.cs:187-188 | deleting by id segment by segment leaves exactly the old live documents without those with the id, in order |
| IndexModel.DeleteInKeepsLive | backend/Services/SearchService.cs:187-188 | after a delete no segment without live documents remains |
| IndexModel.DeleteInSlots | backend/Services/SearchService.cs:187-188 | a delete never adds segments and adds at most one deleted slot per removed document; when no segment empties it keeps every segment and adds exactly one slot per removed document |
| IndexModel.AddedAllAppends | backend/Services/SearchService.cs:148-153 | a batch of adds with one commit appends the batch after the old documents as one new segment (none for an empty batch), keeps the deleted slots and leaves the index existing |
| IndexModel.DeleteRemovesAll | backend/Services/SearchService.cs:187-188 | after a delete the live documents are the old ones without those with the id, in order: none has the id and every other document keeps its multiplicity. `NumDocs` drops by the number removed; `MaxDocs` and the segment count never grow, because a segment left empty is dropped. When no segment empties, each removed document becomes a deleted slot and the segments stay |
| IndexModel.DeleteMissingKeepsStats | backend/Services/SearchService.cs:187-188 | on a well-formed, committed index, deleting an id that no document has leaves the index and its statistics unchanged |
| IndexModel.UpdateLeavesOne | backend/Services/SearchService.cs:165-171 | upsert: after an update the live documents are the old ones without those with the id, followed by the new one; exactly one document has the id, whether or not one existed before, and other documents keep their multiplicity |
| IndexModel.UpdateOfMissingIsAdd | backend/Services/SearchService.cs:165-171 | on a well-formed index, updating an id that no document has is the same as adding the document |
| IndexModel.AddAppends | backend/Services/SearchService.cs:135 | adding appends exactly the new document after the others, opens one new segment and leaves the index existing |
| IndexModel.ClearEmpties | backend/Services/SearchService.cs:146 | `DeleteAll` with a commit leaves an existing index with no documents, no deleted slots and no segments |
| IndexModel.MergeOptimizes | backend/Services/SearchService.cs:199 | a forced merge keeps the documents, drops every deleted slot (`MaxDocs == NumDocs`) and leaves the index optimised |
| IndexModel.OperationsPreserveValid | backend/Services/SearchService.cs:129-202 | add, bulk add, delete, update, clear and merge each keep the index well formed: every segment holds a live document, and there are no segments without a commit |
| IndexModel.StatsInvariant | backend/Models/IndexStats.cs:15 | on a well-formed index: zeros before the first commit, `MaxDocs >= NumDocs >= NumSegments >= 0`, optimised exactly when there is at most one segment, and documents exactly when there are segments |
| IndexModel.DeleteAfterAddEmpties | backend/Services/SearchService.cs:187-188 | adding a document to a cleared index and deleting its id leaves an existing index with no segments: statistics (0, 0, optimised, 0) |
| IndexModel.UpdateAfterAddDropsSegment | backend/Services/SearchService.cs:165-171 | adding a document to a cleared index and updating its id drops the emptied first segment: statistics (1, 1, optimised, 1) |
| IndexModel.DeleteOneOfTwoLeavesSlot | backend/Services/SearchService.cs:187-188 | deleting one of two documents added in one batch keeps their segment with one deleted slot: statistics (1, 2, optimised, 1) |
| Services.DecodeHitsMeaning | backend/Services/SearchService.cs:233-241 | the hits are the decodings of the leading ranked documents in order, each of which could be loaded. The flag is set exactly when every document loads and decodes; otherwise the document right after the hits is the one that failed |
| Services.BlankQueryRefused | backend/Services/SearchService.cs:220 | a blank query gets `Query required.` with no hits, whatever the index state; through the endpoint validation answers first |
| Services.MissingIndexRefused | backend/Services/SearchService.cs:221 | with no committed index, a non-blank query gets `Index not ready.` with no hits |
| Services.SearchThrowsOnlyWhenClosed | backend/Services/SearchService.cs:220-243 | a search lets an exception escape exactly when the query is not blank and the directory has been disposed; otherwise it always answers |
| Services.InvalidQueryReported | backend/Services/SearchService.cs:229-230 | a parse error is reported with the normalised query and `Invalid Query: ` followed by the parser's message, and no hits |
| Services.ErrorsCarryNoTotal | backend/Services/SearchService.cs:219-243 | every answer with an error message has a zero total; only the generic search error can carry (partially decoded) hits |
| Services.SuccessfulSearch | backend/Services/SearchService.cs:231-244 | a successful search returns `min(maxResults, matches)` hits, loaded and decoded from the best-ranked documents in rank order, with the total number of matches |
| Services.HitsComeFromIndex | backend/Services/SearchService.cs:231-240 | when ranking lists only documents of the index, every hit of a successful search is the decoding of a live document of the index |
| Services.EngineFaultReported | backend/Services/SearchService.cs:231-243 | a search that throws after the parse reports the parsed query and the generic error, with no hits and a zero total |
| Services.IndexedWithoutFailures | backend/Services/SearchService.cs:148-152 | when no add fails, the build adds every message's encoding in order |
| Services.IndexedCount | backend/Services/SearchService.cs:148-153 | each failing add skips exactly its own message, so the count is the number of messages minus the failures |
| Services.SearchService.constructor | backend/Services/SearchService.cs:52-60 | the service starts with the directory open, no writer and the stored index as found |
| Services.SearchService.InitializeWriter | backend/Services/SearchService.cs:71-95 | an open writer is kept. Otherwise opening fails on a disposed directory or a held lock, with that error. The committed index is never touched |
| Services.SearchService.AddMessageToIndex | backend/Services/SearchService.cs:129-138 | succeeds exactly when a writer is available and the write succeeds, and then the index gains the encoding. On any failure the committed index is unchanged; "Writer not init." never occurs |
| Services.SearchService.BuildIndex | backend/Services/SearchService.cs:140-155 | on success the index is the old one (cleared when recreating) plus the encodings of the messages whose add did not fail, and `count` is their number. A failed commit after a clear leaves the cleared index |
| Services.SearchService.UpdateMessageInIndex | backend/Services/SearchService.cs:157-179 | on success the documents with the id are replaced by the new encoding; otherwise the index is unchanged |
| Services.SearchService.DeleteMessageFromIndex | backend/Services/SearchService.cs:181-191 | on success every document with the id is removed; otherwise the index is unchanged |
| Services.SearchService.OptimizeIndex | backend/Services/SearchService.cs:193-202 | on success the index is merged into one segment with no deleted slots; otherwise it is unchanged |
| Services.SearchService.GetIndexStats | backend/Services/SearchService.cs:204-215 | the -1 sentinel when the directory is disposed or no reader opens, zeros before the first commit; otherwise statistics with `MaxDocs >= NumDocs >= 0` and optimised exactly when there is at most one segment |
| Services.SearchService.Search | backend/Services/SearchService.cs:217-245 | the answer is exactly `SearchSpec`: the guards in source order, a search that throws, then the decoding loop that stops at the first document that fails to load or decode |
| Services.SearchService.Dispose | backend/Services/SearchService.cs:260-280 | the writer and the directory are closed and the committed index is kept; a second call leaves the same state |
| Services.SearchService.EnsureIndexExists | backend/Services/SearchService.cs:97-113 | with a disposed directory or an existing index nothing changes. Otherwise the sample build runs: the writer is open afterwards exactly when it was or the lock is obtained; the index then holds the sample minus the messages whose add failed when the clear and the commit succeed, is cleared when only the commit fails, and is unchanged otherwise. Failures never escape |
| Services.SearchService.Start | backend/Services/SearchService.cs:67-68 | start-up succeeds exactly when a writer can be opened, and then the writer is open; a failure leaves the index as found. On success an existing index is kept, and a missing one becomes the sample minus the messages whose add failed, or the cleared index when only the commit fails |
| Controllers.ClampLimit | backend/Controllers/SearchController.cs:25-26 | the limit always lies in 1..100: kept when already there, 10 when not positive, 100 when above 100 |
| Controllers.ClampIdempotent | backend/Controllers/SearchController.cs:25-26 | clamping an already clamped limit changes nothing |
| Controllers.ErrorResultIsOk | backend/Controllers/SearchController.cs:32-44 | a search result that carries an error message still goes out unchanged with status 200 |
| Controllers.InternalErrorShape | backend/Controllers/SearchController.cs:44-50 | status 500 occurs exactly when the search threw, with no hits and a zero total; an answer is 200 or 500 |
| Controllers.ResponseHitsCapped | backend/Controllers/SearchController.cs:23-32 | a successful response through the endpoint never holds more than 100 hits |
| Controllers.BlankQueryIsBadRequest | backend/Controllers/SearchController.cs:9-23 | the endpoint answers 400 exactly for a blank `q`, so a JSON answer never carries `Query required.` |
| Controllers.SearchMessages | backend/Controllers/SearchController.cs:9-51 | a blank `q` is refused by model validation with 400; otherwise the response is the search specification applied to the clamped limit and mapped to a status |
| Controllers.RebuildIndex | backend/Controllers/SearchController.cs:56-72 | 200 with the success text exactly when the writer is available and the clear and the final commit succeed, and then the index is the sample minus the messages whose add failed; otherwise 500 with the failure text, and the index is cleared when the writer and the clear succeeded, unchanged otherwise. The writer is open afterwards exactly when it was or could be opened |

## Left out

- Whitespace is the six ASCII characters: `\s` in the query pattern and `string.IsNullOrWhiteSpace` also accept Unicode spaces, which the model does not.
- The pattern's case-insensitive letter classes also admit a few non-ASCII letters (the Kelvin sign). Identifiers are ASCII here; such an identifier is never a key of the field-name table.
- The `DateTimeKind` of a decoded timestamp, the `Score` of each hit and its floating-point value are not modelled.
- Query parsing (the `MultiFieldQueryParser` grammar over the five fields, analysis with `StandardAnalyzer`) and ranking are an oracle, `QueryEngine`. The model states what `Search` does with their answers, not how matches are found.
- Natural merges chosen by the merge policy are not modelled. A commit that flushes documents opens one new segment; a segment loses its place only when a delete or an update empties it, or through `ForceMerge(1)` and `DeleteAll`.
- IndexModel.Merged: the merged segment keeps the documents in segment order; `TieredMergePolicy` may order the merged segments by size, so the model does not promise the order Lucene produces.
- Buffered but uncommitted writer changes after a failed write are not modelled: a failure leaves the last committed index. A later commit of that buffer is outside the model.
- The `_indexWriterLock` monitor, concurrent readers and the double-checked writer initialisation are left out. Each operation is one atomic step.
- Creating the index directory, the stale-lock check and `Unlock` (backend/Services/SearchService.cs:46-60 and :80) are file-system work. The constructor starts with an open directory and no lock held.
- The finalizer `~SearchService` and `Dispose(false)` do nothing observable; `_analyzer.Dispose` is not modelled.
- `GetSampleData` is a parameter (`sample`): its content depends on the clock (`DateTime.UtcNow`).
- A null `q` is refused by validation like an empty one, so the model only has strings. Null recipient lists are not modelled: lists always exist.
- DocumentCodec.Text: a stored number read as a string is its decimal text with a leading `-` when negative. `GetStringValue` formats it with the current culture, which the model does not capture.
- A read fault is a property of the document (`QueryEngine.readable`), not of its position among the hits; the same stored document fails to load wherever it is ranked.
- The validation of `q` uses the same six ASCII whitespace characters as `IsBlank`.
- Logging is left out everywhere.
- Tick counts are unbounded integers: a stored `Int64` value is taken as it is, with no 64-bit wrap-around. No value the encoder writes can exceed `DateTime.MaxValue.Ticks`.
- The other controllers (`MessagesController`, `AdminController`), the DTOs and the front end are not part of this model.
