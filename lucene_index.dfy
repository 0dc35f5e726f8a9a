/**
 * The committed state of the on-disk Lucene index, as the service changes it.
 *
 * The index is described by what a freshly opened reader sees: its segments in order, each with
 * its live documents and the slots its deleted documents still occupy until a merge, and whether
 * any commit has happened at all. Each writer operation of the service ends with a commit, so
 * each is a function from one committed state to the next. At a commit the buffered documents
 * are flushed as one new segment, buffered deletions are applied to the older segments, and a
 * segment left without live documents is dropped.
 */
module IndexModel {
  import opened Models
  import opened DocumentCodec

  /** One segment: its live documents in order, and how many deleted documents it still holds. */
  datatype Segment = Segment(live: seq<Document>, deleted: nat)

  datatype Index = Index(segments: seq<Segment>, committed: bool)

  /** The live documents of `segs`, segment by segment. */
  function Live(segs: seq<Segment>): (r: seq<Document>)
    ensures segs == [] ==> r == []
  {
    if segs == [] then [] else segs[0].live + Live(segs[1..])
  }

  /** The deleted-document slots of `segs`. */
  function DeletedSlots(segs: seq<Segment>): nat {
    if segs == [] then 0 else segs[0].deleted + DeletedSlots(segs[1..])
  }

  /** The live documents of the index, in index order. */
  function Docs(ix: Index): seq<Document> {
    Live(ix.segments)
  }

  /**
   * Every segment has a live document (a flushed segment holds at least one document, and a
   * commit drops the segments whose documents are all deleted), and an index that was never
   * committed has no segments.
   */
  predicate Valid(ix: Index) {
    (forall i | 0 <= i < |ix.segments| :: ix.segments[i].live != [])
    && (!ix.committed ==> ix.segments == [])
  }

  /** The empty directory the service may start from. */
  const Absent := Index([], false)

  // ---------------------------------------------------------------------------------------
  // Term deletion

  /** The documents that `Term("Id", id)` does not select, in order. */
  function Without(docs: seq<Document>, id: string): (r: seq<Document>)
    ensures |r| <= |docs|
  {
    if docs == [] then []
    else (if IdMatches(docs[0], id) then [] else [docs[0]]) + Without(docs[1..], id)
  }

  /** The documents that `Term("Id", id)` selects, in order. */
  function Matching(docs: seq<Document>, id: string): (r: seq<Document>)
    ensures |r| <= |docs|
  {
    if docs == [] then []
    else (if IdMatches(docs[0], id) then [docs[0]] else []) + Matching(docs[1..], id)
  }

  // ---------------------------------------------------------------------------------------
  // Committed effect of each writer operation

  /** `AddDocument` for each of `ds`, then `Commit`: the batch is flushed as one new segment. */
  function AddedAll(ix: Index, ds: seq<Document>): Index {
    Index(ix.segments + (if ds == [] then [] else [Segment(ds, 0)]), true)
  }

  function Added(ix: Index, d: Document): Index {
    AddedAll(ix, [d])
  }

  /** A deletion by `Term("Id", id)` applied to one segment. */
  function DeleteFrom(s: Segment, id: string): Segment {
    Segment(Without(s.live, id), s.deleted + |Matching(s.live, id)|)
  }

  /** A deletion applied to every segment at commit; a segment left without live documents is dropped. */
  function DeleteIn(segs: seq<Segment>, id: string): seq<Segment> {
    if segs == [] then []
    else
      var s := DeleteFrom(segs[0], id);
      (if s.live == [] then [] else [s]) + DeleteIn(segs[1..], id)
  }

  /** `DeleteDocuments(Term("Id", id))`, then `Commit`. */
  function Deleted(ix: Index, id: string): Index {
    Index(DeleteIn(ix.segments, id), true)
  }

  /** `UpdateDocument(Term("Id", id), d)`, then `Commit`: delete by term, flush `d` as a new segment. */
  function Updated(ix: Index, id: string, d: Document): Index {
    Index(DeleteIn(ix.segments, id) + [Segment([d], 0)], true)
  }

  /** `DeleteAll`, then `Commit`. */
  function Cleared(ix: Index): Index {
    Index([], true)
  }

  /** `ForceMerge(1)`, then `Commit`: the live documents in one segment without deleted slots. */
  function Merged(ix: Index): Index {
    Index(if Docs(ix) == [] then [] else [Segment(Docs(ix), 0)], true)
  }

  /** What a reader reports: live documents, all slots, segment count. */
  function StatsOf(ix: Index): IndexStats {
    if !ix.committed then EmptyStats
    else
      var n := |Docs(ix)|;
      IndexStats(n, n + DeletedSlots(ix.segments), |ix.segments| <= 1, |ix.segments|)
  }

  // ---------------------------------------------------------------------------------------
  // Term deletion: partition and order

  lemma {:induction false} WithoutConcat(a: seq<Document>, b: seq<Document>, id: string)
    ensures Without(a + b, id) == Without(a, id) + Without(b, id)
    ensures Matching(a + b, id) == Matching(a, id) + Matching(b, id)
    decreases |a|
  {
    if a == [] {
      assert a + b == b;
    } else {
      assert (a + b)[1..] == a[1..] + b;
      assert (a + b)[0] == a[0];
      WithoutConcat(a[1..], b, id);
      var w := if IdMatches(a[0], id) then [] else [a[0]];
      var m := if IdMatches(a[0], id) then [a[0]] else [];
      assert w + (Without(a[1..], id) + Without(b, id)) == (w + Without(a[1..], id)) + Without(b, id);
      assert m + (Matching(a[1..], id) + Matching(b, id)) == (m + Matching(a[1..], id)) + Matching(b, id);
    }
  }

  /**
   * Deleting by term splits the documents in two: those it keeps, none of which carries the
   * id, and those it removes, all of which do; together they are the original documents.
   */
  lemma {:induction false} WithoutPartitions(docs: seq<Document>, id: string)
    ensures forall d | d in Without(docs, id) :: !IdMatches(d, id)
    ensures forall d | d in Matching(docs, id) :: IdMatches(d, id)
    ensures multiset(Without(docs, id)) + multiset(Matching(docs, id)) == multiset(docs)
    ensures |Without(docs, id)| + |Matching(docs, id)| == |docs|
    decreases |docs|
  {
    if docs != [] {
      var x, tail := docs[0], docs[1..];
      var w, m := Without(tail, id), Matching(tail, id);
      WithoutPartitions(tail, id);
      assert multiset(docs) == multiset{x} + multiset(tail) by {
        assert docs == [x] + tail;
      }
      if IdMatches(x, id) {
        assert Matching(docs, id) == [x] + m && Without(docs, id) == w;
        assert multiset([x] + m) == multiset{x} + multiset(m);
      } else {
        assert Without(docs, id) == [x] + w && Matching(docs, id) == m;
        assert multiset([x] + w) == multiset{x} + multiset(w);
      }
    }
  }

  /** A document without the id is kept exactly as often as it occurs. */
  lemma WithoutKeepsOthers(docs: seq<Document>, id: string, d: Document)
    requires !IdMatches(d, id)
    ensures multiset(Without(docs, id))[d] == multiset(docs)[d]
    ensures d in Without(docs, id) <==> d in docs
  {
    WithoutPartitions(docs, id);
    assert d !in Matching(docs, id);
  }

  /** When no document carries the id, deleting by it changes nothing. */
  lemma {:induction false} WithoutNoMatch(docs: seq<Document>, id: string)
    requires forall i | 0 <= i < |docs| :: !IdMatches(docs[i], id)
    ensures Without(docs, id) == docs
    ensures Matching(docs, id) == []
    decreases |docs|
  {
    if docs != [] {
      assert !IdMatches(docs[0], id);
      WithoutNoMatch(docs[1..], id);
      assert [docs[0]] + docs[1..] == docs;
    }
  }


  // ---------------------------------------------------------------------------------------
  // Segments

  lemma {:induction false} LiveAppend(a: seq<Segment>, b: seq<Segment>)
    ensures Live(a + b) == Live(a) + Live(b)
    ensures DeletedSlots(a + b) == DeletedSlots(a) + DeletedSlots(b)
    decreases |a|
  {
    if a == [] {
      assert a + b == b;
    } else {
      assert (a + b)[0] == a[0];
      assert (a + b)[1..] == a[1..] + b;
      LiveAppend(a[1..], b);
      SeqAssoc(a[0].live, Live(a[1..]), Live(b));
    }
  }

  lemma LiveOfOne(s: Segment)
    ensures Live([s]) == s.live
    ensures DeletedSlots([s]) == s.deleted
  {
    assert [s][1..] == [];
  }

  /** Segments that each hold a live document hold at least as many documents as there are segments. */
  lemma {:induction false} LiveCoversSegments(segs: seq<Segment>)
    requires forall i | 0 <= i < |segs| :: segs[i].live != []
    ensures |Live(segs)| >= |segs|
    decreases |segs|
  {
    if segs != [] {
      assert segs[0].live != [];
      LiveCoversSegments(segs[1..]);
    }
  }

  /** Deleting segment by segment is deleting from the index's live documents. */
  lemma {:induction false} DeleteInDocs(segs: seq<Segment>, id: string)
    ensures Live(DeleteIn(segs, id)) == Without(Live(segs), id)
    decreases |segs|
  {
    if segs != [] {
      var s := DeleteFrom(segs[0], id);
      var head: seq<Segment> := if s.live == [] then [] else [s];
      DeleteInDocs(segs[1..], id);
      LiveAppend(head, DeleteIn(segs[1..], id));
      WithoutConcat(segs[0].live, Live(segs[1..]), id);
      if s.live != [] {
        LiveOfOne(s);
      }
    }
  }

  /** After a deletion every remaining segment holds a live document. */
  lemma {:induction false} DeleteInKeepsLive(segs: seq<Segment>, id: string)
    ensures forall i | 0 <= i < |DeleteIn(segs, id)| :: DeleteIn(segs, id)[i].live != []
    decreases |segs|
  {
    if segs != [] {
      var s := DeleteFrom(segs[0], id);
      var head: seq<Segment> := if s.live == [] then [] else [s];
      var rest := DeleteIn(segs[1..], id);
      DeleteInKeepsLive(segs[1..], id);
      assert DeleteIn(segs, id) == head + rest;
      forall i | 0 <= i < |head + rest| ensures (head + rest)[i].live != [] {
        if i >= |head| {
          assert (head + rest)[i] == rest[i - |head|];
        }
      }
    }
  }

  /**
   * A deletion never adds segments or more deleted slots than the documents it removes; when no
   * segment loses all its documents, every segment stays and each removed document occupies a
   * deleted slot.
   */
  lemma {:induction false} DeleteInSlots(segs: seq<Segment>, id: string)
    ensures |DeleteIn(segs, id)| <= |segs|
    ensures DeletedSlots(DeleteIn(segs, id)) <= DeletedSlots(segs) + |Matching(Live(segs), id)|
    ensures (forall i | 0 <= i < |segs| :: Without(segs[i].live, id) != []) ==>
      |DeleteIn(segs, id)| == |segs|
      && DeletedSlots(DeleteIn(segs, id)) == DeletedSlots(segs) + |Matching(Live(segs), id)|
    decreases |segs|
  {
    if segs != [] {
      var s := DeleteFrom(segs[0], id);
      var head: seq<Segment> := if s.live == [] then [] else [s];
      var rest := DeleteIn(segs[1..], id);
      DeleteInSlots(segs[1..], id);
      assert DeletedSlots(head + rest) == DeletedSlots(head) + DeletedSlots(rest) by {
        LiveAppend(head, rest);
      }
      assert |Matching(Live(segs), id)| == |Matching(segs[0].live, id)| + |Matching(Live(segs[1..]), id)| by {
        WithoutConcat(segs[0].live, Live(segs[1..]), id);
      }
      if s.live != [] {
        LiveOfOne(s);
      }
      if forall i | 0 <= i < |segs| :: Without(segs[i].live, id) != [] {
        assert forall i | 0 <= i < |segs[1..]| :: Without(segs[1..][i].live, id) != [] by {
          forall i | 0 <= i < |segs[1..]| ensures Without(segs[1..][i].live, id) != [] {
            assert segs[1..][i] == segs[i + 1];
          }
        }
        assert Without(segs[0].live, id) != [];
      }
    }
  }

  /** A deletion that selects no document leaves well-formed segments as they are. */
  lemma {:induction false} DeleteInNoMatch(segs: seq<Segment>, id: string)
    requires forall i | 0 <= i < |segs| :: segs[i].live != []
    requires forall d | d in Live(segs) :: !IdMatches(d, id)
    ensures DeleteIn(segs, id) == segs
    decreases |segs|
  {
    if segs != [] {
      var live := segs[0].live;
      assert Live(segs) == live + Live(segs[1..]);
      forall i | 0 <= i < |live| ensures !IdMatches(live[i], id) {
        assert live[i] in Live(segs);
      }
      WithoutNoMatch(live, id);
      assert DeleteFrom(segs[0], id) == segs[0];
      assert forall i | 0 <= i < |segs[1..]| :: segs[1..][i].live != [] by {
        forall i | 0 <= i < |segs[1..]| ensures segs[1..][i].live != [] {
          assert segs[1..][i] == segs[i + 1];
        }
      }
      DeleteInNoMatch(segs[1..], id);
      assert [segs[0]] + segs[1..] == segs;
    }
  }

  // ---------------------------------------------------------------------------------------
  // Properties of the operations

  /** Adding a batch appends exactly its documents, in one new segment when it is not empty. */
  lemma AddedAllAppends(ix: Index, ds: seq<Document>)
    ensures Docs(AddedAll(ix, ds)) == Docs(ix) + ds
    ensures |AddedAll(ix, ds).segments| == |ix.segments| + (if ds == [] then 0 else 1)
    ensures DeletedSlots(AddedAll(ix, ds).segments) == DeletedSlots(ix.segments)
    ensures AddedAll(ix, ds).committed
  {
    var tail: seq<Segment> := if ds == [] then [] else [Segment(ds, 0)];
    LiveAppend(ix.segments, tail);
    if ds != [] {
      LiveOfOne(Segment(ds, 0));
    }
  }

  /** Adding appends exactly the new document and keeps every existing one in place. */
  lemma AddAppends(ix: Index, d: Document)
    ensures Docs(Added(ix, d)) == Docs(ix) + [d]
    ensures |Added(ix, d).segments| == |ix.segments| + 1
    ensures Added(ix, d).committed
  {
    AddedAllAppends(ix, [d]);
  }

  /**
   * After a delete no live document carries the id and every other document keeps its
   * multiplicity. Each removed document leaves a deleted slot unless its segment lost all its
   * documents, in which case the segment and its slots are gone.
   */
  lemma DeleteRemovesAll(ix: Index, id: string)
    ensures Docs(Deleted(ix, id)) == Without(Docs(ix), id)
    ensures Matching(Docs(Deleted(ix, id)), id) == []
    ensures forall d | d in Docs(Deleted(ix, id)) :: !IdMatches(d, id)
    ensures forall d | !IdMatches(d, id) :: multiset(Docs(Deleted(ix, id)))[d] == multiset(Docs(ix))[d]
    ensures StatsOf(Deleted(ix, id)).numDocs == |Docs(ix)| - |Matching(Docs(ix), id)|
    ensures StatsOf(Deleted(ix, id)).maxDocs <= |Docs(ix)| + DeletedSlots(ix.segments)
    ensures |Deleted(ix, id).segments| <= |ix.segments|
    ensures (forall i | 0 <= i < |ix.segments| :: Without(ix.segments[i].live, id) != []) ==>
      StatsOf(Deleted(ix, id)).maxDocs == |Docs(ix)| + DeletedSlots(ix.segments)
      && |Deleted(ix, id).segments| == |ix.segments|
  {
    var kept := Without(Docs(ix), id);
    DeleteInDocs(ix.segments, id);
    DeleteInSlots(ix.segments, id);
    WithoutPartitions(Docs(ix), id);
    assert forall i | 0 <= i < |kept| :: !IdMatches(kept[i], id) by {
      forall i | 0 <= i < |kept| ensures !IdMatches(kept[i], id) {
        assert kept[i] in kept;
      }
    }
    WithoutNoMatch(kept, id);
    forall d | !IdMatches(d, id)
      ensures multiset(kept)[d] == multiset(Docs(ix))[d]
    {
      WithoutKeepsOthers(Docs(ix), id, d);
    }
  }

  /** On a well-formed index, deleting an id no document carries changes nothing a reader sees. */
  lemma DeleteMissingKeepsStats(ix: Index, id: string)
    requires Valid(ix) && ix.committed
    requires forall d | d in Docs(ix) :: !IdMatches(d, id)
    ensures Deleted(ix, id) == ix
    ensures StatsOf(Deleted(ix, id)) == StatsOf(ix)
  {
    DeleteInNoMatch(ix.segments, id);
  }

  /**
   * Upsert: updating with a document that carries the id leaves exactly one document with
   * that id, the new one in last place, whether or not one existed before, and keeps every
   * other document.
   */
  lemma UpdateLeavesOne(ix: Index, id: string, d: Document)
    requires IdMatches(d, id)
    ensures Docs(Updated(ix, id, d)) == Without(Docs(ix), id) + [d]
    ensures Matching(Docs(Updated(ix, id, d)), id) == [d]
    ensures forall e | !IdMatches(e, id) :: multiset(Docs(Updated(ix, id, d)))[e] == multiset(Docs(ix))[e]
  {
    var kept := Without(Docs(ix), id);
    var docs' := kept + [d];
    assert Docs(Updated(ix, id, d)) == docs' by {
      LiveAppend(DeleteIn(ix.segments, id), [Segment([d], 0)]);
      LiveOfOne(Segment([d], 0));
      DeleteInDocs(ix.segments, id);
    }
    assert Matching(docs', id) == [d] by {
      DeleteRemovesAll(ix, id);
      WithoutConcat(kept, [d], id);
      assert [d][1..] == [];
    }
    forall e | !IdMatches(e, id)
      ensures multiset(docs')[e] == multiset(Docs(ix))[e]
    {
      WithoutKeepsOthers(Docs(ix), id, e);
      assert multiset(docs') == multiset(kept) + multiset{d};
    }
  }

  /** On a well-formed index, updating an id no document carries is adding the document. */
  lemma UpdateOfMissingIsAdd(ix: Index, id: string, d: Document)
    requires Valid(ix)
    requires forall e | e in Docs(ix) :: !IdMatches(e, id)
    ensures Updated(ix, id, d) == Added(ix, d)
  {
    DeleteInNoMatch(ix.segments, id);
  }

  /** Clearing empties the index but leaves it existing. */
  lemma ClearEmpties(ix: Index)
    ensures Docs(Cleared(ix)) == []
    ensures StatsOf(Cleared(ix)) == IndexStats(0, 0, true, 0)
  {
  }

  /** Merging keeps the documents, drops every deleted slot and leaves the index optimized. */
  lemma MergeOptimizes(ix: Index)
    ensures Docs(Merged(ix)) == Docs(ix)
    ensures StatsOf(Merged(ix)).numDocs == StatsOf(Merged(ix)).maxDocs == |Docs(ix)|
    ensures StatsOf(Merged(ix)).isOptimized
  {
    if Docs(ix) != [] {
      LiveOfOne(Segment(Docs(ix), 0));
    }
  }

  /** Every committed operation keeps the index well formed. */
  lemma OperationsPreserveValid(ix: Index, ds: seq<Document>, id: string, d: Document)
    requires Valid(ix)
    ensures Valid(AddedAll(ix, ds)) && Valid(Added(ix, d))
    ensures Valid(Deleted(ix, id)) && Valid(Updated(ix, id, d))
    ensures Valid(Cleared(ix)) && Valid(Merged(ix))
  {
    DeleteInKeepsLive(ix.segments, id);
    var kept := DeleteIn(ix.segments, id);
    assert forall i | 0 <= i < |kept + [Segment([d], 0)]| :: (kept + [Segment([d], 0)])[i].live != [] by {
      forall i | 0 <= i < |kept + [Segment([d], 0)]| ensures (kept + [Segment([d], 0)])[i].live != [] {
        if i < |kept| {
          assert (kept + [Segment([d], 0)])[i] == kept[i];
        }
      }
    }
  }

  /**
   * The statistics of a well-formed index: a never-committed index reports zeros, and otherwise
   * `MaxDocs >= NumDocs >= NumSegments >= 0`, there are documents exactly when there are
   * segments, and the index counts as optimized exactly when it has at most one segment.
   */
  lemma StatsInvariant(ix: Index)
    requires Valid(ix)
    ensures !ix.committed ==> StatsOf(ix) == EmptyStats
    ensures StatsOf(ix).maxDocs >= StatsOf(ix).numDocs >= StatsOf(ix).numSegments >= 0
    ensures ix.committed ==> StatsOf(ix).isOptimized == (StatsOf(ix).numSegments <= 1)
    ensures StatsOf(ix).numDocs == 0 <==> StatsOf(ix).numSegments == 0
  {
    LiveCoversSegments(ix.segments);
  }

  // ---------------------------------------------------------------------------------------
  // Segment bookkeeping on small histories

  /** Adding a message and deleting it again leaves an existing index with nothing in it. */
  lemma DeleteAfterAddEmpties(ix: Index, d: Document, id: string)
    requires IdMatches(d, id)
    ensures Deleted(Added(Cleared(ix), d), id) == Index([], true)
    ensures StatsOf(Deleted(Added(Cleared(ix), d), id)) == IndexStats(0, 0, true, 0)
  {
    var segs := [Segment([d], 0)];
    assert Added(Cleared(ix), d).segments == segs;
    assert [d][1..] == [];
    assert Without([d], id) == [] && Matching([d], id) == [d];
    assert DeleteFrom(segs[0], id) == Segment([], 1);
    assert segs[1..] == [];
    assert DeleteIn(segs, id) == [] + DeleteIn(segs[1..], id);
  }

  /** Updating the only document of a segment drops that segment: one document, one segment. */
  lemma UpdateAfterAddDropsSegment(ix: Index, d: Document, e: Document, id: string)
    requires IdMatches(d, id)
    ensures Updated(Added(Cleared(ix), d), id, e) == Index([Segment([e], 0)], true)
    ensures StatsOf(Updated(Added(Cleared(ix), d), id, e)) == IndexStats(1, 1, true, 1)
  {
    DeleteAfterAddEmpties(ix, d, id);
    LiveOfOne(Segment([e], 0));
  }

  /** Deleting one of two documents in a segment keeps the segment and leaves a deleted slot. */
  lemma DeleteOneOfTwoLeavesSlot(ix: Index, d: Document, e: Document, id: string)
    requires IdMatches(d, id) && !IdMatches(e, id)
    ensures Deleted(AddedAll(Cleared(ix), [d, e]), id) == Index([Segment([e], 1)], true)
    ensures StatsOf(Deleted(AddedAll(Cleared(ix), [d, e]), id)) == IndexStats(1, 2, true, 1)
  {
    var segs := [Segment([d, e], 0)];
    assert AddedAll(Cleared(ix), [d, e]).segments == segs;
    assert [d, e][1..] == [e] && [e][1..] == [];
    assert Without([d, e], id) == [e];
    assert Matching([d, e], id) == [d];
    assert DeleteFrom(segs[0], id) == Segment([e], 1);
    assert segs[1..] == [];
    assert DeleteIn(segs, id) == [Segment([e], 1)] + DeleteIn(segs[1..], id);
    LiveOfOne(Segment([e], 1));
  }
}
