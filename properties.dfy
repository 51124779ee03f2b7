/** What the document passes promise, proved about the synthesis functions. */
module SynthesisProperties {
  import opened Wrappers
  import opened Text
  import opened Sorting
  import opened Grouping
  import opened Records
  import opened Documents
  import opened Synthesis

  /** Total number of author entries over all books. */
  function TotalAuthors(records: seq<Record>): nat {
    if records == [] then 0 else |records[0].authors| + TotalAuthors(records[1..])
  }

  /** Number of rows `explode` produces: one per author, one for an empty list. */
  function ExplodedRows(records: seq<Record>): nat {
    if records == [] then 0
    else (if records[0].authors == [] then 1 else |records[0].authors|) + ExplodedRows(records[1..])
  }

  /** Number of books with a publication year. */
  function DatedCount(records: seq<Record>): nat {
    if records == [] then 0
    else (if records[0].year.Some? then 1 else 0) + DatedCount(records[1..])
  }

  lemma {:induction false} PresentCountAppend<K>(a: seq<Option<K>>, b: seq<Option<K>>)
    ensures PresentCount(a + b) == PresentCount(a) + PresentCount(b)
  {
    if a == [] {
      assert a + b == b;
    } else {
      assert (a + b)[1..] == a[1..] + b;
      PresentCountAppend(a[1..], b);
    }
  }

  lemma {:induction false} PresentCountAllSome<K>(keys: seq<Option<K>>)
    requires forall i :: 0 <= i < |keys| ==> keys[i].Some?
    ensures PresentCount(keys) == |keys|
  {
    if keys != [] { PresentCountAllSome(keys[1..]); }
  }

  /** The author column of one book's exploded rows. */
  function RecordAuthorKeys(r: Record): seq<Option<string>> {
    AuthorColumn(StripAuthors(ExplodeRecord(r)))
  }

  /** Exploding one book: every row keeps the whole book; a book with N >= 1
      authors gives N rows holding its trimmed author names in order; a book
      with no author gives one row whose author is missing. */
  lemma ExplodeRecordRows(r: Record)
    ensures |ExplodeRecord(r)| == (if r.authors == [] then 1 else |r.authors|)
    ensures forall i :: 0 <= i < |ExplodeRecord(r)| ==> ExplodeRecord(r)[i].book == r
    ensures r.authors == [] ==> RecordAuthorKeys(r) == [None]
    ensures r.authors != [] ==>
      && |RecordAuthorKeys(r)| == |r.authors|
      && forall i :: 0 <= i < |r.authors| ==> RecordAuthorKeys(r)[i] == Some(Trim(r.authors[i]))
    ensures PresentCount(RecordAuthorKeys(r)) == |r.authors|
  {
    var keys := RecordAuthorKeys(r);
    if r.authors == [] {
      assert keys == [None];
      assert PresentCount(keys) == 0 + PresentCount(keys[1..]);
    } else {
      PresentCountAllSome(keys);
    }
  }

  lemma AuthorColumnAppend(a: seq<AuthorRow>, b: seq<AuthorRow>)
    ensures AuthorColumn(StripAuthors(a + b)) == AuthorColumn(StripAuthors(a)) + AuthorColumn(StripAuthors(b))
  {
    var whole := AuthorColumn(StripAuthors(a + b));
    var left, right := AuthorColumn(StripAuthors(a)), AuthorColumn(StripAuthors(b));
    assert |whole| == |left| + |right|;
    forall i | 0 <= i < |whole| ensures whole[i] == (left + right)[i] {
      if i < |a| {
        assert (a + b)[i] == a[i];
      } else {
        assert (a + b)[i] == b[i - |a|];
      }
    }
  }

  lemma AuthorKeysCons(records: seq<Record>)
    requires records != []
    ensures AuthorKeys(records) == RecordAuthorKeys(records[0]) + AuthorKeys(records[1..])
  {
    AuthorColumnAppend(ExplodeRecord(records[0]), Explode(records[1..]));
  }

  /** `explode` gives one row per author of each book (one row for a book without
      authors), and exactly the author entries carry a non-missing author. */
  lemma {:induction false} ExplodeCounts(records: seq<Record>)
    ensures |Explode(records)| == ExplodedRows(records)
    ensures PresentCount(AuthorKeys(records)) == TotalAuthors(records)
  {
    if records != [] {
      ExplodeCounts(records[1..]);
      ExplodeRecordRows(records[0]);
      AuthorKeysCons(records);
      PresentCountAppend(RecordAuthorKeys(records[0]), AuthorKeys(records[1..]));
    }
  }

  /** `k` is the trimmed form of one of the author entries of `r`. */
  ghost predicate IsAuthorOf(r: Record, k: string) {
    exists j :: 0 <= j < |r.authors| && k == Trim(r.authors[j])
  }

  /** `k` is the trimmed form of some author entry of some book. */
  ghost predicate IsAuthorEntry(records: seq<Record>, k: string) {
    exists i, j :: 0 <= i < |records| && 0 <= j < |records[i].authors| && k == Trim(records[i].authors[j])
  }

  lemma AuthorEntryCons(records: seq<Record>, k: string)
    requires records != []
    ensures IsAuthorEntry(records, k) <==> IsAuthorOf(records[0], k) || IsAuthorEntry(records[1..], k)
  {
    if IsAuthorEntry(records, k) {
      var i, j :| 0 <= i < |records| && 0 <= j < |records[i].authors| && k == Trim(records[i].authors[j]);
      if i > 0 {
        assert records[i] == records[1..][i - 1];
      }
    }
    if IsAuthorEntry(records[1..], k) {
      var i, j :| 0 <= i < |records[1..]| && 0 <= j < |records[1..][i].authors| && k == Trim(records[1..][i].authors[j]);
      assert records[1..][i] == records[i + 1];
    }
    if IsAuthorOf(records[0], k) {
      var j :| 0 <= j < |records[0].authors| && k == Trim(records[0].authors[j]);
      assert 0 < |records|;
    }
  }

  lemma RecordAuthorMembers(r: Record, k: string)
    ensures Some(k) in RecordAuthorKeys(r) <==> IsAuthorOf(r, k)
  {
    ExplodeRecordRows(r);
    var head := RecordAuthorKeys(r);
    if Some(k) in head {
      var j :| 0 <= j < |head| && head[j] == Some(k);
    }
    if IsAuthorOf(r, k) {
      var j :| 0 <= j < |r.authors| && k == Trim(r.authors[j]);
      assert head[j] == Some(k);
    }
  }

  /** A name is an author key exactly when it is the trimmed form of some author
      entry of some book. */
  lemma {:induction false} AuthorKeyMembers(records: seq<Record>, k: string)
    ensures Some(k) in AuthorKeys(records) <==> IsAuthorEntry(records, k)
  {
    if records != [] {
      AuthorKeyMembers(records[1..], k);
      AuthorKeysCons(records);
      RecordAuthorMembers(records[0], k);
      AuthorEntryCons(records, k);
      var head := RecordAuthorKeys(records[0]);
      var tail := AuthorKeys(records[1..]);
      assert Some(k) in head + tail <==> Some(k) in head || Some(k) in tail;
    }
  }

  /** The author aggregates: one per distinct trimmed author name, named by that
      name, counting its exploded rows, with counts adding up to the number of
      author entries over all books. */
  lemma AuthorAggregates(records: seq<Record>)
    ensures var gs := AuthorGroups(records);
      && Distinct(KeysOf(gs))
      && (forall k :: k in KeysOf(gs) <==>
            exists i, j :: 0 <= i < |records| && 0 <= j < |records[i].authors| && k == Trim(records[i].authors[j]))
      && Total(gs) == TotalAuthors(records)
  {
    var gs := AuthorGroups(records);
    var keys := AuthorKeys(records);
    GroupTableTotal(keys, gs);
    ExplodeCounts(records);
    forall k ensures k in KeysOf(gs) <==>
      exists i, j :: 0 <= i < |records| && 0 <= j < |records[i].authors| && k == Trim(records[i].authors[j])
    {
      AuthorKeyMembers(records, k);
      if Some(k) in keys {
        var n :| 0 <= n < |keys| && keys[n] == Some(k);
        assert keys[n].value in KeysOf(gs);
      }
    }
  }

  lemma {:induction false} DecadeKeysPresent(records: seq<Record>)
    ensures PresentCount(DecadeKeys(records)) == DatedCount(records)
  {
    if records != [] {
      assert DecadeKeys(records)[1..] == DecadeKeys(records[1..]);
      DecadeKeysPresent(records[1..]);
    }
  }

  /** The decade aggregates: one per distinct decade of a dated book, and their
      counts add up to the number of books with a year; undated books are in none. */
  lemma DecadeAggregates(records: seq<Record>)
    ensures var gs := DecadeGroups(records);
      && (forall d :: d in KeysOf(gs) <==> exists i :: 0 <= i < |records| && records[i].Decade() == Some(d))
      && Total(gs) == DatedCount(records)
  {
    var gs := DecadeGroups(records);
    GroupTableTotal(DecadeKeys(records), gs);
    DecadeKeysPresent(records);
    forall d ensures d in KeysOf(gs) <==> exists i :: 0 <= i < |records| && records[i].Decade() == Some(d) {
      DecadeKeyMember(records, d);
    }
  }

  lemma DecadeKeyMember(records: seq<Record>, d: int)
    ensures d in KeysOf(DecadeGroups(records)) <==> exists i :: 0 <= i < |records| && records[i].Decade() == Some(d)
  {
    var keys := DecadeKeys(records);
    if exists i :: 0 <= i < |records| && records[i].Decade() == Some(d) {
      var i :| 0 <= i < |records| && records[i].Decade() == Some(d);
      assert keys[i] == Some(d);
    }
    if d in KeysOf(DecadeGroups(records)) {
      assert Some(d) in keys;
      var i :| 0 <= i < |keys| && keys[i] == Some(d);
      assert records[i].Decade() == Some(d);
    }
  }

  /** The document list is the Book documents (one per book), then the author
      aggregates, then the decade aggregates, then min(50, #books) top-rated
      documents; no other document is added. */
  lemma SynthesizeLayout(records: seq<Record>)
    requires Synthesize(records).Success?
    ensures var docs := Synthesize(records).value;
      var nb := |records|;
      var na := nb + |AuthorGroups(records)|;
      var nd := na + |DecadeGroups(records)|;
      && |docs| == nd + Min(TopRatedLimit, |records|)
      && (forall i :: 0 <= i < |docs| ==>
            && (docs[i].Book? <==> i < nb)
            && (docs[i].AuthorAggregate? <==> nb <= i < na)
            && (docs[i].DecadeAggregate? <==> na <= i < nd)
            && (docs[i].TopRated? <==> nd <= i))
  {
    var docs := Synthesize(records).value;
    var books := BookDocuments(records);
    var authors := AuthorDocuments(AuthorGroups(records));
    var decades := DecadeDocuments(DecadeGroups(records));
    var top := TopRatedRecords(records);
    var rated := TopRatedDocuments(top).value;
    assert docs == books + authors + decades + rated;
    assert forall j :: 0 <= j < |rated| ==> rated[j] == TopRatedDocument(top[j]);
    SegmentKinds(books, authors, decades, rated);
  }

  /** Four segments, each of one document kind, concatenated: the kind of a
      document tells its segment and back. */
  lemma SegmentKinds(books: seq<Document>, authors: seq<Document>, decades: seq<Document>, rated: seq<Document>)
    requires forall i :: 0 <= i < |books| ==> books[i].Book?
    requires forall i :: 0 <= i < |authors| ==> authors[i].AuthorAggregate?
    requires forall i :: 0 <= i < |decades| ==> decades[i].DecadeAggregate?
    requires forall i :: 0 <= i < |rated| ==> rated[i].TopRated?
    ensures var docs := books + authors + decades + rated;
      var nb := |books|;
      var na := nb + |authors|;
      var nd := na + |decades|;
      forall i :: 0 <= i < |docs| ==>
        && (docs[i].Book? <==> i < nb)
        && (docs[i].AuthorAggregate? <==> nb <= i < na)
        && (docs[i].DecadeAggregate? <==> na <= i < nd)
        && (docs[i].TopRated? <==> nd <= i)
  {
    var docs := books + authors + decades + rated;
    forall i | 0 <= i < |docs|
      ensures && (docs[i].Book? <==> i < |books|)
              && (docs[i].AuthorAggregate? <==> |books| <= i < |books| + |authors|)
              && (docs[i].DecadeAggregate? <==> |books| + |authors| <= i < |books| + |authors| + |decades|)
              && (docs[i].TopRated? <==> |books| + |authors| + |decades| <= i)
    {
      if i < |books| {
        assert docs[i] == books[i];
      } else if i < |books| + |authors| {
        assert docs[i] == authors[i - |books|];
      } else if i < |books| + |authors| + |decades| {
        assert docs[i] == decades[i - |books| - |authors|];
      } else {
        assert docs[i] == rated[i - |books| - |authors| - |decades|];
      }
    }
  }

  /** Synthesis fails exactly when one of the fifty selected books has no ratings
      count; missing years and ratings never make it fail. */
  lemma SynthesizeFailsIff(records: seq<Record>)
    ensures Synthesize(records).Failure? <==>
      exists i :: 0 <= i < |TopRatedRecords(records)| && TopRatedRecords(records)[i].ratingsCount.None?
  {
  }

  /** When every book has a ratings count, synthesis succeeds. */
  lemma SynthesizeSucceedsWhenCounted(records: seq<Record>)
    requires forall i :: 0 <= i < |records| ==> records[i].ratingsCount.Some?
    ensures Synthesize(records).Success?
  {
    var top := TopRatedRecords(records);
    forall i | 0 <= i < |top| ensures top[i].ratingsCount.Some? {
      assert top[i] in multiset(top);
      assert top[i] in multiset(records);
      var j :| 0 <= j < |records| && records[j] == top[i];
    }
  }

  /** Each top-rated document is named after a book of the input and carries that
      book's rating and ratings count. */
  lemma TopRatedFromInput(records: seq<Record>)
    requires Synthesize(records).Success?
    ensures var top := TopRatedRecords(records);
      var rated := TopRatedDocuments(top).value;
      && |rated| == |top|
      && forall i :: 0 <= i < |top| ==>
        && top[i] in records
        && rated[i].id == "TopRated-" + IntToString(top[i].id)
        && rated[i].title == top[i].title && rated[i].authors == top[i].authors
        && rated[i].averageRating == top[i].rating
        && top[i].ratingsCount == Some(rated[i].numberOfRatings)
  {
    var top := TopRatedRecords(records);
    var rated := TopRatedDocuments(top).value;
    forall i | 0 <= i < |top|
      ensures && top[i] in records
              && rated[i].id == "TopRated-" + IntToString(top[i].id)
              && rated[i].title == top[i].title && rated[i].authors == top[i].authors
        && rated[i].averageRating == top[i].rating
              && top[i].ratingsCount == Some(rated[i].numberOfRatings)
    {
      assert top[i] in multiset(top);
      assert top[i] in multiset(records);
      assert rated[i] == TopRatedDocument(top[i]);
    }
  }
}
