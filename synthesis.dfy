/** The document-synthesis steps as functions of the normalized table: the
    declarative pandas steps (`explode`, `groupby().size()`, `sort_values`,
    `head`) and the four document passes they feed. */
module Synthesis {
  import opened Wrappers
  import opened Text
  import opened Sorting
  import opened Grouping
  import opened Records
  import opened Documents

  /** `int(NaN)` on the ratings count of a selected top-rated book raises. */
  datatype SynthesisError = RatingsCountMissing(recordId: int)

  /** One row of `df.explode("authors")`: the whole book with one of its authors,
      or with a missing author when its author list is empty. */
  datatype AuthorRow = AuthorRow(book: Record, author: Option<string>)

  /** The rows one book contributes to `df.explode("authors")`. */
  function ExplodeRecord(r: Record): (rows: seq<AuthorRow>)
    ensures |rows| == (if r.authors == [] then 1 else |r.authors|)
    ensures forall i :: 0 <= i < |rows| ==> rows[i].book == r
    ensures r.authors == [] ==> rows[0].author.None?
    ensures forall i :: 0 <= i < |r.authors| ==> rows[i].author == Some(r.authors[i])
  {
    if r.authors == [] then [AuthorRow(r, None)]
    else seq(|r.authors|, i requires 0 <= i < |r.authors| => AuthorRow(r, Some(r.authors[i])))
  }

  /** `df.explode("authors")`, rows in table order. */
  function Explode(records: seq<Record>): (rows: seq<AuthorRow>)
    ensures records == [] <==> rows == []
    ensures forall i :: 0 <= i < |rows| ==> rows[i].book in records
  {
    if records == [] then []
    else
      var head := ExplodeRecord(records[0]);
      var tail := Explode(records[1..]);
      assert forall i :: 0 <= i < |tail| ==> tail[i].book in records;
      head + tail
  }

  /** `.astype("string").str.strip()` on the author column; missing stays missing. */
  function StripAuthors(rows: seq<AuthorRow>): (stripped: seq<AuthorRow>)
    ensures |stripped| == |rows|
    ensures forall i :: 0 <= i < |rows| ==>
      && stripped[i].book == rows[i].book
      && (stripped[i].author.None? <==> rows[i].author.None?)
      && (rows[i].author.Some? ==> stripped[i].author == Some(Trim(rows[i].author.value)))
  {
    seq(|rows|, i requires 0 <= i < |rows| =>
      match rows[i].author
      case None => rows[i]
      case Some(a) => AuthorRow(rows[i].book, Some(Trim(a))))
  }

  /** The grouping column of a table of author rows. */
  function AuthorColumn(rows: seq<AuthorRow>): seq<Option<string>> {
    seq(|rows|, i requires 0 <= i < |rows| => rows[i].author)
  }

  /** The author column that the author grouping reads. */
  function AuthorKeys(records: seq<Record>): seq<Option<string>> {
    AuthorColumn(StripAuthors(Explode(records)))
  }

  function ByCount(g: Group<string>): Option<int> {
    Some(g.count)
  }

  /** `books_by_author`: the author group-size table ordered by `Count`
      descending; the order among equal counts is not fixed. */
  function AuthorGroups(records: seq<Record>): (gs: seq<Group<string>>)
    ensures IsGroupTable(AuthorKeys(records), gs)
    ensures forall i, j :: 0 <= i < j < |gs| ==> gs[i].count >= gs[j].count
  {
    var keys := AuthorKeys(records);
    var table := GroupSizes(keys);
    var gs := SortDesc(table, ByCount);
    DistinctKeysDistinctGroups(table);
    GroupTablePermutation(keys, table, gs);
    assert forall i, j :: 0 <= i < j < |gs| ==> GoesBefore(ByCount(gs[i]), ByCount(gs[j]));
    gs
  }

  /** The `decade` column of the table. */
  function DecadeKeys(records: seq<Record>): seq<Option<int>> {
    seq(|records|, i requires 0 <= i < |records| => records[i].Decade())
  }

  /** Ascending by decade is descending by the negated decade. */
  function ByDecadeAscending(g: Group<int>): Option<int> {
    Some(-g.key)
  }

  /** `books_by_decade`: the decade group-size table in strictly ascending decade order. */
  function DecadeGroups(records: seq<Record>): (gs: seq<Group<int>>)
    ensures IsGroupTable(DecadeKeys(records), gs)
    ensures forall i, j :: 0 <= i < j < |gs| ==> gs[i].key < gs[j].key
  {
    var keys := DecadeKeys(records);
    var table := GroupSizes(keys);
    var gs := SortDesc(table, ByDecadeAscending);
    DistinctKeysDistinctGroups(table);
    GroupTablePermutation(keys, table, gs);
    DistinctAscending(gs);
    gs
  }

  /** Sorted on the negated decade with no decade twice: strictly ascending. */
  lemma DistinctAscending(gs: seq<Group<int>>)
    requires SortedDesc(gs, ByDecadeAscending) && Distinct(KeysOf(gs))
    ensures forall i, j :: 0 <= i < j < |gs| ==> gs[i].key < gs[j].key
  {
    forall i, j | 0 <= i < j < |gs| ensures gs[i].key < gs[j].key {
      assert GoesBefore(ByDecadeAscending(gs[i]), ByDecadeAscending(gs[j]));
      assert KeysOf(gs)[i] != KeysOf(gs)[j];
    }
  }

  /** How many books the popularity pass keeps (`head(50)`). */
  const TopRatedLimit: nat := 50

  function Min(a: nat, b: nat): nat {
    if a <= b then a else b
  }

  function ByRating(r: Record): Option<int> {
    r.rating
  }

  /** `top_books`: the first fifty rows of the table sorted by rating descending
      with missing ratings last. Nothing is said about which of several books with
      the same rating are kept or in what order they come. */
  function TopRatedRecords(records: seq<Record>): (top: seq<Record>)
    ensures |top| == Min(TopRatedLimit, |records|)
    ensures SortedDesc(top, ByRating)
    ensures multiset(top) <= multiset(records)
    ensures forall s, u :: s in top && u in multiset(records) - multiset(top) ==>
      GoesBefore(s.rating, u.rating)
    ensures Distinct(records) ==> Distinct(top)
  {
    var ranked := SortDesc(records, ByRating);
    var n := Min(TopRatedLimit, |records|);
    PermutationMembers(ranked, records);
    SortedPrefix(ranked, n, ByRating);
    var top := ranked[..n];
    assert multiset(records) - multiset(top) == multiset(ranked[n..]);
    top
  }

  /** Pass 3.1: one Book document per row, in table order. */
  function BookDocuments(records: seq<Record>): (docs: seq<Document>)
    ensures |docs| == |records|
    ensures forall i :: 0 <= i < |records| ==> docs[i].Book?
  {
    seq(|records|, i requires 0 <= i < |records| => BookDocument(records[i]))
  }

  /** The Book document of each row reads back as the record id, carries the
      row's fields, and has each numeric field missing exactly when the row's is. */
  lemma BookDocumentFields(records: seq<Record>)
    ensures var docs := BookDocuments(records);
      forall i :: 0 <= i < |records| ==>
        && docs[i].id == IntToString(records[i].id)
        && ParseInt(docs[i].id) == Some(records[i].id)
        && docs[i].recordId == records[i].id && docs[i].title == records[i].title
        && docs[i].authors == records[i].authors && docs[i].imageUrl == records[i].imageUrl
        && docs[i].year == records[i].year && docs[i].decade == DecadeOf(records[i].year)
        && docs[i].averageRating == records[i].rating
        && docs[i].ratingsCount == records[i].ratingsCount
  {
    var docs := BookDocuments(records);
    forall i | 0 <= i < |records| ensures ParseInt(docs[i].id) == Some(records[i].id) {
      ParseIntToString(records[i].id);
    }
  }

  /** Pass 3.2: one AuthorAggregate document per row of the author table. */
  function AuthorDocuments(gs: seq<Group<string>>): (docs: seq<Document>)
    ensures |docs| == |gs|
    ensures forall i :: 0 <= i < |gs| ==>
      && docs[i].AuthorAggregate? && docs[i].id == "Author-" + gs[i].key
      && docs[i].author == gs[i].key && docs[i].count == gs[i].count
  {
    seq(|gs|, i requires 0 <= i < |gs| => AuthorDocument(gs[i]))
  }

  /** Pass 3.3: one DecadeAggregate document per row of the decade table. */
  function DecadeDocuments(gs: seq<Group<int>>): (docs: seq<Document>)
    ensures |docs| == |gs|
    ensures forall i :: 0 <= i < |gs| ==>
      && docs[i].DecadeAggregate?
      && docs[i].id == "Decade-" + IntToString(gs[i].key)
      && docs[i].startYear == gs[i].key && docs[i].count == gs[i].count
  {
    seq(|gs|, i requires 0 <= i < |gs| => DecadeDocument(gs[i]))
  }

  /** Pass 3.4: one TopRated document per selected book, in the same order; fails
      at the first selected book that has no ratings count. */
  function TopRatedDocuments(top: seq<Record>): (r: Result<seq<Document>, SynthesisError>)
    ensures r.Success? <==> forall i :: 0 <= i < |top| ==> top[i].ratingsCount.Some?
    ensures r.Success? ==> |r.value| == |top| && forall i :: 0 <= i < |top| ==>
      top[i].ratingsCount.Some? && r.value[i] == TopRatedDocument(top[i])
    ensures r.Failure? ==>
      (exists i :: 0 <= i < |top| && top[i].ratingsCount.None? &&
         r.error == RatingsCountMissing(top[i].id) && forall j :: 0 <= j < i ==> top[j].ratingsCount.Some?)
  {
    if top == [] then Success([])
    else if top[0].ratingsCount.None? then Failure(RatingsCountMissing(top[0].id))
    else
      match TopRatedDocuments(top[1..])
      case Failure(e) =>
        assert forall i :: 1 <= i < |top| ==> top[i] == top[1..][i - 1];
        Failure(e)
      case Success(ds) => Success([TopRatedDocument(top[0])] + ds)
  }

  /** The whole `documents` list: Book, then author, then decade, then top-rated
      documents, or the error of the top-rated pass. */
  function Synthesize(records: seq<Record>): (r: Result<seq<Document>, SynthesisError>)
    ensures r.Success? ==>
      |r.value| == |records| + |AuthorGroups(records)| + |DecadeGroups(records)|
                   + Min(TopRatedLimit, |records|)
  {
    var books := BookDocuments(records);
    var authors := AuthorDocuments(AuthorGroups(records));
    var decades := DecadeDocuments(DecadeGroups(records));
    var top := TopRatedRecords(records);
    match TopRatedDocuments(top)
    case Failure(e) => Failure(e)
    case Success(top) => Success(books + authors + decades + top)
  }
}
