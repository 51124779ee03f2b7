/** The module-level construction of `documents`: the list starts empty and each
    of the four passes appends to it in a loop over its table. Each loop is
    proved to append exactly the documents its pass function describes. */
module DocumentBuilder {
  import opened Wrappers
  import opened Grouping
  import opened Records
  import opened Documents
  import opened Synthesis

  /** Loop 3.1 over `df.iterrows()`. */
  method AppendBookDocuments(documents: seq<Document>, records: seq<Record>) returns (out: seq<Document>)
    ensures out == documents + BookDocuments(records)
  {
    out := documents;
    ghost var added: seq<Document> := [];
    var i := 0;
    while i < |records|
      invariant 0 <= i <= |records|
      invariant out == documents + added && added == BookDocuments(records[..i])
    {
      var document := BookDocument(records[i]);
      out := out + [document];
      BookDocumentsSnoc(records, i);
      added := added + [document];
      i := i + 1;
    }
    assert records[..i] == records;
  }

  /** Loop 3.2 over `books_by_author.iterrows()`. */
  method AppendAuthorDocuments(documents: seq<Document>, groups: seq<Group<string>>) returns (out: seq<Document>)
    ensures out == documents + AuthorDocuments(groups)
  {
    out := documents;
    ghost var added: seq<Document> := [];
    var i := 0;
    while i < |groups|
      invariant 0 <= i <= |groups|
      invariant out == documents + added && added == AuthorDocuments(groups[..i])
    {
      var document := AuthorDocument(groups[i]);
      out := out + [document];
      AuthorDocumentsSnoc(groups, i);
      added := added + [document];
      i := i + 1;
    }
    assert groups[..i] == groups;
  }

  /** Loop 3.3 over `books_by_decade.iterrows()`. */
  method AppendDecadeDocuments(documents: seq<Document>, groups: seq<Group<int>>) returns (out: seq<Document>)
    ensures out == documents + DecadeDocuments(groups)
  {
    out := documents;
    ghost var added: seq<Document> := [];
    var i := 0;
    while i < |groups|
      invariant 0 <= i <= |groups|
      invariant out == documents + added && added == DecadeDocuments(groups[..i])
    {
      var document := DecadeDocument(groups[i]);
      out := out + [document];
      DecadeDocumentsSnoc(groups, i);
      added := added + [document];
      i := i + 1;
    }
    assert groups[..i] == groups;
  }

  lemma BookDocumentsSnoc(records: seq<Record>, i: nat)
    requires i < |records|
    ensures BookDocuments(records[..i + 1]) == BookDocuments(records[..i]) + [BookDocument(records[i])]
  {
    var longer, shorter := BookDocuments(records[..i + 1]), BookDocuments(records[..i]);
    var extended := shorter + [BookDocument(records[i])];
    assert |longer| == |extended|;
    forall k | 0 <= k < |longer| ensures longer[k] == extended[k] {
      assert records[..i + 1][k] == records[k];
      if k < i {
        assert records[..i][k] == records[k];
      }
    }
  }

  lemma AuthorDocumentsSnoc(groups: seq<Group<string>>, i: nat)
    requires i < |groups|
    ensures AuthorDocuments(groups[..i + 1]) == AuthorDocuments(groups[..i]) + [AuthorDocument(groups[i])]
  {
    var longer, shorter := AuthorDocuments(groups[..i + 1]), AuthorDocuments(groups[..i]);
    var extended := shorter + [AuthorDocument(groups[i])];
    assert |longer| == |extended|;
    forall k | 0 <= k < |longer| ensures longer[k] == extended[k] {
      assert groups[..i + 1][k] == groups[k];
      if k < i {
        assert groups[..i][k] == groups[k];
      }
    }
  }

  lemma DecadeDocumentsSnoc(groups: seq<Group<int>>, i: nat)
    requires i < |groups|
    ensures DecadeDocuments(groups[..i + 1]) == DecadeDocuments(groups[..i]) + [DecadeDocument(groups[i])]
  {
    var longer, shorter := DecadeDocuments(groups[..i + 1]), DecadeDocuments(groups[..i]);
    var extended := shorter + [DecadeDocument(groups[i])];
    assert |longer| == |extended|;
    forall k | 0 <= k < |longer| ensures longer[k] == extended[k] {
      assert groups[..i + 1][k] == groups[k];
      if k < i {
        assert groups[..i][k] == groups[k];
      }
    }
  }

  /** Loop 3.4 over `top_books.iterrows()`; `int(row["ratings_count"])` raises on
      the first selected book without a ratings count. */
  method AppendTopRatedDocuments(documents: seq<Document>, top: seq<Record>)
    returns (r: Result<seq<Document>, SynthesisError>)
    ensures r == match TopRatedDocuments(top)
                 case Success(ds) => Success(documents + ds)
                 case Failure(e) => Failure(e)
  {
    var out := documents;
    ghost var added: seq<Document> := [];
    var i := 0;
    while i < |top|
      invariant 0 <= i <= |top|
      invariant forall k :: 0 <= k < i ==> top[k].ratingsCount.Some?
      invariant out == documents + added && |added| == i
      invariant forall k :: 0 <= k < i ==> added[k] == TopRatedDocument(top[k])
    {
      if top[i].ratingsCount.None? {
        FirstMissingCount(top, i);
        return Failure(RatingsCountMissing(top[i].id));
      }
      var document := TopRatedDocument(top[i]);
      out := out + [document];
      assert (added + [document])[i] == document;
      added := added + [document];
      i := i + 1;
    }
    AllCounted(top, added);
    r := Success(out);
  }

  /** The pass fails with the first uncounted book's id. */
  lemma FirstMissingCount(top: seq<Record>, i: nat)
    requires i < |top| && top[i].ratingsCount.None?
    requires forall k :: 0 <= k < i ==> top[k].ratingsCount.Some?
    ensures TopRatedDocuments(top) == Failure(RatingsCountMissing(top[i].id))
  {
    var expected := TopRatedDocuments(top);
    var first :| 0 <= first < |top| && top[first].ratingsCount.None? &&
      expected.error == RatingsCountMissing(top[first].id) &&
      forall j :: 0 <= j < first ==> top[j].ratingsCount.Some?;
    assert first == i;
  }

  /** When every book is counted, the pass gives one document per book. */
  lemma AllCounted(top: seq<Record>, added: seq<Document>)
    requires forall k :: 0 <= k < |top| ==> top[k].ratingsCount.Some?
    requires |added| == |top|
    requires forall k :: 0 <= k < |top| ==> added[k] == TopRatedDocument(top[k])
    ensures TopRatedDocuments(top) == Success(added)
  {
    var expected := TopRatedDocuments(top);
    assert expected.Success?;
    assert expected.value == added;
  }

  /** Builds the `documents` list of the four passes, in order. */
  method BuildDocuments(records: seq<Record>) returns (r: Result<seq<Document>, SynthesisError>)
    ensures r == Synthesize(records)
  {
    var authorGroups := AuthorGroups(records);
    var decadeGroups := DecadeGroups(records);
    var top := TopRatedRecords(records);
    var documents: seq<Document> := [];
    documents := AppendBookDocuments(documents, records);
    assert documents == BookDocuments(records);
    documents := AppendAuthorDocuments(documents, authorGroups);
    documents := AppendDecadeDocuments(documents, decadeGroups);
    assert documents == BookDocuments(records) + AuthorDocuments(authorGroups) + DecadeDocuments(decadeGroups);
    r := AppendTopRatedDocuments(documents, top);
  }
}
