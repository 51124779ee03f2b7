/** Document identifiers are derived from the source keys (record id, author
    name, decade), prefixed by the kind. If record ids are distinct, no two
    synthesized documents share an identifier. */
module DocumentIdentifiers {
  import opened Wrappers
  import opened Text
  import opened Sorting
  import opened Grouping
  import opened Records
  import opened Documents
  import opened Synthesis

  predicate IdsDistinct(docs: seq<Document>) {
    forall i, j :: 0 <= i < j < |docs| ==> docs[i].id != docs[j].id
  }

  predicate RecordIdsDistinct(records: seq<Record>) {
    forall i, j :: 0 <= i < j < |records| ==> records[i].id != records[j].id
  }

  /** The first character of an id, or a space for an empty id. */
  function IdHead(d: Document): char {
    if d.id == [] then ' ' else d.id[0]
  }

  lemma IdsDistinctAppend(a: seq<Document>, b: seq<Document>)
    requires IdsDistinct(a) && IdsDistinct(b)
    requires forall i, j :: 0 <= i < |a| && 0 <= j < |b| ==> IdHead(a[i]) != IdHead(b[j])
    ensures IdsDistinct(a + b)
  {
    var c := a + b;
    forall i, j | 0 <= i < j < |c| ensures c[i].id != c[j].id {
      if j < |a| {
        assert c[i] == a[i] && c[j] == a[j];
      } else if i >= |a| {
        assert c[i] == b[i - |a|] && c[j] == b[j - |a|];
      } else {
        assert c[i] == a[i] && c[j] == b[j - |a|];
      }
    }
  }

  /** Book ids are the record ids as text: distinct for distinct record ids, and
      starting with a digit or a minus sign. */
  lemma BookIds(records: seq<Record>)
    requires RecordIdsDistinct(records)
    ensures var docs := BookDocuments(records);
      && IdsDistinct(docs)
      && forall i :: 0 <= i < |docs| ==> IsDigit(IdHead(docs[i])) || IdHead(docs[i]) == '-'
  {
    var docs := BookDocuments(records);
    BookDocumentFields(records);
    forall i | 0 <= i < |docs| ensures IsDigit(IdHead(docs[i])) || IdHead(docs[i]) == '-' {
      assert IsIntegerText(docs[i].id);
    }
  }

  /** Author ids are `Author-` and the name: distinct for distinct names. */
  lemma AuthorIds(gs: seq<Group<string>>)
    requires Distinct(KeysOf(gs))
    ensures var docs := AuthorDocuments(gs);
      IdsDistinct(docs) && forall i :: 0 <= i < |docs| ==> IdHead(docs[i]) == 'A'
  {
    var docs := AuthorDocuments(gs);
    forall i, j | 0 <= i < j < |docs| ensures docs[i].id != docs[j].id {
      assert KeysOf(gs)[i] != KeysOf(gs)[j];
      assert docs[i].id[7..] == gs[i].key && docs[j].id[7..] == gs[j].key;
    }
  }

  /** Decade ids are `Decade-` and the decade as text: distinct for distinct decades. */
  lemma DecadeIds(gs: seq<Group<int>>)
    requires Distinct(KeysOf(gs))
    ensures var docs := DecadeDocuments(gs);
      IdsDistinct(docs) && forall i :: 0 <= i < |docs| ==> IdHead(docs[i]) == 'D'
  {
    var docs := DecadeDocuments(gs);
    forall i, j | 0 <= i < j < |docs| ensures docs[i].id != docs[j].id {
      assert KeysOf(gs)[i] != KeysOf(gs)[j];
      assert docs[i].id[7..] == IntToString(gs[i].key) && docs[j].id[7..] == IntToString(gs[j].key);
      IntToStringInjective(gs[i].key, gs[j].key);
    }
  }

  /** The selected books have distinct ids when the input's ids are distinct. */
  lemma TopRatedRecordIds(records: seq<Record>)
    requires RecordIdsDistinct(records)
    ensures RecordIdsDistinct(TopRatedRecords(records))
  {
    var top := TopRatedRecords(records);
    assert Distinct(records) by {
      forall i, j | 0 <= i < j < |records| ensures records[i] != records[j] {
        assert records[i].id != records[j].id;
      }
    }
    forall i, j | 0 <= i < j < |top| ensures top[i].id != top[j].id {
      assert top[i] in multiset(top) && top[j] in multiset(top);
      assert top[i] in multiset(records) && top[j] in multiset(records);
      var p :| 0 <= p < |records| && records[p] == top[i];
      var q :| 0 <= q < |records| && records[q] == top[j];
      assert top[i] != top[j];
      assert p != q;
    }
  }

  /** Top-rated ids are `TopRated-` and the record id as text. */
  lemma TopRatedIds(top: seq<Record>)
    requires RecordIdsDistinct(top) && TopRatedDocuments(top).Success?
    ensures var docs := TopRatedDocuments(top).value;
      IdsDistinct(docs) && forall i :: 0 <= i < |docs| ==> IdHead(docs[i]) == 'T'
  {
    var docs := TopRatedDocuments(top).value;
    forall i, j | 0 <= i < j < |docs| ensures docs[i].id != docs[j].id {
      assert docs[i] == TopRatedDocument(top[i]) && docs[j] == TopRatedDocument(top[j]);
      assert docs[i].id[9..] == IntToString(top[i].id) && docs[j].id[9..] == IntToString(top[j].id);
      IntToStringInjective(top[i].id, top[j].id);
    }
    forall i | 0 <= i < |docs| ensures IdHead(docs[i]) == 'T' {
      assert docs[i] == TopRatedDocument(top[i]);
    }
  }

  /** Four id-distinct segments whose ids start with different kinds of character
      (digit or minus, 'A', 'D', 'T') concatenate to an id-distinct list. */
  lemma SegmentsIdsDistinct(books: seq<Document>, authors: seq<Document>,
                            decades: seq<Document>, rated: seq<Document>)
    requires IdsDistinct(books) && IdsDistinct(authors) && IdsDistinct(decades) && IdsDistinct(rated)
    requires forall i :: 0 <= i < |books| ==> IsDigit(IdHead(books[i])) || IdHead(books[i]) == '-'
    requires forall i :: 0 <= i < |authors| ==> IdHead(authors[i]) == 'A'
    requires forall i :: 0 <= i < |decades| ==> IdHead(decades[i]) == 'D'
    requires forall i :: 0 <= i < |rated| ==> IdHead(rated[i]) == 'T'
    ensures IdsDistinct(books + authors + decades + rated)
  {
    IdsDistinctAppend(books, authors);
    var front := books + authors;
    forall i, j | 0 <= i < |front| && 0 <= j < |decades| ensures IdHead(front[i]) != IdHead(decades[j]) {
      if i < |books| { assert front[i] == books[i]; } else { assert front[i] == authors[i - |books|]; }
    }
    IdsDistinctAppend(front, decades);
    var aggregated := front + decades;
    forall i, j | 0 <= i < |aggregated| && 0 <= j < |rated| ensures IdHead(aggregated[i]) != IdHead(rated[j]) {
      if i < |front| {
        assert aggregated[i] == front[i];
        if i < |books| { assert front[i] == books[i]; } else { assert front[i] == authors[i - |books|]; }
      } else {
        assert aggregated[i] == decades[i - |front|];
      }
    }
    IdsDistinctAppend(aggregated, rated);
  }

  /** With distinct record ids, every synthesized document has its own id. */
  lemma DocumentIdsUnique(records: seq<Record>)
    requires RecordIdsDistinct(records)
    requires Synthesize(records).Success?
    ensures IdsDistinct(Synthesize(records).value)
  {
    var authorGroups := AuthorGroups(records);
    var decadeGroups := DecadeGroups(records);
    var top := TopRatedRecords(records);
    BookIds(records);
    AuthorIds(authorGroups);
    DecadeIds(decadeGroups);
    TopRatedRecordIds(records);
    TopRatedIds(top);
    SegmentsIdsDistinct(BookDocuments(records), AuthorDocuments(authorGroups),
                        DecadeDocuments(decadeGroups), TopRatedDocuments(top).value);
  }
}
