/** Catalogs whose output has no freedom left: no two counts or ratings tie, so
    the order of every table and of the documents is determined. */
module Scenarios {
  import opened Wrappers
  import opened Text
  import opened Sorting
  import opened Grouping
  import opened Records
  import opened Documents
  import opened Synthesis
  import opened SynthesisProperties

  /** An empty catalog gives no documents and no error. */
  lemma EmptyCatalog()
    ensures Synthesize([]) == Success([])
  {
  }

  /** The two-book catalog: books 1 and 2 published in 1990, book 1 by `x` rated
      higher than book 2, which is by `x` and `y`; author names without outer
      whitespace. */
  predicate TwoBooks(r1: Record, r2: Record, x: string, y: string) {
    && r1.authors == [x] && r2.authors == [x, y] && x != y
    && Trim(x) == x && Trim(y) == y
    && r1.year == Some(1990) && r2.year == Some(1990)
    && r1.rating.Some? && r2.rating.Some? && r1.rating.value > r2.rating.value
    && r1.ratingsCount.Some? && r2.ratingsCount.Some?
  }

  /** Authors `x` (2) then `y` (1), one decade 1990 (2), top-rated books 1 then 2,
      seven documents in all. */
  lemma TwoBookCatalog(r1: Record, r2: Record, x: string, y: string)
    requires TwoBooks(r1, r2, x, y)
    ensures AuthorGroups([r1, r2]) == [Group(x, 2), Group(y, 1)]
    ensures DecadeGroups([r1, r2]) == [Group(1990, 2)]
    ensures TopRatedRecords([r1, r2]) == [r1, r2]
    ensures Synthesize([r1, r2]).Success? && |Synthesize([r1, r2]).value| == 7
  {
    var records := [r1, r2];
    AuthorPart(r1, r2, x, y);
    DecadePart(r1, r2, x, y);
    TopOrder(r1, r2, x, y);
    DocumentCount(records);
  }

  /** Two counted books, two authors and one decade make seven documents. */
  lemma DocumentCount(records: seq<Record>)
    requires |records| == 2 && records[0].ratingsCount.Some? && records[1].ratingsCount.Some?
    requires |AuthorGroups(records)| == 2 && |DecadeGroups(records)| == 1
    ensures Synthesize(records).Success? && |Synthesize(records).value| == 7
  {
    forall i | 0 <= i < |records| ensures records[i].ratingsCount.Some? {
      if i != 0 {
        assert i == 1;
      }
    }
    SynthesizeSucceedsWhenCounted(records);
    SynthesizeLayout(records);
  }

  lemma AuthorPart(r1: Record, r2: Record, x: string, y: string)
    requires TwoBooks(r1, r2, x, y)
    ensures AuthorGroups([r1, r2]) == [Group(x, 2), Group(y, 1)]
  {
    var records := [r1, r2];
    AuthorKeysOfTwo(r1, r2, x, y);
    AuthorTableOfKeys(AuthorKeys(records), x, y);
    var table := GroupSizes(AuthorKeys(records));
    assert SortDesc(table[1..], ByCount) == [Group(y, 1)];
    assert SortDesc(table, ByCount) == Insert(Group(x, 2), [Group(y, 1)], ByCount);
  }

  lemma AuthorKeysOfTwo(r1: Record, r2: Record, x: string, y: string)
    requires TwoBooks(r1, r2, x, y)
    ensures AuthorKeys([r1, r2]) == [Some(x), Some(x), Some(y)]
  {
    var rows := ExplodeTwo(r1, r2, x, y);
    StripTrimmed(rows, r1, r2, x, y);
  }

  /** Stripping names that carry no outer whitespace leaves the column as it is. */
  lemma StripTrimmed(rows: seq<AuthorRow>, r1: Record, r2: Record, x: string, y: string)
    requires rows == [AuthorRow(r1, Some(x)), AuthorRow(r2, Some(x)), AuthorRow(r2, Some(y))]
    requires Trim(x) == x && Trim(y) == y
    ensures AuthorColumn(StripAuthors(rows)) == [Some(x), Some(x), Some(y)]
  {
    var stripped := StripAuthors(rows);
    assert |stripped| == 3;
    assert stripped[0].author == Some(x);
    assert stripped[1].author == Some(x);
    assert stripped[2].author == Some(y);
    var column := AuthorColumn(stripped);
    assert |column| == 3 && column[0] == Some(x) && column[1] == Some(x) && column[2] == Some(y);
  }

  lemma ExplodeTwo(r1: Record, r2: Record, x: string, y: string) returns (rows: seq<AuthorRow>)
    requires TwoBooks(r1, r2, x, y)
    ensures rows == Explode([r1, r2])
    ensures rows == [AuthorRow(r1, Some(x)), AuthorRow(r2, Some(x)), AuthorRow(r2, Some(y))]
  {
    var records := [r1, r2];
    var first := ExplodeRecord(r1);
    var second := ExplodeRecord(r2);
    assert first == [AuthorRow(r1, Some(x))];
    assert second == [AuthorRow(r2, Some(x)), AuthorRow(r2, Some(y))];
    assert records[1..] == [r2] && [r2][1..] == [];
    assert Explode([r2]) == second + Explode([]);
    assert Explode(records) == first + Explode([r2]);
    rows := first + second;
  }

  lemma AuthorTableOfKeys(keys: seq<Option<string>>, x: string, y: string)
    requires keys == [Some(x), Some(x), Some(y)] && x != y
    ensures GroupSizes(keys) == [Group(x, 2), Group(y, 1)]
  {
    assert keys[1..] == [Some(x), Some(y)] && keys[2..] == [Some(y)] && keys[3..] == [];
    assert CountOf(keys[3..], x) == 0 && CountOf(keys[3..], y) == 0;
    assert CountOf(keys[2..], x) == 0 && CountOf(keys[2..], y) == 1;
    assert CountOf(keys[1..], x) == 1 && CountOf(keys, x) == 2 && CountOf(keys, y) == 1;
    assert DistinctPresent(keys[3..]) == [];
    assert DistinctPresent(keys[2..]) == [y];
    assert keys[1..][1..] == keys[2..] && keys[2..][1..] == keys[3..];
    assert x !in [y];
    assert DistinctPresent(keys[1..]) == [x] + DistinctPresent(keys[2..]);
    assert DistinctPresent(keys) == DistinctPresent(keys[1..]);
  }

  lemma DecadePart(r1: Record, r2: Record, x: string, y: string)
    requires TwoBooks(r1, r2, x, y)
    ensures DecadeGroups([r1, r2]) == [Group(1990, 2)]
  {
    var records := [r1, r2];
    var keys := DecadeKeys(records);
    assert keys == [Some(1990), Some(1990)];
    assert keys[1..] == [Some(1990)] && keys[2..] == [];
    assert CountOf(keys[1..], 1990) == 1;
    assert CountOf(keys, 1990) == 2;
    assert DistinctPresent(keys[2..]) == [];
    assert keys[1..][1..] == keys[2..];
    assert DistinctPresent(keys[1..]) == [1990];
    assert DistinctPresent(keys) == [1990];
    var table := GroupSizes(keys);
    assert table == [Group(1990, 2)];
    assert SortDesc(table, ByDecadeAscending) == Insert(Group(1990, 2), [], ByDecadeAscending);
  }

  lemma TopOrder(r1: Record, r2: Record, x: string, y: string)
    requires TwoBooks(r1, r2, x, y)
    ensures TopRatedRecords([r1, r2]) == [r1, r2]
  {
    var records := [r1, r2];
    assert records[1..] == [r2];
    assert SortDesc([r2], ByRating) == [r2];
    assert SortDesc(records, ByRating) == Insert(r1, [r2], ByRating) == [r1, r2];
  }
}
