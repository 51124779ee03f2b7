# Book catalog document synthesis, modelled in Dafny

The modelled program is a question-answering assistant over a book catalog. It
loads a catalog of books from a JSON-lines file into a pandas table and coerces
the numeric columns. It derives a `decade` column, then turns the table into a
flat list of retrieval documents, which are embedded into a FAISS vector store.
This project models the loading and coercion step and the four
document-synthesis passes of `vector.py`:

1. one **Book** document per row;
2. one **AuthorAggregate** document per distinct trimmed author name, taken from
   the table exploded to one row per author and grouped on the name, in
   descending `Count` order;
3. one **DecadeAggregate** document per distinct decade, in ascending decade
   order;
4. one **TopRated** document for each of the first fifty rows, after the table is
   sorted by average rating, descending, with missing ratings last.

The documents are appended to one list in that order.

Modules:

- `Wrappers`: `Option` and `Result`.
- `Text`:
  - `str(int)`, and its inverse, an integer-text parser;
  - Python's `str.strip()` with the `str.isspace()` character set;
  - `str.join`.
- `Records`:
  - the raw JSON line and the normalized row;
  - `pd.to_numeric(errors="coerce")` on one value, with a missing value as `None`;
  - the decade rule `(year // 10) * 10`;
  - `load_jsonl_to_df` as a map over the lines.
- `Sorting`:
  - `sort_values(ascending=False)` with missing keys last, as an insertion sort
    proved sorted and a permutation;
  - `head(n)` as a sorted prefix.
- `Grouping`: `groupby(col).size()`. A group table is characterised by four
  facts: distinct keys; a key in the table exactly when it occurs in the column;
  each count is the number of rows with that key; and the counts add up to the
  number of rows with a key.
- `Documents`: the `Document` datatype, one constructor per document type, and
  the builder of each type's id, page content and metadata.
- `Synthesis`: the declarative steps as functions:
  - `explode`, `str.strip` on the author column;
  - the two group tables in their orders;
  - the top-fifty selection;
  - the four passes;
  - the whole document list, `Synthesize`.
- `DocumentBuilder`: the module-level loops that append to `documents`, as
  methods with `while` loops. Each is proved to produce exactly what its pass
  function describes. `BuildDocuments` runs the four loops in order.
- `SynthesisProperties`: lemmas about the passes:
  - explode and row counts;
  - which names and decades get a document;
  - counts summing to row totals;
  - the layout of the list;
  - when synthesis fails;
  - where top-rated documents come from.
- `DocumentIdentifiers`: with distinct record ids, all document ids are distinct.
- `Scenarios`:
  - the empty catalog;
  - a two-book catalog whose whole output the contracts fix.

Representation choices:

- Record ids are integers, and a Book id is their decimal text.
- Ratings are integers (hundredths of a star). A JSON number in the rating
  column is given in hundredths; a rating written as text is whole stars and is
  scaled by 100 when read.
- A missing numeric value (NaN) is `None`.

## Model

| member | source | states |
|---|---|---|
| Text.ParseInt | vector.py:47-49 | A text is read as a number exactly when it is an optional minus sign followed by at least one decimal digit; otherwise the value is missing. |
| Text.IntToString | vector.py:98 | `str` of an integer is a non-empty text that starts with a digit or a minus sign, so no Book id starts with a letter. |
| Text.ParseIntToString | vector.py:98 | Reading back the decimal text `str` writes for an integer gives that integer. |
| Text.IntToStringInjective | vector.py:98 | Distinct integers have distinct `str` texts, so two Book ids are equal only when the record ids are. |
| Text.TrimStart | vector.py:72 | Left strip keeps a suffix of the text, removes only whitespace, and leaves a text that is empty or starts with a non-space. |
| Text.TrimEnd | vector.py:72 | Right strip keeps a prefix of the text, removes only whitespace, and leaves a text that is empty or ends with a non-space. |
| Text.TrimSlice | vector.py:72 | `str.strip()` keeps one contiguous slice of the text, and everything cut before and after it is whitespace. |
| Text.TrimIdempotent | vector.py:72 | A stripped author name has no whitespace at either end, and stripping it again changes nothing. |
| Text.TrimUnchanged | vector.py:72 | A name without whitespace at either end is left as it is by strip. |
| Text.Join | vector.py:83 | `", ".join(authors)` of no parts is empty; otherwise it starts with the first part and its length is the parts' total plus one separator between each two neighbours. |
| Text.JoinLayout | vector.py:83 | In `sep.join(parts)`, part i sits at offset (total length of the parts before it) + i * (separator length), and is followed by the separator unless it is the last part. |
| Text.PartOffsetFormula | vector.py:83 | The offset of part i, counted part by part, is the length of the parts before it plus one separator for each of them. |
| Records.ToNumeric | vector.py:47-49 | Coercion gives a number exactly when the value can be read as one, and gives a JSON number unchanged; anything else becomes missing rather than raising. |
| Records.ToNumericText | vector.py:47-49 | A number written as text coerces to that number. |
| Records.ToRating | vector.py:48 | The rating coercion gives a value exactly when the raw value can be read as a number; a JSON number (hundredths of a star) is kept as it is. |
| Records.ToRatingText | vector.py:48 | A rating of n stars written as text becomes 100 * n hundredths, on the same scale as a JSON number. |
| Records.Normalize | vector.py:44-54 | One line becomes one row: the id, title, authors and image URL copied; year and ratings count coerced as numbers, the rating on the rating scale; each missing exactly when unreadable; the decade derived from the coerced year. |
| Records.DecadeOf | vector.py:52 | A missing year gives a missing decade. Otherwise the decade is a multiple of ten with decade <= year < decade + 10, which is floor division, also for negative years. |
| Records.DecadeUnique | vector.py:52 | That multiple of ten is the only one: any d with d % 10 == 0 and d <= y < d + 10 is the decade of y. |
| Records.LoadRecords | vector.py:44-54 | One row per JSON line, in order, none dropped. Id, title, authors and image URL are copied. Year and ratings count are the coerced values, and the rating the coerced rating; each numeric field, and the decade, is missing exactly when the raw value cannot be read as a number. |
| Sorting.Insert | vector.py:108 | Inserting into a descending sequence keeps it descending (missing keys last), adds exactly the one element, and keeps it duplicate-free. |
| Sorting.SortDesc | vector.py:108 | `sort_values(ascending=False)`: the result is descending with missing keys last, a permutation of the input, and duplicate-free when the input is. |
| Sorting.PermutationMembers | vector.py:138 | A permutation has the same length and the same members as the input. |
| Sorting.SortedPrefix | vector.py:138 | `head(n)` of a sorted table is sorted. Together with the rest, it is the whole table, and each kept row may precede each cut-off row. |
| Grouping.DistinctPresent | vector.py:105 | The distinct non-missing keys of a column: no key twice, and each is a key of some row; every present key is listed. |
| Grouping.GroupSizes | vector.py:104-107 | `groupby(col).size()` is a group table for the column: distinct keys, exactly the keys that occur, each count the number of rows with that key (at least one). Rows with a missing key are dropped. |
| Grouping.GroupTableTotal | vector.py:104-107 | The counts of a group table add up to the number of rows whose key is not missing. |
| Grouping.GroupTablePermutation | vector.py:108 | Reordering a group table, as `sort_values` does, gives a group table for the same column. |
| Synthesis.ExplodeRecord | vector.py:71 | One book gives one exploded row per author, in order, each carrying the whole book; a book with no authors gives one row with a missing author. |
| Synthesis.Explode | vector.py:71 | The exploded table is empty exactly when the table is, and every exploded row carries a book of the table. |
| Synthesis.StripAuthors | vector.py:72 | Stripping keeps the rows and their books, keeps missing authors missing, and replaces each author by its stripped name. |
| Synthesis.AuthorGroups | vector.py:104-109 | `books_by_author` is a group table of the stripped, exploded author column, with counts in non-increasing order. |
| Synthesis.DecadeGroups | vector.py:121-126 | `books_by_decade` is a group table of the decade column, with decades in strictly ascending order. |
| Synthesis.DistinctAscending | vector.py:125 | Sorted on the negated decade with no decade twice means the decades are strictly ascending. |
| Synthesis.TopRatedRecords | vector.py:138 | `top_books` has min(50, n) rows drawn from the table, in non-increasing rating order with missing ratings last. Every kept row rates at least as high as every dropped row. It has no duplicates when the table has none. |
| Synthesis.BookDocuments | vector.py:80-100 | As many documents as rows, every one of type Book (which row each carries is proved in BookDocumentFields). |
| Synthesis.BookDocumentFields | vector.py:80-100 | Each Book document's id is exactly `str` of the record id, and so reads back as it. Title, authors, image URL, year, rating and ratings count are copied, with each missing exactly when the row's is. The decade is derived from the year. |
| Synthesis.AuthorDocuments | vector.py:111-117 | One AuthorAggregate document per author group, in table order, with id `Author-` + name, that name and that count. |
| Synthesis.DecadeDocuments | vector.py:128-134 | One DecadeAggregate document per decade group, in table order, with id `Decade-` + the decade, that decade and that count. |
| Synthesis.TopRatedDocuments | vector.py:139-154 | The pass succeeds exactly when every selected book has a ratings count. It then gives one TopRated document per selected book, in order. Otherwise it fails naming the first selected book without a count (`int(NaN)` raises). |
| Synthesis.Synthesize | vector.py:68-154 | When synthesis succeeds, the list has one document per row, per author group, per decade group and per selected book (min(50, n)). |
| Documents.RenderNumberReadsBack | vector.py:82-85 | A number rendered into page content reads back as that number; a missing value is rendered `nan`, and only a missing value is. |
| Documents.BookDocument | vector.py:80-99 | A row's document has type Book, id `str(id)`, and the row's title, authors, image URL, year, decade, rating and ratings count as metadata. |
| Documents.AuthorDocument | vector.py:111-116 | An author group's document has type AuthorAggregate, id `Author-` + the name, and the name and count as metadata. |
| Documents.DecadeDocument | vector.py:128-133 | A decade group's document has type DecadeAggregate, id `Decade-` + the decade, and the decade and count as metadata. |
| Documents.TopRatedDocument | vector.py:139-153 | A selected book's document has type TopRated, id `TopRated-` + its id, and its title, authors, rating and ratings count as metadata. |
| DocumentBuilder.AppendBookDocuments | vector.py:80-100 | The loop appends exactly the Book documents of the table to the list it is given, leaving the earlier entries alone. |
| DocumentBuilder.AppendAuthorDocuments | vector.py:111-117 | The loop appends exactly the author documents of the table. |
| DocumentBuilder.AppendDecadeDocuments | vector.py:128-134 | The loop appends exactly the decade documents of the table. |
| DocumentBuilder.AppendTopRatedDocuments | vector.py:139-154 | The loop appends exactly the top-rated documents, or stops with the pass's error at the first selected book without a ratings count. |
| DocumentBuilder.FirstMissingCount | vector.py:150 | When every book before position i has a ratings count and book i has none, the pass fails with book i's id. |
| DocumentBuilder.AllCounted | vector.py:139-154 | When every selected book has a count, the pass yields exactly the documents the loop built. |
| DocumentBuilder.BuildDocuments | vector.py:68-154 | The four loops in order build exactly the synthesized document list, or raise the top-rated pass's error. |
| SynthesisProperties.ExplodeRecordRows | vector.py:71-72 | `explode` gives one row per author of a book, each carrying the whole book. An empty author list gives one row with a missing author, and each author becomes its stripped name. |
| SynthesisProperties.ExplodeCounts | vector.py:71-72 | The exploded table has one row per author entry, plus one per author-less book. Exactly the author entries give a non-missing author. |
| SynthesisProperties.AuthorKeyMembers | vector.py:71-72 | A name occurs in the stripped author column exactly when it is the stripped form of some author entry of some book. |
| SynthesisProperties.AuthorAggregates | vector.py:104-117 | One author group per distinct stripped name, exactly for the names some book lists. Their counts add up to the number of author entries, so author-less books are counted nowhere. |
| SynthesisProperties.DecadeKeyMember | vector.py:121-124 | A decade has a group exactly when some book's decade is that decade. |
| SynthesisProperties.DecadeAggregates | vector.py:121-134 | One decade group per distinct decade of a dated book. Their counts add up to the number of books with a year, so undated books are in none. |
| SynthesisProperties.SegmentKinds | vector.py:68-154 | Four single-kind segments, concatenated: a document's kind tells its segment, and the reverse. |
| SynthesisProperties.SynthesizeLayout | vector.py:68-154 | The list is the Book documents, then the author, decade and top-rated documents. Its length is #books + #authors + #decades + min(50, #books), and position determines type. |
| SynthesisProperties.SynthesizeFailsIff | vector.py:138-154 | Synthesis fails exactly when one of the selected fifty books has no ratings count. |
| SynthesisProperties.SynthesizeSucceedsWhenCounted | vector.py:150 | When every book has a ratings count, synthesis succeeds; missing years and ratings never make it fail. |
| SynthesisProperties.TopRatedFromInput | vector.py:138-154 | Each top-rated document is built from a book of the table: id `TopRated-` + its id, with its title, authors, rating and ratings count. |
| DocumentIdentifiers.BookIds | vector.py:98 | Book ids are distinct for distinct record ids and start with a digit or a minus sign. |
| DocumentIdentifiers.AuthorIds | vector.py:115 | Author ids are distinct for distinct names and start with `A`. |
| DocumentIdentifiers.DecadeIds | vector.py:132 | Decade ids are distinct for distinct decades and start with `D`. |
| DocumentIdentifiers.TopRatedRecordIds | vector.py:138 | The selected books have distinct ids when the table's ids are distinct. |
| DocumentIdentifiers.TopRatedIds | vector.py:152 | Top-rated ids are distinct for distinct record ids and start with `T`. |
| DocumentIdentifiers.SegmentsIdsDistinct | vector.py:68-154 | Four id-distinct segments whose ids start with different kinds of character concatenate to an id-distinct list. |
| DocumentIdentifiers.DocumentIdsUnique | vector.py:80-154 | With distinct record ids, every synthesized document has its own id. |
| Scenarios.EmptyCatalog | vector.py:68-154 | An empty table gives an empty document list and no error. |
| Scenarios.TwoBookCatalog | vector.py:68-154 | Two books from 1990: book 1 by x, rated higher; book 2 by x and y. The author table is [x: 2, y: 1], the decade table [1990: 2] and the top rated books 1 then 2, seven documents in all. |
| Scenarios.DocumentCount | vector.py:68-154 | Two counted books with two authors and one decade make seven documents. |
| Scenarios.AuthorPart | vector.py:104-109 | In the two-book catalog, the author table is x with 2 books, then y with 1. |
| Scenarios.DecadePart | vector.py:121-126 | In the two-book catalog, the decade table is 1990 with 2 books. |
| Scenarios.TopOrder | vector.py:138 | In the two-book catalog, the higher-rated book comes first among the top rated. |

## Left out

- Reading the JSON-lines file, chunked or not (`vector.py:35-42`), is I/O. The
  model starts from the sequence of parsed lines.
- Embeddings, the FAISS store, and the retriever with its save/load (`vector.py:64-66`,
  `vector.py:157-176`) are I/O and foreign code. So is the whole of `main.py`, the
  interactive prompt loop. `main.py` is not part of this model.
- Floating point is not modelled. Ratings are integers in hundredths of a star,
  and years and counts are integers. The model does not capture:
  - rating values that are not whole hundredths;
  - floats rendered inside contents (`1990.0` once a column holds NaN, `4.5` for
    a rating);
  - `Decade-1990.0` ids when some year is missing.

  Contents and ids render numbers as integers, and a missing value as `nan`.
- Records.ToNumeric, Records.ToRating: texts such as `"4.5"`, `"1e3"`, `" 12 "`
  or `"+7"` are not read as numbers; only integer text is. pandas reads all of
  these, so the model turns them into missing values.
- Records.LoadRecords: only the three numeric columns are coerced. A missing or
  non-list `authors` field, non-string author entries and a null title are not
  modelled; every row has a title and a list of author texts.
- Synthesis.AuthorGroups, Synthesis.TopRatedRecords: `sort_values` uses an
  unstable quicksort by default. The order among equal counts or equal ratings
  is not specified: the contracts fix only the order of the sort key. So which
  of several books tied at the fiftieth rating are kept is left open.
- Grouping.GroupSizes: the intermediate key order of `groupby` (sorted keys) is
  not stated, because each use is followed by a `sort_values`.
- Document page content is built (as `Join`, `RenderNumber` and string
  concatenation). Beyond the numbers in it reading back
  (`Documents.RenderNumberReadsBack`) and the layout of the joined author list
  (`Text.JoinLayout`), no property of its wording is proved.
- `head(50)` follows the sort, so unrated books are selected when fewer than
  fifty books have a rating (`vector.py:138`).
- `int(row["ratings_count"])` at `vector.py:150` raises on NaN, although lines
  91-94 turn every other missing value into `None`. The model makes synthesis
  as a whole fail (`SynthesisError`) when a selected book has no ratings count.
- Records.LoadRecords: a numeric column that no line carries makes
  `df["publication_year"]` (and the other coerced columns) raise `KeyError` at
  `vector.py:47-49`, and an empty file makes `pd.concat([])` raise at
  `vector.py:40`. The model's raw line always has every field, so such a column
  becomes all missing, and `LoadRecords([])` is the empty table.
- DocumentIdentifiers.DocumentIdsUnique: uniqueness is proved only for integer
  record ids. `str(row["id"])` at `vector.py:98` would use a text id as it is,
  and such an id could equal an `Author-`, `Decade-` or `TopRated-` id.
- Integer width: pandas stores these columns as int64, while the model's
  integers are unbounded; wrap-around near the int64 limits (for example
  `(year // 10) * 10` at `vector.py:52` for a year near the minimum) is not
  modelled.
