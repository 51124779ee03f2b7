/** `load_jsonl_to_df`: the book table after its columns are coerced and the
    `decade` column is derived. */
module Records {
  import opened Wrappers
  import opened Text

  /** A numeric column's value as it appears in a JSON line. A JSON number in the
      `average_rating` column is in hundredths of a star. */
  datatype JsonValue = JsonNumber(n: int) | JsonString(s: string) | JsonNull

  /** One JSON line, before coercion. */
  datatype RawRecord = RawRecord(
    id: int,
    title: string,
    authors: seq<string>,
    publicationYear: JsonValue,
    averageRating: JsonValue,
    ratingsCount: JsonValue,
    imageUrl: string)

  /** One row of the normalized table; a missing numeric field is `None` (NaN). */
  datatype Record = Record(
    id: int,
    title: string,
    authors: seq<string>,
    year: Option<int>,
    rating: Option<int>,
    ratingsCount: Option<int>,
    imageUrl: string)
  {
    /** The derived `decade` column. */
    function Decade(): Option<int> {
      DecadeOf(year)
    }
  }

  /** The values `pd.to_numeric` can read: a number, or a text holding an integer. */
  predicate IsNumeric(v: JsonValue) {
    v.JsonNumber? || (v.JsonString? && IsIntegerText(v.s))
  }

  /** `pd.to_numeric(..., errors="coerce")` on one value: a value that cannot be
      read becomes missing instead of raising. */
  function ToNumeric(v: JsonValue): (r: Option<int>)
    ensures r.Some? <==> IsNumeric(v)
    ensures v.JsonNumber? ==> r == Some(v.n)
  {
    match v
    case JsonNumber(n) => Some(n)
    case JsonString(s) => ParseInt(s)
    case JsonNull => None
  }

  /** A number written as text is read back as that number. */
  lemma ToNumericText(n: int)
    ensures ToNumeric(JsonString(IntToString(n))) == Some(n)
  {
    ParseIntToString(n);
  }

  /** `(year // 10) * 10`: the multiple of ten at or below the year (floor, also
      for negative years); a missing year gives a missing decade. */
  function DecadeOf(year: Option<int>): (d: Option<int>)
    ensures d.None? <==> year.None?
    ensures year.Some? ==> d.value % 10 == 0 && d.value <= year.value < d.value + 10
  {
    match year
    case None => None
    case Some(y) => Some((y / 10) * 10)
  }

  /** The decade is the only multiple of ten within ten years at or below the year. */
  lemma DecadeUnique(y: int, d: int)
    requires d % 10 == 0 && d <= y < d + 10
    ensures DecadeOf(Some(y)) == Some(d)
  {
    var e := DecadeOf(Some(y)).value;
    assert d == (d / 10) * 10 && e == (e / 10) * 10;
    assert d / 10 == e / 10;
  }

  /** `pd.to_numeric` on the `average_rating` column, in hundredths of a star: a
      JSON number is already in hundredths, and a text holding an integer is a
      whole number of stars. */
  function ToRating(v: JsonValue): (r: Option<int>)
    ensures r.Some? <==> IsNumeric(v)
    ensures v.JsonNumber? ==> r == Some(v.n)
  {
    match v
    case JsonString(s) => (match ParseInt(s) case Some(n) => Some(100 * n) case None => None)
    case _ => ToNumeric(v)
  }

  /** A rating of n stars written as text is n hundred hundredths. */
  lemma ToRatingText(n: int)
    ensures ToRating(JsonString(IntToString(n))) == Some(100 * n)
  {
    ParseIntToString(n);
  }

  /** One JSON line as a table row: the non-numeric fields copied, the numeric
      ones coerced, each missing exactly when its value cannot be read. */
  function Normalize(raw: RawRecord): (r: Record)
    ensures r.id == raw.id && r.title == raw.title && r.authors == raw.authors
    ensures r.imageUrl == raw.imageUrl
    ensures r.year == ToNumeric(raw.publicationYear) && r.ratingsCount == ToNumeric(raw.ratingsCount)
    ensures r.rating == ToRating(raw.averageRating)
    ensures r.year.Some? <==> IsNumeric(raw.publicationYear)
    ensures r.rating.Some? <==> IsNumeric(raw.averageRating)
    ensures r.ratingsCount.Some? <==> IsNumeric(raw.ratingsCount)
    ensures r.Decade() == DecadeOf(ToNumeric(raw.publicationYear))
  {
    Record(raw.id, raw.title, raw.authors,
           ToNumeric(raw.publicationYear), ToRating(raw.averageRating),
           ToNumeric(raw.ratingsCount), raw.imageUrl)
  }

  /** The normalized table: one row per line in file order, no row dropped or
      merged; each numeric field is the coerced value, missing exactly when its
      value cannot be read. */
  function LoadRecords(raws: seq<RawRecord>): (rs: seq<Record>)
    ensures |rs| == |raws|
    ensures forall i :: 0 <= i < |rs| ==>
      && rs[i].id == raws[i].id && rs[i].title == raws[i].title
      && rs[i].authors == raws[i].authors && rs[i].imageUrl == raws[i].imageUrl
      && rs[i].year == ToNumeric(raws[i].publicationYear)
      && rs[i].rating == ToRating(raws[i].averageRating)
      && rs[i].ratingsCount == ToNumeric(raws[i].ratingsCount)
      && (rs[i].year.Some? <==> IsNumeric(raws[i].publicationYear))
      && (rs[i].rating.Some? <==> IsNumeric(raws[i].averageRating))
      && (rs[i].ratingsCount.Some? <==> IsNumeric(raws[i].ratingsCount))
      && (rs[i].Decade().Some? <==> IsNumeric(raws[i].publicationYear))
  {
    seq(|raws|, i requires 0 <= i < |raws| => Normalize(raws[i]))
  }
}
