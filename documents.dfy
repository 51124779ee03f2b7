/** The four kinds of retrievable documents, one constructor per value of the
    metadata `type` tag, each with its own typed metadata. */
module Documents {
  import opened Wrappers
  import opened Text
  import opened Records
  import opened Grouping

  /** `DecadeAggregate.startYear` is the metadata `decade`, and
      `TopRated.numberOfRatings` the metadata `ratings_count`, of those kinds. */
  datatype Document =
    | Book(id: string, content: string, recordId: int, title: string, authors: seq<string>,
           year: Option<int>, decade: Option<int>, averageRating: Option<int>,
           ratingsCount: Option<int>, imageUrl: string)
    | AuthorAggregate(id: string, content: string, author: string, count: nat)
    | DecadeAggregate(id: string, content: string, startYear: int, count: nat)
    | TopRated(id: string, content: string, title: string, authors: seq<string>,
               averageRating: Option<int>, numberOfRatings: int)

  /** How a numeric field appears inside a sentence: reading the text back as a
      number gives the field again, and a missing value is `nan`. */
  function RenderNumber(v: Option<int>): string {
    match v
    case Some(n) => IntToString(n)
    case None => "nan"
  }

  /** A number rendered into a sentence reads back as that number, and a missing
      value is rendered `nan`, which reads back as missing. */
  lemma RenderNumberReadsBack(v: Option<int>)
    ensures ParseInt(RenderNumber(v)) == v
    ensures v.None? <==> RenderNumber(v) == "nan"
  {
    match v
    case Some(n) => ParseIntToString(n);
    case None => assert !IsDigit("nan"[0]);
  }

  /** The row-level document of one book; its id is the record id as text. */
  function BookDocument(r: Record): (d: Document)
    ensures d.Book? && d.id == IntToString(r.id) && d.recordId == r.id
    ensures d.title == r.title && d.authors == r.authors && d.imageUrl == r.imageUrl
    ensures d.year == r.year && d.decade == r.Decade()
    ensures d.averageRating == r.rating && d.ratingsCount == r.ratingsCount
  {
    Book(
      IntToString(r.id),
      "Book: " + r.title + " by " + Join(r.authors, ", ") + ". "
        + "Published in " + RenderNumber(r.year) + ", "
        + "average rating " + RenderNumber(r.rating) + " from "
        + RenderNumber(r.ratingsCount) + " ratings.",
      r.id, r.title, r.authors, r.year, r.Decade(), r.rating, r.ratingsCount, r.imageUrl)
  }

  /** The summary document of one author group. */
  function AuthorDocument(g: Group<string>): (d: Document)
    ensures d.AuthorAggregate? && d.id == "Author-" + g.key
    ensures d.author == g.key && d.count == g.count
  {
    AuthorAggregate(
      "Author-" + g.key,
      "Author " + g.key + " has " + IntToString(g.count) + " books in the dataset.",
      g.key, g.count)
  }

  /** The summary document of one decade group. */
  function DecadeDocument(g: Group<int>): (d: Document)
    ensures d.DecadeAggregate? && d.id == "Decade-" + IntToString(g.key)
    ensures d.startYear == g.key && d.count == g.count
  {
    DecadeAggregate(
      "Decade-" + IntToString(g.key),
      "In the " + IntToString(g.key) + "s, " + IntToString(g.count) + " books were published.",
      g.key, g.count)
  }

  /** The popularity document of one selected book; it needs a ratings count. */
  function TopRatedDocument(r: Record): (d: Document)
    requires r.ratingsCount.Some?
    ensures d.TopRated? && d.id == "TopRated-" + IntToString(r.id)
    ensures d.title == r.title && d.authors == r.authors
    ensures d.averageRating == r.rating && d.numberOfRatings == r.ratingsCount.value
  {
    TopRated(
      "TopRated-" + IntToString(r.id),
      "Highly rated book: " + r.title + " by " + Join(r.authors, ", ") + ", "
        + "average rating " + RenderNumber(r.rating) + " from "
        + IntToString(r.ratingsCount.value) + " ratings.",
      r.title, r.authors, r.rating, r.ratingsCount.value)
  }
}
