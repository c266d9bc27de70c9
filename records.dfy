/** One scraped book, built from a detail page (scraper.py:50-79), and the
    table the crawler hands to the CSV writer (scraper.py:110-111). */
module Records {
  import opened Wrappers
  import opened Text
  import opened Pages
  import opened Fields

  /** A scraped book. The id is the text cut from the URL, not yet a number. */
  datatype BookRecord = BookRecord(
    id: string,
    title: string,
    price: string,
    rating: nat,
    availability: nat,
    category: string,
    imageUrl: string)

  /** Why building a record raised in the script: an element the code reads
      without a check is missing, the breadcrumb has fewer than three links, or
      the availability text holds no digit for `int`. */
  datatype ExtractError =
    | MissingHeading
    | MissingPrice
    | MissingAvailability
    | MissingBreadcrumb
    | ShortBreadcrumb
    | NoAvailabilityDigits

  /** Builds the record of the book at `relativeUrl` from its detail page, or
      the error that the first unchecked access raises. */
  function ExtractRecord(relativeUrl: string, page: DetailPage): (r: Result<BookRecord, ExtractError>)
    ensures r.Ok? <==>
      page.heading.Some? && page.priceText.Some? && page.availabilityText.Some? &&
      page.breadcrumb.Some? && |page.breadcrumb.value| >= 3 &&
      Availability(page.availabilityText.value).Some?
    ensures r.Ok? ==>
      && r.value.title == page.heading.value
      && r.value.category == page.breadcrumb.value[2]
      && r.value.rating <= 5
      && '_' !in r.value.id && '/' !in r.value.id
  {
    if page.heading.None? then Err(MissingHeading)
    else if page.priceText.None? then Err(MissingPrice)
    else if page.availabilityText.None? then Err(MissingAvailability)
    else if page.breadcrumb.None? then Err(MissingBreadcrumb)
    else if |page.breadcrumb.value| < 3 then Err(ShortBreadcrumb)
    else
      var id := BookId(relativeUrl);
      var title := page.heading.value;
      var price := CleanPrice(page.priceText.value);
      var availability := Availability(page.availabilityText.value);
      var category := page.breadcrumb.value[2];
      var rating := Rating(page.ratingClasses);
      var imageUrl := ImageUrl(ImageSource(page.imageBlock));
      match availability
      case None => Err(NoAvailabilityDigits)
      case Some(count) => Ok(BookRecord(id, title, price, rating, count, category, imageUrl))
  }

  /** The fields of a record built from a detail page are the normalised
      texts of that page. */
  lemma ExtractRecordFields(relativeUrl: string, page: DetailPage)
    requires ExtractRecord(relativeUrl, page).Ok?
    ensures var book := ExtractRecord(relativeUrl, page).value;
      && book.id == BookId(relativeUrl)
      && book.price == CleanPrice(page.priceText.value)
      && Availability(page.availabilityText.value) == Some(book.availability)
      && book.rating == Rating(page.ratingClasses)
      && book.imageUrl == ImageUrl(ImageSource(page.imageBlock))
  {
  }

  /** The error is the one raised by the first access that fails, in the order
      the fields are read. */
  lemma ExtractRecordErrors(relativeUrl: string, page: DetailPage)
    ensures ExtractRecord(relativeUrl, page) == Err(MissingHeading) <==> page.heading.None?
    ensures ExtractRecord(relativeUrl, page) == Err(MissingPrice) <==>
      page.heading.Some? && page.priceText.None?
    ensures ExtractRecord(relativeUrl, page) == Err(MissingAvailability) <==>
      page.heading.Some? && page.priceText.Some? && page.availabilityText.None?
    ensures ExtractRecord(relativeUrl, page) == Err(MissingBreadcrumb) <==>
      page.heading.Some? && page.priceText.Some? && page.availabilityText.Some? && page.breadcrumb.None?
    ensures ExtractRecord(relativeUrl, page) == Err(ShortBreadcrumb) <==>
      page.heading.Some? && page.priceText.Some? && page.availabilityText.Some? &&
      page.breadcrumb.Some? && |page.breadcrumb.value| < 3
    ensures ExtractRecord(relativeUrl, page) == Err(NoAvailabilityDigits) <==>
      page.heading.Some? && page.priceText.Some? && page.availabilityText.Some? &&
      page.breadcrumb.Some? && |page.breadcrumb.value| >= 3 &&
      Availability(page.availabilityText.value).None?
  {
  }

  // ---------------------------------------------------------------------
  // The table written to the CSV file

  /** A cell of the output table. */
  datatype Cell = Str(s: string) | Num(n: int)

  /** The output table: a header and one row per record. */
  datatype Table = Table(header: seq<string>, rows: seq<seq<Cell>>)

  /** Selecting columns of a frame built from no record at all raises `KeyError`. */
  datatype FrameError = NoColumns

  /** The keys of the dictionary the crawler appends, in the order it writes them. */
  const RecordKeys: seq<string> :=
    ["id", "title", "price", "rating", "availability", "category", "image_url"]

  /** The column order of the output file. */
  const Columns: seq<string> :=
    ["id", "title", "category", "price", "rating", "availability", "image_url"]

  /** The dictionary the crawler appends for a record, looked up by key. */
  function Lookup(book: BookRecord, key: string): (cell: Option<Cell>)
    ensures cell.Some? <==> key in RecordKeys
  {
    if key == "id" then Some(Str(book.id))
    else if key == "title" then Some(Str(book.title))
    else if key == "price" then Some(Str(book.price))
    else if key == "rating" then Some(Num(book.rating))
    else if key == "availability" then Some(Num(book.availability))
    else if key == "category" then Some(Str(book.category))
    else if key == "image_url" then Some(Str(book.imageUrl))
    else None
  }

  /** One row in output column order. */
  function Row(book: BookRecord): (row: seq<Cell>)
    ensures |row| == |Columns|
    ensures forall k :: 0 <= k < |Columns| ==> Lookup(book, Columns[k]) == Some(row[k])
  {
    [Str(book.id), Str(book.title), Str(book.category), Str(book.price),
     Num(book.rating), Num(book.availability), Str(book.imageUrl)]
  }

  /** The data frame built from the records with its columns selected in output
      order: its header is the fixed column list and each of its cells is the
      value the record's dictionary holds under that column's name. A frame of
      no record has no column to select. */
  function Frame(books: seq<BookRecord>): (r: Result<Table, FrameError>)
    ensures r.Ok? <==> |books| > 0
    ensures r.Ok? ==>
      && r.value.header == Columns
      && |r.value.rows| == |books|
      && forall i, k :: 0 <= i < |books| && 0 <= k < |Columns| ==>
           |r.value.rows[i]| == |Columns| && Lookup(books[i], Columns[k]) == Some(r.value.rows[i][k])
  {
    if |books| == 0 then Err(NoColumns)
    else Ok(Table(Columns, seq(|books|, i requires 0 <= i < |books| => Row(books[i]))))
  }
}
