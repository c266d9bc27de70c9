/** The read-only query service of main.py:34-79 over the table loaded from
    the crawler's CSV file. The table is loaded once and never changed, so
    every endpoint is a function of the table and the request's parameters. */
module Query {
  import opened Wrappers
  import opened Text
  import opened Seqs

  /** One row of the loaded table. */
  datatype Book = Book(
    id: int,
    title: string,
    category: string,
    price: string,
    rating: int,
    availability: int,
    imageUrl: string)

  /** The table as loaded at start-up: `Missing` when the CSV file was not found
      (an empty frame without any column), otherwise its rows in file order. */
  datatype Table = Missing | Loaded(rows: seq<Book>)

  /** What an endpoint answers with status 200. */
  datatype Reply =
    | Books(books: seq<Book>)
    | Categories(names: seq<string>)
    | Message(text: string)

  /** An error answer: an HTTP status and its detail text. */
  datatype HttpError = HttpError(status: nat, detail: string)

  const NoDataMessage: string := "Nenhum dado de livro encontrado."
  const NoMatchMessage: string := "Nenhum livro encontrado com os critérios fornecidos."
  const NoCriteriaDetail: string := "Forneça pelo menos um critério de busca: 'title' ou 'category'."
  const NotFoundDetail: string := "Livro com o ID fornecido não encontrado."

  /** A column lookup on the column-less frame raises `KeyError`, which the
      framework answers as an internal server error. */
  const NoColumnError: HttpError := HttpError(500, "Internal Server Error")

  /** The rows of the table; the missing table has none. */
  function Rows(t: Table): seq<Book> {
    match t
    case Missing => []
    case Loaded(rows) => rows
  }

  // ---------------------------------------------------------------------
  // GET /api/v1/books

  /** Every book in load order, or the no-data message for an empty table. */
  function GetAllBooks(t: Table): (r: Reply)
    ensures r.Message? <==> |Rows(t)| == 0
    ensures r.Message? ==> r.text == NoDataMessage
    ensures !r.Message? ==> r == Books(Rows(t))
  {
    if |Rows(t)| == 0 then Message(NoDataMessage) else Books(Rows(t))
  }

  // ---------------------------------------------------------------------
  // GET /api/v1/categories

  /** The category column. */
  function CategoryColumn(rows: seq<Book>): (column: seq<string>)
    ensures |column| == |rows|
    ensures forall i :: 0 <= i < |rows| ==> column[i] == rows[i].category
  {
    seq(|rows|, i requires 0 <= i < |rows| => rows[i].category)
  }

  /** The distinct categories in the order they first appear, or the no-data
      message for an empty table. */
  function GetCategories(t: Table): (r: Reply)
    ensures r.Message? <==> |Rows(t)| == 0
    ensures r.Message? ==> r.text == NoDataMessage
    ensures |Rows(t)| > 0 ==> r.Categories?
    ensures r.Categories? ==> NoDuplicates(r.names)
    ensures r.Categories? ==> forall b :: b in Rows(t) ==> b.category in r.names
    ensures r.Categories? ==> forall c :: c in r.names ==> exists b :: b in Rows(t) && b.category == c
  {
    var rows := Rows(t);
    if |rows| == 0 then Message(NoDataMessage)
    else
      var names := Distinct(CategoryColumn(rows));
      assert forall b :: b in rows ==> b.category in CategoryColumn(rows) by {
        forall b | b in rows ensures b.category in CategoryColumn(rows) {
          var i :| 0 <= i < |rows| && rows[i] == b;
          assert CategoryColumn(rows)[i] == b.category;
        }
      }
      Categories(names)
  }

  /** Categories come in the order of their first appearance in the table. */
  lemma CategoriesFirstSeen(t: Table)
    requires |Rows(t)| > 0
    ensures GetCategories(t).Categories?
    ensures var names := GetCategories(t).names;
      forall i, j :: 0 <= i < j < |names| ==>
        FirstIndex(CategoryColumn(Rows(t)), names[i]) < FirstIndex(CategoryColumn(Rows(t)), names[j])
  {
    DistinctFirstSeenOrder(CategoryColumn(Rows(t)));
  }

  // ---------------------------------------------------------------------
  // GET /api/v1/books/search

  /** A query parameter that is present and not empty (Python truthiness). */
  predicate Given(param: Option<string>) {
    param.Some? && param.value != ""
  }

  /** The title contains the query, ignoring case. */
  predicate TitleMatches(b: Book, query: string) {
    Contains(Lower(b.title), Lower(query))
  }

  /** The category equals the query, ignoring case. */
  predicate CategoryMatches(b: Book, query: string) {
    Lower(b.category) == Lower(query)
  }

  /** A book meets every criterion that was given. */
  predicate Selected(b: Book, title: Option<string>, category: Option<string>) {
    && (Given(title) ==> TitleMatches(b, title.value))
    && (Given(category) ==> CategoryMatches(b, category.value))
  }

  /** The title filter, then the category filter, each applied only when its
      parameter is given. */
  function SearchResults(rows: seq<Book>, title: Option<string>, category: Option<string>): (results: seq<Book>)
    ensures IsSubsequence(results, rows)
    ensures forall b :: b in results <==> b in rows && Selected(b, title, category)
    ensures forall b :: multiset(results)[b] == if Selected(b, title, category) then multiset(rows)[b] else 0
  {
    var byTitle := if Given(title) then Filter(rows, b => TitleMatches(b, title.value)) else rows;
    assert IsSubsequence(byTitle, rows) by {
      if !Given(title) {
        SubsequenceRefl(rows);
      }
    }
    var results := if Given(category) then Filter(byTitle, b => CategoryMatches(b, category.value)) else byTitle;
    assert IsSubsequence(results, byTitle) by {
      if !Given(category) {
        SubsequenceRefl(byTitle);
      }
    }
    SubsequenceTrans(results, byTitle, rows);
    results
  }

  /** The search endpoint: a 400 error when neither parameter is given, the
      no-match message when no book meets the criteria, otherwise the books
      that meet every given criterion, in table order. */
  function SearchBooks(t: Table, title: Option<string>, category: Option<string>): (r: Result<Reply, HttpError>)
    ensures r == Err(HttpError(400, NoCriteriaDetail)) <==> !Given(title) && !Given(category)
    ensures r.Ok? <==> (Given(title) || Given(category)) && t.Loaded?
    ensures (Given(title) || Given(category)) && t.Missing? ==> r == Err(NoColumnError)
    ensures r.Ok? ==> r.value.Books? || r.value == Message(NoMatchMessage)
    ensures r.Ok? ==> (r.value.Message? <==> forall b :: b in t.rows ==> !Selected(b, title, category))
    ensures r.Ok? && r.value.Books? ==>
      && IsSubsequence(r.value.books, t.rows)
      && (forall b :: b in r.value.books <==> b in t.rows && Selected(b, title, category))
      && forall b :: multiset(r.value.books)[b] == if Selected(b, title, category) then multiset(t.rows)[b] else 0
  {
    if !Given(title) && !Given(category) then Err(HttpError(400, NoCriteriaDetail))
    else if t.Missing? then Err(NoColumnError)
    else
      var results := SearchResults(t.rows, title, category);
      if |results| == 0 then Ok(Message(NoMatchMessage))
      else
        assert results[0] in results;
        Ok(Books(results))
  }

  /** The two filters in turn select exactly what one filter on both criteria
      selects: with both parameters given the result is their intersection, in
      table order. */
  lemma SearchIsOneFilter(rows: seq<Book>, title: Option<string>, category: Option<string>, selected: Book -> bool)
    requires forall b :: selected(b) == Selected(b, title, category)
    ensures SearchResults(rows, title, category) == Filter(rows, selected)
  {
    if Given(title) && Given(category) {
      var byTitle := b => TitleMatches(b, title.value);
      var byCategory := b => CategoryMatches(b, category.value);
      assert SearchResults(rows, title, category) == Filter(Filter(rows, byTitle), byCategory);
      FilterTwice(rows, byTitle, byCategory, selected);
    } else if Given(title) {
      var byTitle := b => TitleMatches(b, title.value);
      assert SearchResults(rows, title, category) == Filter(rows, byTitle);
      FilterSameMask(rows, byTitle, selected);
    } else if Given(category) {
      var byCategory := b => CategoryMatches(b, category.value);
      assert SearchResults(rows, title, category) == Filter(rows, byCategory);
      FilterSameMask(rows, byCategory, selected);
    } else {
      assert SearchResults(rows, title, category) == rows;
      FilterAll(rows, selected);
    }
  }

  // ---------------------------------------------------------------------
  // GET /api/v1/books/{book_id}

  /** `k` is the position of the first row with this id. */
  predicate FirstWithId(rows: seq<Book>, id: int, k: int) {
    0 <= k < |rows| && rows[k].id == id && forall j :: 0 <= j < k ==> rows[j].id != id
  }

  /** The position of the first row with this id, if any. */
  function IndexOfId(rows: seq<Book>, id: int): (k: Option<nat>)
    ensures k.Some? ==> FirstWithId(rows, id, k.value)
    ensures k.None? ==> forall b :: b in rows ==> b.id != id
    decreases |rows|
  {
    if |rows| == 0 then None
    else if rows[0].id == id then Some(0)
    else
      match IndexOfId(rows[1..], id)
      case None => None
      case Some(k) => Some(k + 1)
  }

  /** The book with this id: the first such row, a 404 error when there is
      none, and an internal error on the missing table. */
  function GetBookById(t: Table, id: int): (r: Result<Book, HttpError>)
    ensures r == Err(HttpError(404, NotFoundDetail)) <==> t.Loaded? && forall b :: b in t.rows ==> b.id != id
    ensures r == Err(NoColumnError) <==> t.Missing?
    ensures r.Ok? <==> t.Loaded? && exists b :: b in t.rows && b.id == id
    ensures r.Ok? ==> exists k :: FirstWithId(t.rows, id, k) && t.rows[k] == r.value
  {
    if t.Missing? then Err(NoColumnError)
    else
      match IndexOfId(t.rows, id)
      case None => Err(HttpError(404, NotFoundDetail))
      case Some(k) => Ok(t.rows[k])
  }
}
