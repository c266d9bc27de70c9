/** The crawl loop of scraper.py:16-106: fetch a listing page, build a record
    for each of its entries from the entry's detail page, stop after
    `BookLimit` records, and follow the `li.next` link.

    Fetching is an oracle: `listing` and `detail` give, for a URL, the parsed
    page or `None` when the request raises. The loop's own guard is a constant
    and always true; the walk ends only by `break` or by an exception: on a
    failed listing fetch (which also happens on the iteration after the last
    page, when the cursor holds no URL), when the book limit is reached, or when
    building a record raises. `Walk` is the specification of the loop and
    `Crawl` the loop itself. */
module Walker {
  import opened Wrappers
  import opened Pages
  import opened Records
  import opened Seqs

  /** The number of records after which the crawler stops. */
  const BookLimit: nat := 5

  /** How the walk ended, or `Running` while it goes on. */
  datatype Stop =
    | Running
    | LimitReached
    | FetchFailed
    | Crashed(error: ExtractError)

  /** The crawler's state: the `books` list, `book_counter` and how it stopped. */
  datatype CrawlState = CrawlState(books: seq<BookRecord>, counter: nat, stop: Stop)

  const Initial: CrawlState := CrawlState([], 0, Running)

  /** How a record is built from an entry's href and its detail page. The walk
      is stated for any such function and run with `ExtractRecord`. */
  type Extractor = (string, DetailPage) -> Result<BookRecord, ExtractError>

  /** The accumulator invariant: one count per record, never above the limit,
      and at the limit exactly when the walk stopped there. */
  predicate Counted(st: CrawlState) {
    && |st.books| == st.counter <= BookLimit
    && (st.stop == Running ==> st.counter < BookLimit)
    && (st.stop == LimitReached ==> st.counter == BookLimit)
  }

  /** Fetching the page the cursor points to; a cursor without a URL makes the
      request raise like any transport failure. */
  function FetchListing(listing: string -> Option<ListingPage>, cursor: Option<string>): (page: Option<ListingPage>)
    ensures cursor.None? ==> page.None?
    ensures cursor.Some? ==> page == listing(cursor.value)
  {
    match cursor
    case None => None
    case Some(url) => listing(url)
  }

  /** The record an entry contributes when nothing goes wrong: none when its
      href is missing or empty, when its detail page cannot be fetched, or when
      building the record raises. */
  function EntryRecords(e: Entry, detail: string -> Option<DetailPage>, extract: Extractor): seq<BookRecord> {
    if e.href.None? || e.href.value == "" then []
    else match detail(CatalogUrl + e.href.value)
      case None => []
      case Some(page) =>
        match extract(e.href.value, page)
        case Ok(book) => [book]
        case Err(_) => []
  }

  /** The outcome of building the record of an entry whose href is usable and
      whose detail page was fetched; none for any other entry. */
  function Built(e: Entry, detail: string -> Option<DetailPage>, extract: Extractor): Option<Result<BookRecord, ExtractError>> {
    if e.href.None? || e.href.value == "" then None
    else match detail(CatalogUrl + e.href.value)
      case None => None
      case Some(page) => Some(extract(e.href.value, page))
  }

  /** One pass of the inner `for` loop over a listing entry. */
  function StepEntry(st: CrawlState, e: Entry, detail: string -> Option<DetailPage>, extract: Extractor): (next: CrawlState)
    requires st.stop == Running
    ensures Counted(st) ==> Counted(next)
    ensures next.stop.Crashed? ==> next.books == st.books
    ensures !next.stop.Crashed? ==> next.books == st.books + EntryRecords(e, detail, extract)
    ensures next.stop == Running || next.stop == LimitReached || next.stop.Crashed?
    ensures (e.href.None? || e.href == Some("") || detail(CatalogUrl + e.href.value).None?) ==> next == st
    ensures Built(e, detail, extract).Some? && Built(e, detail, extract).value.Err? ==>
      next == st.(stop := Crashed(Built(e, detail, extract).value.error))
    ensures Built(e, detail, extract).Some? && Built(e, detail, extract).value.Ok? ==>
      && !next.stop.Crashed?
      && next.books == st.books + [Built(e, detail, extract).value.value]
      && next.counter == st.counter + 1
  {
    if e.href.None? || e.href.value == "" then st
    else match detail(CatalogUrl + e.href.value)
      case None => st
      case Some(page) =>
        match extract(e.href.value, page)
        case Err(error) => st.(stop := Crashed(error))
        case Ok(book) =>
          var counter := st.counter + 1;
          CrawlState(st.books + [book], counter, if counter >= BookLimit then LimitReached else Running)
  }

  /** The inner loop over a page's entries, left to right, until one of them
      stops the walk. */
  function ScanEntries(st: CrawlState, es: seq<Entry>, detail: string -> Option<DetailPage>, extract: Extractor): (next: CrawlState)
    ensures Counted(st) ==> Counted(next)
    ensures st.stop != Running ==> next == st
    ensures st.stop == Running ==> next.stop != FetchFailed
    decreases |es|
  {
    if |es| == 0 || st.stop != Running then st
    else ScanEntries(StepEntry(st, es[0], detail, extract), es[1..], detail, extract)
  }

  /** The outer loop from `cursor` on, for at most `fuel` iterations. */
  function Walk(listing: string -> Option<ListingPage>, detail: string -> Option<DetailPage>, extract: Extractor,
                st: CrawlState, cursor: Option<string>, fuel: nat): (final: CrawlState)
    ensures Counted(st) ==> Counted(final)
    decreases fuel
  {
    if st.stop != Running || fuel == 0 then st
    else match FetchListing(listing, cursor)
      case None => st.(stop := FetchFailed)
      case Some(page) =>
        var after := ScanEntries(st, page.entries, detail, extract);
        if after.stop != Running then after
        else Walk(listing, detail, extract, after, NextCursor(page), fuel - 1)
  }

  /** The chain of listing pages from `cursor` reaches a failed fetch (or the
      end of the chain) within `n` iterations. */
  predicate Ends(listing: string -> Option<ListingPage>, cursor: Option<string>, n: nat)
    decreases n
  {
    n > 0 &&
    match FetchListing(listing, cursor)
    case None => true
    case Some(page) => Ends(listing, NextCursor(page), n - 1)
  }

  /** The inner `for` loop over the entries of one listing page, starting from
      the records and count gathered so far. An entry without a usable href or
      whose detail page cannot be fetched is skipped; a record that cannot be
      built ends the crawl; reaching the limit breaks out of the loop. */
  method ScanPage(entries: seq<Entry>, detail: string -> Option<DetailPage>, extract: Extractor,
                  books0: seq<BookRecord>, counter0: nat)
    returns (books: seq<BookRecord>, counter: nat, stop: Stop)
    requires |books0| == counter0 < BookLimit
    ensures CrawlState(books, counter, stop) == ScanEntries(CrawlState(books0, counter0, Running), entries, detail, extract)
    ensures stop == Running || stop == LimitReached || stop.Crashed?
    ensures |books| == counter <= BookLimit
    ensures stop == LimitReached <==> counter == BookLimit
  {
    books, counter := books0, counter0;
    ghost var start := CrawlState(books0, counter0, Running);
    var i := 0;
    while i < |entries|
      invariant 0 <= i <= |entries|
      invariant |books| == counter < BookLimit
      invariant ScanEntries(CrawlState(books, counter, Running), entries[i..], detail, extract)
             == ScanEntries(start, entries, detail, extract)
    {
      assert entries[i..][1..] == entries[i + 1..];
      var href := entries[i].href;
      if href.None? || href.value == "" {
        i := i + 1;
        continue;
      }
      var bookPage := detail(CatalogUrl + href.value);
      if bookPage.None? {
        i := i + 1;
        continue;
      }
      var record := extract(href.value, bookPage.value);
      if record.Err? {
        stop := Crashed(record.error);
        return;
      }
      books := books + [record.value];
      counter := counter + 1;
      if counter >= BookLimit {
        stop := LimitReached;
        return;
      }
      i := i + 1;
    }
    stop := Running;
  }

  // ---------------------------------------------------------------------
  // What the walk gathers

  /** The records of a page's entries, in document order, when none of them
      stops the walk. */
  function PageRecords(es: seq<Entry>, detail: string -> Option<DetailPage>, extract: Extractor): seq<BookRecord>
    decreases |es|
  {
    if |es| == 0 then [] else EntryRecords(es[0], detail, extract) + PageRecords(es[1..], detail, extract)
  }

  /** The records of every page of the chain from `cursor`, page after page, for
      at most `fuel` pages. */
  function ChainRecords(listing: string -> Option<ListingPage>, detail: string -> Option<DetailPage>, extract: Extractor,
                        cursor: Option<string>, fuel: nat): seq<BookRecord>
    decreases fuel
  {
    if fuel == 0 then []
    else match FetchListing(listing, cursor)
      case None => []
      case Some(page) => PageRecords(page.entries, detail, extract) + ChainRecords(listing, detail, extract, NextCursor(page), fuel - 1)
  }

  /** Scanning a page appends a prefix of the page's records, in order, and all
      of them when no entry stopped the walk. */
  lemma {:induction false} ScanFollowsPage(st: CrawlState, es: seq<Entry>, detail: string -> Option<DetailPage>, extract: Extractor)
    requires st.stop == Running
    ensures ScanEntries(st, es, detail, extract).books <= st.books + PageRecords(es, detail, extract)
    ensures ScanEntries(st, es, detail, extract).stop == Running ==>
      ScanEntries(st, es, detail, extract).books == st.books + PageRecords(es, detail, extract)
    decreases |es|
  {
    if |es| > 0 {
      var next := StepEntry(st, es[0], detail, extract);
      var mine := EntryRecords(es[0], detail, extract);
      var rest := PageRecords(es[1..], detail, extract);
      assert PageRecords(es, detail, extract) == mine + rest;
      if next.stop == Running {
        ScanFollowsPage(next, es[1..], detail, extract);
        AppendAssoc(st.books, mine, rest);
      } else {
        assert ScanEntries(st, es, detail, extract) == next;
        assert next.books <= st.books + mine;
        PrefixExtend(next.books, st.books, mine, rest);
      }
    }
  }

  /** The walk's records are a prefix of the records of the whole chain of
      pages, in traversal order. */
  lemma {:induction false} WalkFollowsChain(listing: string -> Option<ListingPage>, detail: string -> Option<DetailPage>, extract: Extractor,
                                            st: CrawlState, cursor: Option<string>, fuel: nat)
    requires st.stop == Running
    ensures Walk(listing, detail, extract, st, cursor, fuel).books <= st.books + ChainRecords(listing, detail, extract, cursor, fuel)
    decreases fuel
  {
    var final := Walk(listing, detail, extract, st, cursor, fuel);
    if fuel == 0 || FetchListing(listing, cursor).None? {
      assert final.books == st.books;
    } else {
      var page := FetchListing(listing, cursor).value;
      var after := ScanEntries(st, page.entries, detail, extract);
      var here := PageRecords(page.entries, detail, extract);
      var later := ChainRecords(listing, detail, extract, NextCursor(page), fuel - 1);
      assert ChainRecords(listing, detail, extract, cursor, fuel) == here + later;
      ScanFollowsPage(st, page.entries, detail, extract);
      if after.stop == Running {
        WalkFollowsChain(listing, detail, extract, after, NextCursor(page), fuel - 1);
        assert final == Walk(listing, detail, extract, after, NextCursor(page), fuel - 1);
        AppendAssoc(st.books, here, later);
      } else {
        assert final == after;
        PrefixExtend(after.books, st.books, here, later);
      }
    }
  }

  /** Unless the limit or a crash cut it short, the walk keeps every record of
      every page it reached. */
  lemma {:induction false} WalkKeepsChain(listing: string -> Option<ListingPage>, detail: string -> Option<DetailPage>, extract: Extractor,
                                          st: CrawlState, cursor: Option<string>, fuel: nat)
    requires st.stop == Running
    requires Walk(listing, detail, extract, st, cursor, fuel).stop == Running || Walk(listing, detail, extract, st, cursor, fuel).stop == FetchFailed
    ensures Walk(listing, detail, extract, st, cursor, fuel).books == st.books + ChainRecords(listing, detail, extract, cursor, fuel)
    decreases fuel
  {
    var final := Walk(listing, detail, extract, st, cursor, fuel);
    if fuel == 0 || FetchListing(listing, cursor).None? {
      assert final.books == st.books;
      assert ChainRecords(listing, detail, extract, cursor, fuel) == [];
      AppendEmpty(st.books);
    } else {
      var page := FetchListing(listing, cursor).value;
      var after := ScanEntries(st, page.entries, detail, extract);
      var here := PageRecords(page.entries, detail, extract);
      var later := ChainRecords(listing, detail, extract, NextCursor(page), fuel - 1);
      assert ChainRecords(listing, detail, extract, cursor, fuel) == here + later;
      assert after.stop == Running;
      ScanFollowsPage(st, page.entries, detail, extract);
      assert final == Walk(listing, detail, extract, after, NextCursor(page), fuel - 1);
      WalkKeepsChain(listing, detail, extract, after, NextCursor(page), fuel - 1);
      AppendAssoc(st.books, here, later);
    }
  }

  /** When the chain of pages ends within `n` iterations, so does the walk. */
  lemma {:induction false} WalkTerminates(listing: string -> Option<ListingPage>, detail: string -> Option<DetailPage>, extract: Extractor,
                                          st: CrawlState, cursor: Option<string>, n: nat)
    requires Ends(listing, cursor, n)
    ensures Walk(listing, detail, extract, st, cursor, n).stop != Running
    decreases n
  {
    if st.stop == Running {
      match FetchListing(listing, cursor)
      case None =>
      case Some(page) =>
        var after := ScanEntries(st, page.entries, detail, extract);
        if after.stop == Running {
          WalkTerminates(listing, detail, extract, after, NextCursor(page), n - 1);
        }
    }
  }

  /** A page without a usable `li.next` link is the last one: after its entries
      the cursor holds no URL, the next request fails and the walk ends with
      every record gathered. */
  lemma LastPageEndsWalk(listing: string -> Option<ListingPage>, detail: string -> Option<DetailPage>, extract: Extractor,
                         st: CrawlState, cursor: Option<string>, page: ListingPage, n: nat)
    requires st.stop == Running && n >= 2
    requires FetchListing(listing, cursor) == Some(page) && NextCursor(page).None?
    requires ScanEntries(st, page.entries, detail, extract).stop == Running
    ensures Walk(listing, detail, extract, st, cursor, n) == ScanEntries(st, page.entries, detail, extract).(stop := FetchFailed)
  {
  }

  /** A failed listing fetch ends the walk and keeps every record gathered so
      far, which the script then writes out. */
  lemma FetchFailureKeepsRecords(listing: string -> Option<ListingPage>, detail: string -> Option<DetailPage>, extract: Extractor,
                                 st: CrawlState, cursor: Option<string>, n: nat)
    requires st.stop == Running && n > 0 && |st.books| > 0
    requires FetchListing(listing, cursor).None?
    ensures Walk(listing, detail, extract, st, cursor, n).books == st.books
    ensures Output(Walk(listing, detail, extract, st, cursor, n)) == Some(Table(Columns, Frame(st.books).value.rows))
  {
  }

  /** The scan of a page reaches entry `i` still running and that entry
      crashes: the scan ends in that crash. */
  lemma {:induction false} ScanReachesCrash(st: CrawlState, es: seq<Entry>, detail: string -> Option<DetailPage>,
                                            extract: Extractor, i: nat)
    requires st.stop == Running && i < |es|
    requires ScanEntries(st, es[..i], detail, extract).stop == Running
    requires StepEntry(ScanEntries(st, es[..i], detail, extract), es[i], detail, extract).stop.Crashed?
    ensures ScanEntries(st, es, detail, extract)
      == StepEntry(ScanEntries(st, es[..i], detail, extract), es[i], detail, extract)
    decreases i
  {
    var st1 := StepEntry(st, es[0], detail, extract);
    if i == 0 {
      assert es[..0] == [];
    } else {
      assert es[..i][0] == es[0];
      assert es[..i][1..] == es[1..][..i - 1];
      assert st1.stop == Running;
      ScanReachesCrash(st1, es[1..], detail, extract, i - 1);
      assert es[1..][i - 1] == es[i];
    }
  }

  /** A record that cannot be built, on an entry the crawl reaches, raises out
      of the script: the walk ends in that crash with the records gathered
      before it, and no file is written. */
  lemma CrashEndsScript(listing: string -> Option<ListingPage>, detail: string -> Option<DetailPage>, extract: Extractor,
                        st: CrawlState, cursor: Option<string>, n: nat, page: ListingPage, i: nat)
    requires st.stop == Running && n > 0
    requires FetchListing(listing, cursor) == Some(page)
    requires i < |page.entries|
    requires ScanEntries(st, page.entries[..i], detail, extract).stop == Running
    requires Built(page.entries[i], detail, extract).Some? && Built(page.entries[i], detail, extract).value.Err?
    ensures Walk(listing, detail, extract, st, cursor, n)
      == ScanEntries(st, page.entries[..i], detail, extract).(stop := Crashed(Built(page.entries[i], detail, extract).value.error))
    ensures Output(Walk(listing, detail, extract, st, cursor, n)) == None
  {
    ScanReachesCrash(st, page.entries, detail, extract, i);
  }

  /** One iteration of the outer loop whose listing fetch fails. */
  lemma WalkFetchFails(listing: string -> Option<ListingPage>, detail: string -> Option<DetailPage>, extract: Extractor,
                       st: CrawlState, cursor: Option<string>, fuel: nat)
    requires st.stop == Running && fuel > 0
    requires FetchListing(listing, cursor).None?
    ensures Walk(listing, detail, extract, st, cursor, fuel) == st.(stop := FetchFailed)
  {
  }

  /** One iteration of the outer loop that scans a fetched page: the walk
      ends there or goes on from the page's next cursor. */
  lemma WalkStep(listing: string -> Option<ListingPage>, detail: string -> Option<DetailPage>, extract: Extractor,
                 st: CrawlState, cursor: Option<string>, fuel: nat, page: ListingPage, after: CrawlState)
    requires st.stop == Running && fuel > 0
    requires FetchListing(listing, cursor) == Some(page)
    requires after == ScanEntries(st, page.entries, detail, extract)
    ensures after.stop != Running ==> Walk(listing, detail, extract, st, cursor, fuel) == after
    ensures after.stop == Running ==>
      Walk(listing, detail, extract, st, cursor, fuel) == Walk(listing, detail, extract, after, NextCursor(page), fuel - 1)
  {
  }

  /** One pass of the outer loop's body: fetch the listing page at `cursor`
      and scan its entries. `next` is the cursor the script moves to when the
      loop goes on. */
  method VisitPage(listing: string -> Option<ListingPage>, detail: string -> Option<DetailPage>, extract: Extractor,
                   books0: seq<BookRecord>, counter0: nat, cursor: Option<string>, ghost fuel: nat)
    returns (books: seq<BookRecord>, counter: nat, stop: Stop, next: Option<string>)
    requires |books0| == counter0 < BookLimit && fuel > 0
    ensures |books| == counter <= BookLimit
    ensures stop != Running ==>
      CrawlState(books, counter, stop) == Walk(listing, detail, extract, CrawlState(books0, counter0, Running), cursor, fuel)
    ensures stop == Running ==> counter < BookLimit
    ensures stop == Running ==>
      Walk(listing, detail, extract, CrawlState(books, counter, Running), next, fuel - 1)
        == Walk(listing, detail, extract, CrawlState(books0, counter0, Running), cursor, fuel)
  {
    ghost var st := CrawlState(books0, counter0, Running);
    next := None;
    var response := FetchListing(listing, cursor);
    if response.None? {
      WalkFetchFails(listing, detail, extract, st, cursor, fuel);
      books, counter, stop := books0, counter0, FetchFailed;
      return;
    }
    var page := response.value;
    books, counter, stop := ScanPage(page.entries, detail, extract, books0, counter0);
    WalkStep(listing, detail, extract, st, cursor, fuel, page, CrawlState(books, counter, stop));
    next := NextCursor(page);
  }

  /** The crawl loop as the script runs it, from the first listing page, with
      `extract` building each record. The loop guard is the constant `true`;
      every exit is a `break`: a failed listing fetch, a crash or the book
      limit. It is stated for the `pages` iterations within which the walk
      stops. */
  method Crawl(listing: string -> Option<ListingPage>, detail: string -> Option<DetailPage>, extract: Extractor,
               ghost pages: nat)
    returns (books: seq<BookRecord>, counter: nat, stop: Stop)
    requires Walk(listing, detail, extract, Initial, Some(StartUrl), pages).stop != Running
    ensures CrawlState(books, counter, stop) == Walk(listing, detail, extract, Initial, Some(StartUrl), pages)
    ensures stop != Running
    ensures |books| == counter <= BookLimit
  {
    var currentUrl: Option<string> := Some(StartUrl);
    books, counter := [], 0;
    ghost var fuel := pages;
    ghost var final := Walk(listing, detail, extract, Initial, Some(StartUrl), pages);
    while true
      invariant |books| == counter < BookLimit
      invariant Walk(listing, detail, extract, CrawlState(books, counter, Running), currentUrl, fuel) == final
      decreases fuel
    {
      // With no iteration left the walk would still be running.
      assert fuel > 0;
      var next;
      books, counter, stop, next := VisitPage(listing, detail, extract, books, counter, currentUrl, fuel);
      if stop != Running {
        return;
      }
      currentUrl := next;
      fuel := fuel - 1;
    }
  }

  /** What the script leaves behind: the table written to the CSV file, or
      nothing when the crawl crashed or gathered no record. */
  function Output(final: CrawlState): (table: Option<Table>)
    ensures table.Some? <==> !final.stop.Crashed? && |final.books| > 0
    ensures table.Some? ==> table.value.header == Columns && |table.value.rows| == |final.books|
    ensures table.Some? ==> Frame(final.books) == Ok(table.value)
  {
    if final.stop.Crashed? then None
    else match Frame(final.books)
      case Ok(t) => Some(t)
      case Err(_) => None
  }

  /** The whole script: the crawl with `ExtractRecord`, then the table written
      to the CSV file, if any. */
  method Scrape(listing: string -> Option<ListingPage>, detail: string -> Option<DetailPage>, ghost pages: nat)
    returns (written: Option<Table>)
    requires Walk(listing, detail, ExtractRecord, Initial, Some(StartUrl), pages).stop != Running
    ensures written == Output(Walk(listing, detail, ExtractRecord, Initial, Some(StartUrl), pages))
    ensures written.Some? ==> written.value.header == Columns && 0 < |written.value.rows| <= BookLimit
  {
    var books, counter, stop := Crawl(listing, detail, ExtractRecord, pages);
    written := Output(CrawlState(books, counter, stop));
  }
}
