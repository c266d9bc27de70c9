# Book crawler and book query service, modelled in Dafny

The repository has two halves. `scraper.py` walks the listing pages of the
books.toscrape.com catalogue. For every book entry it fetches the detail page,
normalises seven fields into a record, and writes all records to a CSV file.
`main.py` loads that file once and serves list, category, search and by-id
endpoints over it.

This project models both halves without their libraries.

- HTML is replaced by page datatypes (`Pages`): a listing page is its entries'
  hrefs plus its `li.next` control; a detail page is the optional texts of the
  elements the crawler reads.
- HTTP is replaced by two oracle functions from URL to `Option<page>`. `None`
  means the request raised.
- The CSV table is a sequence of records (`Records.Frame` for the written
  table, `Query.Table` for the loaded one).

Modules, one per component:

- `Text`: the Python string operations the code uses (`replace`, `split`,
  digit filtering, `int`, `strip`, `lower`, substring search).
- `Seqs`: boolean-mask filtering and `unique()`.
- `Fields`: the field normalisers of scraper.py:50-68.
- `Records`: the record built at scraper.py:71-79 and the column selection
  at scraper.py:111.
- `Walker`: the crawl loop. `Walk` and `ScanEntries` are its specification.
  The methods `Crawl` (outer `while`) and `ScanPage` (inner `for`) are the
  loops themselves, proved equal to the specification. The walk is stated
  for any function that builds a record from a detail page, and `Scrape`
  runs it with `Records.ExtractRecord`. The walk's properties hold whatever
  the records are.
- `Query`: the four endpoints of main.py:34-79, as pure functions of the
  immutable table.

Behaviour of the code that a reader may not expect:

- The loop guard `while URL:` tests a constant, so the walk ends only by a
  `break` or an exception. After the last page sets `current_url = None`, the
  next request fails and the loop breaks. `FetchListing` makes that explicit.
- A book whose detail page cannot be fetched is skipped, not kept with an
  empty category.
- A missing `h1`, price, availability element or breadcrumb, a breadcrumb
  with fewer than three links, or an availability text with no digit raises.
  That ends the script before anything is written (`Stop.Crashed`).
  Availability has no default of 0.
- The debug limit of 5 books (`BookLimit`) is part of the model.
- With no record at all, selecting the columns of the empty frame raises, so
  no file is written (`Records.Frame`, `Walker.Output`).
- Ids are not deduplicated.
- When the CSV file is missing, `search` and `get_book_by_id` look up a column
  of a column-less frame. They answer with an internal error (500), not 503.

## Model

| member | source | states |
|---|---|---|
| Fields.BookId | scraper.py:50 | the id contains neither `_` nor `/` and is no longer than the URL |
| Fields.BookIdOfDetailPath | scraper.py:50 | on a path `<slug>_<id>/<rest>` (id free of `_` and `/`, rest free of `_`) the id is recovered exactly, whatever the slug |
| Text.AfterLastOfJoin | scraper.py:50 | `split('_')[-1]` gives exactly the text after the last separator |
| Text.BeforeFirstOfJoin | scraper.py:50 | `split('/')[0]` gives exactly the text before the first separator |
| Fields.CleanPrice | scraper.py:52 | no `Â` remains and every other character occurs as often as in the input |
| Fields.CleanPriceIdempotent | scraper.py:52 | cleaning twice equals cleaning once |
| Fields.CleanPriceAppend | scraper.py:52 | cleaning works piece by piece, so the kept characters stay in order |
| Text.RemoveCharAbsent | scraper.py:52 | a text without the glyph is unchanged |
| Fields.Availability | scraper.py:53-54 | no count exactly when the text has no digit (where `int('')` raises); otherwise the number spelled by the text's digits concatenated in order, `strip` making no difference |
| Text.DigitsOfStrip | scraper.py:53-54 | stripping whitespace leaves the digit characters unchanged |
| Fields.AvailabilityBetween | scraper.py:53-54 | digits written between two digit-free texts are read back as one number |
| Fields.AvailabilityOfStockText | scraper.py:53-54 | "In stock (n available)" gives n, for every n (so 23 for "In stock (23 available)") |
| Text.DecimalRoundTrip | scraper.py:76 | `int` of the decimal spelling of n is n |
| Fields.RatingValue | scraper.py:59-60 | the value lies in 0..5; it is 0 exactly for a word outside the five; otherwise the word is the rating word at that position |
| Fields.Rating | scraper.py:56-60 | the rating is total and lies in 0..5; it is non-zero exactly when the tag exists with at least two class tokens and the second is a rating word, which it then names |
| Fields.RatingOfWord | scraper.py:56-60 | each of One..Five is read as 1..5 |
| Fields.ImageSource | scraper.py:61-67 | a missing item, image or attribute gives `''`; when the carousel item's image has a `src`, that `src` is returned; a non-empty result is always such a `src` |
| Fields.ImageUrl | scraper.py:68 | empty exactly for an empty source; a source without `../../` is unchanged |
| Fields.ImageUrlOfRelative | scraper.py:68 | `../../<path>` becomes the site root followed by `<path>` |
| Text.ReplaceAllAbsent | scraper.py:68 | `replace` leaves a text without the pattern unchanged |
| Text.ReplaceAllFirst | scraper.py:68 | `replace` rewrites the first occurrence of the pattern and carries on after it, leaving the text before it unchanged |
| Fields.ImageUrlOfFirst | scraper.py:68 | the first `../../` of a source becomes the site root, the text before it is kept and the rest is rewritten in turn |
| Pages.NextCursor | scraper.py:97-106 | the next URL exists exactly when `li.next` holds an anchor with a non-empty href, and is then the catalogue URL followed by that href |
| Records.ExtractRecord | scraper.py:50-79 | a record is built exactly when heading, price, availability and a breadcrumb of at least three links exist and the availability text has a digit; its title is the heading, its category the third breadcrumb link, its rating at most 5, its id free of `_` and `/` |
| Records.ExtractRecordFields | scraper.py:50-79 | a built record holds the page's id, cleaned price, digit count, rating and absolute image URL |
| Records.ExtractRecordErrors | scraper.py:51-76 | the error is that of the first failing access in reading order: heading, price, availability element, breadcrumb, a breadcrumb of fewer than three links, and last the availability text without digits at `int('')` |
| Records.Lookup | scraper.py:71-79 | the appended dictionary has a value exactly for its seven keys |
| Records.Row | scraper.py:111 | a row has one cell per output column, each the dictionary's value under that column's name |
| Records.Frame | scraper.py:110-111 | a table exists exactly when there is a record; its header is `id, title, category, price, rating, availability, image_url` and every cell is the record's value under its column's name |
| Walker.FetchListing | scraper.py:19-24 | a cursor without a URL makes the request fail; a URL gets the site's answer for that URL |
| Walker.StepEntry | scraper.py:32-87 | an entry without href, with an empty href or whose detail fetch fails changes nothing; a record that cannot be built crashes the crawl with that error and the records unchanged; a built record is appended, the count goes up by one and the crawl does not crash; the count invariant is kept |
| Walker.ScanEntries | scraper.py:32-92 | the count invariant `len(books) == book_counter <= BOOK_LIMIT` is kept; a stopped state is left as it is; a page scan never reports a fetch failure |
| Walker.Walk | scraper.py:16-106 | the count invariant holds in the final state |
| Walker.ScanPage | scraper.py:32-92 | the inner loop's result is `ScanEntries` of the state it started from; the count never exceeds the limit; the limit stop happens exactly when the count reaches `BOOK_LIMIT` |
| Walker.VisitPage | scraper.py:16-106 | one pass of the outer loop: a stop is the walk's final state; otherwise the walk from the new state and next cursor, one iteration fewer, is the same walk |
| Walker.Crawl | scraper.py:9-106 | for any record builder, and whenever the walk stops within `pages` iterations, the loop's result is `Walk` from the first page; it stops with `len(books) == book_counter <= BOOK_LIMIT` |
| Walker.Scrape | scraper.py:9-121 | the script crawls with `ExtractRecord` and writes `Output` of the final state: when written, the fixed header and between 1 and `BOOK_LIMIT` rows |
| Walker.ScanFollowsPage | scraper.py:32-92 | a page adds a prefix of its entries' records in document order, and all of them unless the limit or a crash stopped it |
| Walker.WalkFollowsChain | scraper.py:16-106 | the crawl's records are a prefix of the records of all pages in traversal order |
| Walker.WalkKeepsChain | scraper.py:16-106 | when the walk ends by a failed listing fetch, it has kept every record of every page it reached, in traversal order |
| Walker.ScanReachesCrash | scraper.py:32-87 | when the scan of a page reaches an entry still running and that entry crashes, the scan ends in that crash |
| Walker.CrashEndsScript | scraper.py:32-121 | a record that cannot be built, on an entry the crawl reaches, ends the walk in that crash with the records gathered before it, and no file is written |
| Walker.WalkTerminates | scraper.py:16-24 | when the chain of pages ends, the walk stops |
| Walker.LastPageEndsWalk | scraper.py:97-106 | after a page without a usable `li.next` the walk ends by a failed fetch with that page's records |
| Walker.FetchFailureKeepsRecords | scraper.py:19-24 | a failed listing fetch ends the walk, keeps every record gathered and they are all written out |
| Walker.Output | scraper.py:108-121 | a file is written exactly when the crawl did not crash and gathered a record; it is the frame of the gathered records, with the fixed header and one row per record |
| Query.GetAllBooks | main.py:34-39 | the no-data message exactly for an empty table, otherwise every book in load order |
| Seqs.Distinct | main.py:47 | `unique()` has no duplicates and holds exactly the values of its input |
| Seqs.DistinctFirstSeenOrder | main.py:47 | values come in the order of their first appearance |
| Query.GetCategories | main.py:41-48 | the no-data message exactly for an empty table; otherwise a category list of distinct categories that cover every book's category and each occur in the table |
| Query.CategoriesFirstSeen | main.py:47-48 | the categories come in first-seen order |
| Seqs.Filter | main.py:61-65 | a mask keeps exactly the elements that pass it, as a subsequence, each passing element as often as it occurs |
| Seqs.FilterTwice | main.py:61-65 | two masks in turn equal one mask that holds exactly when both do |
| Text.ContainsAt | main.py:62 | the substring test holds exactly when the query occurs at some position |
| Query.SearchResults | main.py:56-65 | the results are a subsequence of the table and hold exactly the books meeting every given criterion, each as often as in the table |
| Query.SearchIsOneFilter | main.py:56-65 | the title filter then the category filter equal one filter on the conjunction, in table order |
| Query.SearchBooks | main.py:50-70 | the 400 error exactly when both parameters are falsy; a reply exactly when a criterion is given over a loaded table; with a criterion over the missing table, the internal error; no match gives the no-match message, not an error; otherwise the books meeting every criterion, in table order, each as often as in the table |
| Query.IndexOfId | main.py:75-78 | the position found is that of the first row with the id; none means no row has it |
| Query.GetBookById | main.py:72-79 | a book exactly when the table is loaded and some row has the id, and then the first such row; 404 exactly when the loaded table has no row with the id; the internal error exactly on the missing table |

## Left out

- Fetching and parsing. `requests.get` and BeautifulSoup are not modelled. Fetches are oracle functions and pages are datatypes of what the HTML queries find.
- A listing entry without an `h3` or an anchor. That raises at scraper.py:33; an `Entry` carries only the anchor's optional href.
- `time.sleep` and every `print`. They are pacing and logging only.
- Writing and reading the CSV file, and `os.makedirs`. The written table is `Records.Frame`; the loaded table is given as `Query.Table`, with the id already parsed as an integer.
- How CSV reading turns empty strings into missing values. It is not modelled.
- The duplicated `id` column that `reset_index().rename(...)` adds (main.py:16). The loaded table has a single `id`.
- FastAPI construction, routing, `read_root` and `health_check`. They are constant glue.
- `str.contains` treats the query as a regular expression. Titles are matched as plain substrings.
- Case folding, `str.isdigit` and `str.strip` are restricted to ASCII letters, digits and whitespace.
- Python exception types. A crash of the crawler is `Stop.Crashed` carrying the access that failed. In the query service, a column lookup on the missing table is an error with status 500.
- Walker.Crawl: it requires the walk to stop within `pages` iterations. A site where the script never stops (its `next` links cycle without enough books to reach the limit) is not modelled; `WalkTerminates` shows that every site whose chain of pages ends is covered.
- Walker.Crawl: its result is stated as `Walk` with the ghost bound `pages`. That any sufficient bound gives the same result is not proved.
