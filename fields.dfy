/** The field normalisers the crawler applies to a detail page: the id from
    the book's relative URL, the price text, the availability count, the star
    rating and the absolute image URL. */
module Fields {
  import opened Wrappers
  import opened Text
  import opened Pages

  /** The site root that replaces the `../../` prefix of image sources. */
  const SiteRoot: string := "https://books.toscrape.com/"

  /** The relative prefix that image sources on detail pages start with. */
  const UpTwoLevels: string := "../../"

  /** `Â`, the glyph a mis-decoded `£` sign leaves in front of prices. */
  const MisdecodedGlyph: char := '\U{C2}'

  /** The rating words of `p.star-rating`, for ratings 1 to 5 in order. */
  const RatingWords: seq<string> := ["One", "Two", "Three", "Four", "Five"]

  // ---------------------------------------------------------------------
  // Id

  /** The id of a book: the last `_`-separated field of its relative URL, cut
      at its first `/`. */
  function BookId(relativeUrl: string): (id: string)
    ensures '_' !in id && '/' !in id
    ensures |id| <= |relativeUrl|
  {
    BeforeFirst(AfterLast(relativeUrl, '_'), '/')
  }

  /** On a detail path `<slug>_<id>/<rest>` the id is recovered exactly, whatever
      the slug holds. */
  lemma BookIdOfDetailPath(slug: string, id: string, rest: string)
    requires '_' !in id && '/' !in id && '_' !in rest
    ensures BookId(slug + "_" + id + "/" + rest) == id
  {
    var tail := id + "/" + rest;
    assert '_' !in tail;
    assert slug + "_" + id + "/" + rest == slug + ['_'] + tail;
    AfterLastOfJoin(slug, '_', tail);
    BeforeFirstOfJoin(id, '/', rest);
  }

  // ---------------------------------------------------------------------
  // Price

  /** The price text with every `Â` removed and every other character kept. */
  function CleanPrice(text: string): (price: string)
    ensures MisdecodedGlyph !in price
    ensures forall x :: x != MisdecodedGlyph ==> multiset(price)[x] == multiset(text)[x]
  {
    RemoveChar(text, MisdecodedGlyph)
  }

  /** Cleaning a price twice is the same as cleaning it once. */
  lemma CleanPriceIdempotent(text: string)
    ensures CleanPrice(CleanPrice(text)) == CleanPrice(text)
  {
    RemoveCharAbsent(CleanPrice(text), MisdecodedGlyph);
  }

  /** Cleaning keeps the order of the other characters: it works piece by piece. */
  lemma CleanPriceAppend(a: string, b: string)
    ensures CleanPrice(a + b) == CleanPrice(a) + CleanPrice(b)
  {
    RemoveCharAppend(a, b, MisdecodedGlyph);
  }

  // ---------------------------------------------------------------------
  // Availability

  /** The count spelled by the digits of the stripped availability text, read
      as one decimal number; `None` when the text has no digit at all (where
      `int('')` fails). */
  function Availability(text: string): (count: Option<nat>)
    ensures count.None? <==> forall i :: 0 <= i < |text| ==> !IsDigit(text[i])
    ensures count.Some? ==> count.value == DecimalValue(DigitsOf(text))
  {
    DigitsOfStrip(text);
    var digits := DigitsOf(Strip(text));
    if digits == "" then None else Some(DecimalValue(digits))
  }

  /** Digits written between two digit-free texts are read back as one number. */
  lemma AvailabilityBetween(a: string, d: string, b: string)
    requires forall i :: 0 <= i < |a| ==> !IsDigit(a[i])
    requires forall i :: 0 <= i < |b| ==> !IsDigit(b[i])
    requires |d| > 0 && AllDigits(d)
    ensures Availability(a + d + b) == Some(DecimalValue(d))
  {
    var ad := a + d;
    var s := ad + b;
    DigitsOfAppend(ad, b);
    DigitsOfAppend(a, d);
    DigitsOfDigits(d);
    var da, db := DigitsOf(a), DigitsOf(b);
    assert da == [] && db == [];
    assert DigitsOf(ad) == d;
    assert DigitsOf(s) == d + db;
    assert d + db == d;
    assert IsDigit(s[|a|]);
    var count := Availability(s);
    assert count.Some?;
    assert count.value == DecimalValue(d);
  }

  /** The detail page's stock sentence gives back the count written in it:
      "In stock (23 available)" gives 23. */
  lemma AvailabilityOfStockText(n: nat)
    ensures Availability("In stock (" + Decimal(n) + " available)") == Some(n)
  {
    var a, b := "In stock (", " available)";
    assert forall i :: 0 <= i < |a| ==> !IsDigit(a[i]);
    assert forall i :: 0 <= i < |b| ==> !IsDigit(b[i]);
    AvailabilityBetween(a, Decimal(n), b);
    DecimalRoundTrip(n);
  }

  // ---------------------------------------------------------------------
  // Rating

  /** The number a rating word stands for, 0 for any other word. */
  function RatingValue(word: string): (n: nat)
    ensures n <= 5
    ensures n == 0 <==> word !in RatingWords
    ensures n > 0 ==> RatingWords[n - 1] == word
  {
    if word == "One" then 1
    else if word == "Two" then 2
    else if word == "Three" then 3
    else if word == "Four" then 4
    else if word == "Five" then 5
    else 0
  }

  /** The rating: the second class token of `p.star-rating` read as a rating
      word, 0 when the element is missing, has fewer than two tokens or the
      token is not a rating word. */
  function Rating(classes: Option<seq<string>>): (n: nat)
    ensures n <= 5
    ensures n > 0 <==>
      classes.Some? && |classes.value| > 1 && classes.value[1] in RatingWords
    ensures n > 0 ==> classes.value[1] == RatingWords[n - 1]
  {
    var tokens := if classes.Some? then classes.value else [];
    var token := if |tokens| > 1 then tokens[1] else "";
    RatingValue(token)
  }

  /** Each of the five words is read back as its own position, 1 to 5. */
  lemma RatingOfWord(k: nat)
    requires 1 <= k <= 5
    ensures Rating(Some(["star-rating", RatingWords[k - 1]])) == k
  {
  }

  // ---------------------------------------------------------------------
  // Image

  /** The `src` of the carousel image, `""` when the item, the image or the
      attribute is missing. */
  function ImageSource(block: Option<ImageBlock>): (src: string)
    ensures src != "" ==> block.Some? && block.value.img.Some? && block.value.img.value.src == Some(src)
    ensures block.None? || block.value.img.None? || block.value.img.value.src.None? ==> src == ""
    ensures block.Some? && block.value.img.Some? && block.value.img.value.src.Some? ==>
      src == block.value.img.value.src.value
  {
    match block
    case None => ""
    case Some(item) =>
      match item.img
      case None => ""
      case Some(img) => if img.src.Some? then img.src.value else ""
  }

  /** The absolute image URL: every `../../` of the source replaced by the site
      root; `""` for an empty source. */
  function ImageUrl(src: string): (url: string)
    ensures url == "" <==> src == ""
    ensures !Contains(src, UpTwoLevels) ==> url == src
  {
    if src == "" then ""
    else
      assert !Contains(src, UpTwoLevels) ==> ReplaceAll(src, UpTwoLevels, SiteRoot) == src by {
        if !Contains(src, UpTwoLevels) {
          ReplaceAllAbsent(src, UpTwoLevels, SiteRoot);
        }
      }
      ReplaceAll(src, UpTwoLevels, SiteRoot)
  }

  /** The first `../../` of a source becomes the site root, and the rest of the
      source is converted the same way; with `ImageUrl`'s own clause for a
      source without `../../`, this fixes the URL of every source. */
  lemma ImageUrlOfFirst(a: string, b: string)
    requires !Contains(a + "../..", UpTwoLevels)
    ensures ImageUrl(a + UpTwoLevels + b) == a + SiteRoot + ImageUrl(b)
  {
    assert UpTwoLevels[..|UpTwoLevels| - 1] == "../..";
    ReplaceAllFirst(a, UpTwoLevels, SiteRoot, b);
  }

  /** The catalog's usual source `../../<path>` becomes `<site root><path>`. */
  lemma ImageUrlOfRelative(path: string)
    requires !Contains(path, UpTwoLevels)
    ensures ImageUrl(UpTwoLevels + path) == SiteRoot + path
  {
    var s := UpTwoLevels + path;
    assert s[..|UpTwoLevels|] == UpTwoLevels;
    assert s[|UpTwoLevels|..] == path;
    ReplaceAllAbsent(path, UpTwoLevels, SiteRoot);
  }
}
