/** The parts of the catalog's HTML that the crawler looks at, as plain data.
    Parsing is not modelled: a page is what the HTML queries of the crawler
    would find in it, and `None` stands for an element the query did not find. */
module Pages {
  import opened Wrappers

  /** The catalog directory every relative link is resolved against. */
  const CatalogUrl: string := "https://books.toscrape.com/catalogue/"

  /** The first listing page the walk fetches. */
  const StartUrl: string := CatalogUrl + "page-1.html"

  /** One `article.product_pod` of a listing page: the `href` of the anchor in its
      `h3` (`None` when the anchor has no `href` attribute). */
  datatype Entry = Entry(href: Option<string>)

  /** The anchor inside the `li.next` pagination control. */
  datatype Anchor = Anchor(href: Option<string>)

  /** The `li.next` pagination control, with the anchor it holds, if any. */
  datatype NextControl = NextControl(anchor: Option<Anchor>)

  /** A listing page: its book entries in document order and its `li.next` control. */
  datatype ListingPage = ListingPage(entries: seq<Entry>, next: Option<NextControl>)

  /** The `img` inside the active carousel item; `src` is its source attribute. */
  datatype ImgTag = ImgTag(src: Option<string>)

  /** The `div.item.active` carousel item and the `img` it holds, if any. */
  datatype ImageBlock = ImageBlock(img: Option<ImgTag>)

  /** A book's detail page: the text of its `h1`, of `p.price_color` and of
      `p.instock.availability`; the texts of the links in `ul.breadcrumb`; the
      class tokens of `p.star-rating`; and the carousel item. */
  datatype DetailPage = DetailPage(
    heading: Option<string>,
    priceText: Option<string>,
    availabilityText: Option<string>,
    breadcrumb: Option<seq<string>>,
    ratingClasses: Option<seq<string>>,
    imageBlock: Option<ImageBlock>)

  /** The href of the anchor in the `li.next` control, when there is one. */
  function NextHref(page: ListingPage): Option<string> {
    match page.next
    case None => None
    case Some(control) =>
      match control.anchor
      case None => None
      case Some(anchor) => anchor.href
  }

  /** The URL of the page to fetch after `page`: the catalog URL followed by the
      next control's href when that href is present and non-empty, and no URL
      (the end of the catalog) otherwise. */
  function NextCursor(page: ListingPage): (cursor: Option<string>)
    ensures cursor.Some? <==>
      page.next.Some? && page.next.value.anchor.Some? &&
      page.next.value.anchor.value.href.Some? && page.next.value.anchor.value.href.value != ""
    ensures cursor.Some? ==> cursor.value == CatalogUrl + page.next.value.anchor.value.href.value
  {
    match NextHref(page)
    case Some(href) => if href != "" then Some(CatalogUrl + href) else None
    case None => None
  }
}
