/**
 * The data the crawler works on: the site description (`Website`), the two
 * kinds of record (`Article`, `Product`), and the network seen as a finite
 * map from URL to fetched page.
 */
module Site {
  import opened Wrappers
  import opened Extract

  /** `Website`: the link filter and the CSS selectors of one site. The
      filter `targetPattern` is the site's regular expression, searched in a
      link's `href`; it is kept abstract. */
  datatype Website = Website(
    targetPattern: string -> bool,
    titleTag: string,
    dateTag: string,
    subtitleTag: string,
    descriptionTag: string,
    packageNameTag: string,
    priceTag: string)

  /** `Article(url, title, date)`. */
  datatype Article = Article(url: string, title: string, date: string)

  /** `Product(url, title, name, subtitle, description, package_name, price)`;
      `packageName` and `price` hold one line per variant. */
  datatype Product = Product(
    url: string,
    title: string,
    name: string,
    subtitle: string,
    description: string,
    packageName: string,
    price: string)

  /** A page `getPage` could turn into a document: the `href`s of the links
      inside its `div.entry-content` (None when it has no such `div`), in
      document order, and the element texts each selector matches. */
  datatype Page = Page(entryLinks: Option<seq<string>>, doc: Document)

  /** The pages that answer; a URL outside the map is one whose request
      fails, so `getPage` returns None. */
  type Web = map<string, Page>

  /** `getPage(url)`. */
  function Fetch(web: Web, url: string): (r: Option<Page>)
    ensures r.Some? <==> url in web
    ensures r.Some? ==> r.value in web.Values
  {
    if url in web then Some(web[url]) else None
  }
}
