/**
 * `Crawler.parse` without its side effects: from a fetched page, decide
 * article, product or neither (article first), and build the record.
 */
module Parser {
  import opened Wrappers
  import opened Text
  import opened Extract
  import opened Prices
  import opened Site

  /** What one call of `parse` comes to. `Dropped` is an exception caught
      by the handler around the record build: the record is lost and the
      crawl goes on. */
  datatype ParseOutcome =
    | NotFetched
    | Neither
    | FoundArticle(article: Article)
    | FoundProduct(product: Product)
    | Dropped

  /** The description stored when the page has none. */
  const NoDescription: string := "No Description Contained."

  /** `url.split('/')[-2]`, or None where Python raises an IndexError. */
  function ProductName(url: string): Option<string>
  {
    var pieces := Split(url, "/");
    if |pieces| >= 2 then Some(pieces[|pieces| - 2]) else None
  }

  /** The text between the last two slashes of `url` (from the start when
      it has only one). */
  function SegmentBeforeLastSlash(url: string): string
    requires '/' in url
  {
    var head := url[..LastIndex(url, '/')];
    if '/' in head then head[LastIndex(head, '/') + 1..] else head
  }

  /** The product name exists exactly when the URL has a slash, and is the
      segment just before its last slash. */
  lemma ProductNameIsSegment(url: string)
    ensures ProductName(url).Some? <==> '/' in url
    ensures ProductName(url).Some? ==> ProductName(url).value == SegmentBeforeLastSlash(url)
  {
    SplitCount(url, '/');
    if '/' in url {
      SplitAtLast(url, '/');
      SplitLast(url[..LastIndex(url, '/')], '/');
    } else {
      SplitWithoutChar(url, '/');
    }
  }

  /** `safeGet(bs, titleTag).split('\n')[0]`. */
  function Title(site: Website, doc: Document): string
  {
    Split(SafeGet(doc, site.titleTag), "\n")[0]
  }

  /** The decision and record build of `parse` on a fetched document. */
  function ParsePage(site: Website, url: string, doc: Document): ParseOutcome
  {
    var title := Title(site, doc);
    var date := SafeGet(doc, site.dateTag);
    var subtitle := SafeGet(doc, site.subtitleTag);
    var packageName := SafeGet(doc, site.packageNameTag);
    if title != "" && date != "" then
      FoundArticle(Article(url, title, date))
    else if subtitle != "" && packageName != "" then
      var found := SafeGet(doc, site.descriptionTag);
      var description := if found != "" then found else NoDescription;
      var prices := CleanPrices(SafeGet(doc, site.priceTag));
      match ProductName(url)
      case Some(name) => FoundProduct(Product(url, title, name, subtitle, description, packageName, prices))
      case None => Dropped
    else
      Neither
  }

  /** `parse(url)`: fetch, then decide; nothing happens when the fetch
      fails. */
  function ParseUrl(site: Website, web: Web, url: string): ParseOutcome
  {
    match Fetch(web, url)
    case None => NotFetched
    case Some(page) => ParsePage(site, url, page.doc)
  }

  /** The title is the cleaned text of the first element the title selector
      matches (empty when none matches); it never holds a newline. */
  lemma TitleIsFirstElement(site: Website, doc: Document)
    ensures Title(site, doc) ==
      if |Select(doc, site.titleTag)| == 0 then "" else CleanText(Select(doc, site.titleTag)[0])
    ensures '\n' !in Title(site, doc)
  {
    SafeGetFirstLine(doc, site.titleTag);
    if |Select(doc, site.titleTag)| > 0 {
      CleanTextShape(Select(doc, site.titleTag)[0]);
    }
  }

  /** A page has an article's signals when its first title element and its
      date elements give text. */
  predicate ArticleSignals(site: Website, doc: Document)
  {
    var titles := Select(doc, site.titleTag);
    |titles| > 0 && CleanText(titles[0]) != "" && YieldsText(Select(doc, site.dateTag))
  }

  /** A page has a product's signals when its subtitle and package-name
      elements give text. */
  predicate ProductSignals(site: Website, doc: Document)
  {
    YieldsText(Select(doc, site.subtitleTag)) && YieldsText(Select(doc, site.packageNameTag))
  }

  /** The three-way decision in terms of the matched elements: an article
      exactly when its signals are present; otherwise a product (or a
      dropped record, when the URL has no `/`) exactly when the product's
      signals are present; otherwise neither. A fetched page is never
      reported as not fetched. */
  lemma ParseClassification(site: Website, url: string, doc: Document)
    ensures ParsePage(site, url, doc).FoundArticle? <==> ArticleSignals(site, doc)
    ensures ParsePage(site, url, doc).FoundProduct? <==>
      !ArticleSignals(site, doc) && ProductSignals(site, doc) && ProductName(url).Some?
    ensures ParsePage(site, url, doc).Dropped? <==>
      !ArticleSignals(site, doc) && ProductSignals(site, doc) && ProductName(url).None?
    ensures ParsePage(site, url, doc).Neither? <==>
      !ArticleSignals(site, doc) && !ProductSignals(site, doc)
    ensures !ParsePage(site, url, doc).NotFetched?
  {
    TitleIsFirstElement(site, doc);
    SafeGetEmpty(doc, site.dateTag);
    SafeGetEmpty(doc, site.subtitleTag);
    SafeGetEmpty(doc, site.packageNameTag);
  }

  /** An article record holds the page's URL, its one-line title and the
      joined date text, all non-empty except the URL. */
  lemma ArticleFields(site: Website, url: string, doc: Document)
    requires ParsePage(site, url, doc).FoundArticle?
    ensures var a := ParsePage(site, url, doc).article;
      && a.url == url
      && a.title == CleanText(Select(doc, site.titleTag)[0]) && a.title != "" && '\n' !in a.title
      && a.date == SafeGet(doc, site.dateTag) && a.date != ""
  {
    var title := Title(site, doc);
    var date := SafeGet(doc, site.dateTag);
    assert title != "" && date != "";
    assert ParsePage(site, url, doc) == FoundArticle(Article(url, title, date));
    TitleIsFirstElement(site, doc);
  }

  /** The product branch of `ParsePage`, spelled out. */
  lemma ProductRecord(site: Website, url: string, doc: Document)
    requires ParsePage(site, url, doc).FoundProduct?
    ensures ProductName(url).Some?
    ensures var found := SafeGet(doc, site.descriptionTag);
      ParsePage(site, url, doc).product == Product(
        url, Title(site, doc), ProductName(url).value,
        SafeGet(doc, site.subtitleTag),
        if found != "" then found else NoDescription,
        SafeGet(doc, site.packageNameTag),
        CleanPrices(SafeGet(doc, site.priceTag)))
  {
  }

  /** A product record: the description falls back to the placeholder, the
      price is the cleaned price text, and the name is the second-to-last
      `/`-piece of the URL. */
  lemma ProductFields(site: Website, url: string, doc: Document)
    requires ParsePage(site, url, doc).FoundProduct?
    ensures var p := ParsePage(site, url, doc).product;
      var found := SafeGet(doc, site.descriptionTag);
      && p.url == url
      && p.title == Title(site, doc)
      && p.description == (if found == "" then NoDescription else found)
      && p.description != ""
      && p.price == CleanPrices(SafeGet(doc, site.priceTag))
      && '/' in url && p.name == SegmentBeforeLastSlash(url)
  {
    ProductRecord(site, url, doc);
    ProductNameIsSegment(url);
  }

  /** The variants of a product record: the package names keep one line per
      matched element, and the price has one line per matched price element
      (one when none matched) plus the empty piece after the final newline. */
  lemma ProductVariants(site: Website, url: string, doc: Document)
    requires ParsePage(site, url, doc).FoundProduct?
    ensures var p := ParsePage(site, url, doc).product;
      var prices := Select(doc, site.priceTag);
      && Split(p.packageName, "\n") == CleanedTexts(Select(doc, site.packageNameTag))
      && |Split(p.price, "\n")| == (if |prices| == 0 then 1 else |prices|) + 1
  {
    ProductRecord(site, url, doc);
    ParseClassification(site, url, doc);
    SafeGetRoundTrip(doc, site.packageNameTag);
    SafeGetLineCount(doc, site.priceTag);
    CleanPricesLines(SafeGet(doc, site.priceTag));
  }
}
