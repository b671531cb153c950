/**
 * `Crawler.crawl` and `Crawler.parse` with their state: the visited lists
 * of dedup keys, which only grow and never repeat a key, and the two
 * module-level record accumulators, which `parse` appends to.
 */
module Crawl {
  import opened Wrappers
  import opened Text
  import opened UrlKeys
  import opened Site
  import opened Parser

  /** The module-level lists `articles_stored` and `products_stored`. */
  class Store {
    var articles: seq<Article>
    var products: seq<Product>

    constructor ()
      ensures articles == [] && products == []
    {
      articles := [];
      products := [];
    }
  }

  /** The article a parse outcome appends (none or one). */
  function ArticlesOf(o: ParseOutcome): (r: seq<Article>)
    ensures |r| <= 1
  {
    if o.FoundArticle? then [o.article] else []
  }

  /** The product a parse outcome appends (none or one). */
  function ProductsOf(o: ParseOutcome): (r: seq<Product>)
    ensures |r| <= 1
  {
    if o.FoundProduct? then [o.product] else []
  }

  /** The articles that parsing `links` one after the other appends. */
  function ArticlesFrom(decide: string -> ParseOutcome, links: seq<string>): seq<Article>
  {
    if |links| == 0 then []
    else ArticlesFrom(decide, links[..|links| - 1]) + ArticlesOf(decide(Last(links)))
  }

  /** The products that parsing `links` one after the other appends. */
  function ProductsFrom(decide: string -> ParseOutcome, links: seq<string>): seq<Product>
  {
    if |links| == 0 then []
    else ProductsFrom(decide, links[..|links| - 1]) + ProductsOf(decide(Last(links)))
  }

  /** The dedup key a link puts in the article list (`article` true) or in
      the product list (`article` false), if any: article-like links are
      keyed by `storing_article_urls`, the others by `storing_product_urls`
      (which `FirstSegment` computes, by `ProductKeyIsFirstSegment`). */
  function KeyOf(href: string, article: bool): Option<string>
  {
    if article then
      if ArticleLike(href) then Some(ArticleKey(href)) else None
    else
      if ArticleLike(href) then None else FirstSegment(href)
  }

  /** The keys parsing the given links has recorded in one visited list. */
  function Keys(links: seq<string>, article: bool): seq<string>
  {
    if |links| == 0 then []
    else
      var k := KeyOf(Last(links), article);
      Keys(links[..|links| - 1], article) + (if k.Some? then [k.value] else [])
  }

  /** No two parsed links share a dedup key of the same kind. */
  ghost predicate DistinctIdentities(links: seq<string>)
  {
    forall i, j, article: bool :: 0 <= i < j < |links| && KeyOf(links[i], article).Some? ==>
      KeyOf(links[i], article) != KeyOf(links[j], article)
  }

  /** The articles of two runs of parses are those of the first run, then
      those of the second. */
  lemma {:induction false} ArticlesAppend(decide: string -> ParseOutcome, a: seq<string>, b: seq<string>)
    ensures ArticlesFrom(decide, a + b) == ArticlesFrom(decide, a) + ArticlesFrom(decide, b)
    decreases |b|
  {
    if |b| == 0 {
      assert a + b == a;
    } else {
      var init := b[..|b| - 1];
      assert (a + b)[..|a + b| - 1] == a + init;
      assert Last(a + b) == Last(b);
      ArticlesAppend(decide, a, init);
    }
  }

  /** The products of two runs of parses are those of the first run, then
      those of the second. */
  lemma {:induction false} ProductsAppend(decide: string -> ParseOutcome, a: seq<string>, b: seq<string>)
    ensures ProductsFrom(decide, a + b) == ProductsFrom(decide, a) + ProductsFrom(decide, b)
    decreases |b|
  {
    if |b| == 0 {
      assert a + b == a;
    } else {
      var init := b[..|b| - 1];
      assert (a + b)[..|a + b| - 1] == a + init;
      assert Last(a + b) == Last(b);
      ProductsAppend(decide, a, init);
    }
  }

  /** Each parsed link adds at most one record, and every record comes from
      a parsed link whose outcome it is. */
  lemma {:induction false} RecordsOrigin(decide: string -> ParseOutcome, links: seq<string>)
    ensures |ArticlesFrom(decide, links)| + |ProductsFrom(decide, links)| <= |links|
    ensures forall a :: a in ArticlesFrom(decide, links) ==>
      exists k :: 0 <= k < |links| && decide(links[k]) == FoundArticle(a)
    ensures forall p :: p in ProductsFrom(decide, links) ==>
      exists k :: 0 <= k < |links| && decide(links[k]) == FoundProduct(p)
    decreases |links|
  {
    if |links| > 0 {
      var n := |links|;
      var init := links[..n - 1];
      RecordsOrigin(decide, init);
      assert ArticlesFrom(decide, links) == ArticlesFrom(decide, init) + ArticlesOf(decide(links[n - 1]));
      assert ProductsFrom(decide, links) == ProductsFrom(decide, init) + ProductsOf(decide(links[n - 1]));
      forall a | a in ArticlesFrom(decide, links)
        ensures exists k :: 0 <= k < n && decide(links[k]) == FoundArticle(a)
      {
        if a in ArticlesFrom(decide, init) {
          var k :| 0 <= k < |init| && decide(init[k]) == FoundArticle(a);
          assert init[k] == links[k];
        } else {
          assert decide(links[n - 1]) == FoundArticle(a);
        }
      }
      forall p | p in ProductsFrom(decide, links)
        ensures exists k :: 0 <= k < n && decide(links[k]) == FoundProduct(p)
      {
        if p in ProductsFrom(decide, init) {
          var k :| 0 <= k < |init| && decide(init[k]) == FoundProduct(p);
          assert init[k] == links[k];
        } else {
          assert decide(links[n - 1]) == FoundProduct(p);
        }
      }
    }
  }

  /** Handing one more link to `parse` extends each visited list by that
      link's key, if it has one of that kind, and the records by what its
      parse appends. */
  lemma Extended(links: seq<string>, href: string)
    ensures forall article: bool :: (Keys(links + [href], article) == Keys(links, article) +
      (if KeyOf(href, article).Some? then [KeyOf(href, article).value] else []))
  {
    assert (links + [href])[..|links|] == links;
  }

  lemma RecordsExtended(decide: string -> ParseOutcome, links: seq<string>, href: string)
    ensures ArticlesFrom(decide, links + [href]) == ArticlesFrom(decide, links) + ArticlesOf(decide(href))
    ensures ProductsFrom(decide, links + [href]) == ProductsFrom(decide, links) + ProductsOf(decide(href))
  {
    assert (links + [href])[..|links|] == links;
  }

  /** Every keyed link contributes its key to the list of its kind. */
  lemma {:induction false} KeyRecorded(links: seq<string>, article: bool, i: nat)
    requires i < |links| && KeyOf(links[i], article).Some?
    ensures KeyOf(links[i], article).value in Keys(links, article)
    decreases |links|
  {
    if i < |links| - 1 {
      var init := links[..|links| - 1];
      assert init[i] == links[i];
      KeyRecorded(init, article, i);
    }
  }

  /** A visited list without duplicates means that no two parsed links of
      that kind share a key: a key already present stops a second parse. */
  lemma {:induction false} KeysDistinct(links: seq<string>, article: bool, i: nat, j: nat)
    requires NoDups(Keys(links, article))
    requires i < j < |links| && KeyOf(links[i], article).Some?
    ensures KeyOf(links[i], article) != KeyOf(links[j], article)
    decreases |links|
  {
    var init := links[..|links| - 1];
    var prefix := Keys(init, article);
    var keys := Keys(links, article);
    assert keys[..|prefix|] == prefix;
    assert NoDups(prefix) by {
      forall a, b | 0 <= a < b < |prefix| ensures prefix[a] != prefix[b] {
        assert prefix[a] == keys[a] && prefix[b] == keys[b];
      }
    }
    assert init[i] == links[i];
    if j == |links| - 1 {
      KeyRecorded(init, article, i);
      var kj := KeyOf(links[j], article);
      if kj.Some? {
        assert keys == prefix + [kj.value];
        assert kj.value !in prefix by {
          forall m | 0 <= m < |prefix| ensures prefix[m] != kj.value {
            assert keys[m] == prefix[m] && keys[|prefix|] == kj.value;
          }
        }
      }
    } else {
      assert init[j] == links[j];
      KeysDistinct(init, article, i, j);
    }
  }

  lemma DistinctFromVisited(links: seq<string>)
    requires NoDups(Keys(links, true)) && NoDups(Keys(links, false))
    ensures DistinctIdentities(links)
  {
    forall i, j, article: bool | 0 <= i < j < |links| && KeyOf(links[i], article).Some?
      ensures KeyOf(links[i], article) != KeyOf(links[j], article)
    {
      KeysDistinct(links, article, i, j);
    }
  }

  /** The visited lists are exactly the keys of the parsed links, without
      duplicates, and only links the site's pattern accepts are parsed. */
  ghost predicate Consistent(site: Website, articles: seq<string>, products: seq<string>, parsed: seq<string>)
  {
    && articles == Keys(parsed, true)
    && products == Keys(parsed, false)
    && NoDups(articles)
    && NoDups(products)
    && forall k :: 0 <= k < |parsed| ==> site.targetPattern(parsed[k])
  }

  /** Parsing a new article link keeps the lists consistent. */
  lemma RecordArticle(site: Website, articles: seq<string>, products: seq<string>, parsed: seq<string>, href: string)
    requires Consistent(site, articles, products, parsed)
    requires site.targetPattern(href) && ArticleLike(href) && ArticleKey(href) !in articles
    ensures Consistent(site, articles + [ArticleKey(href)], products, parsed + [href])
  {
    Extended(parsed, href);
    assert Keys(parsed + [href], false) == Keys(parsed, false) + [];
  }

  /** Parsing a new product link keeps the lists consistent. */
  lemma RecordProduct(site: Website, articles: seq<string>, products: seq<string>, parsed: seq<string>, href: string)
    requires Consistent(site, articles, products, parsed)
    requires site.targetPattern(href) && !ArticleLike(href)
    requires ProductKey(href).Some? && ProductKey(href).value !in products
    ensures Consistent(site, articles, products + [ProductKey(href).value], parsed + [href])
  {
    ProductKeyIsFirstSegment(href);
    Extended(parsed, href);
    assert Keys(parsed + [href], true) == Keys(parsed, true) + [];
  }

  lemma PrefixSubset(a: seq<string>, b: seq<string>)
    requires IsPrefix(a, b)
    ensures (set k | k in a) <= (set k | k in b)
  {
    forall k | k in a ensures k in b {
      var m :| 0 <= m < |a| && a[m] == k;
      assert b[m] == k;
    }
  }

  /** Records a new key: the keys still unvisited shrink. */
  lemma Shrinks(universe: set<string>, entry: set<string>, seen: seq<string>, key: string)
    requires entry <= (set k | k in seen) && key in universe && key !in seen
    ensures universe - (set k | k in seen + [key]) < universe - entry
  {
    assert key in universe - entry;
  }

  /** A key in a visited list is the key of a link that was handed to
      `parse`. */
  lemma {:induction false} KeyOrigin(links: seq<string>, article: bool, key: string)
    requires key in Keys(links, article)
    ensures exists k :: 0 <= k < |links| && KeyOf(links[k], article) == Some(key)
    decreases |links|
  {
    var init := links[..|links| - 1];
    if key in Keys(init, article) {
      KeyOrigin(init, article, key);
      var k :| 0 <= k < |init| && KeyOf(init[k], article) == Some(key);
      assert links[k] == init[k];
    } else {
      assert KeyOf(links[|links| - 1], article) == Some(key);
    }
  }

  /** The link was dealt with: if the site's pattern accepts it, its key is
      in the visited list of its kind (the article key for an article-like
      link, the product key for any other). */
  ghost predicate LinkCovered(site: Website, href: string, articles: seq<string>, products: seq<string>)
  {
    site.targetPattern(href) ==>
      if ArticleLike(href) then ArticleKey(href) in articles
      else ProductKey(href).Some? && ProductKey(href).value in products
  }

  /** Every link of `targets` was dealt with. */
  ghost predicate Covered(site: Website, targets: seq<string>, articles: seq<string>, products: seq<string>)
  {
    forall k :: 0 <= k < |targets| ==> LinkCovered(site, targets[k], articles, products)
  }

  /** Growing the visited lists keeps a link dealt with. */
  lemma LinkCoveredGrows(site: Website, href: string, articles: seq<string>, products: seq<string>,
                         articles': seq<string>, products': seq<string>)
    requires LinkCovered(site, href, articles, products)
    requires IsPrefix(articles, articles') && IsPrefix(products, products')
    ensures LinkCovered(site, href, articles', products')
  {
    PrefixSubset(articles, articles');
    PrefixSubset(products, products');
    if site.targetPattern(href) {
      if ArticleLike(href) {
        assert ArticleKey(href) in (set k | k in articles);
      } else {
        assert ProductKey(href).value in (set k | k in products);
      }
    }
  }

  /** One more link of `targets` dealt with, while the lists grow. */
  lemma CoveredStep(site: Website, targets: seq<string>, i: nat, articles: seq<string>, products: seq<string>,
                    articles': seq<string>, products': seq<string>)
    requires i < |targets| && Covered(site, targets[..i], articles, products)
    requires IsPrefix(articles, articles') && IsPrefix(products, products')
    requires LinkCovered(site, targets[i], articles', products')
    ensures Covered(site, targets[..i + 1], articles', products')
  {
    forall k | 0 <= k < i
      ensures LinkCovered(site, targets[k], articles', products')
    {
      assert targets[..i][k] == targets[k];
      LinkCoveredGrows(site, targets[k], articles, products, articles', products');
    }
    assert forall k :: 0 <= k < i + 1 ==> targets[..i + 1][k] == targets[k];
  }

  /** When the visited lists are exactly the keys of the parsed links, a
      link that was dealt with shares its key with a parsed link of the
      same kind. */
  lemma CoveredWasParsed(site: Website, href: string, articles: seq<string>, products: seq<string>,
                         parsed: seq<string>)
    requires Consistent(site, articles, products, parsed)
    requires LinkCovered(site, href, articles, products) && site.targetPattern(href)
    ensures ArticleLike(href) ==>
      exists k :: 0 <= k < |parsed| && KeyOf(parsed[k], true) == Some(ArticleKey(href))
    ensures !ArticleLike(href) ==> (ProductKey(href).Some? &&
      exists k :: 0 <= k < |parsed| && KeyOf(parsed[k], false) == ProductKey(href))
  {
    if ArticleLike(href) {
      KeyOrigin(parsed, true, ArticleKey(href));
    } else {
      KeyOrigin(parsed, false, ProductKey(href).value);
    }
  }

  /** The page `crawl(url)` reads its links from: the page of `url`, or,
      when that request fails, the page of the last visited article key
      (None when there is no such key or its request fails too). */
  ghost function CrawledPage(web: Web, url: string, visited: seq<string>): Option<Page>
  {
    if url in web then Some(web[url])
    else if |visited| > 0 && Last(visited) in web then Some(web[Last(visited)])
    else None
  }

  /** A completed crawl has dealt with every entry link of the page it
      read. */
  ghost predicate CrawledAll(site: Website, page: Option<Page>, articles: seq<string>, products: seq<string>)
  {
    page.Some? && page.value.entryLinks.Some? && Covered(site, page.value.entryLinks.value, articles, products)
  }

  /** A network on which no crawl step raises: every page has a
      `div.entry-content`, every article-like link it offers that the site's
      pattern accepts answers, and every other accepted link has a segment
      after its host. */
  ghost predicate SoundWeb(site: Website, web: Web)
  {
    forall p :: p in web.Values ==> SoundPage(site, web, p)
  }

  /** One page on which no crawl step raises. */
  ghost predicate SoundPage(site: Website, web: Web, p: Page)
  {
    && p.entryLinks.Some?
    && forall h :: h in p.entryLinks.value && site.targetPattern(h) ==>
         if ArticleLike(h) then h in web else ProductKey(h).Some?
  }

  /** An accepted entry link of a page of a sound network can be crawled
      (article-like) or keyed (any other). */
  lemma SoundLink(site: Website, web: Web, page: Page, href: string)
    requires SoundWeb(site, web) && page in web.Values && page.entryLinks.Some?
    requires href in page.entryLinks.value && site.targetPattern(href)
    ensures ArticleLike(href) ==> href in web
    ensures !ArticleLike(href) ==> ProductKey(href).Some?
  {
    assert SoundPage(site, web, page);
  }

  /** The exceptions that end a crawl: `visited_articles[-1]` on an empty
      list, `.find` on the None of a failed fallback fetch, `.find_all` on
      a page without `div.entry-content`, and the IndexError of
      `storing_product_urls`. */
  datatype CrawlError =
    | EmptyVisitedList
    | FallbackNotFetched
    | NoEntryContent
    | NoProductSegment

  datatype CrawlOutcome = Completed | Crashed(error: CrawlError)

  /** What `crawl` changes: the two visited lists, and the links handed to
      `parse` so far, in order (the records follow from those). */
  datatype CrawlState = CrawlState(articles: seq<string>, products: seq<string>, parsed: seq<string>)

  /** How a crawl step ended, and the state it left. */
  datatype Step = Step(outcome: CrawlOutcome, state: CrawlState)

  /** Each list of `st` is an initial part of the same list of `st'`. */
  ghost predicate Grows(st: CrawlState, st': CrawlState)
  {
    && IsPrefix(st.articles, st'.articles)
    && IsPrefix(st.products, st'.products)
    && IsPrefix(st.parsed, st'.parsed)
  }

  lemma GrowsTransitive(a: CrawlState, b: CrawlState, c: CrawlState)
    requires Grows(a, b) && Grows(b, c)
    ensures Grows(a, c)
  {
    PrefixTransitive(a.articles, b.articles, c.articles);
    PrefixTransitive(a.products, b.products, c.products);
    PrefixTransitive(a.parsed, b.parsed, c.parsed);
  }

  /** Every article key the pages of the network can offer: finite, since
      the network is. Each recursive crawl adds one of them to the article
      list, which bounds the recursion. */
  ghost function UniverseOf(web: Web): set<string>
  {
    set p, h | p in web.Values && p.entryLinks.Some? && h in p.entryLinks.value :: ArticleKey(h)
  }

  /** The article keys not visited yet. */
  ghost function Unvisited(web: Web, st: CrawlState): set<string>
  {
    UniverseOf(web) - (set k | k in st.articles)
  }

  /** `crawl(url)` from state `st`: fetch `url`, or fall back to the last
      visited article key; crash as Python does when that fails or the page
      has no `div.entry-content`; otherwise go through its entry links. */
  ghost function CrawlResult(site: Website, web: Web, url: string, st: CrawlState): (r: Step)
    ensures Grows(st, r.state)
    decreases Unvisited(web, st), 3, 0
  {
    var page := CrawledPage(web, url, st.articles);
    if url !in web && st.articles == [] then Step(Crashed(EmptyVisitedList), st)
    else if page.None? then Step(Crashed(FallbackNotFetched), st)
    else if page.value.entryLinks.None? then Step(Crashed(NoEntryContent), st)
    else LinksResult(site, web, page.value, 0, st)
  }

  /** A crawl that finds a page with a `div.entry-content` is the loop over
      that page's entry links. */
  lemma CrawlResultLinks(site: Website, web: Web, url: string, st: CrawlState)
    requires CrawledPage(web, url, st.articles).Some?
    requires CrawledPage(web, url, st.articles).value.entryLinks.Some?
    ensures CrawledPage(web, url, st.articles).value in web.Values
    ensures CrawlResult(site, web, url, st) == LinksResult(site, web, CrawledPage(web, url, st.articles).value, 0, st)
  {
  }

  /** The `for` loop of `crawl` from the `i`-th entry link of `page` on, in
      document order; a crash ends it. */
  ghost function LinksResult(site: Website, web: Web, page: Page, i: nat, st: CrawlState): (r: Step)
    requires page in web.Values && page.entryLinks.Some? && i <= |page.entryLinks.value|
    ensures Grows(st, r.state)
    decreases Unvisited(web, st), 2, |page.entryLinks.value| - i
  {
    var targets := page.entryLinks.value;
    if i == |targets| then Step(Completed, st)
    else
      var r1 := LinkResult(site, web, page, targets[i], st);
      if r1.outcome.Crashed? then r1
      else
        PrefixSubset(st.articles, r1.state.articles);
        var r2 := LinksResult(site, web, page, i + 1, r1.state);
        GrowsTransitive(st, r1.state, r2.state);
        r2
  }

  /** The loop from link `i` is one pass on link `i`, then, unless that
      pass crashed, the loop from link `i + 1`. */
  lemma LinksResultStep(site: Website, web: Web, page: Page, i: nat, st: CrawlState)
    requires page in web.Values && page.entryLinks.Some? && i < |page.entryLinks.value|
    ensures var r1 := LinkResult(site, web, page, page.entryLinks.value[i], st);
      LinksResult(site, web, page, i, st) ==
        if r1.outcome.Crashed? then r1 else LinksResult(site, web, page, i + 1, r1.state)
  {
  }

  /** One pass of the loop on the entry link `href`: skipped when the
      site's pattern rejects it or its key is already visited; a new
      article key is recorded, the link parsed and crawled; a new product
      key is recorded and the link parsed; a product link without a segment
      after its host crashes. */
  ghost function LinkResult(site: Website, web: Web, page: Page, href: string, st: CrawlState): (r: Step)
    requires page in web.Values && page.entryLinks.Some? && href in page.entryLinks.value
    ensures Grows(st, r.state)
    decreases Unvisited(web, st), 1, 0
  {
    if !site.targetPattern(href) then Step(Completed, st)
    else if ArticleLike(href) then
      var key := ArticleKey(href);
      if key in st.articles then Step(Completed, st)
      else
        var st1 := CrawlState(st.articles + [key], st.products, st.parsed + [href]);
        assert key in UniverseOf(web);
        Shrinks(UniverseOf(web), (set k | k in st.articles), st.articles, key);
        var r := CrawlResult(site, web, href, st1);
        GrowsTransitive(st, st1, r.state);
        r
    else
      match ProductKey(href)
      case None => Step(Crashed(NoProductSegment), st)
      case Some(key) =>
        if key in st.products then Step(Completed, st)
        else Step(Completed, CrawlState(st.articles, st.products + [key], st.parsed + [href]))
  }

  /** `Crawler`: the site, the network it fetches from, the two visited
      lists, and the module-level accumulators it appends to. The ghost list
      `parsed` holds, in order, every link handed to `parse`; the visited
      lists are exactly the keys of those links and the accumulators exactly
      their records. */
  class Crawler {
    const site: Website
    const web: Web
    /** What `parse` makes of a URL: `ParseUrl` over this site and network,
        fixed at construction. */
    const decide: string -> ParseOutcome
    const store: Store
    var visitedArticles: seq<string>
    var visitedProducts: seq<string>
    ghost var parsed: seq<string>

    ghost predicate Valid()
      reads this, store
    {
      && Consistent(site, visitedArticles, visitedProducts, parsed)
      && store.articles == ArticlesFrom(decide, parsed)
      && store.products == ProductsFrom(decide, parsed)
    }

    /** Every article key any reachable page can produce: finite, since
        the network is. Each recursive crawl adds one of them to
        `visitedArticles`, which bounds the recursion. */
    ghost function Universe(): set<string>
    {
      UniverseOf(web)
    }

    /** The crawl state held in the fields. */
    ghost function State(): CrawlState
      reads this
    {
      CrawlState(visitedArticles, visitedProducts, parsed)
    }

    constructor (site: Website, web: Web, store: Store)
      requires store.articles == [] && store.products == []
      ensures Valid()
      ensures this.site == site && this.web == web && this.store == store
      ensures forall u :: decide(u) == ParseUrl(site, web, u)
      ensures visitedArticles == [] && visitedProducts == [] && parsed == []
    {
      this.site := site;
      this.web := web;
      decide := u => ParseUrl(site, web, u);
      this.store := store;
      visitedArticles := [];
      visitedProducts := [];
      parsed := [];
    }

    /** `parse(url)`: appends at most one record, to exactly one of the two
        accumulators, as `decide` says. */
    method Parse(url: string) returns (outcome: ParseOutcome)
      modifies store
      ensures outcome == decide(url)
      ensures store.articles == old(store.articles) + ArticlesOf(outcome)
      ensures store.products == old(store.products) + ProductsOf(outcome)
      ensures |store.articles| + |store.products| <= old(|store.articles| + |store.products|) + 1
    {
      outcome := decide(url);
      match outcome
      case FoundArticle(a) =>
        store.articles := store.articles + [a];
      case FoundProduct(p) =>
        store.products := store.products + [p];
      case _ =>
    }

    /** `crawl(url)`: fetch the page (falling back to the last visited
        article key when the fetch fails), then follow its entry links. */
    method Crawl(url: string) returns (outcome: CrawlOutcome)
      requires Valid()
      modifies this, store
      ensures Valid() && DistinctIdentities(parsed)
      ensures IsPrefix(old(parsed), parsed)
      ensures IsPrefix(old(visitedArticles), visitedArticles)
      ensures IsPrefix(old(visitedProducts), visitedProducts)
      ensures url !in web && old(visitedArticles) == [] ==>
        outcome == Crashed(EmptyVisitedList) && parsed == old(parsed)
      ensures url !in web && old(visitedArticles) != [] && Last(old(visitedArticles)) !in web ==>
        outcome == Crashed(FallbackNotFetched) && parsed == old(parsed)
      ensures var page := CrawledPage(web, url, old(visitedArticles));
        page.Some? && page.value.entryLinks.None? ==>
        outcome == Crashed(NoEntryContent) && parsed == old(parsed)
      ensures outcome.Completed? ==>
        CrawledAll(site, CrawledPage(web, url, old(visitedArticles)), visitedArticles, visitedProducts)
      ensures SoundWeb(site, web) && url in web ==> outcome.Completed?
      ensures Step(outcome, State()) == CrawlResult(site, web, url, old(State()))
      decreases Universe() - (set k | k in visitedArticles), 3
    {
      DistinctFromVisited(parsed);
      var page := Fetch(web, url);
      if page.None? {
        if |visitedArticles| == 0 {
          return Crashed(EmptyVisitedList);
        }
        page := Fetch(web, visitedArticles[|visitedArticles| - 1]);
        if page.None? {
          return Crashed(FallbackNotFetched);
        }
      }
      var links := page.value.entryLinks;
      if links.None? {
        return Crashed(NoEntryContent);
      }
      assert page == CrawledPage(web, url, old(visitedArticles));
      CrawlResultLinks(site, web, url, State());
      outcome := CrawlLinks(links.value, page.value);
      DistinctFromVisited(parsed);
    }

    /** The loop of `crawl` over the entry links of a fetched page, one
        `VisitLink` per link, in document order. */
    method CrawlLinks(targets: seq<string>, ghost page: Page) returns (outcome: CrawlOutcome)
      requires Valid() && page in web.Values && page.entryLinks == Some(targets)
      modifies this, store
      ensures Valid()
      ensures IsPrefix(old(parsed), parsed)
      ensures IsPrefix(old(visitedArticles), visitedArticles)
      ensures IsPrefix(old(visitedProducts), visitedProducts)
      ensures outcome.Completed? ==> Covered(site, targets, visitedArticles, visitedProducts)
      ensures SoundWeb(site, web) ==> outcome.Completed?
      ensures Step(outcome, State()) == LinksResult(site, web, page, 0, old(State()))
      decreases Universe() - (set k | k in visitedArticles), 2
    {
      ghost var entry := set k | k in visitedArticles;
      var i := 0;
      while i < |targets|
        invariant 0 <= i <= |targets|
        invariant Valid()
        invariant entry <= (set k | k in visitedArticles)
        invariant IsPrefix(old(parsed), parsed)
        invariant IsPrefix(old(visitedArticles), visitedArticles)
        invariant IsPrefix(old(visitedProducts), visitedProducts)
        invariant Covered(site, targets[..i], visitedArticles, visitedProducts)
        invariant LinksResult(site, web, page, 0, old(State())) == LinksResult(site, web, page, i, State())
      {
        ghost var before, articles0, products0 := parsed, visitedArticles, visitedProducts;
        LinksResultStep(site, web, page, i, State());
        var sub := VisitLink(targets[i], page);
        PrefixTransitive(old(parsed), before, parsed);
        PrefixTransitive(old(visitedArticles), articles0, visitedArticles);
        PrefixTransitive(old(visitedProducts), products0, visitedProducts);
        PrefixSubset(articles0, visitedArticles);
        if sub.Crashed? {
          return sub;
        }
        CoveredStep(site, targets, i, articles0, products0, visitedArticles, visitedProducts);
        i := i + 1;
      }
      assert targets[..i] == targets;
      return Completed;
    }

    /** One pass of the loop of `crawl`: a link the site's pattern rejects
        is skipped; an article-like link with a new key is recorded, parsed
        and crawled; any other link with a new product key is recorded and
        parsed; `storing_product_urls` raises on a link without a segment
        after its host. */
    method VisitLink(href: string, ghost page: Page) returns (outcome: CrawlOutcome)
      requires Valid() && page in web.Values && page.entryLinks.Some? && href in page.entryLinks.value
      modifies this, store
      ensures Valid()
      ensures IsPrefix(old(parsed), parsed)
      ensures IsPrefix(old(visitedArticles), visitedArticles)
      ensures IsPrefix(old(visitedProducts), visitedProducts)
      ensures outcome.Completed? ==> LinkCovered(site, href, visitedArticles, visitedProducts)
      ensures site.targetPattern(href) && !ArticleLike(href) && ProductKey(href).None? ==>
        outcome == Crashed(NoProductSegment)
      ensures SoundWeb(site, web) ==> outcome.Completed?
      ensures Step(outcome, State()) == LinkResult(site, web, page, href, old(State()))
      decreases Universe() - (set k | k in visitedArticles), 1
    {
      outcome := Completed;
      if site.targetPattern(href) {
        if SoundWeb(site, web) {
          SoundLink(site, web, page, href);
        }
        if ArticleLike(href) {
          if ArticleKey(href) !in visitedArticles {
            outcome := VisitArticle(href);
          }
        } else {
          var key := ProductKey(href);
          if key.None? {
            return Crashed(NoProductSegment);
          }
          if key.value !in visitedProducts {
            VisitProduct(href, key.value);
          }
        }
      }
    }

    /** Records a new product link and parses it. */
    method VisitProduct(href: string, key: string)
      requires Valid() && site.targetPattern(href) && !ArticleLike(href)
      requires ProductKey(href) == Some(key) && key !in visitedProducts
      modifies this, store
      ensures Valid()
      ensures parsed == old(parsed) + [href]
      ensures visitedArticles == old(visitedArticles)
      ensures visitedProducts == old(visitedProducts) + [key]
    {
      RecordProduct(site, visitedArticles, visitedProducts, parsed, href);
      RecordsExtended(decide, parsed, href);
      visitedProducts := visitedProducts + [key];
      parsed := parsed + [href];
      var found := Parse(href);
    }

    /** Records a new article link, parses it and crawls it. */
    method VisitArticle(href: string) returns (outcome: CrawlOutcome)
      requires Valid() && site.targetPattern(href) && ArticleLike(href)
      requires ArticleKey(href) !in visitedArticles && ArticleKey(href) in Universe()
      modifies this, store
      ensures Valid()
      ensures IsPrefix(old(parsed), parsed) && |old(parsed)| < |parsed| && parsed[|old(parsed)|] == href
      ensures IsPrefix(old(visitedArticles), visitedArticles) && ArticleKey(href) in visitedArticles
      ensures IsPrefix(old(visitedProducts), visitedProducts)
      ensures outcome.Completed? ==> CrawledAll(site,
        CrawledPage(web, href, old(visitedArticles) + [ArticleKey(href)]), visitedArticles, visitedProducts)
      ensures SoundWeb(site, web) && href in web ==> outcome.Completed?
      ensures Step(outcome, State()) == CrawlResult(site, web, href,
        CrawlState(old(visitedArticles) + [ArticleKey(href)], old(visitedProducts), old(parsed) + [href]))
      decreases Universe() - (set k | k in visitedArticles), 0
    {
      RecordArticle(site, visitedArticles, visitedProducts, parsed, href);
      RecordsExtended(decide, parsed, href);
      Shrinks(Universe(), (set k | k in visitedArticles), visitedArticles, ArticleKey(href));
      visitedArticles := visitedArticles + [ArticleKey(href)];
      parsed := parsed + [href];
      var found := Parse(href);
      ghost var middle, seen, products := parsed, visitedArticles, visitedProducts;
      outcome := Crawl(href);
      PrefixTransitive(old(parsed), middle, parsed);
      PrefixTransitive(old(visitedArticles), seen, visitedArticles);
      assert parsed[|old(parsed)|] == middle[|old(parsed)|];
      assert visitedArticles[|old(visitedArticles)|] == seen[|old(visitedArticles)|];
    }
  }
}
