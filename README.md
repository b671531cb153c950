# A verified model of the pyimagesearch crawler

`PRACTICE_on_pyimagesearch.py` is a single-file crawler for
pyimagesearch.com. It starts from one article and follows the links in the
article's `div.entry-content`. A link that looks like an article (the link
contains a match of `/\w+/\w+/\w+/`) is parsed and crawled in turn. Any other link is
treated as a product page and is only parsed. Each link is visited once per
dedup key:

- for an article, the key is the path after the host (`storing_article_urls`);
- for a product, the key is the first path segment (`storing_product_urls`).

Parsing a page yields an `Article` (it has a title and a date), a `Product`
(it has a subtitle and package names), or nothing. Records are appended to
two module-level lists. At the end, `save_data_articles` and
`save_data_products` write those lists to CSV files, one line per article
and one line per product variant.

The Dafny project models this core, module by module:

| file | module | what it holds |
|---|---|---|
| `wrappers.dfy` | `Wrappers` | `Option` |
| `text.dfy` | `Text` | Python's `str.split` and `str.join`, with their round-trip facts |
| `prices.dfy` | `Prices` | `cleaning_prices` as the nested loop of the source, and the function that specifies it |
| `extract.dfy` | `Extract` | `safeGet` over the element texts a selector matches |
| `url_keys.dfy` | `UrlKeys` | the two dedup keys and the article-link regular expression |
| `site.dfy` | `Site` | `Website`, `Article`, `Product`, and the network as a map from URL to page |
| `parser.dfy` | `Parser` | the decision and record build of `parse` |
| `crawler.dfy` | `Crawl` | the `Crawler` class (`parse`, `crawl`) and the record accumulators |
| `export.dfy` | `Export` | the two savers and the lines they write |

How the outside world is represented:

- HTTP and BeautifulSoup are oracles. The network is a finite map from URL
  to page, and a URL outside the map is a failed request.
- A page holds two things:
  - the `href`s inside its `div.entry-content`, or None when it has no such
    `div`;
  - a `Document`: for every CSS selector, the texts of the elements it
    matches, in document order.
- The site's `targetPattern` is an abstract predicate on links.
- Exceptions that end a crawl become a `Crashed` outcome. The exception
  caught inside `parse` becomes a `Dropped` outcome.

The `Crawler` keeps a ghost list `parsed` of every link it has handed to
`parse`. Its invariant `Valid()` ties the state to that list:

- each visited list is exactly the keys of the parsed links, without
  duplicates;
- the accumulators are exactly the records those parses produced.

The crawl itself is specified by three ghost functions over an explicit
state (the two visited lists and the parsed links): `CrawlResult` for
`crawl(url)`, `LinksResult` for its `for` loop from a given link on, in
document order, and `LinkResult` for one pass of that loop. Each method of
the `Crawler` is proved to end with exactly the outcome and the state its
function gives, so which links are parsed, in which order, and which crash
ends a crawl are all fixed.

A crawl that completes has dealt with every entry link of the page it read
that the site's pattern accepts: the link's key is in the visited list of
its kind, so that link, or an earlier one with the same key, was parsed.
On a sound network (every page has a `div.entry-content`, every accepted
article-like link answers, and every other accepted link has a segment
after its host) no step raises, and every crawl of a URL that answers
completes.

`crawl` terminates because each recursive call records a new article key.
Those keys are drawn from the finite set of article keys that the pages of
the network can produce.

The model keeps these behaviours of the code, which are easy to misread:

- `cleaning_prices` writes a newline after every line, the last one
  included, so `"$19.99\n$5"` becomes `"19.99\n5\n"`.
- The `.csv` extension is checked when a saver is called, after the crawl,
  and not before any request is made.
- The fallback of `crawl` re-fetches the last visited article key. That key
  is a path without scheme or host, not a URL. An empty visited list makes
  the fallback crash.
- The first call of `crawl` does not parse the seed URL, and its key is
  not put in the visited list. The seed is parsed, and crawled a second
  time, only if a crawled page links to it.

## Model

| member | source | states |
|---|---|---|
| Text.Split | PRACTICE_on_pyimagesearch.py:209-211 | Python's `str.split(sep)`, which always gives at least one piece; `JoinSplit`, `SplitJoin`, `SplitCount`, `SplitPiecesFree`, `SplitFirst` and `SplitLast` state the rest |
| Text.Join | PRACTICE_on_pyimagesearch.py:112 | Python's `sep.join(parts)`; no contract of its own: `JoinSplit`, `SplitJoin` and `JoinSnoc` state it |
| Text.JoinSplit | PRACTICE_on_pyimagesearch.py:210-211 | joining the pieces of a split with the same separator gives the string back |
| Text.SplitJoin | PRACTICE_on_pyimagesearch.py:112 | splitting a join of parts free of the separator gives the parts back |
| Text.SplitCount | PRACTICE_on_pyimagesearch.py:199 | a split on a character has one piece more than the string has separators |
| Text.SplitPiecesFree | PRACTICE_on_pyimagesearch.py:199 | no piece of a split on a character holds that character |
| Text.SplitFirst | PRACTICE_on_pyimagesearch.py:124 | the first piece is everything before the first separator |
| Text.SplitLast | PRACTICE_on_pyimagesearch.py:209 | the last piece is everything after the last separator, or the whole string without one |
| Text.SplitAtLast | PRACTICE_on_pyimagesearch.py:145 | (helper) a string splits into the pieces before its last separator, then what follows it |
| Text.SplitAfterPrefix | PRACTICE_on_pyimagesearch.py:209 | (helper) a prefix free of the separator becomes the first piece |
| Text.SplitWithout | PRACTICE_on_pyimagesearch.py:209 | (helper) a string without the separator splits into itself |
| Prices.CleanPrices | PRACTICE_on_pyimagesearch.py:195-203 | the specification of `cleaning_prices`; no contract of its own: `CleanPricesLines`, `CleanPricesAlphabet` and `CleanPricesNewlines` state what it returns, and `CleaningPrices` is proved to compute it |
| Prices.CleaningPrices | PRACTICE_on_pyimagesearch.py:195-203 | the nested loop returns `CleanPrices(prices)`: each line of the input, filtered, followed by a newline |
| Prices.CleanPricesLines | PRACTICE_on_pyimagesearch.py:195-203 | splitting the result on newlines gives line i of the input, holding only its digits and points, for every i, followed by one empty piece |
| Prices.CleanPricesAlphabet | PRACTICE_on_pyimagesearch.py:200-202 | the result holds only digits, points and newlines |
| Prices.CleanPricesNewlines | PRACTICE_on_pyimagesearch.py:199-202 | the result has one newline more than the input |
| Prices.CleanLinesIsJoin | PRACTICE_on_pyimagesearch.py:198-203 | what the outer loop builds is the filtered lines joined by newlines, followed by a final newline |
| Prices.CleanLinesAlphabet | PRACTICE_on_pyimagesearch.py:199-202 | after any number of lines, the text built holds only digits, points and newlines |
| Prices.KeepPriceChars | PRACTICE_on_pyimagesearch.py:200-201 | the filter of one line; no contract of its own: `KeepPriceCharsAppend`, `KeepPriceCharsSingle` and `KeepPriceCharsAlphabet` state it |
| Prices.KeepPriceCharsAlphabet | PRACTICE_on_pyimagesearch.py:200-201 | the characters kept from one line are digits or points |
| Prices.KeepPriceCharsAppend | PRACTICE_on_pyimagesearch.py:200-201 | the filter distributes over concatenation, so it keeps characters in their order |
| Prices.KeepPriceCharsSingle | PRACTICE_on_pyimagesearch.py:200 | one character is kept exactly when it is a digit or a point |
| Prices.KeptLines | PRACTICE_on_pyimagesearch.py:199-201 | one filtered line per input line |
| Extract.Without | PRACTICE_on_pyimagesearch.py:111 | `replace(c, '')` leaves no `c` and is shorter by exactly the number of occurrences of `c` |
| Extract.WithoutAppend | PRACTICE_on_pyimagesearch.py:111 | `replace(c, '')` works piece by piece over concatenation, so the characters it keeps stay in their order |
| Extract.WithoutSingle | PRACTICE_on_pyimagesearch.py:111 | one character is dropped exactly when it is `c`, and kept otherwise |
| Extract.WithoutKeepsOut | PRACTICE_on_pyimagesearch.py:111 | `replace(c, '')` adds no character that was not there |
| Extract.TrimLeft | PRACTICE_on_pyimagesearch.py:111 | the result is a suffix of the input, only whitespace was dropped, and it does not start with whitespace |
| Extract.TrimRight | PRACTICE_on_pyimagesearch.py:111 | the result is a prefix of the input, only whitespace was dropped, and it does not end with whitespace |
| Extract.Strip | PRACTICE_on_pyimagesearch.py:111 | `strip()` returns a slice with only whitespace around it, neither starting nor ending with whitespace |
| Extract.StripKeepsOut | PRACTICE_on_pyimagesearch.py:111 | `strip()` adds no character that was not there |
| Extract.CleanText | PRACTICE_on_pyimagesearch.py:111 | the cleaning of one element text: the three `replace` calls, then `strip()`; no contract of its own: `CleanTextShape`, `Without`, `WithoutAppend`, `WithoutSingle` and `Strip` state it |
| Extract.CleanedTexts | PRACTICE_on_pyimagesearch.py:111-112 | one cleaned text per matched element |
| Extract.CleanTextShape | PRACTICE_on_pyimagesearch.py:111 | a cleaned element text has no newline, carriage return or tab, and no whitespace at either end |
| Extract.SafeGet | PRACTICE_on_pyimagesearch.py:103-113 | `safeGet` over the texts a selector matches; no contract of its own: `SafeGetRoundTrip`, `SafeGetLineCount`, `SafeGetFirstLine` and `SafeGetEmpty` state what it returns |
| Extract.SafeGetRoundTrip | PRACTICE_on_pyimagesearch.py:109-113 | with no match the result is `''`; otherwise splitting it on newlines gives back the cleaned text of each matched element, in document order |
| Extract.SafeGetLineCount | PRACTICE_on_pyimagesearch.py:109-113 | the result has one line per matched element, and one empty line when nothing matched |
| Extract.SafeGetFirstLine | PRACTICE_on_pyimagesearch.py:124 | the first line of the result is the cleaned text of the first matched element, or empty |
| Extract.SafeGetEmpty | PRACTICE_on_pyimagesearch.py:110-113 | the result is non-empty exactly when two or more elements match, or one matches with non-empty cleaned text |
| UrlKeys.ArticleKey | PRACTICE_on_pyimagesearch.py:206-212 | `storing_article_urls`; no contract of its own: `ArticleKeyIsPath`, `KeysOfUrl` and `KeysIgnoreHost` state what it returns |
| UrlKeys.ProductKey | PRACTICE_on_pyimagesearch.py:215-220 | `storing_product_urls`, None for its IndexError; no contract of its own: `ProductKeyIsFirstSegment`, `KeysOfUrl` and `KeysIgnoreHost` state what it returns |
| UrlKeys.ArticleLike | PRACTICE_on_pyimagesearch.py:168-172 | the search of `/\w+/\w+/\w+/` in a link; no contract of its own: `ArticleLikeIsSearch`, `MatchAtSound` and `MatchAtComplete` state it |
| UrlKeys.ArticleKeyIsPath | PRACTICE_on_pyimagesearch.py:206-212 | the article key is everything after the first `/` of the last piece of `split('//')`, and empty when that piece has no `/` |
| UrlKeys.ProductKeyIsFirstSegment | PRACTICE_on_pyimagesearch.py:215-220 | the product key is the segment right after the host and holds no `/`; it fails (IndexError) exactly when no `/` follows the host |
| UrlKeys.ProductKeyPrefixesArticleKey | PRACTICE_on_pyimagesearch.py:206-220 | the product key of a link is the first segment of its article key |
| UrlKeys.NoDoubleSlash | PRACTICE_on_pyimagesearch.py:209 | (helper) a host without `/` followed by a path without `//` holds no `//`, so `split('//')[-1]` keeps all of it |
| UrlKeys.KeysOfUrl | PRACTICE_on_pyimagesearch.py:206-220 | for `scheme//host/path` the article key is the path without its leading `/` and the product key is the path's first segment |
| UrlKeys.AfterSchemeOf | PRACTICE_on_pyimagesearch.py:209 | (helper) `split('//')[-1]` of `scheme//host/path` is `host/path` |
| UrlKeys.KeysIgnoreHost | PRACTICE_on_pyimagesearch.py:173-175 | links differing only in their host (`www.pyimagesearch.com` against `pyimagesearch.com`) share both keys |
| UrlKeys.WordRunEnd | PRACTICE_on_pyimagesearch.py:168 | the run of `\w` characters from a position ends at the first non-word character or at the end |
| UrlKeys.SegmentEnd | PRACTICE_on_pyimagesearch.py:168 | a `/\w+/` read from a position ends at a later position inside the string |
| UrlKeys.RunEndsAtSlash | PRACTICE_on_pyimagesearch.py:168 | (helper) a run of word characters followed by `/` ends at that `/` |
| UrlKeys.SegmentEndsAt | PRACTICE_on_pyimagesearch.py:168 | (helper) a `/`, word characters and a `/`: the segment read from the first `/` ends at the second |
| UrlKeys.MatchAtSound | PRACTICE_on_pyimagesearch.py:168 | a match found by the scanner is a match of `/\w+/\w+/\w+/` |
| UrlKeys.MatchAtComplete | PRACTICE_on_pyimagesearch.py:168 | every match of `/\w+/\w+/\w+/` is found by the scanner |
| UrlKeys.ArticleLikeIsSearch | PRACTICE_on_pyimagesearch.py:168-172 | a link is article-like exactly when the pattern occurs somewhere in it (`search`, not `match`) |
| Site.Fetch | PRACTICE_on_pyimagesearch.py:90-101 | a page comes back exactly when the request succeeds, and it is one of the network's pages |
| Parser.ParseUrl | PRACTICE_on_pyimagesearch.py:115-150 | `parse` without its appends: nothing when the fetch fails, else `ParsePage`; `Crawl.Crawler.Parse` is proved to append what it decides |
| Parser.ParsePage | PRACTICE_on_pyimagesearch.py:122-150 | the decision and record build of `parse`; no contract of its own: `ParseClassification`, `ArticleFields`, `ProductFields` and `ProductVariants` state what it returns |
| Parser.ProductName | PRACTICE_on_pyimagesearch.py:145 | `url.split('/')[-2]`, None for its IndexError; no contract of its own: `ProductNameIsSegment` states it |
| Parser.Title | PRACTICE_on_pyimagesearch.py:124 | the first line of the title text; no contract of its own: `TitleIsFirstElement` states it |
| Parser.ProductNameIsSegment | PRACTICE_on_pyimagesearch.py:145 | `url.split('/')[-2]` exists exactly when the URL has a `/`, and it is the segment before the last `/` |
| Parser.TitleIsFirstElement | PRACTICE_on_pyimagesearch.py:124 | the title is the cleaned text of the first title element, or empty, and it holds no newline |
| Parser.ParseClassification | PRACTICE_on_pyimagesearch.py:124-150 | article exactly when the article signals are present; otherwise product, or dropped when the URL has no `/`, exactly when the product signals are present; otherwise neither. Article wins when both sets of signals are present |
| Parser.ArticleFields | PRACTICE_on_pyimagesearch.py:132-133 | an article holds the URL, a non-empty one-line title taken from the first title element, and the non-empty date text |
| Parser.ProductFields | PRACTICE_on_pyimagesearch.py:138-145 | the description is the placeholder `No Description Contained.` exactly when the text is empty; the price is the cleaned price text; the name is the segment before the URL's last `/` |
| Parser.ProductVariants | PRACTICE_on_pyimagesearch.py:128-145 | the package name has one line per package element; the price has one line per price element (one when none matched), plus the empty piece after the final newline |
| Crawl.ArticlesOf | PRACTICE_on_pyimagesearch.py:133-134 | a parse appends at most one article |
| Crawl.ProductsOf | PRACTICE_on_pyimagesearch.py:145-146 | a parse appends at most one product |
| Crawl.ArticlesAppend | PRACTICE_on_pyimagesearch.py:133-134 | the articles stored by two runs of parses are those of the first run, then those of the second |
| Crawl.ProductsAppend | PRACTICE_on_pyimagesearch.py:145-146 | the products stored by two runs of parses are those of the first run, then those of the second |
| Crawl.RecordsOrigin | PRACTICE_on_pyimagesearch.py:133-146 | n parses store at most n records, and every stored record is the outcome of one of the parsed links |
| Crawl.Extended | PRACTICE_on_pyimagesearch.py:176-191 | (helper) parsing one more link adds its key, if it has one of that kind, at the end of that visited list |
| Crawl.RecordsExtended | PRACTICE_on_pyimagesearch.py:133-146 | (helper) parsing one more link adds its records at the end |
| Crawl.KeyRecorded | PRACTICE_on_pyimagesearch.py:176-191 | every parsed link with a key of a kind has that key in the visited list of that kind |
| Crawl.KeysDistinct | PRACTICE_on_pyimagesearch.py:176-191 | a visited list without duplicates means no two parsed links share a key of that kind |
| Crawl.DistinctFromVisited | PRACTICE_on_pyimagesearch.py:176-191 | duplicate-free visited lists mean that a link whose key is already present is never parsed again |
| Crawl.RecordArticle | PRACTICE_on_pyimagesearch.py:172-180 | recording and parsing a new article link keeps the visited lists exact and duplicate-free |
| Crawl.RecordProduct | PRACTICE_on_pyimagesearch.py:183-191 | recording and parsing a new product link keeps the visited lists exact and duplicate-free |
| Crawl.PrefixSubset | PRACTICE_on_pyimagesearch.py:179 | (helper) an append-only list keeps every element it had |
| Crawl.Shrinks | PRACTICE_on_pyimagesearch.py:176-181 | (helper) recording a new article key shrinks the set of keys still unvisited, which bounds the recursion |
| Crawl.KeyOrigin | PRACTICE_on_pyimagesearch.py:176-191 | every key in a visited list is the key of a link that was handed to `parse` |
| Crawl.LinkCoveredGrows | PRACTICE_on_pyimagesearch.py:179-189 | (helper) a link whose key is visited stays so while the lists grow |
| Crawl.CoveredStep | PRACTICE_on_pyimagesearch.py:170-191 | (helper) one more entry link dealt with, while the lists grow |
| Crawl.CoveredWasParsed | PRACTICE_on_pyimagesearch.py:176-191 | an accepted link whose key is in the visited list shares that key with a link that was parsed |
| Crawl.SoundLink | PRACTICE_on_pyimagesearch.py:164-181 | (helper) on a sound network an accepted entry link either answers (article-like) or has a product key |
| Crawl.GrowsTransitive | PRACTICE_on_pyimagesearch.py:179-189 | (helper) growth of the crawl state composes |
| Crawl.CrawlResult | PRACTICE_on_pyimagesearch.py:158-191 | the outcome and the new state of `crawl(url)` from a given state: the fetch, the fallback to the last visited article key and the crashes of lines 163-166, then the loop over the entry links of the page read; the state only grows |
| Crawl.LinksResult | PRACTICE_on_pyimagesearch.py:166-191 | the `for` loop from a given entry link on, in document order, ended by the first crash; the state only grows |
| Crawl.LinkResult | PRACTICE_on_pyimagesearch.py:170-191 | one pass of the loop: a link the pattern rejects or whose key is visited changes nothing; a new article key is appended with the link to the parsed links, then the link is crawled; a new product key is appended with the link; a product link without a segment crashes; the state only grows |
| Crawl.CrawlResultLinks | PRACTICE_on_pyimagesearch.py:163-167 | (helper) a crawl that reads a page with `div.entry-content` is the loop over its entry links |
| Crawl.LinksResultStep | PRACTICE_on_pyimagesearch.py:170-191 | (helper) the loop from link i is one pass on link i, then the loop from link i + 1 unless the pass crashed |
| Crawl.Store.constructor | PRACTICE_on_pyimagesearch.py:301-302 | both accumulators start empty |
| Crawl.Crawler.constructor | PRACTICE_on_pyimagesearch.py:85-88 | the crawler keeps the site it is given; both visited lists start empty; `parse` decides by fetching from the network and classifying the page |
| Crawl.Crawler.Parse | PRACTICE_on_pyimagesearch.py:115-156 | appends the article or the product the page yields and nothing else, so at most one record and never one to each list |
| Crawl.Crawler.Crawl | PRACTICE_on_pyimagesearch.py:158-191 | keeps the invariant; the parsed links and both visited lists only grow; no two parsed links share a key; a completed crawl has put the key of every entry link the site's pattern accepts, on the page it read (the URL's own, or the fallback), into the visited list of its kind; it crashes on an empty visited list or a failed fallback fetch when the first request fails, and on a page without `div.entry-content`; on a sound network (every page has `div.entry-content`, every accepted article-like link answers, every other accepted link has a segment after its host) a crawl of a URL that answers completes; its outcome and new state are exactly `CrawlResult` from the old state |
| Crawl.Crawler.CrawlLinks | PRACTICE_on_pyimagesearch.py:167-191 | the loop over the entry links keeps the invariant, the parsed links and visited lists only grow, and when it completes every link the pattern accepts has its key (article key for an article-like link, product key otherwise) in the visited list of its kind; on a sound network it completes; its outcome and new state are exactly `LinksResult` from the first link and the old state |
| Crawl.Crawler.VisitLink | PRACTICE_on_pyimagesearch.py:170-191 | one pass of the loop: when it completes, the link, if the pattern accepts it, has its key in the visited list of its kind; an accepted non-article link without a segment after its host crashes (IndexError); on a sound network it completes; its outcome and new state are exactly `LinkResult` |
| Crawl.Crawler.VisitProduct | PRACTICE_on_pyimagesearch.py:187-191 | a new product link has its key appended to the product list and is parsed; the article list is unchanged |
| Crawl.Crawler.VisitArticle | PRACTICE_on_pyimagesearch.py:176-181 | a new article link is recorded and parsed before it is crawled, its key stays in the visited list, and a completed crawl of it has dealt with every accepted entry link of the page it read; on a sound network, when the link answers, its crawl completes; its outcome and new state are exactly `CrawlResult` of the link from the old state with the key and the link appended |
| Export.HasCsvExtension | PRACTICE_on_pyimagesearch.py:226 | the extension assertion; no contract of its own: `CsvExtension` states which names pass |
| Export.EndsWithCsv | PRACTICE_on_pyimagesearch.py:226 | (helper) a name ending in `.csv` has its last `.` four characters from the end |
| Export.CsvExtension | PRACTICE_on_pyimagesearch.py:226 | the check accepts exactly the name `csv` and the names ending in `.csv` |
| Export.WriteLine | PRACTICE_on_pyimagesearch.py:229-234 | `DictWriter` writes one cell per field name, in header order, holding that field's value |
| Export.Zip | PRACTICE_on_pyimagesearch.py:252 | `zip` pairs the two lists position by position, up to the shorter one |
| Export.Lines | PRACTICE_on_pyimagesearch.py:232-234 | one written line per row dictionary |
| Export.SaveDataArticles | PRACTICE_on_pyimagesearch.py:223-237 | a name failing the check raises; otherwise the header is written, then one line per article |
| Export.LinesSnoc | PRACTICE_on_pyimagesearch.py:252-255 | (helper) one more row adds its own line at the end |
| Export.WriteProduct | PRACTICE_on_pyimagesearch.py:251-261 | the inner loop writes the lines of one product |
| Export.SaveDataProducts | PRACTICE_on_pyimagesearch.py:240-265 | a name failing the check raises; otherwise the header is written, then the lines of each product in turn |
| Export.ProductTableSnoc | PRACTICE_on_pyimagesearch.py:249-260 | (helper) one more product adds its own lines at the end |
| Export.ArticleTable | PRACTICE_on_pyimagesearch.py:229-234 | the lines of the article loop; no contract of its own: `ArticleLines` states them, and `SaveDataArticles` is proved to write them |
| Export.ProductRows | PRACTICE_on_pyimagesearch.py:249-261 | the row dictionaries of one product; no contract of its own: `ProductLines` and `ProductLineCount` state them |
| Export.ProductTable | PRACTICE_on_pyimagesearch.py:246-261 | the lines of the product loop; no contract of its own: `ProductTableAppend` and `ProductLines` state them, and `SaveDataProducts` is proved to write them |
| Export.ArticleLines | PRACTICE_on_pyimagesearch.py:229-234 | line i holds the title, date and URL of article i, under ARTICLE, DATE and URL |
| Export.ProductLines | PRACTICE_on_pyimagesearch.py:246-261 | with at least two package lines, line j pairs package line j with price line j, and there are as many lines as the shorter list has; otherwise one line with the whole texts; the other columns repeat the product's fields in header order |
| Export.ProductLineCount | PRACTICE_on_pyimagesearch.py:251-261 | every product gives at least one line, and never more lines than its package text has |
| Export.FlattenAppend | PRACTICE_on_pyimagesearch.py:249-261 | the lines of two runs of products are those of the first run, then those of the second |
| Export.ProductTableAppend | PRACTICE_on_pyimagesearch.py:249-261 | products keep their order in the file, and the lines of each product stay together |
| Export.ParsedProductLineCount | PRACTICE_on_pyimagesearch.py:251-252 | a parsed product with k package elements and m price elements gives one line when k < 2, and otherwise min(k, max(m, 1) + 1) lines |

## Left out

- `getPage`, `requests.get` and BeautifulSoup's `select`, `find` and
  `find_all` are not modelled. They are network and HTML-library calls.
  The network is a map from URL to page, and a page carries its
  entry-content links and the texts each selector matches.
- The site's `targetPattern` (lines 284-285) is an abstract predicate. It
  is a regular expression with negative lookaheads over real URLs. The
  search at line 168 is modelled, with `\w` taken as ASCII letters, digits
  and `_`.
- `csv.DictWriter`, `open` in append mode and the files themselves are not
  modelled. The savers return the lines they would append. The CSV quoting
  of cells is not modelled.
- `print_data`, every `print`, and the printing in the exception handlers are
  left out. They are output only.
- The `try/except` around each `writerow` is left out. With string fields,
  no row in the model raises.
- The `try/except` in `parse` is modelled only where a record build can
  raise: a product URL without `/`, where `url.split('/')[-2]` fails, gives
  `Dropped`.
- `str.isdigit` is taken on ASCII digits. Python's set of Unicode digits is
  not modelled.
- `str.strip` uses the characters `str.isspace` accepts, listed by code
  point; the model does not derive them from the Unicode database.
- The script glue is left out: the configuration at lines 282-299, the
  printing at lines 312-314, and the calls at lines 301-309. The
  constructors and the methods stand for those calls.
- Crawl.Crawler.constructor: `parse`'s view of the network is fixed at
  construction, as `ParseUrl` over the given site and network. Pages that
  change between requests are not modelled.
- Crawl.Crawler.Crawl: the contract fixes the new state through
  `CrawlResult`, but no lemma states the closure over the whole reachable
  article graph. A link whose key was recorded by a crawl still running
  higher up is skipped while that crawl has not finished its own links, so
  the closure holds only of a finished top-level call, and stating it
  would need a ghost stack of the crawls in progress.
- Crawl.Crawler.Crawl: CPython's recursion limit (about 1000 frames) is
  not modelled. `crawl` recurses once per new article, so a long enough
  chain of articles raises `RecursionError`, which ends the run before the
  savers are called. The model's `Crawl` completes at any depth.
