/**
 * `save_data_articles` and `save_data_products`: the file name must end in
 * `csv`, then a header line and one line per record (one per variant for a
 * product with several packages) are appended through a `csv.DictWriter`.
 * The model returns the lines that are appended, each a sequence of cells.
 */
module Export {
  import opened Text
  import opened Extract
  import opened Site
  import opened Parser

  /** The dictionary handed to `writerow`: column name to cell text. */
  type Row = map<string, string>

  /** One written CSV line, cell by cell. */
  type Line = seq<string>

  /** The `fieldnames` of the two writers, which are also the header lines. */
  const ArticleHeader: Line := ["ARTICLE", "DATE", "URL"]
  const ProductHeader: Line := ["PRODUCT", "TITLE", "SUBTITLE", "DESCRIPTION", "PACKAGE_NAME", "PRICE", "URL"]

  /** What one call of a saver comes to: the lines appended to the file, or
      the `AssertionError` raised before the file is opened. */
  datatype Saved = Written(lines: seq<Line>) | NotCsv

  /** `file_name.split('.')[-1] == "csv"`. */
  predicate HasCsvExtension(fileName: string)
  {
    Last(Split(fileName, ".")) == "csv"
  }

  /** A name ending in `.csv` has its last dot four from the end. */
  lemma EndsWithCsv(fileName: string)
    requires |fileName| >= 4 && fileName[|fileName| - 4..] == ".csv"
    ensures '.' in fileName && LastIndex(fileName, '.') == |fileName| - 4
  {
    var n := |fileName|;
    var tail := fileName[n - 4..];
    assert fileName[n - 4] == tail[0] == '.';
  }

  /** The extension check lets through exactly the name `csv` itself and
      the names ending in `.csv`. */
  lemma CsvExtension(fileName: string)
    ensures HasCsvExtension(fileName) <==>
      fileName == "csv" || (|fileName| >= 4 && fileName[|fileName| - 4..] == ".csv")
  {
    var n := |fileName|;
    SplitLast(fileName, '.');
    if HasCsvExtension(fileName) && '.' in fileName {
      var k := LastIndex(fileName, '.');
      assert fileName[k + 1..] == "csv";
      assert fileName[n - 4..] == [fileName[k]] + fileName[k + 1..];
    }
    if n >= 4 && fileName[n - 4..] == ".csv" {
      EndsWithCsv(fileName);
      assert fileName[n - 3..] == fileName[n - 4..][1..];
    }
  }

  /** `csv.DictWriter.writerow(row)`: the cells in the order of the field
      names; a field the row lacks is written as the empty restval. */
  function WriteLine(fields: Line, row: Row): (r: Line)
    ensures |r| == |fields|
    ensures forall i :: 0 <= i < |fields| && fields[i] in row ==> r[i] == row[fields[i]]
  {
    seq(|fields|, i requires 0 <= i < |fields| => if fields[i] in row then row[fields[i]] else "")
  }

  /** The dictionary written for one article. */
  function ArticleRow(a: Article): Row
  {
    map["ARTICLE" := a.title, "DATE" := a.date, "URL" := a.url]
  }

  /** The dictionary written for one product variant. */
  function ProductRow(p: Product, package: string, price: string): Row
  {
    map["PRODUCT" := p.name, "TITLE" := p.title, "SUBTITLE" := p.subtitle,
        "DESCRIPTION" := p.description, "PACKAGE_NAME" := package, "PRICE" := price, "URL" := p.url]
  }

  function Min(a: nat, b: nat): nat
  {
    if a <= b then a else b
  }

  /** Python's `zip(a, b)`: pairs up to the shorter of the two. */
  function Zip(a: seq<string>, b: seq<string>): (r: seq<(string, string)>)
    ensures |r| == Min(|a|, |b|)
    ensures forall j :: 0 <= j < |r| ==> r[j] == (a[j], b[j])
  {
    if |a| == 0 || |b| == 0 then [] else [(a[0], b[0])] + Zip(a[1..], b[1..])
  }

  /** The dictionaries written for one product: one per zipped package and
      price line when the package text has at least two lines, otherwise
      one with the whole package and price texts. */
  function ProductRows(p: Product): seq<Row>
  {
    var packages := Split(p.packageName, "\n");
    if |packages| >= 2 then
      var pairs := Zip(packages, Split(p.price, "\n"));
      seq(|pairs|, j requires 0 <= j < |pairs| => ProductRow(p, pairs[j].0, pairs[j].1))
    else
      [ProductRow(p, p.packageName, p.price)]
  }

  /** The lines written for a sequence of dictionaries. */
  function Lines(fields: Line, rows: seq<Row>): (r: seq<Line>)
    ensures |r| == |rows|
  {
    seq(|rows|, i requires 0 <= i < |rows| => WriteLine(fields, rows[i]))
  }

  /** The lines written after the header for `content_list` of articles. */
  function ArticleTable(articles: seq<Article>): seq<Line>
  {
    Lines(ArticleHeader, seq(|articles|, i requires 0 <= i < |articles| => ArticleRow(articles[i])))
  }

  /** The lines written for one product. */
  function ProductLinesOf(p: Product): seq<Line>
  {
    Lines(ProductHeader, ProductRows(p))
  }

  /** Groups of lines written one group after the other. */
  function Flatten(groups: seq<seq<Line>>): seq<Line>
  {
    if |groups| == 0 then [] else Flatten(groups[..|groups| - 1]) + Last(groups)
  }

  /** The lines written after the header for `content_list` of products,
      product after product. */
  function ProductTable(products: seq<Product>): seq<Line>
  {
    Flatten(seq(|products|, i requires 0 <= i < |products| => ProductLinesOf(products[i])))
  }

  /** `save_data_articles(file_name, content_list)`. */
  method SaveDataArticles(fileName: string, articles: seq<Article>) returns (r: Saved)
    ensures r.NotCsv? <==> !HasCsvExtension(fileName)
    ensures r.Written? ==> r.lines == [ArticleHeader] + ArticleTable(articles)
  {
    if !HasCsvExtension(fileName) {
      return NotCsv;
    }
    var lines := [ArticleHeader];
    var i := 0;
    while i < |articles|
      invariant 0 <= i <= |articles|
      invariant lines == [ArticleHeader] + ArticleTable(articles[..i])
    {
      var a := articles[i];
      lines := lines + [WriteLine(ArticleHeader, map["ARTICLE" := a.title, "DATE" := a.date, "URL" := a.url])];
      i := i + 1;
      assert ArticleTable(articles[..i]) == ArticleTable(articles[..i - 1]) + [WriteLine(ArticleHeader, ArticleRow(a))];
    }
    assert articles[..i] == articles;
    return Written(lines);
  }

  /** The rows one product of `save_data_products` writes, built by its
      inner loop over the zipped package and price lines. */
  method WriteProduct(p: Product) returns (lines: seq<Line>)
    ensures lines == ProductLinesOf(p)
  {
    var packages := Split(p.packageName, "\n");
    if |packages| >= 2 {
      var pairs := Zip(packages, Split(p.price, "\n"));
      ghost var rows := ProductRows(p);
      assert |rows| == |pairs|;
      lines := [];
      var j := 0;
      while j < |pairs|
        invariant 0 <= j <= |pairs|
        invariant lines == Lines(ProductHeader, rows[..j])
      {
        var (package, price) := pairs[j];
        assert rows[j] == ProductRow(p, package, price);
        LinesSnoc(ProductHeader, rows, j);
        lines := lines + [WriteLine(ProductHeader, ProductRow(p, package, price))];
        j := j + 1;
      }
      assert rows[..j] == rows;
    } else {
      lines := [WriteLine(ProductHeader, ProductRow(p, p.packageName, p.price))];
    }
  }

  /** One more row adds its own line at the end. */
  lemma LinesSnoc(fields: Line, rows: seq<Row>, j: nat)
    requires j < |rows|
    ensures Lines(fields, rows[..j + 1]) == Lines(fields, rows[..j]) + [WriteLine(fields, rows[j])]
  {
    assert rows[..j + 1][..j] == rows[..j];
  }

  /** `save_data_products(file_name, content_list)`. */
  method SaveDataProducts(fileName: string, products: seq<Product>) returns (r: Saved)
    ensures r.NotCsv? <==> !HasCsvExtension(fileName)
    ensures r.Written? ==> r.lines == [ProductHeader] + ProductTable(products)
  {
    if !HasCsvExtension(fileName) {
      return NotCsv;
    }
    var body := [];
    var i := 0;
    while i < |products|
      invariant 0 <= i <= |products|
      invariant body == ProductTable(products[..i])
    {
      var productLines := WriteProduct(products[i]);
      ProductTableSnoc(products, i);
      body := body + productLines;
      i := i + 1;
    }
    assert products[..i] == products;
    return Written([ProductHeader] + body);
  }

  /** One more product adds its own lines at the end. */
  lemma ProductTableSnoc(products: seq<Product>, i: nat)
    requires i < |products|
    ensures ProductTable(products[..i + 1]) == ProductTable(products[..i]) + ProductLinesOf(products[i])
  {
    var groups := seq(i + 1, k requires 0 <= k < i + 1 => ProductLinesOf(products[..i + 1][k]));
    assert groups[..i] == seq(i, k requires 0 <= k < i => ProductLinesOf(products[..i][k]));
  }

  /** Line `i` of an article table holds article `i`'s title, date and URL,
      in the order of the header. */
  lemma ArticleLines(articles: seq<Article>)
    ensures |ArticleTable(articles)| == |articles|
    ensures forall i :: 0 <= i < |articles| ==>
      ArticleTable(articles)[i] == [articles[i].title, articles[i].date, articles[i].url]
  {
    forall i | 0 <= i < |articles|
      ensures ArticleTable(articles)[i] == [articles[i].title, articles[i].date, articles[i].url]
    {
      var a := articles[i];
      var line := WriteLine(ArticleHeader, ArticleRow(a));
      assert line[0] == a.title && line[1] == a.date && line[2] == a.url;
    }
  }

  /** The lines of one product: with two or more package lines, line `j`
      pairs package line `j` with price line `j`, and there are as many
      lines as the shorter of the two lists; otherwise one line with the
      whole texts. Every line repeats the product's name, title, subtitle,
      description and URL in the order of the header. */
  lemma ProductLines(p: Product)
    ensures var packages := Split(p.packageName, "\n");
      var prices := Split(p.price, "\n");
      var lines := Lines(ProductHeader, ProductRows(p));
      if |packages| >= 2 then
        && |lines| == Min(|packages|, |prices|)
        && forall j :: 0 <= j < |lines| ==>
             lines[j] == [p.name, p.title, p.subtitle, p.description, packages[j], prices[j], p.url]
      else
        lines == [[p.name, p.title, p.subtitle, p.description, p.packageName, p.price, p.url]]
  {
    var packages := Split(p.packageName, "\n");
    var prices := Split(p.price, "\n");
    var rows := ProductRows(p);
    forall j | 0 <= j < |rows|
      ensures WriteLine(ProductHeader, rows[j]) ==
        [p.name, p.title, p.subtitle, p.description, rows[j]["PACKAGE_NAME"], rows[j]["PRICE"], p.url]
    {
      var line := WriteLine(ProductHeader, rows[j]);
      assert line[0] == p.name && line[1] == p.title && line[2] == p.subtitle;
      assert line[3] == p.description && line[6] == p.url;
    }
  }

  /** Every product is written as at least one line, and never as more
      lines than its package text has. */
  lemma ProductLineCount(p: Product)
    ensures 1 <= |ProductRows(p)| <= |Split(p.packageName, "\n")|
  {
  }

  /** Saving a concatenation writes the lines of the first part, then
      those of the second: products keep their order and their lines stay
      together. */
  lemma ProductTableAppend(a: seq<Product>, b: seq<Product>)
    ensures ProductTable(a + b) == ProductTable(a) + ProductTable(b)
  {
    var ga := seq(|a|, i requires 0 <= i < |a| => ProductLinesOf(a[i]));
    var gb := seq(|b|, i requires 0 <= i < |b| => ProductLinesOf(b[i]));
    assert seq(|a + b|, i requires 0 <= i < |a + b| => ProductLinesOf((a + b)[i])) == ga + gb;
    FlattenAppend(ga, gb);
  }

  /** Flattening distributes over concatenation. */
  lemma {:induction false} FlattenAppend(g: seq<seq<Line>>, h: seq<seq<Line>>)
    ensures Flatten(g + h) == Flatten(g) + Flatten(h)
    decreases |h|
  {
    if |h| == 0 {
      assert g + h == g;
    } else {
      var init := h[..|h| - 1];
      assert (g + h)[..|g + h| - 1] == g + init;
      FlattenAppend(g, init);
    }
  }

  /** For a product built by `parse`: with `k` package elements and `m`
      price elements, the product is written as one line when `k < 2`, and
      otherwise as lines for the first `k` packages, cut to the number of
      price lines, which is `m` (one when `m` is zero) plus the empty line
      after the final newline. */
  lemma ParsedProductLineCount(site: Website, url: string, doc: Document)
    requires ParsePage(site, url, doc).FoundProduct?
    ensures var k := |Select(doc, site.packageNameTag)|;
      var m := |Select(doc, site.priceTag)|;
      |Lines(ProductHeader, ProductRows(ParsePage(site, url, doc).product))| ==
        if k < 2 then 1 else Min(k, (if m == 0 then 1 else m) + 1)
  {
    ProductVariants(site, url, doc);
  }
}
