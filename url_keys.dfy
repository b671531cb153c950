/**
 * How the crawler tells a link's kind and identity from its text:
 * the three-segment pattern that marks an article link, and the dedup keys
 * `storing_article_urls` and `storing_product_urls`, which drop the scheme
 * and the host so that `www.` and bare-domain links share one key.
 */
module UrlKeys {
  import opened Wrappers
  import opened Text

  /** `url.split('//')[-1]`: the host and path (for a normal URL). */
  function AfterScheme(url: string): string
  {
    Last(Split(url, "//"))
  }

  /** `storing_article_urls(url)`: `'/'.join(after.split('/')[1:])`. */
  function ArticleKey(url: string): string
  {
    Join(Split(AfterScheme(url), "/")[1..], "/")
  }

  /** `storing_product_urls(url)`: `after.split('/')[1]`, or None where
      Python raises an IndexError because no `/` follows the host. */
  function ProductKey(url: string): Option<string>
  {
    var pieces := Split(AfterScheme(url), "/");
    if |pieces| < 2 then None else Some(pieces[1])
  }

  /** The article key is the text after the first `/` of the part after the
      last `//` (empty when there is no such `/`). */
  lemma ArticleKeyIsPath(url: string)
    ensures var tail := AfterScheme(url); var k := FirstIndex(tail, '/');
      ArticleKey(url) == if k < |tail| then tail[k + 1..] else ""
  {
    var tail := AfterScheme(url);
    var k := FirstIndex(tail, '/');
    if k == |tail| {
      SplitWithoutChar(tail, '/');
    } else {
      var rest := tail[k + 1..];
      assert '/' !in tail[..k];
      assert tail == tail[..k] + "/" + rest;
      SplitAfterPrefix(tail[..k], "/", rest);
      JoinSplit(rest, "/");
    }
  }

  /** The segment right after the host, up to the next `/` or the end;
      None when no `/` follows the host. */
  function FirstSegment(url: string): Option<string>
  {
    var tail := AfterScheme(url);
    var k := FirstIndex(tail, '/');
    if k == |tail| then None else Some(tail[k + 1..][..FirstIndex(tail[k + 1..], '/')])
  }

  /** The product key is the segment right after the host; it never
      contains a `/`. There is none exactly when no `/` follows the host. */
  lemma ProductKeyIsFirstSegment(url: string)
    ensures var tail := AfterScheme(url); var k := FirstIndex(tail, '/');
      && (ProductKey(url).None? <==> k == |tail|)
      && ProductKey(url) == FirstSegment(url)
      && (ProductKey(url).Some? ==> '/' !in ProductKey(url).value)
  {
    var tail := AfterScheme(url);
    var k := FirstIndex(tail, '/');
    if k == |tail| {
      SplitWithoutChar(tail, '/');
    } else {
      var rest := tail[k + 1..];
      assert '/' !in tail[..k];
      assert tail == tail[..k] + "/" + rest;
      SplitAfterPrefix(tail[..k], "/", rest);
      SplitFirst(rest, '/');
      var m := FirstIndex(rest, '/');
      assert '/' !in rest[..m];
    }
  }

  /** A product key is the first segment of the article key of the same
      link. */
  lemma ProductKeyPrefixesArticleKey(url: string)
    requires ProductKey(url).Some?
    ensures ProductKey(url).value == Split(ArticleKey(url), "/")[0]
  {
    ArticleKeyIsPath(url);
    ProductKeyIsFirstSegment(url);
    var tail := AfterScheme(url);
    SplitFirst(tail[FirstIndex(tail, '/') + 1..], '/');
  }

  /** The part after `scheme//host` has no double slash when the host has
      no slash and the path has no double slash. */
  lemma NoDoubleSlash(host: string, path: string)
    requires '/' !in host && !Occurs(path, "//")
    requires path == "" || path[0] == '/'
    ensures !Occurs(host + path, "//")
  {
    var s := host + path;
    forall i: nat | OccursAt(s, "//", i) ensures false {
      assert s[i..i + 2][0] == s[i] == '/';
      assert s[i..i + 2][1] == s[i + 1] == '/';
      if i >= |host| {
        var j: nat := i - |host|;
        assert path[j..j + 2] == s[i..i + 2];
        assert OccursAt(path, "//", j);
      }
    }
  }

  /** `split('//')[-1]` of `scheme//host/path` is `host/path`. */
  lemma AfterSchemeOf(scheme: string, host: string, path: string)
    requires '/' !in scheme && '/' !in host && !Occurs(path, "//")
    requires path == "" || path[0] == '/'
    ensures AfterScheme(scheme + "//" + host + path) == host + path
  {
    var tail := host + path;
    assert scheme + "//" + host + path == scheme + "//" + tail;
    SplitAfterPrefix(scheme, "//", tail);
    NoDoubleSlash(host, path);
    SplitWithout(tail, "//");
  }

  /** For `scheme//host/path`, with no slash in the scheme or the host and
      no double slash in the path, the article key is the path without its
      leading slash and the product key is the path's first segment. */
  lemma KeysOfUrl(scheme: string, host: string, path: string)
    requires '/' !in scheme && '/' !in host && !Occurs(path, "//")
    requires path == "" || path[0] == '/'
    ensures ArticleKey(scheme + "//" + host + path) == if path == "" then "" else path[1..]
    ensures ProductKey(scheme + "//" + host + path) ==
      if path == "" then None else Some(path[1..][..FirstIndex(path[1..], '/')])
  {
    var url := scheme + "//" + host + path;
    var tail := host + path;
    AfterSchemeOf(scheme, host, path);
    ArticleKeyIsPath(url);
    ProductKeyIsFirstSegment(url);
    var k := FirstIndex(tail, '/');
    if path == "" {
      assert tail == host;
    } else {
      assert tail[|host|] == '/';
      assert k == |host|;
      assert tail[k + 1..] == path[1..];
    }
  }

  /** Links that differ only in their host (`www.pyimagesearch.com` against
      `pyimagesearch.com`) get the same article key and the same product
      key. */
  lemma KeysIgnoreHost(scheme: string, host1: string, host2: string, path: string)
    requires '/' !in scheme && '/' !in host1 && '/' !in host2 && !Occurs(path, "//")
    requires path == "" || path[0] == '/'
    ensures ArticleKey(scheme + "//" + host1 + path) == ArticleKey(scheme + "//" + host2 + path)
    ensures ProductKey(scheme + "//" + host1 + path) == ProductKey(scheme + "//" + host2 + path)
  {
    KeysOfUrl(scheme, host1, path);
    KeysOfUrl(scheme, host2, path);
  }

  /** `\w` of the regular expression, on ASCII. */
  predicate IsWordChar(c: char)
  {
    'a' <= c <= 'z' || 'A' <= c <= 'Z' || '0' <= c <= '9' || c == '_'
  }

  predicate AllWord(s: string, i: nat, j: nat)
    requires i <= j <= |s|
  {
    forall k :: i <= k < j ==> IsWordChar(s[k])
  }

  /** Where the run of word characters starting at `i` ends. */
  function WordRunEnd(s: string, i: nat): (e: nat)
    requires i <= |s|
    ensures i <= e <= |s| && AllWord(s, i, e)
    ensures e < |s| ==> !IsWordChar(s[e])
    decreases |s| - i
  {
    if i < |s| && IsWordChar(s[i]) then WordRunEnd(s, i + 1) else i
  }

  /** `/\w+/` read from position `i`: the position of the closing slash. */
  function SegmentEnd(s: string, i: nat): (r: Option<nat>)
    ensures r.Some? ==> i < r.value < |s|
  {
    if i < |s| && s[i] == '/' then
      var e := WordRunEnd(s, i + 1);
      if i + 1 < e < |s| && s[e] == '/' then Some(e) else None
    else None
  }

  /** `/\w+/\w+/\w+/` matches at position `i`. */
  predicate MatchAt(s: string, i: nat)
  {
    var e1 := SegmentEnd(s, i);
    e1.Some? &&
    var e2 := SegmentEnd(s, e1.value);
    e2.Some? && SegmentEnd(s, e2.value).Some?
  }

  /** `re.compile(r"/\w+/\w+/\w+/").search(href)` succeeds: the link is
      article-like. */
  predicate ArticleLike(href: string)
  {
    exists i: nat :: i < |href| && MatchAt(href, i)
  }

  /** The regular expression read literally: a slash, one or more word
      characters, a slash, and so on, with the three runs ending at `a`,
      `b` and `c`. */
  ghost predicate RegexMatchAt(s: string, i: nat)
  {
    exists a: nat, b: nat, c: nat ::
      i + 1 < a && a + 1 < b && b + 1 < c < |s|
      && s[i] == '/' && AllWord(s, i + 1, a)
      && s[a] == '/' && AllWord(s, a + 1, b)
      && s[b] == '/' && AllWord(s, b + 1, c)
      && s[c] == '/'
  }

  /** A run of word characters followed by a slash ends at that slash. */
  lemma RunEndsAtSlash(s: string, i: nat, a: nat)
    requires i <= a < |s| && AllWord(s, i, a) && s[a] == '/'
    ensures WordRunEnd(s, i) == a
  {
    var e := WordRunEnd(s, i);
  }

  /** A slash, a run of word characters and a slash: the segment read from
      the first slash ends at the second. */
  lemma SegmentEndsAt(s: string, i: nat, a: nat)
    requires i + 1 < a < |s| && s[i] == '/' && AllWord(s, i + 1, a) && s[a] == '/'
    ensures SegmentEnd(s, i) == Some(a)
  {
    RunEndsAtSlash(s, i + 1, a);
  }

  /** A match found by the scanning matcher is a match of the pattern. */
  lemma MatchAtSound(s: string, i: nat)
    requires MatchAt(s, i)
    ensures RegexMatchAt(s, i)
  {
    var a := SegmentEnd(s, i).value;
    var b := SegmentEnd(s, a).value;
    var c := SegmentEnd(s, b).value;
    assert i + 1 < a && a + 1 < b && b + 1 < c < |s|
      && s[i] == '/' && AllWord(s, i + 1, a)
      && s[a] == '/' && AllWord(s, a + 1, b)
      && s[b] == '/' && AllWord(s, b + 1, c)
      && s[c] == '/';
  }

  /** Every match of the pattern is found by the scanning matcher. */
  lemma MatchAtComplete(s: string, i: nat)
    requires RegexMatchAt(s, i)
    ensures MatchAt(s, i)
  {
    var a: nat, b: nat, c: nat :|
      i + 1 < a && a + 1 < b && b + 1 < c < |s|
      && s[i] == '/' && AllWord(s, i + 1, a)
      && s[a] == '/' && AllWord(s, a + 1, b)
      && s[b] == '/' && AllWord(s, b + 1, c)
      && s[c] == '/';
    SegmentEndsAt(s, i, a);
    SegmentEndsAt(s, a, b);
    SegmentEndsAt(s, b, c);
  }

  /** A link is article-like exactly when the literal pattern occurs in it
      somewhere. */
  lemma ArticleLikeIsSearch(href: string)
    ensures ArticleLike(href) <==> exists i: nat :: i < |href| && RegexMatchAt(href, i)
  {
    if ArticleLike(href) {
      var i: nat :| i < |href| && MatchAt(href, i);
      MatchAtSound(href, i);
    }
    if exists i: nat :: i < |href| && RegexMatchAt(href, i) {
      var i: nat :| i < |href| && RegexMatchAt(href, i);
      MatchAtComplete(href, i);
    }
  }
}
