/**
 * `Crawler.safeGet`: the texts of the elements a selector matches, each
 * with its newlines, carriage returns and tabs removed and then stripped,
 * joined by newlines. The HTML query itself is abstract: a document is the
 * list of element texts each selector matches, in document order.
 */
module Extract {
  import opened Text

  /** What `select(selector)` followed by `get_text()` yields for each
      selector; a selector absent from the map matches nothing. */
  type Document = map<string, seq<string>>

  function Select(doc: Document, selector: string): seq<string>
  {
    if selector in doc then doc[selector] else []
  }

  /** Python's `str.isspace()`: the ASCII controls 9-13 and 28-31, the
      space, and the Unicode separators Python counts as whitespace. */
  predicate IsSpace(c: char)
  {
    var n := c as int;
    (9 <= n <= 13) || (28 <= n <= 32) || n == 0x85 || n == 0xA0 || n == 0x1680
    || (0x2000 <= n <= 0x200A) || n == 0x2028 || n == 0x2029 || n == 0x202F
    || n == 0x205F || n == 0x3000
  }

  predicate AllSpace(s: string)
  {
    forall k :: 0 <= k < |s| ==> IsSpace(s[k])
  }

  /** `s.replace(c, '')`. */
  function Without(s: string, c: char): (r: string)
    ensures c !in r
    ensures |r| + CountChar(s, c) == |s|
  {
    if |s| == 0 then ""
    else (if s[0] == c then "" else [s[0]]) + Without(s[1..], c)
  }

  /** `replace(c, '')` works piece by piece: together with its value on one
      character, this determines it as the removal of every `c` that keeps
      the other characters in their order. */
  lemma {:induction false} WithoutAppend(a: string, b: string, c: char)
    ensures Without(a + b, c) == Without(a, c) + Without(b, c)
    decreases |a|
  {
    if |a| == 0 {
      assert a + b == b;
    } else {
      assert (a + b)[1..] == a[1..] + b;
      WithoutAppend(a[1..], b, c);
    }
  }

  /** One character is dropped exactly when it is `c`. */
  lemma WithoutSingle(x: char, c: char)
    ensures Without([x], c) == if x == c then [] else [x]
  {
    assert [x][1..] == [];
  }

  /** Removing a character adds no other one. */
  lemma {:induction false} WithoutKeepsOut(s: string, c: char, x: char)
    requires x !in s
    ensures x !in Without(s, c)
    decreases |s|
  {
    if |s| > 0 {
      assert x !in s[1..] by {
        forall k | 0 <= k < |s| - 1 ensures s[1..][k] != x { assert s[1..][k] == s[k + 1]; }
      }
      WithoutKeepsOut(s[1..], c, x);
    }
  }

  /** Leading whitespace removed: what is left is a suffix of `s` that does
      not start with whitespace, and only whitespace was dropped. */
  function TrimLeft(s: string): (r: string)
    ensures |r| <= |s| && r == s[|s| - |r|..]
    ensures AllSpace(s[..|s| - |r|])
    ensures r == "" || !IsSpace(r[0])
  {
    if |s| > 0 && IsSpace(s[0]) then
      var t := s[1..];
      var r := TrimLeft(t);
      assert t[|t| - |r|..] == s[|s| - |r|..];
      assert s[..|s| - |r|] == [s[0]] + t[..|t| - |r|];
      r
    else s
  }

  /** Trailing whitespace removed: what is left is a prefix of `s` that does
      not end with whitespace, and only whitespace was dropped. */
  function TrimRight(s: string): (r: string)
    ensures |r| <= |s| && r == s[..|r|]
    ensures AllSpace(s[|r|..])
    ensures r == "" || !IsSpace(r[|r| - 1])
  {
    if |s| > 0 && IsSpace(s[|s| - 1]) then
      var t := s[..|s| - 1];
      var r := TrimRight(t);
      assert t[..|r|] == s[..|r|];
      assert s[|r|..] == t[|r|..] + [s[|s| - 1]];
      r
    else s
  }

  /** Python's `s.strip()`: a slice of `s` with only whitespace around it,
      itself neither starting nor ending with whitespace. */
  function Strip(s: string): (r: string)
    ensures exists i, j :: 0 <= i <= j <= |s| && r == s[i..j] && AllSpace(s[..i]) && AllSpace(s[j..])
    ensures r == "" || (!IsSpace(r[0]) && !IsSpace(r[|r| - 1]))
  {
    var left := TrimLeft(s);
    var r := TrimRight(left);
    SliceOfSuffix(s, left, r);
    r
  }

  /** A prefix `r` of a suffix `left` of `s`, located in `s`. */
  lemma SliceOfSuffix(s: string, left: string, r: string)
    requires |left| <= |s| && left == s[|s| - |left|..]
    requires |r| <= |left| && r == left[..|r|]
    ensures var i := |s| - |left|;
      s[i..i + |r|] == r && s[i + |r|..] == left[|r|..] && (r == "" || r[0] == left[0])
  {
  }

  /** Stripping adds no character. */
  lemma StripKeepsOut(s: string, x: char)
    requires x !in s
    ensures x !in Strip(s)
  {
    var left := TrimLeft(s);
    SliceKeepsOut(s, |s| - |left|, |s|, x);
    SliceKeepsOut(left, 0, |TrimRight(left)|, x);
  }

  /** A slice holds no character its string lacks. */
  lemma SliceKeepsOut(s: string, i: nat, j: nat, x: char)
    requires i <= j <= |s| && x !in s
    ensures x !in s[i..j]
  {
    forall k | 0 <= k < j - i ensures s[i..j][k] != x { assert s[i..j][k] == s[i + k]; }
  }

  /** The cleaning `safeGet` applies to the text of one element. */
  function CleanText(t: string): string
  {
    Strip(Without(Without(Without(t, '\n'), '\r'), '\t'))
  }

  /** The cleaned text of every matched element, in document order. */
  function CleanedTexts(elems: seq<string>): (r: seq<string>)
    ensures |r| == |elems|
  {
    seq(|elems|, i requires 0 <= i < |elems| => CleanText(elems[i]))
  }

  /** `safeGet(bs_obj, selector)`. */
  function SafeGet(doc: Document, selector: string): string
  {
    var elems := Select(doc, selector);
    if |elems| > 0 then Join(CleanedTexts(elems), "\n") else ""
  }

  /** One element's cleaned text has no newline, carriage return or tab,
      and no whitespace at either end. */
  lemma CleanTextShape(t: string)
    ensures '\n' !in CleanText(t) && '\r' !in CleanText(t) && '\t' !in CleanText(t)
    ensures var r := CleanText(t); r == "" || (!IsSpace(r[0]) && !IsSpace(r[|r| - 1]))
  {
    var a := Without(t, '\n');
    var b := Without(a, '\r');
    var c := Without(b, '\t');
    WithoutKeepsOut(a, '\r', '\n');
    WithoutKeepsOut(b, '\t', '\n');
    WithoutKeepsOut(b, '\t', '\r');
    StripKeepsOut(c, '\n');
    StripKeepsOut(c, '\r');
    StripKeepsOut(c, '\t');
  }

  /** Splitting the result on newlines gives back one cleaned piece per
      matched element, in document order; with no match the result is the
      empty string. */
  lemma SafeGetRoundTrip(doc: Document, selector: string)
    ensures var elems := Select(doc, selector);
      && (|elems| == 0 ==> SafeGet(doc, selector) == "")
      && (|elems| > 0 ==> Split(SafeGet(doc, selector), "\n") == CleanedTexts(elems))
  {
    var elems := Select(doc, selector);
    if |elems| > 0 {
      var parts := CleanedTexts(elems);
      forall k | 0 <= k < |parts| ensures '\n' !in parts[k] {
        CleanTextShape(elems[k]);
      }
      SplitJoin(parts, '\n');
    }
  }

  /** The number of lines of the result: one per matched element, and one
      (empty) line when nothing matched. */
  lemma SafeGetLineCount(doc: Document, selector: string)
    ensures |Split(SafeGet(doc, selector), "\n")| ==
      if |Select(doc, selector)| == 0 then 1 else |Select(doc, selector)|
  {
    SafeGetRoundTrip(doc, selector);
  }

  /** The first line of the result is the cleaned text of the first matched
      element, or empty when nothing matched. */
  lemma SafeGetFirstLine(doc: Document, selector: string)
    ensures Split(SafeGet(doc, selector), "\n")[0] ==
      if |Select(doc, selector)| == 0 then "" else CleanText(Select(doc, selector)[0])
  {
    SafeGetRoundTrip(doc, selector);
  }

  /** The text a selector yields, in terms of the matched elements: the
      result is empty exactly when nothing matched, or a single element
      matched whose cleaned text is empty. */
  predicate YieldsText(elems: seq<string>)
  {
    |elems| >= 2 || (|elems| == 1 && CleanText(elems[0]) != "")
  }

  lemma SafeGetEmpty(doc: Document, selector: string)
    ensures SafeGet(doc, selector) != "" <==> YieldsText(Select(doc, selector))
  {
    var elems := Select(doc, selector);
    SafeGetRoundTrip(doc, selector);
  }
}
