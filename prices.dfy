/**
 * `cleaning_prices`: the price text of a product keeps, line by line, only
 * its digits and decimal points, and every line (the last one included)
 * is terminated by a newline.
 */
module Prices {
  import opened Text

  /** `x.isdigit() or x == '.'`, with digits taken as the ASCII digits. */
  predicate IsPriceChar(c: char)
  {
    '0' <= c <= '9' || c == '.'
  }

  /** The characters of one line that pass the filter, in their order. */
  function KeepPriceChars(line: string): string
  {
    if |line| == 0 then ""
    else
      var c := line[|line| - 1];
      KeepPriceChars(line[..|line| - 1]) + (if IsPriceChar(c) then [c] else [])
  }

  /** The filtered lines, one per input line. */
  function KeptLines(lines: seq<string>): (r: seq<string>)
    ensures |r| == |lines|
  {
    seq(|lines|, i requires 0 <= i < |lines| => KeepPriceChars(lines[i]))
  }

  /** What the outer loop has built after the given lines. */
  function CleanLines(lines: seq<string>): string
  {
    if |lines| == 0 then ""
    else CleanLines(lines[..|lines| - 1]) + KeepPriceChars(Last(lines)) + "\n"
  }

  /** The value `cleaning_prices(prices)` returns. */
  function CleanPrices(prices: string): string
  {
    CleanLines(Split(prices, "\n"))
  }

  /** `cleaning_prices`: nested loops that grow the result one character
      at a time. */
  method CleaningPrices(prices: string) returns (priceChars: string)
    ensures priceChars == CleanPrices(prices)
  {
    priceChars := "";
    var lines := Split(prices, "\n");
    var i := 0;
    while i < |lines|
      invariant 0 <= i <= |lines|
      invariant priceChars == CleanLines(lines[..i])
    {
      var price := lines[i];
      ghost var before := priceChars;
      var j := 0;
      while j < |price|
        invariant 0 <= j <= |price|
        invariant priceChars == before + KeepPriceChars(price[..j])
      {
        var p := price[j];
        assert price[..j + 1][..j] == price[..j];
        if IsPriceChar(p) {
          priceChars := priceChars + [p];
        }
        j := j + 1;
      }
      assert price[..j] == price;
      priceChars := priceChars + "\n";
      assert lines[..i + 1][..i] == lines[..i];
      i := i + 1;
    }
    assert lines[..i] == lines;
  }

  /** Every character the filter keeps is a digit or a point. */
  lemma {:induction false} KeepPriceCharsAlphabet(line: string)
    ensures forall k :: 0 <= k < |KeepPriceChars(line)| ==> IsPriceChar(KeepPriceChars(line)[k])
    decreases |line|
  {
    if |line| > 0 {
      KeepPriceCharsAlphabet(line[..|line| - 1]);
    }
  }

  /** The filter distributes over concatenation: together with its value on
      one character, this determines it as the order-preserving filter. */
  lemma {:induction false} KeepPriceCharsAppend(a: string, b: string)
    ensures KeepPriceChars(a + b) == KeepPriceChars(a) + KeepPriceChars(b)
    decreases |b|
  {
    if |b| == 0 {
      assert a + b == a;
    } else {
      var b' := b[..|b| - 1];
      assert (a + b)[..|a + b| - 1] == a + b';
      KeepPriceCharsAppend(a, b');
    }
  }

  /** A character is kept exactly when it is a digit or a point. */
  lemma KeepPriceCharsSingle(c: char)
    ensures KeepPriceChars([c]) == if IsPriceChar(c) then [c] else []
  {
    assert [c][..0] == [];
  }

  /** The output consists of digits, points and newlines only. */
  lemma {:induction false} CleanLinesAlphabet(lines: seq<string>)
    ensures forall k :: 0 <= k < |CleanLines(lines)| ==>
      IsPriceChar(CleanLines(lines)[k]) || CleanLines(lines)[k] == '\n'
    decreases |lines|
  {
    if |lines| > 0 {
      CleanLinesAlphabet(lines[..|lines| - 1]);
      KeepPriceCharsAlphabet(Last(lines));
    }
  }

  lemma CleanPricesAlphabet(prices: string)
    ensures forall k :: 0 <= k < |CleanPrices(prices)| ==>
      IsPriceChar(CleanPrices(prices)[k]) || CleanPrices(prices)[k] == '\n'
  {
    CleanLinesAlphabet(Split(prices, "\n"));
  }

  /** The result is the filtered lines joined by newlines, followed by one
      more newline. */
  lemma {:induction false} CleanLinesIsJoin(lines: seq<string>)
    ensures CleanLines(lines) == Join(KeptLines(lines) + [""], "\n")
    decreases |lines|
  {
    if |lines| > 0 {
      var init := lines[..|lines| - 1];
      var x := Last(lines);
      CleanLinesIsJoin(init);
      assert KeptLines(lines) == KeptLines(init) + [KeepPriceChars(x)];
      JoinSnoc(KeptLines(lines), "", "\n");
      if |init| == 0 {
        assert KeptLines(lines) == [KeepPriceChars(x)];
      } else {
        JoinSnoc(KeptLines(init), "", "\n");
        JoinSnoc(KeptLines(init), KeepPriceChars(x), "\n");
      }
    }
  }

  /** Line i of the output is line i of the input with only digits and
      points left, and a final empty piece follows the last terminator. */
  lemma CleanPricesLines(prices: string)
    ensures Split(CleanPrices(prices), "\n") == KeptLines(Split(prices, "\n")) + [""]
  {
    var lines := Split(prices, "\n");
    CleanLinesIsJoin(lines);
    var parts := KeptLines(lines) + [""];
    forall k | 0 <= k < |parts| ensures '\n' !in parts[k] {
      if k < |lines| {
        KeepPriceCharsAlphabet(lines[k]);
      }
    }
    SplitJoin(parts, '\n');
  }

  /** One newline per input line: the input's newline count plus one. */
  lemma CleanPricesNewlines(prices: string)
    ensures CountChar(CleanPrices(prices), '\n') == CountChar(prices, '\n') + 1
  {
    CleanPricesLines(prices);
    SplitCount(CleanPrices(prices), '\n');
    SplitCount(prices, '\n');
  }
}
