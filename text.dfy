/**
 * Python's `str.split(sep)` and `sep.join(parts)` on strings, with the
 * facts the rest of the model needs: joining undoes splitting, splitting a
 * join of separator-free parts gives the parts back, and the number of
 * pieces is one more than the number of separators.
 */
module Text {

  /** `s.split(sep)` for a non-empty separator: the separator is searched
      for from the left, matches do not overlap, and there is always at
      least one piece. */
  function Split(s: string, sep: string): (r: seq<string>)
    requires |sep| > 0
    ensures |r| >= 1
    decreases |s|
  {
    if |s| < |sep| then [s]
    else if s[..|sep|] == sep then [""] + Split(s[|sep|..], sep)
    else
      var rest := Split(s[1..], sep);
      [[s[0]] + rest[0]] + rest[1..]
  }

  /** `sep.join(parts)`. */
  function Join(parts: seq<string>, sep: string): string
  {
    if |parts| == 0 then ""
    else if |parts| == 1 then parts[0]
    else parts[0] + sep + Join(parts[1..], sep)
  }

  /** Python's `xs[-1]`. */
  function Last<T>(xs: seq<T>): T
    requires |xs| > 0
  {
    xs[|xs| - 1]
  }

  /** `sep` occurs in `s` at position `i`. */
  predicate OccursAt(s: string, sep: string, i: nat)
  {
    i + |sep| <= |s| && s[i..i + |sep|] == sep
  }

  /** `sep` occurs somewhere in `s`. */
  ghost predicate Occurs(s: string, sep: string)
  {
    exists i: nat :: OccursAt(s, sep, i)
  }

  /** Number of occurrences of the character `c` in `s`. */
  function CountChar(s: string, c: char): nat
  {
    if |s| == 0 then 0
    else (if s[0] == c then 1 else 0) + CountChar(s[1..], c)
  }

  /** Index of the first `c` in `s`, or `|s|` when there is none. */
  function FirstIndex(s: string, c: char): (k: nat)
    ensures k <= |s|
    ensures forall j :: 0 <= j < k ==> s[j] != c
    ensures k < |s| ==> s[k] == c
  {
    if |s| == 0 then 0
    else if s[0] == c then 0
    else 1 + FirstIndex(s[1..], c)
  }

  /** Index of the last `c` in `s`, or `|s|` when there is none. */
  function LastIndex(s: string, c: char): (k: nat)
    ensures k <= |s|
    ensures k < |s| ==> s[k] == c && forall j :: k < j < |s| ==> s[j] != c
    ensures k == |s| ==> c !in s
  {
    if |s| == 0 then 0
    else if s[|s| - 1] == c then |s| - 1
    else
      var k := LastIndex(s[..|s| - 1], c);
      if k == |s| - 1 then |s| else k
  }

  /** No element of a sequence occurs twice. */
  predicate NoDups<T(==)>(xs: seq<T>)
  {
    forall i, j :: 0 <= i < j < |xs| ==> xs[i] != xs[j]
  }

  /** `a` is an initial part of `b`. */
  predicate IsPrefix<T(==)>(a: seq<T>, b: seq<T>)
  {
    |a| <= |b| && b[..|a|] == a
  }

  lemma PrefixTransitive<T>(a: seq<T>, b: seq<T>, c: seq<T>)
    requires IsPrefix(a, b) && IsPrefix(b, c)
    ensures IsPrefix(a, c)
  {
    assert c[..|a|] == c[..|b|][..|a|];
  }

  /** Joining the pieces of a split gives the original string back. */
  lemma {:induction false} JoinSplit(s: string, sep: string)
    requires |sep| > 0
    ensures Join(Split(s, sep), sep) == s
    decreases |s|
  {
    if |s| < |sep| {
    } else if s[..|sep|] == sep {
      var tail := s[|sep|..];
      var rest := Split(tail, sep);
      JoinSplit(tail, sep);
      assert Split(s, sep) == [""] + rest;
      assert Join([""] + rest, sep) == "" + sep + Join(rest, sep);
      assert s == s[..|sep|] + tail;
    } else {
      var tail := s[1..];
      var rest := Split(tail, sep);
      JoinSplit(tail, sep);
      var head := [s[0]] + rest[0];
      assert Split(s, sep) == [head] + rest[1..];
      if |rest| == 1 {
        assert Join([head], sep) == head;
      } else {
        assert Join([head] + rest[1..], sep) == head + sep + Join(rest[1..], sep);
        assert Join(rest, sep) == rest[0] + sep + Join(rest[1..], sep);
      }
      assert s == [s[0]] + tail;
    }
  }

  /** A prefix free of the separator's first character becomes the first
      piece; splitting carries on after the separator. */
  lemma {:induction false} SplitAfterPrefix(h: string, sep: string, t: string)
    requires |sep| > 0 && sep[0] !in h
    ensures Split(h + sep + t, sep) == [h] + Split(t, sep)
    decreases |h|
  {
    var s := h + sep + t;
    if |h| == 0 {
      assert s[..|sep|] == sep;
      assert s[|sep|..] == t;
    } else {
      assert s[0] == h[0] && s[..|sep|][0] == h[0];
      assert s[..|sep|] != sep;
      assert s[1..] == h[1..] + sep + t;
      SplitAfterPrefix(h[1..], sep, t);
      assert [h[0]] + h[1..] == h;
    }
  }

  /** A string in which the separator does not occur splits into itself. */
  lemma {:induction false} SplitWithout(s: string, sep: string)
    requires |sep| > 0 && !Occurs(s, sep)
    ensures Split(s, sep) == [s]
    decreases |s|
  {
    if |s| < |sep| {
    } else {
      assert s[0..|sep|] == s[..|sep|];
      assert !OccursAt(s, sep, 0);
      if Occurs(s[1..], sep) {
        var i: nat :| OccursAt(s[1..], sep, i);
        assert s[i + 1..i + 1 + |sep|] == s[1..][i..i + |sep|];
        assert OccursAt(s, sep, i + 1);
        assert false;
      }
      SplitWithout(s[1..], sep);
      assert [s[0]] + s[1..] == s;
    }
  }

  /** A string without the character `c` splits on `c` into itself. */
  lemma SplitWithoutChar(s: string, c: char)
    requires c !in s
    ensures Split(s, [c]) == [s]
  {
    assert !Occurs(s, [c]) by {
      forall i: nat ensures !OccursAt(s, [c], i) {
        if i + 1 <= |s| { assert s[i..i + 1] == [s[i]]; }
      }
    }
    SplitWithout(s, [c]);
  }

  /** No piece of a split on a character contains that character. */
  lemma {:induction false} SplitPiecesFree(s: string, c: char)
    ensures forall k :: 0 <= k < |Split(s, [c])| ==> c !in Split(s, [c])[k]
    decreases |s|
  {
    if |s| < 1 {
    } else {
      SplitPiecesFree(s[1..], c);
      var rest := Split(s[1..], [c]);
      assert s[..1] == [s[0]];
      if s[0] != c {
        var r := [[s[0]] + rest[0]] + rest[1..];
        assert c !in [s[0]] + rest[0];
        assert forall k :: 1 <= k < |r| ==> r[k] == rest[k];
      }
    }
  }

  /** The number of pieces is one more than the number of separators. */
  lemma {:induction false} SplitCount(s: string, c: char)
    ensures |Split(s, [c])| == CountChar(s, c) + 1
    decreases |s|
  {
    if |s| >= 1 {
      SplitCount(s[1..], c);
      assert s[..1] == [s[0]];
    }
  }

  /** Splitting a join of parts that do not contain the separator gives the
      parts back. */
  lemma {:induction false} SplitJoin(parts: seq<string>, c: char)
    requires |parts| >= 1
    requires forall k :: 0 <= k < |parts| ==> c !in parts[k]
    ensures Split(Join(parts, [c]), [c]) == parts
    decreases |parts|
  {
    if |parts| == 1 {
      SplitWithoutChar(parts[0], c);
    } else {
      SplitJoin(parts[1..], c);
      SplitAfterPrefix(parts[0], [c], Join(parts[1..], [c]));
      assert [parts[0]] + parts[1..] == parts;
    }
  }

  /** Appending one part to a non-empty join. */
  lemma {:induction false} JoinSnoc(parts: seq<string>, x: string, sep: string)
    requires |parts| >= 1
    ensures Join(parts + [x], sep) == Join(parts, sep) + sep + x
    decreases |parts|
  {
    if |parts| == 1 {
      assert (parts + [x])[1..] == [x];
    } else {
      JoinSnoc(parts[1..], x, sep);
      assert (parts + [x])[1..] == parts[1..] + [x];
    }
  }

  /** The first piece of a split is everything before the first separator. */
  lemma SplitFirst(s: string, c: char)
    ensures Split(s, [c])[0] == s[..FirstIndex(s, c)]
  {
    var k := FirstIndex(s, c);
    if k == |s| {
      SplitWithoutChar(s, c);
      assert s[..k] == s;
    } else {
      assert c !in s[..k];
      SplitAfterPrefix(s[..k], [c], s[k + 1..]);
      assert s[..k] + [c] + s[k + 1..] == s;
    }
  }

  /** The last piece of a split is everything after the last separator, or
      the whole string when it has none. */
  lemma SplitLast(s: string, c: char)
    ensures Last(Split(s, [c])) == if c in s then s[LastIndex(s, c) + 1..] else s
  {
    if LastIndex(s, c) == |s| {
      SplitWithoutChar(s, c);
    } else {
      SplitAtLast(s, c);
    }
  }

  /** A string with the character `c` splits into the pieces before its
      last `c`, then what follows it. */
  lemma SplitAtLast(s: string, c: char)
    requires LastIndex(s, c) < |s|
    ensures c in s
    ensures Split(s, [c]) == Split(s[..LastIndex(s, c)], [c]) + [s[LastIndex(s, c) + 1..]]
  {
    var k := LastIndex(s, c);
    var t := s[k + 1..];
    assert c !in t by {
      forall j | 0 <= j < |t| ensures t[j] != c { assert t[j] == s[k + 1 + j]; }
    }
    SplitAtIndex(s, c, k);
  }

  /** Splitting at a `c` with no `c` after it. */
  lemma {:induction false} SplitAtIndex(s: string, c: char, k: nat)
    requires k < |s| && s[k] == c && c !in s[k + 1..]
    ensures Split(s, [c]) == Split(s[..k], [c]) + [s[k + 1..]]
    decreases k
  {
    var u := s[1..];
    if k == 0 {
      assert s[..1] == [c];
      SplitWithoutChar(u, c);
      assert Split(s[..0], [c]) == [""];
    } else {
      assert u[k - 1] == c && u[k..] == s[k + 1..];
      SplitAtIndex(u, c, k - 1);
      var p := Split(u[..k - 1], [c]);
      var t := s[k + 1..];
      assert u[..k - 1] == s[..k][1..];
      assert s[..k][..1] == s[..1] == [s[0]];
      if s[0] == c {
        assert Split(s, [c]) == [""] + (p + [t]);
        assert Split(s[..k], [c]) == [""] + p;
      } else {
        var r := p + [t];
        assert Split(s, [c]) == [[s[0]] + r[0]] + r[1..];
        assert Split(s[..k], [c]) == [[s[0]] + p[0]] + p[1..];
        assert r[0] == p[0] && r[1..] == p[1..] + [t];
      }
    }
  }
}
