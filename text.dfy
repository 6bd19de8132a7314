/**
 * The Python string operations the client relies on, as functions on
 * `string` (a sequence of Unicode scalar values): `str.strip`, `str.split`
 * with no separator, `str.join`, `str.find`, slicing with Python's index
 * rules, and the `lower()` used for case-insensitive comparison.
 */
module Text {

  /** Python's `str.isspace()` for one character: the separators of
      `str.split()` and what `str.strip()` removes. */
  predicate IsSpace(c: char) {
    c == ' ' || '\t' <= c <= '\r' || '\U{1c}' <= c <= '\U{1f}' ||
    c == '\U{85}' || c == '\U{a0}' || c == '\U{1680}' || '\U{2000}' <= c <= '\U{200a}' ||
    c == '\U{2028}' || c == '\U{2029}' || c == '\U{202f}' || c == '\U{205f}' || c == '\U{3000}'
  }

  /** The character sets the client strips or splits on, and those its
      properties speak about. */
  datatype CharClass = Whitespace | Plus | DoubleQuote | SingleQuote | Digit
  {
    predicate Has(c: char) {
      match this
      case Whitespace => IsSpace(c)
      case Plus => c == '+'
      case DoubleQuote => c == '"'
      case SingleQuote => c == '\''
      case Digit => '0' <= c <= '9'
    }
  }

  /** No character of `s` belongs to `p`. */
  predicate Avoids(s: string, p: CharClass) {
    forall k :: 0 <= k < |s| ==> !p.Has(s[k])
  }

  /** Every character of `s` belongs to `p`. */
  predicate Within(s: string, p: CharClass) {
    forall k :: 0 <= k < |s| ==> p.Has(s[k])
  }

  /** Length of the leading run of characters in `p`. */
  function LeadingRun(s: string, p: CharClass): (n: nat)
    ensures n <= |s|
    ensures forall k :: 0 <= k < n ==> p.Has(s[k])
    ensures n < |s| ==> !p.Has(s[n])
  {
    if s != [] && p.Has(s[0]) then 1 + LeadingRun(s[1..], p) else 0
  }

  /** Length of the trailing run of characters in `p`. */
  function TrailingRun(s: string, p: CharClass): (n: nat)
    ensures n <= |s|
    ensures forall k :: |s| - n <= k < |s| ==> p.Has(s[k])
    ensures n < |s| ==> !p.Has(s[|s| - n - 1])
  {
    if s != [] && p.Has(s[|s| - 1]) then 1 + TrailingRun(s[..|s| - 1], p) else 0
  }

  /** `s.strip(chars)`, where `p` tells which characters are in `chars`:
      `s` without its leading and trailing runs of them (`s.strip()` is
      `Strip(s, Whitespace)`). */
  function Strip(s: string, p: CharClass): (r: string)
    ensures r == [] || (!p.Has(r[0]) && !p.Has(r[|r| - 1]))
    ensures var i := LeadingRun(s, p);
            i + |r| <= |s| && r == s[i..i + |r|] &&
            forall k :: i + |r| <= k < |s| ==> p.Has(s[k])
  {
    var t := s[LeadingRun(s, p)..];
    t[..|t| - TrailingRun(t, p)]
  }

  /** Length of the leading run of characters outside `p`. */
  function SpanOutside(s: string, p: CharClass): (n: nat)
    ensures n <= |s|
    ensures forall k :: 0 <= k < n ==> !p.Has(s[k])
    ensures n < |s| ==> p.Has(s[n])
  {
    if s == [] || p.Has(s[0]) then 0 else 1 + SpanOutside(s[1..], p)
  }

  /** A token of `str.split()`: non-empty and free of whitespace. */
  predicate IsWord(w: string) {
    w != [] && Avoids(w, Whitespace)
  }

  /** `s.split()`: the maximal runs of non-whitespace characters, in order. */
  function Split(s: string): (r: seq<string>)
    ensures forall w :: w in r ==> IsWord(w)
    decreases |s|
  {
    if s == [] then []
    else if IsSpace(s[0]) then Split(s[1..])
    else
      var n := SpanOutside(s, Whitespace);
      var w, rest := s[..n], Split(s[n..]);
      assert IsWord(w);
      [w] + rest
  }

  /** `sep.join(parts)`: the parts in order with `sep` between each two;
      it starts with the first part (and ends with the last, as
      `JoinEndsWithLast` shows). */
  function Join(sep: string, parts: seq<string>): (r: string)
    ensures |parts| == 0 ==> r == []
    ensures |parts| > 0 ==> |parts[0]| <= |r| && r[..|parts[0]|] == parts[0]
  {
    if |parts| == 0 then ""
    else if |parts| == 1 then parts[0]
    else parts[0] + sep + Join(sep, parts[1..])
  }

  /** A join ends with its last part. */
  lemma {:induction false} JoinEndsWithLast(sep: string, parts: seq<string>)
    requires |parts| > 0
    ensures var r, last := Join(sep, parts), parts[|parts| - 1];
            |last| <= |r| && r[|r| - |last|..] == last
  {
    if |parts| > 1 {
      JoinEndsWithLast(sep, parts[1..]);
      var tail := Join(sep, parts[1..]);
      var r := parts[0] + sep + tail;
      assert r[|r| - |tail|..] == tail;
    }
  }

  /** Python's `pat in s` at a given position. */
  predicate OccursAt(s: string, pat: string, i: int) {
    0 <= i && i + |pat| <= |s| && s[i..i + |pat|] == pat
  }

  /** `s.find(pat, start)`: the first position at or after `start` where `pat`
      occurs, or -1 when there is none. */
  function Find(s: string, pat: string, start: nat): (r: int)
    ensures r == -1 || (start <= r && OccursAt(s, pat, r))
    ensures forall i :: start <= i && (r == -1 || i < r) ==> !OccursAt(s, pat, i)
    decreases |s| - start
  {
    if start + |pat| > |s| then -1
    else if s[start..start + |pat|] == pat then start
    else Find(s, pat, start + 1)
  }

  /** Python's `pat in s`: `pat` occurs somewhere in `s`. */
  predicate Contains(s: string, pat: string)
    ensures Contains(s, pat) <==> exists i :: OccursAt(s, pat, i)
  {
    Find(s, pat, 0) >= 0
  }

  /** Python's reading of a slice bound `i` on a sequence of length `n`. */
  function SliceBound(i: int, n: nat): (b: nat)
    ensures b <= n
    ensures 0 <= i <= n ==> b == i
    ensures i > n ==> b == n
    ensures i < 0 && 0 <= n + i ==> b == n + i
    ensures n + i < 0 ==> b == 0
  {
    if i < 0 then (if n + i < 0 then 0 else n + i)
    else if i > n then n
    else i
  }

  /** `s[lo:hi]` with Python's rules: negative bounds count from the end,
      bounds are clamped, and an empty range gives "". */
  function Slice(s: string, lo: int, hi: int): (r: string)
    ensures 0 <= lo <= hi <= |s| ==> r == s[lo..hi]
    ensures 0 <= lo && hi < 0 && lo <= |s| + hi ==> r == s[lo..|s| + hi]
    ensures 0 <= lo <= |s| && hi > |s| ==> r == s[lo..]
    ensures SliceBound(hi, |s|) <= SliceBound(lo, |s|) ==> r == []
    ensures SliceBound(lo, |s|) + |r| <= |s| && r == s[SliceBound(lo, |s|)..SliceBound(lo, |s|) + |r|]
  {
    var i, j := SliceBound(lo, |s|), SliceBound(hi, |s|);
    if i < j then s[i..j] else []
  }

  /** Python's `c.lower()` restricted to ASCII letters. */
  function LowerChar(c: char): (d: char)
    ensures 'A' <= c <= 'Z' ==> 'a' <= d <= 'z' && d as int - c as int == 32
    ensures !('A' <= c <= 'Z') ==> d == c
  {
    if 'A' <= c <= 'Z' then (c as int + 32) as char else c
  }

  /** `s.lower()` (ASCII letters only). */
  function Lower(s: string): (r: string)
    ensures |r| == |s|
  {
    if s == [] then [] else [LowerChar(s[0])] + Lower(s[1..])
  }

  /** `lower()` works character by character. */
  lemma {:induction false} LowerAt(s: string, k: nat)
    requires k < |s|
    ensures Lower(s)[k] == LowerChar(s[k])
  {
    if k > 0 {
      LowerAt(s[1..], k - 1);
    }
  }

  /** `a.lower() == b.lower()`. */
  predicate EqualsIgnoreCase(a: string, b: string) {
    Lower(a) == Lower(b)
  }

  // ----- properties of str.split() and str.join() -----

  lemma {:induction false} SpanOutsideAppend(t: string, y: string, p: CharClass)
    requires Within(y, p)
    ensures SpanOutside(t + y, p) == SpanOutside(t, p)
    decreases |t|
  {
    if t == [] {
      assert t + y == y;
    } else if !p.Has(t[0]) {
      assert (t + y)[1..] == t[1..] + y;
      SpanOutsideAppend(t[1..], y, p);
    }
  }

  /** A string of whitespace only splits into no words. */
  lemma {:induction false} SplitBlank(y: string)
    requires Within(y, Whitespace)
    ensures Split(y) == []
    decreases |y|
  {
    if y != [] {
      SplitBlank(y[1..]);
    }
  }

  /** Trailing whitespace never changes what `split()` returns. */
  lemma {:induction false} SplitTrailingSpace(x: string, y: string)
    requires Within(y, Whitespace)
    ensures Split(x + y) == Split(x)
    decreases |x|
  {
    if x == [] {
      assert x + y == y;
      SplitBlank(y);
    } else if IsSpace(x[0]) {
      assert (x + y)[1..] == x[1..] + y;
      SplitTrailingSpace(x[1..], y);
    } else {
      var n := SpanOutside(x, Whitespace);
      assert SpanOutside(x + y, Whitespace) == n by {
        if n < |x| {
          SpanOutsideBoundary(x, y, Whitespace);
        } else {
          SpanOutsideAppend(x, y, Whitespace);
        }
      }
      assert (x + y)[..n] == x[..n];
      assert (x + y)[n..] == x[n..] + y;
      SplitTrailingSpace(x[n..], y);
    }
  }

  /** Leading whitespace never changes what `split()` returns. */
  lemma {:induction false} SplitLeadingSpace(x: string, y: string)
    requires Within(x, Whitespace)
    ensures Split(x + y) == Split(y)
    decreases |x|
  {
    if x != [] {
      assert (x + y)[1..] == x[1..] + y;
      SplitLeadingSpace(x[1..], y);
    } else {
      assert x + y == y;
    }
  }

  /** `s.strip().split() == s.split()`: stripping before splitting is redundant. */
  lemma SplitIgnoresStrip(s: string)
    ensures Split(Strip(s, Whitespace)) == Split(s)
  {
    var r, i := Strip(s, Whitespace), LeadingRun(s, Whitespace);
    var head, tail := s[..i], s[i + |r|..];
    assert Within(head, Whitespace) by {
      forall k | 0 <= k < |head| ensures IsSpace(head[k]) {
        assert head[k] == s[k];
      }
    }
    assert Within(tail, Whitespace) by {
      forall k | 0 <= k < |tail| ensures IsSpace(tail[k]) {
        assert tail[k] == s[i + |r| + k];
      }
    }
    assert s == head + (r + tail);
    SplitBetweenBlanks(head, r, tail);
  }

  /** Whitespace before and after `r` adds no words. */
  lemma SplitBetweenBlanks(head: string, r: string, tail: string)
    requires Within(head, Whitespace) && Within(tail, Whitespace)
    ensures Split(head + (r + tail)) == Split(r)
  {
    SplitLeadingSpace(head, r + tail);
    SplitTrailingSpace(r, tail);
  }

  /** The words `split()` finds avoid every character the input avoids. */
  lemma {:induction false} SplitAvoids(s: string, p: CharClass)
    requires Avoids(s, p)
    ensures forall w :: w in Split(s) ==> Avoids(w, p)
    decreases |s|
  {
    if s != [] && IsSpace(s[0]) {
      SplitAvoids(s[1..], p);
    } else if s != [] {
      var n := SpanOutside(s, Whitespace);
      assert Avoids(s[n..], p) by {
        forall k | 0 <= k < |s[n..]| ensures !p.Has(s[n..][k]) {
          assert s[n..][k] == s[n + k];
        }
      }
      SplitAvoids(s[n..], p);
    }
  }

  /** Joining words that avoid `p` with a separator that avoids `p` gives
      a string that avoids `p`. */
  lemma {:induction false} JoinAvoids(sep: string, parts: seq<string>, p: CharClass)
    requires Avoids(sep, p)
    requires forall w :: w in parts ==> Avoids(w, p)
    ensures Avoids(Join(sep, parts), p)
  {
    if |parts| > 0 {
      assert parts[0] in parts;
    }
    if |parts| > 1 {
      forall w | w in parts[1..] ensures Avoids(w, p) {
        assert w in parts;
      }
      JoinAvoids(sep, parts[1..], p);
      var tail := Join(sep, parts[1..]);
      var r := parts[0] + sep + tail;
      forall k | 0 <= k < |r| ensures !p.Has(r[k]) {
        if k < |parts[0]| {
          assert r[k] == parts[0][k];
        } else if k < |parts[0]| + |sep| {
          assert r[k] == sep[k - |parts[0]|];
        } else {
          assert r[k] == tail[k - |parts[0]| - |sep|];
        }
      }
    }
  }

  /** `" ".join(ws).split() == ws` for words: joining with a single space
      and splitting again gives the words back. */
  lemma {:induction false} SplitJoin(ws: seq<string>)
    requires forall w :: w in ws ==> IsWord(w)
    ensures Split(Join(" ", ws)) == ws
  {
    if |ws| == 1 {
      var w := ws[0];
      assert w in ws;
      SplitWordFirst(w, []);
      assert w + [] == w;
    } else if |ws| > 1 {
      var w, rest := ws[0], Join(" ", ws[1..]);
      assert w in ws;
      forall v | v in ws[1..] ensures IsWord(v) {
        assert v in ws;
      }
      SplitJoin(ws[1..]);
      SplitWordThenSpace(w, rest);
    }
  }

  /** A word, a space and the rest: the word is found first, then the words
      of the rest. */
  lemma SplitWordThenSpace(w: string, rest: string)
    requires IsWord(w)
    ensures Split(w + " " + rest) == [w] + Split(rest)
  {
    assert w + " " + rest == w + (" " + rest);
    SplitWordFirst(w, " " + rest);
    assert (" " + rest)[1..] == rest;
  }

  lemma {:induction false} SpanOutsideBoundary(t: string, y: string, p: CharClass)
    requires SpanOutside(t, p) < |t|
    ensures SpanOutside(t + y, p) == SpanOutside(t, p)
    decreases |t|
  {
    if !p.Has(t[0]) {
      assert (t + y)[1..] == t[1..] + y;
      SpanOutsideBoundary(t[1..], y, p);
    }
  }

  /** Input that is not all whitespace has at least one word. */
  lemma {:induction false} SplitNonBlank(s: string)
    requires !Within(s, Whitespace)
    ensures Split(s) != []
    decreases |s|
  {
    if IsSpace(s[0]) {
      SplitNonBlank(s[1..]);
    }
  }

  /** A word followed by whitespace (or by nothing) is the first word found. */
  lemma SplitWordFirst(w: string, y: string)
    requires IsWord(w)
    requires y == [] || IsSpace(y[0])
    ensures Split(w + y) == [w] + Split(y)
  {
    SpanOutsideWordThen(w, y, Whitespace);
    assert (w + y)[0] == w[0];
    assert (w + y)[..|w|] == w && (w + y)[|w|..] == y;
  }

  lemma {:induction false} SpanOutsideWordThen(w: string, y: string, p: CharClass)
    requires Avoids(w, p)
    requires y == [] || p.Has(y[0])
    ensures SpanOutside(w + y, p) == |w|
    decreases |w|
  {
    if w == [] {
      assert w + y == y;
    } else {
      assert (w + y)[1..] == w[1..] + y;
      SpanOutsideWordThen(w[1..], y, p);
    }
  }

  // ----- properties of str.strip() and str.find() -----

  /** A run of characters in `p` followed by one outside it (or by
      nothing) is exactly the leading run. */
  lemma {:induction false} LeadingRunStops(a: string, y: string, p: CharClass)
    requires Within(a, p)
    requires y == [] || !p.Has(y[0])
    ensures LeadingRun(a + y, p) == |a|
    decreases |a|
  {
    if a == [] {
      assert a + y == y;
    } else {
      assert (a + y)[1..] == a[1..] + y;
      LeadingRunStops(a[1..], y, p);
    }
  }

  /** The mirror image: `y` ending outside `p`, then a run in `p`. */
  lemma {:induction false} TrailingRunStops(y: string, b: string, p: CharClass)
    requires Within(b, p)
    requires y == [] || !p.Has(y[|y| - 1])
    ensures TrailingRun(y + b, p) == |b|
    decreases |b|
  {
    if b == [] {
      assert y + b == y;
    } else {
      assert (y + b)[..|y + b| - 1] == y + b[..|b| - 1];
      TrailingRunStops(y, b[..|b| - 1], p);
    }
  }

  /** Stripping `a + x + b` where `a` and `b` consist of stripped characters
      and `x` neither starts nor ends with one gives exactly `x`. */
  lemma StripSurrounded(a: string, x: string, b: string, p: CharClass)
    requires Within(a, p) && Within(b, p)
    requires x == [] || (!p.Has(x[0]) && !p.Has(x[|x| - 1]))
    ensures Strip(a + x + b, p) == x
  {
    var s := a + x + b;
    if x == [] {
      assert s == (a + b) + [];
      assert Within(a + b, p) by {
        forall k | 0 <= k < |a + b| ensures p.Has((a + b)[k]) {
          if k >= |a| { assert (a + b)[k] == b[k - |a|]; }
        }
      }
      LeadingRunStops(a + b, [], p);
      assert s[|s|..] == [];
    } else {
      assert s == a + (x + b);
      LeadingRunStops(a, x + b, p);
      assert s[|a|..] == x + b;
      TrailingRunStops(x, b, p);
      assert (x + b)[..|x|] == x;
    }
  }

  /** Nothing to strip leaves the string as it is. */
  lemma StripNothing(x: string, p: CharClass)
    requires x == [] || (!p.Has(x[0]) && !p.Has(x[|x| - 1]))
    ensures Strip(x, p) == x
  {
    assert [] + x + [] == x;
    StripSurrounded([], x, [], p);
  }

  /** No occurrence of `pat` starts before `i`, and one starts at `i`: then
      `find` reports `i`. */
  lemma FindAt(s: string, pat: string, start: nat, i: nat)
    requires start <= i && OccursAt(s, pat, i)
    requires forall j :: start <= j < i ==> !OccursAt(s, pat, j)
    ensures Find(s, pat, start) == i
  {
  }
}
