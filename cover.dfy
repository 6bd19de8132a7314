/**
 * The cover-image address that `HitmoParser.get_songs` reads from the
 * `style` attribute of a result's image element: the text after the first
 * `url(` up to the next `)`, with runs of `"` and then runs of `'` stripped
 * from both ends.
 */
module Cover {
  import opened Wrappers
  import opened Text

  const UrlOpen := "url("

  /** The raw text between the first `url(` of `c` and the next `)`,
      sliced with Python's rules (an absent `)` gives the bound -1). */
  function UrlArgument(c: string): (r: string)
    requires Contains(c, UrlOpen)
    ensures var start := Find(c, UrlOpen, 0) + |UrlOpen|;
            start + |r| <= |c| && r == c[start..start + |r|]
    ensures ')' !in r
  {
    var start := Find(c, UrlOpen, 0) + |UrlOpen|;
    NoParenBeforeEnd(c, start);
    Slice(c, start, Find(c, ")", start))
  }

  /** What the slice keeps lies before the first `)` after `start`. */
  lemma NoParenBeforeEnd(c: string, start: nat)
    requires start <= |c|
    ensures ')' !in Slice(c, start, Find(c, ")", start))
  {
    var r := Slice(c, start, Find(c, ")", start));
    forall k | 0 <= k < |r| ensures r[k] != ')' {
      assert r[k] == c[start + k];
      assert c[start + k..start + k + 1][0] == c[start + k];
      assert !OccursAt(c, ")", start + k);
    }
  }

  /** `s.strip('"').strip("'")`. */
  function Unquoted(s: string): (r: string)
    ensures r == [] || (!SingleQuote.Has(r[0]) && !SingleQuote.Has(r[|r| - 1]))
  {
    Strip(Strip(s, DoubleQuote), SingleQuote)
  }

  /** The cover address in `style`, or None when there is no style or it
      has no `url(`. */
  function CoverUrl(style: Option<string>): (r: Option<string>)
    ensures r.None? <==> style.None? || !Contains(style.value, UrlOpen)
    ensures r.Some? ==> r.value == [] ||
                        (!SingleQuote.Has(r.value[0]) && !SingleQuote.Has(r.value[|r.value| - 1]))
  {
    if style.Some? && style.value != "" && Contains(style.value, UrlOpen) then
      Some(Unquoted(UrlArgument(style.value)))
    else
      None
  }

  /** The first `url(` in `pre + "url(" + rest` is the one after `pre` when
      `pre` has none: `url(` cannot overlap itself. */
  lemma FirstUrlOpen(pre: string, rest: string)
    requires !Contains(pre, UrlOpen)
    ensures Find(pre + UrlOpen + rest, UrlOpen, 0) == |pre|
  {
    var c := pre + UrlOpen + rest;
    assert OccursAt(c, UrlOpen, |pre|) by {
      assert c[|pre|..|pre| + 4] == UrlOpen;
    }
    forall j | 0 <= j < |pre| ensures !OccursAt(c, UrlOpen, j) {
      if j + 4 <= |pre| {
        assert c[j..j + 4] == pre[j..j + 4];
        assert !OccursAt(pre, UrlOpen, j);
      } else {
        assert c[|pre|] == 'u';
        assert j + 4 <= |c| ==> c[j..j + 4][|pre| - j] == c[|pre|];
      }
    }
    FindAt(c, UrlOpen, 0, |pre|);
  }

  /** `find` reports the first `)` at or after `start`. */
  lemma FindCloseParen(c: string, start: nat, end: nat)
    requires start <= end < |c| && c[end] == ')'
    requires ')' !in c[start..end]
    ensures Find(c, ")", start) == end
  {
    assert OccursAt(c, ")", end) by {
      assert c[end..end + 1] == ")";
    }
    forall j | start <= j < end ensures !OccursAt(c, ")", j) {
      assert c[j] == c[start..end][j - start];
      assert c[j..j + 1][0] == c[j];
    }
    FindAt(c, ")", start, end);
  }

  /** The argument of a closed `url(...)` is exactly the text inside. */
  lemma UrlArgumentClosed(pre: string, inner: string, post: string)
    requires !Contains(pre, UrlOpen) && ')' !in inner
    ensures var c := pre + UrlOpen + inner + ")" + post;
            Contains(c, UrlOpen) && UrlArgument(c) == inner
  {
    var c := pre + UrlOpen + (inner + ")" + post);
    assert pre + UrlOpen + inner + ")" + post == c;
    var start := |pre| + 4;
    var end := start + |inner|;
    FirstUrlOpen(pre, inner + ")" + post);
    assert c[start..end] == inner;
    assert c[end] == ')';
    FindCloseParen(c, start, end);
  }

  /** The source's quirk: with no `)` after `url(`, `find` returns -1 and the
      slice `[start:-1]` silently drops the style's last character. */
  lemma UrlArgumentUnclosed(pre: string, x: string)
    requires !Contains(pre, UrlOpen) && ')' !in x
    ensures var c := pre + UrlOpen + x;
            Contains(c, UrlOpen) && UrlArgument(c) == if x == [] then [] else x[..|x| - 1]
  {
    var c := pre + UrlOpen + x;
    var start := |pre| + 4;
    FirstUrlOpen(pre, x);
    forall j: nat | start <= j ensures !OccursAt(c, ")", j) {
      if j < |c| {
        assert c[j] == x[j - start];
        assert j + 1 <= |c| ==> c[j..j + 1][0] == c[j];
      }
    }
    assert Find(c, ")", start) == -1;
    if x != [] {
      assert c[start..|c| - 1] == x[..|x| - 1];
    }
  }

  /** Stripping `"` runs and then `'` runs from `q + x + q` leaves `x` when
      `q` is empty or one quote and `x` has no quote at either end. */
  lemma Unquote(q: string, x: string)
    requires q == "" || q == "\"" || q == "'"
    requires x == [] || (x[0] != '"' && x[0] != '\'' && x[|x| - 1] != '"' && x[|x| - 1] != '\'')
    ensures Unquoted(q + x + q) == x
  {
    var inner := q + x + q;
    if q == "\"" {
      StripSurrounded(q, x, q, DoubleQuote);
      StripNothing(x, SingleQuote);
    } else if q == "'" {
      assert inner[0] == '\'' && inner[|inner| - 1] == '\'';
      StripNothing(inner, DoubleQuote);
      StripSurrounded(q, x, q, SingleQuote);
    } else {
      assert inner == x;
      StripNothing(x, DoubleQuote);
      StripNothing(x, SingleQuote);
    }
  }

  /** Every way of writing the address the catalog uses, `url(X)`,
      `url('X')` or `url("X")`, gives back exactly `X` when `X` holds no `)`
      and does not itself start or end with a quote. */
  lemma CoverUrlQuoted(pre: string, q: string, x: string, post: string)
    requires !Contains(pre, UrlOpen)
    requires q == "" || q == "\"" || q == "'"
    requires ')' !in x
    requires x == [] || (x[0] != '"' && x[0] != '\'' && x[|x| - 1] != '"' && x[|x| - 1] != '\'')
    ensures CoverUrl(Some(pre + UrlOpen + q + x + q + ")" + post)) == Some(x)
  {
    var c := pre + UrlOpen + (q + x + q) + ")" + post;
    assert pre + UrlOpen + q + x + q + ")" + post == c;
    assert ')' !in q + x + q;
    UrlArgumentClosed(pre, q + x + q, post);
    Unquote(q, x);
  }

  /** With no closing `)`, the cover keeps all but the last character after
      `url(` (here with no quotes to strip). */
  lemma CoverUrlUnclosed(pre: string, x: string)
    requires !Contains(pre, UrlOpen)
    requires ')' !in x && x != []
    requires var kept := x[..|x| - 1];
             kept == [] || (kept[0] != '"' && kept[0] != '\'' &&
                            kept[|kept| - 1] != '"' && kept[|kept| - 1] != '\'')
    ensures CoverUrl(Some(pre + UrlOpen + x)) == Some(x[..|x| - 1])
  {
    UrlArgumentUnclosed(pre, x);
    Unquote("", x[..|x| - 1]);
    assert "" + x[..|x| - 1] + "" == x[..|x| - 1];
  }
}
