/**
 * `HitmoParser.find_song`: the catalog's search address for a free-text
 * query. The query is trimmed, cut into its whitespace-separated words, and
 * the words are joined with `+` after the fixed `search?q=` endpoint.
 */
module Query {
  import opened Text

  const MainLink := "https://rus.hitmotop.com/"
  const SearchPrefix := MainLink + "search?q="

  /** The search address for `songName`. */
  function FindSong(songName: string): (url: string)
    ensures |SearchPrefix| <= |url| && url[..|SearchPrefix|] == SearchPrefix
  {
    SearchPrefix + Join("+", Split(Strip(songName, Whitespace)))
  }

  /** The part of the address after `search?q=` never holds whitespace. */
  lemma FindSongNoSpace(songName: string)
    ensures Avoids(FindSong(songName)[|SearchPrefix|..], Whitespace)
  {
    var words := Split(Strip(songName, Whitespace));
    JoinAvoids("+", words, Whitespace);
    assert FindSong(songName)[|SearchPrefix|..] == Join("+", words);
  }

  /** What a form decoder makes of the query parameter: `+` reads as a space. */
  function PlusToSpace(s: string): (r: string)
    ensures |r| == |s|
    ensures forall k :: 0 <= k < |s| ==> r[k] == if s[k] == '+' then ' ' else s[k]
  {
    seq(|s|, k requires 0 <= k < |s| => if s[k] == '+' then ' ' else s[k])
  }

  /** The query parameter is the words of `q` (ignoring all surrounding and
      repeated whitespace) joined by `+`. */
  lemma FindSongJoinsWords(q: string)
    ensures FindSong(q) == SearchPrefix + Join("+", Split(q))
  {
    SplitIgnoresStrip(q);
  }

  /** Example: `"  foo   bar "` is looked up as `foo+bar`. */
  lemma FindSongExample(q: string)
    requires q == "  foo   bar "
    ensures FindSong(q) == SearchPrefix + "foo+bar"
  {
    FindSongJoinsWords(q);
    SplitExample(q);
    JoinExample();
  }

  lemma JoinExample()
    ensures Join("+", ["foo", "bar"]) == "foo+bar"
  {
    assert ["foo", "bar"][1..] == ["bar"];
    assert "foo" + "+" + "bar" == "foo+bar";
  }

  lemma SplitExample(q: string)
    requires q == "  foo   bar "
    ensures Split(q) == ["foo", "bar"]
  {
    var rest := "foo   bar ";
    assert q == "  " + rest;
    SplitLeadingSpace("  ", rest);
    SplitExampleWords(rest);
  }

  lemma SplitExampleWords(s: string)
    requires s == "foo   bar "
    ensures Split(s) == ["foo", "bar"]
  {
    var foo, rest := "foo", "   bar ";
    assert s == foo + rest;
    assert foo[0] == 'f' && foo[1] == 'o' && foo[2] == 'o';
    assert rest[0] == ' ';
    SplitWordFirst(foo, rest);
    SplitExampleLastWord(rest);
  }

  lemma SplitExampleLastWord(s: string)
    requires s == "   bar "
    ensures Split(s) == ["bar"]
  {
    var bar, gap := "bar", " ";
    assert s == "   " + (bar + gap);
    assert bar[0] == 'b' && bar[1] == 'a' && bar[2] == 'r';
    SplitLeadingSpace("   ", bar + gap);
    SplitWordFirst(bar, gap);
    SplitBlank(gap);
  }

  /** A blank query gives the degenerate address with an empty parameter. */
  lemma FindSongBlank(q: string)
    requires Within(q, Whitespace)
    ensures FindSong(q) == SearchPrefix
  {
    FindSongJoinsWords(q);
    SplitBlank(q);
  }

  lemma {:induction false} PlusToSpaceJoin(ws: seq<string>)
    requires forall w :: w in ws ==> Avoids(w, Plus)
    ensures PlusToSpace(Join("+", ws)) == Join(" ", ws)
  {
    if |ws| > 0 {
      assert ws[0] in ws;
      assert PlusToSpace(ws[0]) == ws[0];
    }
    if |ws| > 1 {
      forall w | w in ws[1..] ensures Avoids(w, Plus) {
        assert w in ws;
      }
      PlusToSpaceJoin(ws[1..]);
      var a, b := ws[0] + "+", Join("+", ws[1..]);
      assert PlusToSpace(a + b) == PlusToSpace(a) + PlusToSpace(b);
      assert PlusToSpace(a) == ws[0] + " ";
    }
  }

  /** Round trip: when the query has no `+` of its own, decoding the query
      parameter (`+` as space) and splitting it gives back the query's words. */
  lemma FindSongDecodes(q: string)
    requires '+' !in q
    ensures Split(PlusToSpace(FindSong(q)[|SearchPrefix|..])) == Split(q)
  {
    FindSongJoinsWords(q);
    var ws := Split(q);
    assert FindSong(q)[|SearchPrefix|..] == Join("+", ws);
    SplitAvoids(q, Plus);
    PlusToSpaceJoin(ws);
    SplitJoin(ws);
  }

  lemma {:induction false} JoinPlusShape(ws: seq<string>)
    requires |ws| > 0
    requires forall w :: w in ws ==> w != [] && Avoids(w, Plus)
    ensures var r := Join("+", ws);
            r != [] && r[0] != '+' && r[|r| - 1] != '+' &&
            forall k :: 0 <= k < |r| - 1 ==> !(r[k] == '+' && r[k + 1] == '+')
  {
    var w := ws[0];
    assert w in ws;
    if |ws| > 1 {
      forall v | v in ws[1..] ensures v != [] && Avoids(v, Plus) {
        assert v in ws;
      }
      JoinPlusShape(ws[1..]);
      var tail := Join("+", ws[1..]);
      var r := w + "+" + tail;
      assert r[0] == w[0];
      assert r[|r| - 1] == tail[|tail| - 1];
      forall k | 0 <= k < |r| - 1 ensures !(r[k] == '+' && r[k + 1] == '+') {
        if k < |w| {
          assert r[k] == w[k];
        } else if k > |w| {
          assert r[k] == tail[k - |w| - 1] && r[k + 1] == tail[k - |w|];
        } else {
          assert r[k + 1] == tail[0];
        }
      }
    }
  }

  /** When the query has no `+` of its own and is not blank, the query
      parameter is non-empty, neither starts nor ends with `+`, and never
      holds `++`. */
  lemma FindSongPlusShape(q: string)
    requires '+' !in q && !Within(q, Whitespace)
    ensures var p := FindSong(q)[|SearchPrefix|..];
            p != [] && p[0] != '+' && p[|p| - 1] != '+' &&
            forall k :: 0 <= k < |p| - 1 ==> !(p[k] == '+' && p[k + 1] == '+')
  {
    FindSongJoinsWords(q);
    var ws := Split(q);
    assert FindSong(q)[|SearchPrefix|..] == Join("+", ws);
    SplitAvoids(q, Plus);
    SplitNonBlank(q);
    JoinPlusShape(ws);
  }
}
