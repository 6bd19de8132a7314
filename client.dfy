/**
 * The state of the `MusicClient` window that its handlers update: the
 * search box, the history list (and the file it is saved to), the result
 * list with the download link and cover address of each row, and the index
 * of the track being played. Widgets, the media player and the network are
 * outside the model; the fetched search page is a parameter.
 */
module Client {
  import opened Wrappers
  import opened Text
  import opened Query
  import opened Parser
  import opened History

  /** The single row shown when a search finds nothing. */
  const NoTracksMessage := "⚠ Треки не найдены."

  /** The row shown for a track: `f"{artist} — {title}"`. */
  function Label(t: Track): (r: string)
    ensures |r| == |t.artist| + 3 + |t.title|
    ensures r[..|t.artist|] == t.artist && r[|r| - |t.title|..] == t.title
    ensures r[|t.artist|..|t.artist| + 3] == " — "
  {
    t.artist + " — " + t.title
  }

  /** What selecting a row starts: the link handed to the player, the
      notification text, and the cover address to fetch, if any. */
  datatype Selection = Selection(link: string, notice: string, coverFetch: Option<string>)

  class MusicClient {
    var searchBox: string
    var history: seq<string>
    /** The contents of `search_history.json`, None when there is no file. */
    var savedHistory: Option<seq<string>>
    var resultsList: seq<string>
    var trackLinks: seq<string>
    var coverUrls: seq<Option<string>>
    var currentIndex: int

    /** The result rows, the links and the covers line up: once there are
        links, row `k` of the list belongs to link `k`. */
    predicate Valid()
      reads this
    {
      |trackLinks| == |coverUrls| &&
      (trackLinks != [] ==> |resultsList| == |trackLinks|)
    }

    /** The window as `__init__` leaves it: empty lists, no track playing,
        and the history `load_history` read from the saved file. */
    constructor(saved: Option<seq<string>>)
      ensures Valid()
      ensures savedHistory == saved
      ensures history == if saved.Some? then saved.value else []
      ensures searchBox == [] && resultsList == [] && trackLinks == [] && coverUrls == []
      ensures currentIndex == -1
    {
      searchBox := [];
      savedHistory := saved;
      var loaded := [];
      if saved.Some? {
        var items := saved.value;
        var i := 0;
        while i < |items|
          invariant 0 <= i <= |items| && loaded == items[..i]
        {
          loaded := loaded + [items[i]];
          i := i + 1;
        }
        assert items[..i] == items;
      }
      history := loaded;
      resultsList := [];
      trackLinks := [];
      coverUrls := [];
      currentIndex := -1;
    }

    /** `add_to_history`: drops the first entry equal to `query` up to case,
        puts `query` in front, keeps ten entries and saves the list. */
    method AddToHistory(query: string)
      requires Valid()
      modifies this`history, this`savedHistory
      ensures Valid()
      ensures history == Recorded(old(history), query)
      ensures savedHistory == Some(history)
    {
      var h := history;
      var i := 0;
      while i < |h|
        invariant 0 <= i <= |h| && i <= FirstMatch(h, query)
      {
        if EqualsIgnoreCase(h[i], query) {
          h := h[..i] + h[i + 1..];
          break;
        }
        i := i + 1;
      }
      assert h == RemoveFirstMatch(history, query);
      h := [query] + h;
      ghost var full := h;
      while |h| > MaxHistory
        invariant |full| <= MaxHistory ==> h == full
        invariant |full| > MaxHistory ==>
                    MaxHistory <= |h| <= |full| &&
                    h == full[..MaxHistory] + full[|full| - |h| + MaxHistory..]
        decreases |h|
      {
        h := h[..MaxHistory] + h[MaxHistory + 1..];
      }
      assert |full| > MaxHistory ==> h == full[..MaxHistory];
      history := h;
      savedHistory := Some(h);
    }

    /** The result list shows `tracks`: one row, link and cover per track,
        in order, or the single "no tracks" row when there are none. */
    predicate Shows(tracks: seq<Track>)
      reads this
    {
      |trackLinks| == |coverUrls| == |tracks| &&
      (tracks == [] ==> resultsList == [NoTracksMessage]) &&
      (tracks != [] ==> |resultsList| == |tracks|) &&
      forall k :: 0 <= k < |tracks| ==>
        resultsList[k] == Label(tracks[k]) &&
        trackLinks[k] == tracks[k].download && coverUrls[k] == tracks[k].cover
    }

    /** The state a search for `query` on `page` leaves: the query recorded
        in the history and saved, the URL asked for, and the tracks of the
        page shown. */
    twostate predicate Searched(query: string, page: Option<seq<TrackItem>>, new url: Option<string>)
      reads this
    {
      url == Some(FindSong(query)) &&
      history == Recorded(old(history), query) && savedHistory == Some(history) &&
      Shows(PageTracks(page))
    }

    /** `search_tracks`: a blank search box changes nothing; otherwise the
        stripped query is searched for and the results replace the old
        ones. `page` is what fetching the returned URL gave (None when the
        request failed). */
    method SearchTracks(page: Option<seq<TrackItem>>) returns (url: Option<string>)
      requires Valid()
      modifies this`history, this`savedHistory, this`resultsList, this`trackLinks, this`coverUrls
      ensures Valid()
      ensures Strip(old(searchBox), Whitespace) == [] ==> url.None? && unchanged(this)
      ensures Strip(old(searchBox), Whitespace) != [] ==> Searched(Strip(old(searchBox), Whitespace), page, url)
    {
      var query := Strip(searchBox, Whitespace);
      if query == [] {
        return None;
      }
      url := Search(query, page);
    }

    /** `search_tracks` past its guard: records the query, clears the
        results, asks for the search URL and shows what the page holds. */
    method Search(query: string, page: Option<seq<TrackItem>>) returns (url: Option<string>)
      requires Valid()
      modifies this`history, this`savedHistory, this`resultsList, this`trackLinks, this`coverUrls
      ensures Valid() && Searched(query, page, url)
    {
      AddToHistory(query);
      resultsList := [];
      trackLinks := [];
      coverUrls := [];
      var parser := new HitmoParser();
      url := Some(FindSong(query));
      var tracks := parser.GetSongs(page);
      ShowResults(tracks);
    }

    /** The end of `search_tracks`: the "no tracks" row when nothing was
        found, otherwise one row, link and cover per track, appended in
        order to the cleared lists. */
    method ShowResults(tracks: seq<Track>)
      requires resultsList == [] && trackLinks == [] && coverUrls == []
      modifies this`resultsList, this`trackLinks, this`coverUrls
      ensures Shows(tracks) && Valid()
    {
      if tracks == [] {
        resultsList := resultsList + [NoTracksMessage];
        return;
      }
      var i := 0;
      while i < |tracks|
        invariant 0 <= i <= |tracks|
        invariant |resultsList| == |trackLinks| == |coverUrls| == i
        invariant forall k :: 0 <= k < i ==>
                    resultsList[k] == Label(tracks[k]) &&
                    trackLinks[k] == tracks[k].download && coverUrls[k] == tracks[k].cover
      {
        var t := tracks[i];
        resultsList := resultsList + [Label(t)];
        trackLinks := trackLinks + [t.download];
        coverUrls := coverUrls + [t.cover];
        i := i + 1;
      }
    }

    /** `search_from_history`: puts the clicked entry in the search box and
        searches for it. */
    method SearchFromHistory(item: string, page: Option<seq<TrackItem>>) returns (url: Option<string>)
      requires Valid()
      modifies this`searchBox, this`history, this`savedHistory, this`resultsList, this`trackLinks, this`coverUrls
      ensures Valid()
      ensures searchBox == item
      ensures Strip(item, Whitespace) == [] ==>
                url.None? && history == old(history) && savedHistory == old(savedHistory) &&
                resultsList == old(resultsList) &&
                trackLinks == old(trackLinks) && coverUrls == old(coverUrls)
      ensures Strip(item, Whitespace) != [] ==> Searched(Strip(item, Whitespace), page, url)
    {
      searchBox := item;
      url := SearchTracks(page);
    }

    /** `play_selected_track`: a row outside the links (the "no tracks" row,
        or no row) is ignored; otherwise the row's link is played, its label
        is the notification and its cover, when present and not empty, is
        fetched. The row always has a label because the lists line up. */
    method PlaySelectedTrack(row: int) returns (sel: Option<Selection>)
      requires Valid()
      modifies this`currentIndex
      ensures Valid()
      ensures sel.Some? <==> 0 <= row < |trackLinks|
      ensures sel.None? ==> currentIndex == old(currentIndex)
      ensures sel.Some? ==>
                currentIndex == row && row < |resultsList| &&
                sel.value.link == trackLinks[row] && sel.value.notice == resultsList[row] &&
                (sel.value.coverFetch.Some? <==> coverUrls[row].Some? && coverUrls[row].value != []) &&
                (sel.value.coverFetch.Some? ==> sel.value.coverFetch == coverUrls[row])
    {
      if row < 0 || row >= |trackLinks| {
        return None;
      }
      var link := trackLinks[row];
      currentIndex := row;
      var notice := resultsList[row];
      var cover := coverUrls[row];
      var fetch := if cover.Some? && cover.value != [] then cover else None;
      sel := Some(Selection(link, notice, fetch));
    }
  }
}
