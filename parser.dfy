/**
 * `HitmoParser.get_songs`: turning the result items of a catalog search
 * page into track records. The page itself is fetched over HTTP and parsed
 * by an HTML library; here it arrives already parsed, as the sequence of
 * `li.tracks__item` elements, each with the four child elements the parser
 * looks up (any of which may be missing), or as `None` when the request
 * failed.
 */
module Parser {
  import opened Wrappers
  import opened Text
  import opened Cover

  /** An HTML element as the parser sees it: its text and its attributes. */
  datatype Node = Node(text: string, attrs: map<string, string>)

  /** One `li.tracks__item`, with the result of looking up each child:
      `div.track__title`, `div.track__desc`, `a.track__download-btn` and
      `div.track__img` (None when `find` finds nothing). */
  datatype TrackItem = TrackItem(title: Option<Node>, desc: Option<Node>,
                                 downloadButton: Option<Node>, image: Option<Node>)

  /** The record `get_songs` appends for a result. */
  datatype Track = Track(title: string, artist: string, download: string, cover: Option<string>)

  /** An item the loop body gets through without raising: all four children
      exist and the download button has an `href`. */
  predicate WellFormed(item: TrackItem) {
    item.title.Some? && item.desc.Some? && item.image.Some? &&
    item.downloadButton.Some? && "href" in item.downloadButton.value.attrs
  }

  /** `element.get(name)`. */
  function Attribute(n: Node, name: string): (r: Option<string>)
    ensures r.Some? <==> name in n.attrs
    ensures r.Some? ==> r.value == n.attrs[name]
  {
    if name in n.attrs then Some(n.attrs[name]) else None
  }

  /** The body of the loop for one item: the track it appends, or None when
      one of the lookups raises and the item is skipped. */
  function ExtractTrack(item: TrackItem): (r: Option<Track>)
    ensures r.Some? <==> WellFormed(item)
    ensures r.Some? ==> r.value.download == item.downloadButton.value.attrs["href"]
  {
    if WellFormed(item) then
      Some(Track(Strip(item.title.value.text, Whitespace), Strip(item.desc.value.text, Whitespace),
                 item.downloadButton.value.attrs["href"],
                 CoverUrl(Attribute(item.image.value, "style"))))
    else
      None
  }

  /** The title and the artist are the texts of their elements without the
      surrounding whitespace, with the same words; the cover is found
      exactly when the image has a style holding `url(`. */
  lemma ExtractTrackFields(item: TrackItem)
    requires WellFormed(item)
    ensures var t := ExtractTrack(item).value;
            (t.title == [] || (!IsSpace(t.title[0]) && !IsSpace(t.title[|t.title| - 1]))) &&
            (t.artist == [] || (!IsSpace(t.artist[0]) && !IsSpace(t.artist[|t.artist| - 1]))) &&
            Split(t.title) == Split(item.title.value.text) &&
            Split(t.artist) == Split(item.desc.value.text) &&
            (t.cover.Some? <==>
               (Attribute(item.image.value, "style").Some? &&
                Contains(Attribute(item.image.value, "style").value, UrlOpen)))
  {
    SplitIgnoresStrip(item.title.value.text);
    SplitIgnoresStrip(item.desc.value.text);
  }

  /** The tracks a page of items yields, in page order. */
  function Extracted(items: seq<TrackItem>): (r: seq<Track>)
    ensures |r| <= |items|
  {
    if items == [] then []
    else
      var rest := Extracted(items[..|items| - 1]);
      match ExtractTrack(items[|items| - 1])
      case Some(t) => rest + [t]
      case None => rest
  }

  /** Items are processed one after another: a page split in two yields
      the tracks of the first part followed by those of the second. */
  lemma {:induction false} ExtractedAppend(a: seq<TrackItem>, b: seq<TrackItem>)
    ensures Extracted(a + b) == Extracted(a) + Extracted(b)
    decreases |b|
  {
    if b == [] {
      assert a + b == a;
    } else {
      var b' := b[..|b| - 1];
      assert (a + b)[..|a + b| - 1] == a + b';
      assert (a + b)[|a + b| - 1] == b[|b| - 1];
      ExtractedAppend(a, b');
    }
  }

  /** A single item yields its track, or nothing when it is malformed. */
  lemma ExtractedSingle(item: TrackItem)
    ensures Extracted([item]) == if WellFormed(item) then [ExtractTrack(item).value] else []
  {
    assert [item][..0] == [];
  }

  /** A malformed item never aborts the loop: it contributes nothing and the
      items around it are still read. */
  lemma ExtractedSkipsMalformed(a: seq<TrackItem>, bad: TrackItem, b: seq<TrackItem>)
    requires !WellFormed(bad)
    ensures Extracted(a + [bad] + b) == Extracted(a) + Extracted(b)
  {
    ExtractedAppend(a + [bad], b);
    ExtractedAppend(a, [bad]);
    ExtractedSingle(bad);
  }

  /** The number of well-formed items in `items`. */
  function CountWellFormed(items: seq<TrackItem>): (n: nat)
    ensures n <= |items|
  {
    if items == [] then 0
    else CountWellFormed(items[..|items| - 1]) + (if WellFormed(items[|items| - 1]) then 1 else 0)
  }

  /** Exactly the well-formed items are kept: one track per well-formed
      item. */
  lemma {:induction false} ExtractedCount(items: seq<TrackItem>)
    ensures |Extracted(items)| == CountWellFormed(items)
  {
    if items != [] {
      ExtractedCount(items[..|items| - 1]);
    }
  }

  /** The position of the item that track `j` of the page was read from:
      every track is the record of one item of the page. */
  function Origin(items: seq<TrackItem>, j: nat): (k: nat)
    requires j < |Extracted(items)|
    ensures k < |items| && ExtractTrack(items[k]) == Some(Extracted(items)[j])
    decreases |items|
  {
    var init := items[..|items| - 1];
    var last := items[|items| - 1];
    assert Extracted(items) == Extracted(init) + (if WellFormed(last) then [ExtractTrack(last).value] else []);
    if j < |Extracted(init)| then
      var k := Origin(init, j);
      assert items[k] == init[k];
      k
    else
      |items| - 1
  }

  /** Tracks keep the order of their items: a later track comes from a
      later item. */
  lemma {:induction false} OriginIncreasing(items: seq<TrackItem>, i: nat, j: nat)
    requires i < j < |Extracted(items)|
    ensures Origin(items, i) < Origin(items, j)
    decreases |items|
  {
    var init := items[..|items| - 1];
    if j < |Extracted(init)| {
      OriginIncreasing(init, i, j);
    }
  }

  /** When every item is well formed, there is one track per item and
      track `k` is the record of item `k`. */
  lemma {:induction false} ExtractedAllWellFormed(items: seq<TrackItem>)
    requires forall k :: 0 <= k < |items| ==> WellFormed(items[k])
    ensures |Extracted(items)| == |items|
    ensures forall k :: 0 <= k < |items| ==> Origin(items, k) == k
  {
    if items != [] {
      var init := items[..|items| - 1];
      ExtractedAllWellFormed(init);
    }
  }

  /** What `get_songs` returns for the fetched page: nothing when the
      request failed, otherwise the tracks of the page's items. */
  function PageTracks(page: Option<seq<TrackItem>>): (r: seq<Track>)
    ensures page.None? ==> r == []
    ensures page.Some? ==> |r| == CountWellFormed(page.value)
  {
    if page.None? then [] else (ExtractedCount(page.value); Extracted(page.value))
  }

  /** The parser object; `trackList` is what the last `get_songs` built. */
  class HitmoParser {
    var trackList: seq<Track>

    constructor()
      ensures trackList == []
    {
      trackList := [];
    }

    /** `get_songs`: resets `trackList`, then appends the record of each
        well-formed item in order and returns the list; a failed request
        (`page` is None) gives the empty list. */
    method GetSongs(page: Option<seq<TrackItem>>) returns (tracks: seq<Track>)
      modifies this
      ensures trackList == tracks
      ensures tracks == PageTracks(page)
    {
      trackList := [];
      if page.None? {
        return [];
      }
      var items := page.value;
      var i := 0;
      while i < |items|
        invariant 0 <= i <= |items|
        invariant trackList == Extracted(items[..i])
      {
        var item := items[i];
        assert items[..i + 1] == items[..i] + [item];
        ExtractedAppend(items[..i], [item]);
        ExtractedSingle(item);
        if WellFormed(item) {
          var title := Strip(item.title.value.text, Whitespace);
          var artist := Strip(item.desc.value.text, Whitespace);
          var download := item.downloadButton.value.attrs["href"];
          var cover := CoverUrl(Attribute(item.image.value, "style"));
          trackList := trackList + [Track(title, artist, download, cover)];
        }
        i := i + 1;
      }
      assert items[..i] == items;
      tracks := trackList;
    }
  }
}
