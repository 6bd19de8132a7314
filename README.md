# Hitmotop client: a verified model of its core logic

`hitmotop_client_qt.py` is a PyQt desktop client for the rus.hitmotop.com
music catalog. It builds a search address from a free-text query, reads the
result page into track records (title, artist, download link, cover
address), keeps a ten-entry search history, shows the results in a list, and
plays the selected track through VLC with a position slider and a clock.

This project models the parts of that program that are logic rather than
wiring, and proves what they promise:

- `Text` (`text.dfy`) holds the Python string operations the client uses:
  - `str.strip` with a character set;
  - `str.split()` on Python's whitespace, and `str.join`;
  - `str.find`;
  - slicing with negative and clamped bounds;
  - `lower()` for case-insensitive comparison.
- `Query` (`query.dfy`) models `HitmoParser.find_song`. The search address is
  the catalog's endpoint followed by the query's words joined with `+`.
- `Cover` (`cover.dfy`) models the cover address taken from the `style`
  attribute of a result's image. This includes the `cover[start:-1]` quirk
  when no `)` follows `url(`.
- `Parser` (`parser.dfy`) models `HitmoParser.get_songs`.
  - `HitmoParser` is a class with its `trackList` field.
  - `GetSongs` is a loop proved against the function `PageTracks`.
  - Malformed items are skipped and the page order is kept.
- `History` (`history.dfy`) holds `Recorded`, the history `add_to_history`
  leaves. Its lemmas prove:
  - the query comes first;
  - at most ten entries are kept;
  - the surviving entries keep their order;
  - a history free of case-insensitive duplicates stays free of them;
  - recording the same query twice changes nothing the second time.
- `Playback` (`playback.dfy`) models two pieces of arithmetic:
  - `ms_to_min`, Python's `int(ms / 1000)` and then `f"{s // 60:02}:{s % 60:02}"`, modelled for all integers;
  - the seek target `int(length * pos / 1000)`.
- `Client` (`client.dfy`) models the `MusicClient` window as a class:
  - its fields are the search box, the history and the saved copy of it, the result list, the parallel link and cover lists, and the playing index;
  - its methods are `__init__`/`load_history`, `add_to_history`, `search_tracks`, `search_from_history` and `play_selected_track`.

The HTTP request for the result page is not performed. Its outcome is a
parameter `page: Option<seq<TrackItem>>`:
- `None` means the request raised;
- `Some(items)` holds the `li.tracks__item` elements, with each child lookup
  already done by the HTML library.

## Model

| member | source | states |
|---|---|---|
| Text.Strip | hitmotop_client_qt.py:40-41 | `strip` removes exactly the leading run and a trailing run of the stripped characters; the result neither starts nor ends with one |
| Text.StripSurrounded | hitmotop_client_qt.py:48 | stripping `a + x + b`, where `a` and `b` are all stripped characters and `x` has none at its ends, gives exactly `x` |
| Text.StripNothing | hitmotop_client_qt.py:48 | a string with no stripped character at its ends is left unchanged |
| Text.Split | hitmotop_client_qt.py:25 | `split()` yields only non-empty words free of whitespace |
| Text.SplitIgnoresStrip | hitmotop_client_qt.py:25 | `s.strip().split() == s.split()` |
| Text.SplitJoin | hitmotop_client_qt.py:25 | joining words with a space and splitting again gives the words back |
| Text.SplitAvoids | hitmotop_client_qt.py:25 | the words of `split()` avoid every character the input avoids |
| Text.JoinAvoids | hitmotop_client_qt.py:25 | joining with a separator keeps a character out of the result when the separator and every part avoid it |
| Text.SplitNonBlank | hitmotop_client_qt.py:25 | input that is not all whitespace has at least one word |
| Text.SplitBlank | hitmotop_client_qt.py:25 | input that is all whitespace has no words |
| Text.Join | hitmotop_client_qt.py:25 | joining no parts gives `""`; a join starts with its first part |
| Text.JoinEndsWithLast | hitmotop_client_qt.py:25 | a join ends with its last part |
| Text.Contains | hitmotop_client_qt.py:45 | `pat in s` holds exactly when `pat` occurs at some position of `s` |
| Text.Find | hitmotop_client_qt.py:46-47 | `find` returns the first occurrence at or after `start`, or -1 when there is none |
| Text.FindAt | hitmotop_client_qt.py:46-47 | if the first occurrence at or after `start` is at `i`, then `find` returns `i` |
| Text.Slice | hitmotop_client_qt.py:48 | `s[lo:hi]` is the text between two bounds inside the string; `s[lo:-1]` stops one character before the end; a bound past the end means the end; an empty or reversed range gives `""`; the result is always the piece of `s` starting at the read lower bound |
| Text.SliceBound | hitmotop_client_qt.py:48 | a bound inside the string is kept; a negative bound counts from the end; a bound past either end is clamped to that end |
| Text.LowerChar | hitmotop_client_qt.py:159 | upper-case ASCII letters map to lower case and every other character is kept |
| Text.Lower | hitmotop_client_qt.py:159 | `lower()` keeps the length |
| Text.LowerAt | hitmotop_client_qt.py:159 | `lower()` maps each character on its own |
| Query.FindSong | hitmotop_client_qt.py:24-25 | the address starts with `https://rus.hitmotop.com/search?q=` |
| Query.FindSongJoinsWords | hitmotop_client_qt.py:25 | the address is the endpoint followed by the query's whitespace-separated words joined with `+` |
| Query.FindSongNoSpace | hitmotop_client_qt.py:25 | the query parameter never holds whitespace |
| Query.FindSongExample | hitmotop_client_qt.py:25 | `"  foo   bar "` is looked up as `search?q=foo+bar` |
| Query.FindSongBlank | hitmotop_client_qt.py:25 | a blank query gives an empty query parameter |
| Query.FindSongDecodes | hitmotop_client_qt.py:25 | if the query has no `+`, decoding the parameter (`+` as space) and splitting it gives the query's words |
| Query.FindSongPlusShape | hitmotop_client_qt.py:25 | if the query has no `+` and is not blank, the parameter is non-empty, has no leading or trailing `+`, and no `++` |
| Query.PlusToSpaceJoin | hitmotop_client_qt.py:25 | decoding `+` as a space turns words joined by `+` into the same words joined by a space |
| Cover.CoverUrl | hitmotop_client_qt.py:43-48 | no cover exactly when the style is absent or has no `url(`; a cover never starts or ends with `'` |
| Cover.Unquoted | hitmotop_client_qt.py:48 | `.strip('"').strip("'")` leaves no `'` at either end |
| Cover.UrlArgument | hitmotop_client_qt.py:46-48 | the sliced argument is the text that starts right after the first `url(` and holds no `)` |
| Cover.NoParenBeforeEnd | hitmotop_client_qt.py:47-48 | the slice up to the `)` found by `find`, or up to -1 when there is none, holds no `)` |
| Cover.FirstUrlOpen | hitmotop_client_qt.py:46 | the first `url(` is found right after a prefix that has none |
| Cover.FindCloseParen | hitmotop_client_qt.py:47 | the first `)` at or after the start is the one found |
| Cover.UrlArgumentClosed | hitmotop_client_qt.py:46-48 | the slice taken from `url(X)` is exactly `X` |
| Cover.UrlArgumentUnclosed | hitmotop_client_qt.py:46-48 | with no `)` after `url(`, the slice `[start:-1]` drops the style's last character |
| Cover.Unquote | hitmotop_client_qt.py:48 | one surrounding pair of `"` or `'`, or none, is removed and nothing else |
| Cover.CoverUrlQuoted | hitmotop_client_qt.py:43-48 | `url(X)`, `url('X')` and `url("X")` all give the cover `X` |
| Cover.CoverUrlUnclosed | hitmotop_client_qt.py:45-48 | an unclosed `url(X` gives `X` without its last character |
| Parser.WellFormed | hitmotop_client_qt.py:39-42 | the condition under which the body of the `try` raises nothing: all four child lookups succeed and the download button has an `href` |
| Parser.Attribute | hitmotop_client_qt.py:43 | `get(name)` finds the attribute exactly when it is present |
| Parser.ExtractTrack | hitmotop_client_qt.py:39-57 | an item yields a track exactly when all four children exist and the button has an `href`; the download is that `href` |
| Parser.ExtractTrackFields | hitmotop_client_qt.py:40-48 | title and artist are their texts with no whitespace at either end and with the same words; there is a cover exactly when the style holds `url(` |
| Parser.Extracted | hitmotop_client_qt.py:38-57 | no more tracks than items |
| Parser.ExtractedAppend | hitmotop_client_qt.py:38-55 | a page split in two yields the tracks of the first part followed by those of the second |
| Parser.ExtractedSingle | hitmotop_client_qt.py:38-57 | one item yields its track, or nothing when it is malformed |
| Parser.ExtractedSkipsMalformed | hitmotop_client_qt.py:56-57 | a malformed item contributes nothing and does not stop the loop |
| Parser.CountWellFormed | hitmotop_client_qt.py:38-57 | the number of well-formed items is at most the number of items |
| Parser.ExtractedCount | hitmotop_client_qt.py:38-57 | there is exactly one track per well-formed item |
| Parser.Origin | hitmotop_client_qt.py:38-55 | every track is the record of some item of the page |
| Parser.OriginIncreasing | hitmotop_client_qt.py:38-55 | tracks keep the order of their items in the page |
| Parser.ExtractedAllWellFormed | hitmotop_client_qt.py:38-55 | when every item is well formed, track `k` is the record of item `k` |
| Parser.PageTracks | hitmotop_client_qt.py:29-33 | a failed request gives no tracks; otherwise one track per well-formed item |
| Parser.HitmoParser.constructor | hitmotop_client_qt.py:21-22 | a new parser has an empty track list |
| Parser.HitmoParser.GetSongs | hitmotop_client_qt.py:27-58 | resets `trackList`, fills it with the page's tracks in order, and returns it |
| History.FirstMatch | hitmotop_client_qt.py:158-161 | the scan stops at the first entry equal to the query up to case, or at the end |
| History.RemoveFirstMatch | hitmotop_client_qt.py:158-161 | with a match, exactly that entry is removed (the length drops by one and the multiset loses only that entry); with none, the history is unchanged |
| History.Recorded | hitmotop_client_qt.py:157-165 | the new history starts with the query and holds between 1 and 10 entries |
| History.RecordedLength | hitmotop_client_qt.py:158-164 | the new length is the old length, plus one when there was no match, capped at 10 |
| History.RecordedAt | hitmotop_client_qt.py:158-164 | after the query, the old entries follow in their old order, skipping only the first match |
| History.OnlyMatch | hitmotop_client_qt.py:158-161 | in a history without duplicates, the query matches no entry other than its first match |
| History.RecordedKeepsDistinct | hitmotop_client_qt.py:158-162 | a history without case-insensitive duplicates stays without them |
| History.RecordedIdempotent | hitmotop_client_qt.py:157-165 | recording the same query twice in a row equals recording it once |
| History.RecordedMovesToFront | hitmotop_client_qt.py:158-162 | a query already in a history of at most ten entries replaces its match and no entry is lost |
| Playback.TruncDiv | hitmotop_client_qt.py:256 | `int(a / b)` is the quotient truncated toward zero |
| Playback.Decimal | hitmotop_client_qt.py:257 | `str(n)` is digits only, without a leading zero |
| Playback.ParseDecimalOfDecimal | hitmotop_client_qt.py:257 | the digits of `n` read back as `n` |
| Playback.Pad2 | hitmotop_client_qt.py:257 | `f"{n:02}"` has at least two characters; it is exactly two digits when `0 <= n < 100`; a negative number starts with `-` |
| Playback.Pad2ReadsBack | hitmotop_client_qt.py:257 | a padded field reads back as the number written |
| Playback.MsToMin | hitmotop_client_qt.py:255-257 | the clock ends with `:` and two digits |
| Playback.MsToMinReadsBack | hitmotop_client_qt.py:255-257 | the clock reads back as minutes and seconds, with seconds in 0..59, adding up to `int(ms / 1000)` |
| Playback.MsToMinNonNegative | hitmotop_client_qt.py:255-257 | for `ms >= 0` the clock is digits on both sides of its colon |
| Playback.MsToMinUnderASecond | hitmotop_client_qt.py:255-257 | anything under a second either way (including -1 for no media) shows `00:00` |
| Playback.SeekTime | hitmotop_client_qt.py:246-248 | a seek happens exactly when the reported length is positive |
| Playback.SeekWithinTrack | hitmotop_client_qt.py:248 | the target lies in `[0, length]` and is `length * pos / 1000` rounded down |
| Playback.SeekEnds | hitmotop_client_qt.py:248 | slider positions 0 and 1000 seek to the start and to the end |
| Playback.SeekMonotone | hitmotop_client_qt.py:248 | a later slider position never seeks earlier |
| Client.Label | hitmotop_client_qt.py:192 | the row is the artist, then `" — "`, then the title |
| Client.MusicClient.constructor | hitmotop_client_qt.py:139-141 | empty lists and no track playing; the history is the saved list, or empty when there is no file (lines 150-155) |
| Client.MusicClient.AddToHistory | hitmotop_client_qt.py:157-165 | the history becomes `Recorded(old history, query)` and is saved; nothing else changes, so the result rows, links and covers stay lined up |
| Client.MusicClient.SearchTracks | hitmotop_client_qt.py:171-174 | a blank search box changes nothing and fetches nothing; otherwise the stripped query is searched for |
| Client.MusicClient.Search | hitmotop_client_qt.py:176-195 | the query is recorded in the history, the search address is `FindSong(query)`, and the lists show the page's tracks |
| Client.MusicClient.ShowResults | hitmotop_client_qt.py:187-195 | "no tracks" is the only row for an empty result; otherwise row `k`, link `k` and cover `k` come from track `k` |
| Client.MusicClient.SearchFromHistory | hitmotop_client_qt.py:167-169 | the entry goes into the search box and is searched for; a blank entry changes nothing else, and the playing index never changes |
| Client.MusicClient.PlaySelectedTrack | hitmotop_client_qt.py:197-214 | a row outside the links is ignored; otherwise the row's link is played, its label is the notice, and its cover is fetched when present and not empty; only the playing index changes |

## Left out

- HTTP (`requests.get` for the page and for the cover): not performed.
  - The page's outcome is the parameter `page`.
  - The cover fetch is reported as `Selection.coverFetch`.
  - The five-second timeout is not modelled.
- HTML parsing by BeautifulSoup: an item arrives as the results of its four child lookups. A node is its text and its attributes.
- VLC playback: the player is not modelled. `PlaySelectedTrack` returns the link to play, and `SeekTime` returns the target instead of calling `set_time`.
  - `toggle_play` and `set_volume` only forward to the player and are not modelled.
- The Qt widgets, the tray notification, the timer and the cover pixmap: not modelled.
  - The list widgets are sequences.
  - The notification is `Selection.notice`.
- `update_ui`: its slider value `int(current / length * 1000)` depends on float division, and its label only applies `MsToMin`. It is not modelled.
- The history file: `save_history` and `load_history` read and write the field `savedHistory` instead of a JSON file.
  - A file holding something other than a list of strings is not modelled.
- Text.Lower: handles ASCII letters only. Python's full Unicode case mapping is not modelled.
- Playback.TruncDiv: uses exact integer division. Python divides as a float first, which differs only for magnitudes beyond 2^53.
- Playback.SeekTime: uses exact integer division, as TruncDiv does. Python's float rounding of `length * pos / 1000` is not modelled.
- The diagnostic `print` calls: they have no effect on the state and are left out.
- Client.MusicClient.AddToHistory: the history entries are edited in a local copy, and the field is assigned once at the end. The Python code edits the list widget row by row. The resulting list is the same.
- Cover.CoverUrl: follows the code. A reader might expect surrounding whitespace, and quotes of either kind in any order, to be removed. The code never strips whitespace, and it strips `"` runs before `'` runs, so `url('"X"')` gives `"X"`. `Cover.CoverUrlQuoted` states cases in which the result is exactly `X`.
