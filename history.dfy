/**
 * The search history kept by `MusicClient.add_to_history`: the latest query
 * goes to the front, an earlier entry equal to it up to case is dropped,
 * and only the ten most recent entries are kept. `Recorded` is the list the
 * method leaves behind; the class method that builds it step by step is
 * `Client.MusicClient.AddToHistory`.
 */
module History {
  import opened Text

  /** The number of entries the history keeps. */
  const MaxHistory := 10

  /** The index of the first entry equal to `q` up to case, or `|h|` when
      there is none: where the scan over the history stops. */
  function FirstMatch(h: seq<string>, q: string): (m: nat)
    ensures m <= |h|
    ensures m < |h| ==> EqualsIgnoreCase(h[m], q)
    ensures forall k :: 0 <= k < m ==> !EqualsIgnoreCase(h[k], q)
  {
    if h == [] then 0
    else if EqualsIgnoreCase(h[0], q) then 0
    else 1 + FirstMatch(h[1..], q)
  }

  /** `h` without its first entry equal to `q` up to case. */
  function RemoveFirstMatch(h: seq<string>, q: string): (r: seq<string>)
    ensures |r| == if FirstMatch(h, q) < |h| then |h| - 1 else |h|
    ensures FirstMatch(h, q) == |h| ==> r == h
    ensures FirstMatch(h, q) < |h| ==> multiset(r) == multiset(h) - multiset{h[FirstMatch(h, q)]}
  {
    var m := FirstMatch(h, q);
    if m < |h| then RemoveAtMultiset(h, m); h[..m] + h[m + 1..] else h
  }

  /** The history after `add_to_history(q)` on history `h`. */
  function Recorded(h: seq<string>, q: string): (r: seq<string>)
    ensures 1 <= |r| <= MaxHistory
    ensures r[0] == q
  {
    var s := [q] + RemoveFirstMatch(h, q);
    if |s| <= MaxHistory then s else s[..MaxHistory]
  }

  /** The new history holds the query and every old entry but the first
      match, up to ten entries. */
  lemma RecordedLength(h: seq<string>, q: string)
    ensures var kept := if FirstMatch(h, q) < |h| then |h| else |h| + 1;
            |Recorded(h, q)| == if kept <= MaxHistory then kept else MaxHistory
  {
  }

  /** Where entry `k` of the new history comes from: after the query, the
      old entries follow in their old order, skipping only the first match. */
  lemma RecordedAt(h: seq<string>, q: string)
    ensures var r := Recorded(h, q);
            forall k :: 1 <= k < |r| ==>
              r[k] == h[if k - 1 < FirstMatch(h, q) then k - 1 else k]
  {
  }

  /** No two entries are equal up to case. */
  predicate Distinct(h: seq<string>) {
    forall i, j :: 0 <= i < j < |h| ==> !EqualsIgnoreCase(h[i], h[j])
  }

  /** When the history has no duplicates, the query is nowhere in it but
      at its first match. */
  lemma OnlyMatch(h: seq<string>, q: string, k: nat)
    requires Distinct(h) && k < |h| && k != FirstMatch(h, q)
    ensures !EqualsIgnoreCase(h[k], q)
  {
    var m := FirstMatch(h, q);
    if m < |h| && k > m {
      assert !EqualsIgnoreCase(h[m], h[k]);
    }
  }

  /** Adding a query keeps a history free of case-insensitive duplicates. */
  lemma RecordedKeepsDistinct(h: seq<string>, q: string)
    requires Distinct(h)
    ensures Distinct(Recorded(h, q))
  {
    var r := Recorded(h, q);
    var m := FirstMatch(h, q);
    RecordedAt(h, q);
    forall i, j | 0 <= i < j < |r| ensures !EqualsIgnoreCase(r[i], r[j]) {
      var hj := if j - 1 < m then j - 1 else j;
      if i == 0 {
        OnlyMatch(h, q, hj);
      } else {
        var hi := if i - 1 < m then i - 1 else i;
        assert hi < hj;
      }
    }
  }

  /** Searching for the same query twice in a row changes nothing the
      second time. */
  lemma RecordedIdempotent(h: seq<string>, q: string)
    ensures Recorded(Recorded(h, q), q) == Recorded(h, q)
  {
    var r := Recorded(h, q);
    assert FirstMatch(r, q) == 0;
    assert RemoveFirstMatch(r, q) == r[1..];
    assert [q] + r[1..] == r;
  }

  /** Removing the entry at `m` takes exactly that one entry out. */
  lemma RemoveAtMultiset(h: seq<string>, m: nat)
    requires m < |h|
    ensures multiset(h[..m] + h[m + 1..]) == multiset(h) - multiset{h[m]}
  {
    var before, after := h[..m], h[m + 1..];
    assert h == before + [h[m]] + after;
    assert multiset(h) == multiset(before) + multiset{h[m]} + multiset(after);
  }

  /** A query already in a history of at most ten entries takes the place
      of its match at the front and nothing is lost. */
  lemma RecordedMovesToFront(h: seq<string>, q: string)
    requires FirstMatch(h, q) < |h| <= MaxHistory
    ensures multiset(Recorded(h, q)) == multiset(h) - multiset{h[FirstMatch(h, q)]} + multiset{q}
  {
    var rest := RemoveFirstMatch(h, q);
    assert Recorded(h, q) == [q] + rest;
    assert multiset([q] + rest) == multiset{q} + multiset(rest);
  }
}
