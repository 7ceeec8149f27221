/** `collect_episode_links`: read the episode-range chooser, harvest every
    range into one shared dictionary, then sort the entries by episode number
    with unknown numbers last. */
module Catalog {
  import opened Base
  import opened Text
  import opened Harvest

  /** The tuple `(num, title, href)`. */
  datatype Episode = Episode(num: int, title: string, href: string)

  // ---------------------------------------------------------------------------
  // Sorting by `x[0] if x[0] != -1 else float('inf')`
  // ---------------------------------------------------------------------------

  /** The sort key of `a` is at most that of `b`, an unknown number (-1)
      counting as infinity. */
  predicate KeyLe(a: int, b: int) {
    b == -1 || (a != -1 && a <= b)
  }

  ghost predicate SortedByEpisode(s: seq<Episode>) {
    forall i, j :: 0 <= i < j < |s| ==> KeyLe(s[i].num, s[j].num)
  }

  /** Insert `e` before the first element whose key is not below its own. */
  function Insert(e: Episode, s: seq<Episode>): seq<Episode> {
    if s == [] || KeyLe(e.num, s[0].num) then [e] + s
    else [s[0]] + Insert(e, s[1..])
  }

  /** Python's `sorted` with that key: a stable sort. */
  function SortByEpisode(s: seq<Episode>): seq<Episode> {
    if s == [] then [] else Insert(s[0], SortByEpisode(s[1..]))
  }

  /** The elements numbered `k`, in order. */
  function WithNum(s: seq<Episode>, k: int): seq<Episode> {
    if s == [] then []
    else (if s[0].num == k then [s[0]] else []) + WithNum(s[1..], k)
  }

  lemma {:induction false} InsertSorted(e: Episode, s: seq<Episode>)
    requires SortedByEpisode(s)
    ensures SortedByEpisode(Insert(e, s))
    ensures multiset(Insert(e, s)) == multiset(s) + multiset{e}
  {
    if s == [] || KeyLe(e.num, s[0].num) {
    } else {
      var t := Insert(e, s[1..]);
      assert SortedByEpisode(s[1..]) by {
        forall i, j | 0 <= i < j < |s[1..]| ensures KeyLe(s[1..][i].num, s[1..][j].num) {
          assert s[1..][i] == s[i + 1] && s[1..][j] == s[j + 1];
        }
      }
      InsertSorted(e, s[1..]);
      assert s == [s[0]] + s[1..];
      forall j | 0 <= j < |t| ensures KeyLe(s[0].num, t[j].num) {
        assert t[j] in multiset(t);
        if t[j] != e {
          assert t[j] in multiset(s[1..]);
          var k :| 0 <= k < |s[1..]| && s[1..][k] == t[j];
          assert s[k + 1] == t[j];
        }
      }
    }
  }

  lemma {:induction false} InsertStable(e: Episode, s: seq<Episode>, k: int)
    ensures WithNum(Insert(e, s), k) == (if e.num == k then [e] + WithNum(s, k) else WithNum(s, k))
  {
    if s == [] || KeyLe(e.num, s[0].num) {
      assert ([e] + s)[1..] == s;
    } else {
      InsertStable(e, s[1..], k);
      assert ([s[0]] + Insert(e, s[1..]))[1..] == Insert(e, s[1..]);
    }
  }

  /** `sorted` returns a permutation of its input, ordered by the key, with
      equal keys in their input order and every unknown number after every
      known one. */
  lemma {:induction false} SortByEpisodeCorrect(s: seq<Episode>)
    ensures var r := SortByEpisode(s);
      SortedByEpisode(r) && multiset(r) == multiset(s) &&
      (forall k :: WithNum(r, k) == WithNum(s, k)) &&
      (forall i, j :: 0 <= i < j < |r| && r[i].num == -1 ==> r[j].num == -1)
  {
    if s != [] {
      SortByEpisodeCorrect(s[1..]);
      InsertSorted(s[0], SortByEpisode(s[1..]));
      assert s == [s[0]] + s[1..];
      forall k ensures WithNum(SortByEpisode(s), k) == WithNum(s, k) {
        InsertStable(s[0], SortByEpisode(s[1..]), k);
      }
    }
  }

  // ---------------------------------------------------------------------------
  // From the dictionary to the episode list
  // ---------------------------------------------------------------------------

  /** `[(data[0], data[1], href) for href, data in all_cards_data.items()]`. */
  function Items(d: CardDict): (r: seq<Episode>)
    requires d.Valid()
    ensures |r| == |d.order|
    ensures forall i :: 0 <= i < |r| ==>
      r[i].href == d.order[i] && d.entries[d.order[i]] == CardMeta(r[i].num, r[i].title)
  {
    seq(|d.order|, i requires 0 <= i < |d.order| =>
      var m := d.entries[d.order[i]]; Episode(m.num, m.title, d.order[i]))
  }

  /** The end of `collect_episode_links`: `[]` for an empty dictionary,
      otherwise its items sorted by episode number. */
  function Assemble(d: CardDict): seq<Episode>
    requires d.Valid()
  {
    if d.entries == map[] then [] else SortByEpisode(Items(d))
  }

  /** Assembly gives a permutation of the dictionary's items, sorted by number
      with the unknown numbers last and equal numbers in insertion order, and
      gives `[]` exactly for an empty dictionary. */
  lemma AssembleCorrect(d: CardDict)
    requires d.Valid()
    ensures var r := Assemble(d);
      (r == [] <==> d.entries == map[]) &&
      multiset(r) == multiset(Items(d)) && SortedByEpisode(r) &&
      (forall k :: WithNum(r, k) == WithNum(Items(d), k)) &&
      (forall i, j :: 0 <= i < j < |r| && r[i].num == -1 ==> r[j].num == -1)
  {
    SortByEpisodeCorrect(Items(d));
    if d.order != [] {
      assert d.order[0] in d.entries;
      assert Items(d)[0] in multiset(SortByEpisode(Items(d)));
    }
  }

  /** No two episodes share a link. */
  ghost predicate DistinctHrefs(s: seq<Episode>) {
    forall i, j :: 0 <= i < j < |s| ==> s[i].href != s[j].href
  }

  /** The final loop over `enumerate(sorted_cards)`: an unknown number is
      kept as -1 and a known one as it is, so the list comes out unchanged. */
  method FinalList(sorted: seq<Episode>) returns (final: seq<Episode>)
    ensures final == sorted
  {
    final := [];
    var i := 0;
    while i < |sorted|
      invariant 0 <= i <= |sorted| && final == sorted[..i]
    {
      var e := sorted[i];
      if e.num == -1 {
        final := final + [Episode(-1, e.title, e.href)];
      } else {
        final := final + [Episode(e.num, e.title, e.href)];
      }
      i := i + 1;
    }
  }

  // ---------------------------------------------------------------------------
  // The ranges
  // ---------------------------------------------------------------------------

  /** `max_scrolls=60` for every range. */
  const RangeMaxScrolls: nat := 60

  /** What `collect_episode_links` gives back, or an exception escaping it
      from the harvester. */
  datatype Collected = Links(episodes: seq<Episode>) | Crashed

  /** The loop `for label in labels` from index `i` on. Selecting a range is
      needed only with a chooser; when the selection fails (`selected(i)` is
      false) the range is skipped. `obs(i)` is what the browser shows while
      range `i` is harvested. */
  function HarvestRanges(d: CardDict, labels: seq<string>, dropdown: bool, i: nat,
                         selected: nat -> bool, url: string, obs: nat -> nat -> StepObs): Option<CardDict>
    decreases |labels| - i
  {
    if i >= |labels| then Some(d)
    else if dropdown && labels[i] != "current" && !selected(i) then
      HarvestRanges(d, labels, dropdown, i + 1, selected, url, obs)
    else
      var h := HarvestRange(d, obs(i), url, RangeMaxScrolls);
      if h.exit == Escaped then None
      else HarvestRanges(h.state.dict, labels, dropdown, i + 1, selected, url, obs)
  }

  /** Every entry of the dictionary passed the plausibility check. */
  ghost predicate AllPlausible(d: CardDict) {
    forall h :: h in d.entries ==> Plausible(d.entries[h])
  }

  /** Harvesting the ranges keeps the dictionary valid and only plausible
      entries in it; across ranges the first insertion of a key wins: no key
      found in an earlier range is removed, overwritten or moved, and new keys
      are only appended. */
  lemma {:induction false} HarvestRangesGrow(d: CardDict, labels: seq<string>, dropdown: bool, i: nat,
                                            selected: nat -> bool, url: string, obs: nat -> nat -> StepObs)
    requires d.Valid() && AllPlausible(d)
    ensures var r := HarvestRanges(d, labels, dropdown, i, selected, url, obs);
      r.Some? ==>
        r.value.Valid() && AllPlausible(r.value) &&
        |d.order| <= |r.value.order| && GrewFrom(d, r.value, |r.value.order| - |d.order|)
    decreases |labels| - i
  {
    if i < |labels| {
      if dropdown && labels[i] != "current" && !selected(i) {
        HarvestRangesGrow(d, labels, dropdown, i + 1, selected, url, obs);
      } else {
        var h := HarvestRange(d, obs(i), url, RangeMaxScrolls);
        HarvestRangeGrows(d, obs(i), url, RangeMaxScrolls);
        if h.exit != Escaped {
          HarvestRangesGrow(h.state.dict, labels, dropdown, i + 1, selected, url, obs);
          var r := HarvestRanges(h.state.dict, labels, dropdown, i + 1, selected, url, obs);
          if r.Some? {
            GrewFromTransitive(d, h.state.dict, r.value, h.state.added, |r.value.order| - |h.state.dict.order|);
          }
        }
      }
    }
  }

  /** The whole of `collect_episode_links`: a broken chooser gives `[]`, an
      exception from a harvest escapes, and otherwise the harvested entries
      come back sorted. */
  function CollectLinks(chooser: RangeChooser, selected: nat -> bool, url: string, obs: nat -> nat -> StepObs): Collected {
    match RangeLabels(chooser)
    case None => Links([])
    case Some(labels) =>
      match HarvestRanges(CardDict(map[], []), labels, chooser.Chooser?, 0, selected, url, obs)
      case None => Crashed
      case Some(d) =>
        HarvestRangesGrow(CardDict(map[], []), labels, chooser.Chooser?, 0, selected, url, obs);
        Links(Assemble(d))
  }

  /** `collect_episode_links(drv)`. */
  method CollectEpisodeLinks(chooser: RangeChooser, selected: nat -> bool, currentUrl: string, obs: nat -> nat -> StepObs)
    returns (r: Collected)
    ensures r == CollectLinks(chooser, selected, currentUrl, obs)
  {
    var labels: seq<string>;
    match RangeLabels(chooser)
    case None =>
      return Links([]);
    case Some(ls) =>
      labels := ls;
    var dropdown := chooser.Chooser?;
    var store := new HarvestMap();
    var i := 0;
    while i < |labels|
      invariant 0 <= i <= |labels| && store.Valid()
      invariant HarvestRanges(store.Dict(), labels, dropdown, i, selected, currentUrl, obs) ==
        HarvestRanges(CardDict(map[], []), labels, dropdown, 0, selected, currentUrl, obs)
    {
      if dropdown && labels[i] != "current" && !selected(i) {
        i := i + 1;
        continue;
      }
      var outcome := ScrollAndExtract(store, currentUrl, obs(i), RangeMaxScrolls);
      if outcome == Aborted {
        return Crashed;
      }
      i := i + 1;
    }
    if store.entries == map[] {
      return Links([]);
    }
    var final := FinalList(SortByEpisode(Items(store.Dict())));
    r := Links(final);
  }

  /** The list `collect_episode_links` returns is sorted by episode number with
      unknown numbers last, holds each link once, and holds only entries that
      passed the plausibility check. */
  lemma CollectedLinksWellFormed(chooser: RangeChooser, selected: nat -> bool, url: string, obs: nat -> nat -> StepObs)
    ensures var r := CollectLinks(chooser, selected, url, obs);
      r.Links? ==>
        SortedByEpisode(r.episodes) && DistinctHrefs(r.episodes) &&
        (forall i, j :: 0 <= i < j < |r.episodes| && r.episodes[i].num == -1 ==> r.episodes[j].num == -1) &&
        forall k :: 0 <= k < |r.episodes| ==> Plausible(CardMeta(r.episodes[k].num, r.episodes[k].title))
  {
    var r := CollectLinks(chooser, selected, url, obs);
    if r.Links? && r.episodes != [] {
      var labels := RangeLabels(chooser).value;
      var d := HarvestRanges(CardDict(map[], []), labels, chooser.Chooser?, 0, selected, url, obs).value;
      HarvestRangesGrow(CardDict(map[], []), labels, chooser.Chooser?, 0, selected, url, obs);
      AssembleCorrect(d);
      SortedKeepsItems(d, Items(d), r.episodes);
    }
  }

  /** A permutation of `Items(d)` links each key once, to its own metadata. */
  lemma SortedKeepsItems(d: CardDict, items: seq<Episode>, s: seq<Episode>)
    requires d.Valid() && AllPlausible(d) && items == Items(d) && multiset(s) == multiset(items)
    ensures DistinctHrefs(s)
    ensures forall k :: 0 <= k < |s| ==> Plausible(CardMeta(s[k].num, s[k].title))
  {
    assert DistinctHrefs(items);
    DistinctUnderPermutation(items, s);
    forall k | 0 <= k < |s| ensures s[k] in items {
      assert s[k] in multiset(s);
    }
    forall i, j | 0 <= i < j < |s| ensures s[i].href != s[j].href {
      assert s[i] in items && s[j] in items;
      var a :| 0 <= a < |items| && items[a] == s[i];
      var b :| 0 <= b < |items| && items[b] == s[j];
      assert a != b;
    }
  }

  ghost predicate Distinct<T>(s: seq<T>) {
    forall i, j :: 0 <= i < j < |s| ==> s[i] != s[j]
  }

  /** In a sequence without repeats each value occurs at most once. */
  lemma {:induction false} DistinctCountsOnce<T>(s: seq<T>, x: T)
    requires Distinct(s)
    ensures multiset(s)[x] <= 1
  {
    if s != [] {
      assert s == [s[0]] + s[1..];
      assert Distinct(s[1..]) by {
        forall i, j | 0 <= i < j < |s[1..]| ensures s[1..][i] != s[1..][j] {
          assert s[1..][i] == s[i + 1] && s[1..][j] == s[j + 1];
        }
      }
      DistinctCountsOnce(s[1..], x);
      forall k | 0 <= k < |s[1..]| ensures s[1..][k] != s[0] {
        assert s[1..][k] == s[k + 1];
      }
      assert s[0] !in s[1..];
    }
  }

  /** A value at two positions occurs at least twice. */
  lemma RepeatCountsTwice<T>(s: seq<T>, i: nat, j: nat)
    requires i < j < |s|
    ensures s[i] == s[j] ==> multiset(s)[s[i]] >= 2
  {
    assert s == s[..i] + [s[i]] + s[i + 1..j] + [s[j]] + s[j + 1..];
  }

  /** A permutation of a sequence without repeats has none either. */
  lemma DistinctUnderPermutation<T>(a: seq<T>, b: seq<T>)
    requires Distinct(a) && multiset(b) == multiset(a)
    ensures Distinct(b)
  {
    forall i, j | 0 <= i < j < |b| ensures b[i] != b[j] {
      DistinctCountsOnce(a, b[i]);
      RepeatCountsTwice(b, i, j);
    }
  }
}
