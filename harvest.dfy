/** The scroll harvester `scroll_and_extract_metadata`: for one episode range it
    repeatedly reads the window offset, extracts the cards visible in the list
    container into the shared `href -> (num, title)` dictionary, scrolls the
    window, and decides from the new offset and page height whether to go on.

    The browser is abstracted as `obs: nat -> StepObs`: what the driver answers
    on each scroll attempt. */
module Harvest {
  import opened Base
  import opened Text

  // ---------------------------------------------------------------------------
  // The shared dictionary
  // ---------------------------------------------------------------------------

  /** A Python dict from absolute href to metadata, with its insertion order. */
  datatype CardDict = CardDict(entries: map<string, CardMeta>, order: seq<string>) {
    /** The order lists every key exactly once. */
    ghost predicate Valid() {
      (forall h :: h in entries <==> h in order) &&
      (forall i, j :: 0 <= i < j < |order| ==> order[i] != order[j])
    }
  }

  /** The dictionary `all_cards_data` that `collect_episode_links` creates and
      every call of the harvester updates in place. */
  class HarvestMap {
    var entries: map<string, CardMeta>
    var order: seq<string>

    function Dict(): CardDict
      reads this
    {
      CardDict(entries, order)
    }

    ghost predicate Valid()
      reads this
    {
      Dict().Valid()
    }

    /** `all_cards_data = {}`. */
    constructor ()
      ensures Valid() && entries == map[] && order == []
    {
      entries := map[];
      order := [];
    }

    /** `all_cards_data[href] = meta`: a new key goes to the end of the order,
        an existing key keeps its place and gets the new value. */
    method Put(href: string, meta: CardMeta)
      requires Valid()
      modifies this
      ensures Valid()
      ensures entries == old(entries)[href := meta]
      ensures order == if href in old(entries) then old(order) else old(order) + [href]
    {
      if href !in entries {
        order := order + [href];
      }
      entries := entries[href := meta];
    }
  }

  // ---------------------------------------------------------------------------
  // What the browser answers
  // ---------------------------------------------------------------------------

  /** Locating a card's enclosing `div[role=button]` and reading its text:
      the text, or an exception (missing ancestor, stale element). */
  datatype MetaObs = MetaText(text: string) | MetaError

  /** One card link: its `href` attribute (`None` when absent or stale). */
  datatype CardObs = CardObs(href: Option<string>, meta: MetaObs)

  /** Reading `pageYOffset` and `scrollHeight` after the scroll, and (read only
      on a step without progress) `innerHeight`. */
  datatype AfterObs = AfterFail | After(newY: real, heightAfter: int, innerHeight: Option<int>)

  /** Reading `scrollHeight` and scrolling by 80% of the viewport. */
  datatype ScrollObs = ScrollFail | Scrolled(heightBefore: int, after: AfterObs)

  /** One scroll attempt: the offset before it (`None` when unreadable), the
      cards found in the container (empty when the container or the cards could
      not be found), and the scroll itself. */
  datatype StepObs = StepObs(currentY: Option<real>, cards: seq<CardObs>, scroll: ScrollObs)

  // ---------------------------------------------------------------------------
  // The specification of one harvest
  // ---------------------------------------------------------------------------

  /** The loop's variables: the dictionary, `processed_in_this_scroll`, `newly_added_count`. */
  datatype ScanState = ScanState(dict: CardDict, processed: set<string>, added: nat)

  /** The inner loop's body for one card; `None` when it raises. An exception
      while reading the card's metadata reaches `except NoSuchElementException`,
      a name the module never imports, so it becomes a `NameError` that leaves
      the harvester. */
  function ScanCard(s: ScanState, c: CardObs, url: string): Option<ScanState> {
    if c.href.None? || c.href.value == "" then Some(s)
    else
      var full := Absolutise(c.href.value, url);
      if full in s.processed then Some(s)
      else if full in s.dict.entries then Some(s.(processed := s.processed + {full}))
      else match c.meta
        case MetaError => None
        case MetaText(t) =>
          var m := ExtractCardMeta(t);
          if Plausible(m) then
            Some(ScanState(CardDict(s.dict.entries[full := m], s.dict.order + [full]), s.processed + {full}, s.added + 1))
          else Some(s.(processed := s.processed + {full}))
  }

  /** The state after the inner loop, and whether it raised (then `state` is
      the state before the card that raised). */
  datatype Scan = Scan(state: ScanState, raised: bool)

  function ScanCards(s: ScanState, cards: seq<CardObs>, url: string): Scan
    decreases |cards|
  {
    if cards == [] then Scan(s, false)
    else match ScanCard(s, cards[0], url)
      case None => Scan(s, true)
      case Some(next) => ScanCards(next, cards[1..], url)
  }

  /** Why the loop stopped: `max_scrolls` attempts, one of the three `break`s on
      a failed read or scroll, the bottom of the page, five stagnant attempts in
      a row, or an exception that leaves the harvester. */
  datatype Exit = Exhausted | OffsetUnreadable | ScrollFailed | AfterUnreadable | BottomReached | Stagnated | Escaped

  /** The final loop state, the number of attempts begun, and why it stopped. */
  datatype Harvest = Harvest(state: ScanState, attempts: nat, exit: Exit)

  const StagnationLimit: nat := 5

  /** The page moved: the offset grew by more than 5 pixels or the page got taller. */
  predicate Progressed(y: real, heightBefore: int, newY: real, heightAfter: int) {
    newY > y + 5.0 || heightAfter > heightBefore
  }

  /** The viewport reaches within 10 pixels of the page's end. */
  predicate AtBottom(newY: real, innerHeight: int, heightAfter: int) {
    newY + innerHeight as real >= (heightAfter - 10) as real
  }

  /** Where one attempt leads: on to the next attempt with the state and the
      stagnation count it leaves, or out of the loop. */
  datatype Next = Continue(state: ScanState, stagnant: nat) | Stop(state: ScanState, exit: Exit)

  /** One pass of the loop body on what the browser answers in it, with
      `stagnant` consecutive stagnant attempts behind it. */
  function Attempt(s: ScanState, o: StepObs, url: string, stagnant: nat): Next {
    if o.currentY.None? then Stop(s, OffsetUnreadable)
    else
      var sc := ScanCards(s, o.cards, url);
      if sc.raised then Stop(sc.state, Escaped)
      else match o.scroll
        case ScrollFail => Stop(sc.state, ScrollFailed)
        case Scrolled(heightBefore, AfterFail) => Stop(sc.state, AfterUnreadable)
        case Scrolled(heightBefore, After(newY, heightAfter, innerHeight)) =>
          if Progressed(o.currentY.value, heightBefore, newY, heightAfter) then Continue(sc.state, 0)
          else if innerHeight.None? then Stop(sc.state, Escaped)
          else if AtBottom(newY, innerHeight.value, heightAfter) then Stop(sc.state, BottomReached)
          else if stagnant + 1 >= StagnationLimit then Stop(sc.state, Stagnated)
          else Continue(sc.state, stagnant + 1)
  }

  /** The loop from attempt `attempt` on, with `stagnant` consecutive stagnant
      attempts behind it. */
  function HarvestFrom(s: ScanState, obs: nat -> StepObs, url: string, attempt: nat, maxScrolls: nat, stagnant: nat): Harvest
    decreases maxScrolls - attempt
  {
    if attempt >= maxScrolls then Harvest(s, attempt, Exhausted)
    else match Attempt(s, obs(attempt), url, stagnant)
      case Stop(t, exit) => Harvest(t, attempt + 1, exit)
      case Continue(t, k) => HarvestFrom(t, obs, url, attempt + 1, maxScrolls, k)
  }

  /** One whole call of the harvester on the dictionary `d`. */
  function HarvestRange(d: CardDict, obs: nat -> StepObs, url: string, maxScrolls: nat): Harvest {
    HarvestFrom(ScanState(d, {}, 0), obs, url, 0, maxScrolls, 0)
  }

  /** What the call gives its caller: the number of new entries, or an exception. */
  datatype HarvestOutcome = Returned(count: nat) | Aborted

  function OutcomeOf(h: Harvest): HarvestOutcome {
    if h.exit == Escaped then Aborted else Returned(h.state.added)
  }

  // ---------------------------------------------------------------------------
  // The harvester
  // ---------------------------------------------------------------------------

  /** The body of the inner loop for one card: it updates the dictionary, the
      `processed` set and the count, and reports whether an exception left it. */
  method ScanOneCard(store: HarvestMap, processed0: set<string>, added0: nat, card: CardObs, url: string)
    returns (processed: set<string>, added: nat, raised: bool)
    requires store.Valid()
    modifies store
    ensures store.Valid()
    ensures ScanCard(ScanState(old(store.Dict()), processed0, added0), card, url) ==
      if raised then None else Some(ScanState(store.Dict(), processed, added))
    ensures raised ==> store.Dict() == old(store.Dict()) && processed == processed0 && added == added0
  {
    processed, added, raised := processed0, added0, false;
    ghost var s0 := ScanState(store.Dict(), processed0, added0);
    if card.href.Some? && card.href.value != "" {
      var full := Absolutise(card.href.value, url);
      if full !in processed {
        if full !in store.entries {
          match card.meta
          case MetaError =>
            raised := true;
          case MetaText(text) =>
            var meta := ExtractCardMeta(text);
            if meta.num != -1 || !Contains(meta.title, "Unknown") {
              store.Put(full, meta);
              added := added + 1;
              assert store.Dict() == CardDict(s0.dict.entries[full := meta], s0.dict.order + [full]);
            }
            processed := processed + {full};
        } else {
          processed := processed + {full};
        }
      }
    }
  }

  /** The inner `for card_link_el in current_cards` loop of one attempt. */
  method ScanVisibleCards(store: HarvestMap, processed0: set<string>, added0: nat, cards: seq<CardObs>, url: string)
    returns (processed: set<string>, added: nat, raised: bool)
    requires store.Valid()
    modifies store
    ensures store.Valid()
    ensures ScanCards(ScanState(old(store.Dict()), processed0, added0), cards, url) ==
      Scan(ScanState(store.Dict(), processed, added), raised)
  {
    ghost var goal := ScanCards(ScanState(store.Dict(), processed0, added0), cards, url);
    processed, added := processed0, added0;
    var k := 0;
    while k < |cards|
      invariant 0 <= k <= |cards| && store.Valid()
      invariant goal == ScanCards(ScanState(store.Dict(), processed, added), cards[k..], url)
    {
      assert cards[k..][0] == cards[k] && cards[k..][1..] == cards[k + 1..];
      var failed;
      processed, added, failed := ScanOneCard(store, processed, added, cards[k], url);
      if failed {
        return processed, added, true;
      }
      k := k + 1;
    }
    raised := false;
  }

  /** `scroll_and_extract_metadata(drv, cont_sel, card_sel, all_cards_data, max_scrolls)`. */
  method ScrollAndExtract(store: HarvestMap, currentUrl: string, obs: nat -> StepObs, maxScrolls: nat)
    returns (outcome: HarvestOutcome)
    requires store.Valid()
    modifies store
    ensures store.Valid()
    ensures var h := HarvestRange(old(store.Dict()), obs, currentUrl, maxScrolls);
      store.Dict() == h.state.dict && outcome == OutcomeOf(h)
  {
    ghost var goal := HarvestRange(store.Dict(), obs, currentUrl, maxScrolls);
    var processed: set<string> := {};
    var added: nat := 0;
    var stagnant: nat := 0;
    var attempt: nat := 0;
    while attempt < maxScrolls
      invariant store.Valid()
      invariant attempt <= maxScrolls
      invariant HarvestFrom(ScanState(store.Dict(), processed, added), obs, currentUrl, attempt, maxScrolls, stagnant) == goal
    {
      var o := obs(attempt);
      ghost var next := Attempt(ScanState(store.Dict(), processed, added), o, currentUrl, stagnant);
      if o.currentY.None? {
        return Returned(added);
      }
      var y := o.currentY.value;
      var raised;
      processed, added, raised := ScanVisibleCards(store, processed, added, o.cards, currentUrl);
      if raised {
        return Aborted;
      }
      if o.scroll.ScrollFail? || o.scroll.after.AfterFail? {
        return Returned(added);
      }
      var heightBefore, newY, heightAfter := o.scroll.heightBefore, o.scroll.after.newY, o.scroll.after.heightAfter;
      if newY > y + 5.0 || heightAfter > heightBefore {
        stagnant := 0;
      } else {
        var innerHeight := o.scroll.after.innerHeight;
        if innerHeight.None? {
          return Aborted;
        }
        if newY + innerHeight.value as real >= (heightAfter - 10) as real {
          return Returned(added);
        }
        if stagnant + 1 >= StagnationLimit {
          return Returned(added);
        }
        stagnant := stagnant + 1;
      }
      assert next == Continue(ScanState(store.Dict(), processed, added), stagnant);
      attempt := attempt + 1;
    }
    outcome := Returned(added);
  }

  // ---------------------------------------------------------------------------
  // What a harvest does to the dictionary
  // ---------------------------------------------------------------------------

  /** `later` grew from `earlier` by `added` appended keys: nothing removed,
      nothing overwritten, and every new key passed the plausibility check. */
  ghost predicate GrewFrom(earlier: CardDict, later: CardDict, added: nat) {
    earlier.order <= later.order &&
    |later.order| == |earlier.order| + added &&
    (forall h :: h in earlier.entries ==> h in later.entries && later.entries[h] == earlier.entries[h]) &&
    (forall h :: h in later.entries && h !in earlier.entries ==> Plausible(later.entries[h]))
  }

  lemma GrewFromTransitive(a: CardDict, b: CardDict, c: CardDict, ab: nat, bc: nat)
    requires GrewFrom(a, b, ab) && GrewFrom(b, c, bc)
    ensures GrewFrom(a, c, ab + bc)
  {
  }

  /** One card keeps the dictionary valid and only appends plausible entries. */
  lemma ScanCardGrows(s: ScanState, c: CardObs, url: string)
    requires s.dict.Valid()
    ensures var r := ScanCard(s, c, url);
      r.Some? ==>
        r.value.dict.Valid() && r.value.added >= s.added &&
        GrewFrom(s.dict, r.value.dict, r.value.added - s.added)
  {
    var r := ScanCard(s, c, url);
    if r.Some? && r.value.added != s.added {
      var full := Absolutise(c.href.value, url);
      var d := r.value.dict;
      assert full !in s.dict.order;
      assert d.order == s.dict.order + [full];
      forall i, j | 0 <= i < j < |d.order| ensures d.order[i] != d.order[j] {
        if j == |d.order| - 1 {
          assert d.order[i] in s.dict.order;
        }
      }
    }
  }

  /** The whole inner loop does the same. */
  lemma {:induction false} ScanCardsGrows(s: ScanState, cards: seq<CardObs>, url: string)
    requires s.dict.Valid()
    ensures var r := ScanCards(s, cards, url).state;
      r.dict.Valid() && r.added >= s.added && GrewFrom(s.dict, r.dict, r.added - s.added)
    decreases |cards|
  {
    if cards != [] {
      ScanCardGrows(s, cards[0], url);
      var next := ScanCard(s, cards[0], url);
      if next.Some? {
        ScanCardsGrows(next.value, cards[1..], url);
        var r := ScanCards(next.value, cards[1..], url).state;
        GrewFromTransitive(s.dict, next.value.dict, r.dict, next.value.added - s.added, r.added - next.value.added);
      }
    }
  }

  /** A card whose metadata can be read never raises. */
  lemma {:induction false} ScanCardsTotal(s: ScanState, cards: seq<CardObs>, url: string)
    requires forall k :: 0 <= k < |cards| ==> cards[k].meta.MetaText?
    ensures !ScanCards(s, cards, url).raised
    decreases |cards|
  {
    if cards != [] {
      var next := ScanCard(s, cards[0], url);
      assert next.Some?;
      ScanCardsTotal(next.value, cards[1..], url);
    }
  }

  /** One attempt keeps the dictionary valid and only appends plausible
      entries, counting each. */
  lemma AttemptGrows(s: ScanState, o: StepObs, url: string, stagnant: nat)
    requires s.dict.Valid()
    ensures var n := Attempt(s, o, url, stagnant);
      n.state.dict.Valid() && n.state.added >= s.added &&
      GrewFrom(s.dict, n.state.dict, n.state.added - s.added)
  {
    ScanCardsGrows(s, o.cards, url);
    var sc := ScanCards(s, o.cards, url);
    var n := Attempt(s, o, url, stagnant);
    assert n.state == (if o.currentY.None? then s else sc.state);
  }

  /** The loop keeps the dictionary valid, never removes or overwrites a key,
      adds only plausible entries, counts exactly the keys it adds, and begins
      at most `maxScrolls` attempts (all of them when it runs out). */
  lemma {:induction false} HarvestFromGrows(s: ScanState, obs: nat -> StepObs, url: string, attempt: nat, maxScrolls: nat, stagnant: nat)
    requires s.dict.Valid() && attempt <= maxScrolls
    ensures var h := HarvestFrom(s, obs, url, attempt, maxScrolls, stagnant);
      h.state.dict.Valid() && h.state.added >= s.added &&
      GrewFrom(s.dict, h.state.dict, h.state.added - s.added) &&
      attempt <= h.attempts <= maxScrolls &&
      (h.exit == Exhausted ==> h.attempts == maxScrolls)
    decreases maxScrolls - attempt
  {
    if attempt < maxScrolls {
      var n := Attempt(s, obs(attempt), url, stagnant);
      AttemptGrows(s, obs(attempt), url, stagnant);
      if n.Continue? {
        HarvestFromGrows(n.state, obs, url, attempt + 1, maxScrolls, n.stagnant);
        var h := HarvestFrom(n.state, obs, url, attempt + 1, maxScrolls, n.stagnant);
        GrewFromTransitive(s.dict, n.state.dict, h.state.dict, n.state.added - s.added, h.state.added - n.state.added);
      }
    }
  }

  /** What one call of the harvester promises about the shared dictionary: no
      existing key is removed or overwritten, each new key passed the
      plausibility check, the returned count is the number of keys added, and
      at most `maxScrolls` attempts are made. */
  lemma HarvestRangeGrows(d: CardDict, obs: nat -> StepObs, url: string, maxScrolls: nat)
    requires d.Valid()
    ensures var h := HarvestRange(d, obs, url, maxScrolls);
      h.state.dict.Valid() && GrewFrom(d, h.state.dict, h.state.added) &&
      h.attempts <= maxScrolls && (h.exit == Exhausted ==> h.attempts == maxScrolls) &&
      (OutcomeOf(h).Returned? ==> OutcomeOf(h).count == |h.state.dict.order| - |d.order|)
  {
    HarvestFromGrows(ScanState(d, {}, 0), obs, url, 0, maxScrolls, 0);
  }

  // ---------------------------------------------------------------------------
  // When a harvest stops
  // ---------------------------------------------------------------------------

  /** A completed attempt that made no progress and did not reach the bottom. */
  predicate Stalled(o: StepObs) {
    o.currentY.Some? && o.scroll.Scrolled? && o.scroll.after.After? && o.scroll.after.innerHeight.Some? &&
    !Progressed(o.currentY.value, o.scroll.heightBefore, o.scroll.after.newY, o.scroll.after.heightAfter) &&
    !AtBottom(o.scroll.after.newY, o.scroll.after.innerHeight.value, o.scroll.after.heightAfter)
  }

  /** An attempt whose every card's metadata can be read. */
  predicate Readable(o: StepObs) {
    forall k :: 0 <= k < |o.cards| ==> o.cards[k].meta.MetaText?
  }

  /** Stalled attempts in a row, `5 - stagnant` of them, stop the loop exactly
      there with `Stagnated`. */
  lemma {:induction false} StallsStopTheHarvest(s: ScanState, obs: nat -> StepObs, url: string, attempt: nat, maxScrolls: nat, stagnant: nat)
    requires stagnant < StagnationLimit && attempt + (StagnationLimit - stagnant) <= maxScrolls
    requires forall t :: attempt <= t < attempt + (StagnationLimit - stagnant) ==> Stalled(obs(t)) && Readable(obs(t))
    ensures var h := HarvestFrom(s, obs, url, attempt, maxScrolls, stagnant);
      h.exit == Stagnated && h.attempts == attempt + (StagnationLimit - stagnant)
    decreases StagnationLimit - stagnant
  {
    var o := obs(attempt);
    ScanCardsTotal(s, o.cards, url);
    if stagnant + 1 < StagnationLimit {
      StallsStopTheHarvest(ScanCards(s, o.cards, url).state, obs, url, attempt + 1, maxScrolls, stagnant + 1);
    }
  }

  /** Conversely the loop stops with `Stagnated` only after at least
      `5 - stagnant` attempts, the last five of which (or all, if fewer) stalled. */
  lemma {:induction false} StagnatedAfterStalls(s: ScanState, obs: nat -> StepObs, url: string, attempt: nat, maxScrolls: nat, stagnant: nat)
    requires stagnant < StagnationLimit
    ensures var h := HarvestFrom(s, obs, url, attempt, maxScrolls, stagnant);
      h.exit == Stagnated ==>
        h.attempts >= attempt + (StagnationLimit - stagnant) &&
        forall t :: attempt <= t < h.attempts && t + StagnationLimit >= h.attempts ==> Stalled(obs(t))
    decreases maxScrolls - attempt
  {
    if attempt < maxScrolls {
      var o := obs(attempt);
      var sc := ScanCards(s, o.cards, url);
      if o.currentY.Some? && !sc.raised && o.scroll.Scrolled? && o.scroll.after.After? {
        var a := o.scroll.after;
        if Progressed(o.currentY.value, o.scroll.heightBefore, a.newY, a.heightAfter) {
          StagnatedAfterStalls(sc.state, obs, url, attempt + 1, maxScrolls, 0);
        } else if a.innerHeight.Some? && !AtBottom(a.newY, a.innerHeight.value, a.heightAfter) && stagnant + 1 < StagnationLimit {
          StagnatedAfterStalls(sc.state, obs, url, attempt + 1, maxScrolls, stagnant + 1);
        }
      }
    }
  }

  /** A whole harvest that stops on stagnation made at least five attempts and
      the last five stalled. */
  lemma HarvestStagnatesOnlyAfterFiveStalls(d: CardDict, obs: nat -> StepObs, url: string, maxScrolls: nat)
    ensures var h := HarvestRange(d, obs, url, maxScrolls);
      h.exit == Stagnated ==>
        h.attempts >= StagnationLimit &&
        forall t :: h.attempts - StagnationLimit <= t < h.attempts ==> Stalled(obs(t))
  {
    StagnatedAfterStalls(ScanState(d, {}, 0), obs, url, 0, maxScrolls, 0);
  }

  /** An attempt without progress that reaches the bottom ends the loop at
      once, whatever the stagnation count. */
  lemma BottomStopsTheHarvest(s: ScanState, obs: nat -> StepObs, url: string, attempt: nat, maxScrolls: nat, stagnant: nat)
    requires attempt < maxScrolls
    requires var o := obs(attempt);
      Readable(o) && o.currentY.Some? && o.scroll.Scrolled? && o.scroll.after.After? && o.scroll.after.innerHeight.Some? &&
      !Progressed(o.currentY.value, o.scroll.heightBefore, o.scroll.after.newY, o.scroll.after.heightAfter) &&
      AtBottom(o.scroll.after.newY, o.scroll.after.innerHeight.value, o.scroll.after.heightAfter)
    ensures var h := HarvestFrom(s, obs, url, attempt, maxScrolls, stagnant);
      h.exit == BottomReached && h.attempts == attempt + 1
  {
    ScanCardsTotal(s, obs(attempt).cards, url);
  }

  /** A failed read of the offset, or (once the cards are read) a failed
      scroll or a failed read after it, leaves the loop at once through one
      of its `break`s: the harvester returns its count rather than raising. */
  lemma FailedReadEndsTheHarvest(s: ScanState, obs: nat -> StepObs, url: string, attempt: nat, maxScrolls: nat, stagnant: nat)
    requires attempt < maxScrolls
    requires var o := obs(attempt);
      o.currentY.None? || (Readable(o) && (o.scroll.ScrollFail? || o.scroll.after.AfterFail?))
    ensures var o := obs(attempt);
      var h := HarvestFrom(s, obs, url, attempt, maxScrolls, stagnant);
      h.attempts == attempt + 1 &&
      h.exit == (if o.currentY.None? then OffsetUnreadable else if o.scroll.ScrollFail? then ScrollFailed else AfterUnreadable) &&
      OutcomeOf(h) == Returned(h.state.added)
  {
    if obs(attempt).currentY.Some? {
      ScanCardsTotal(s, obs(attempt).cards, url);
    }
  }

  /** An attempt with progress never stops the loop, even at the bottom of the
      page: the bottom is tested only on attempts without progress. The count
      of stagnant attempts starts again from zero. */
  lemma ProgressContinuesTheHarvest(s: ScanState, obs: nat -> StepObs, url: string, attempt: nat, maxScrolls: nat, stagnant: nat)
    requires attempt < maxScrolls
    requires var o := obs(attempt);
      Readable(o) && o.currentY.Some? && o.scroll.Scrolled? && o.scroll.after.After? &&
      Progressed(o.currentY.value, o.scroll.heightBefore, o.scroll.after.newY, o.scroll.after.heightAfter)
    ensures HarvestFrom(s, obs, url, attempt, maxScrolls, stagnant) ==
      HarvestFrom(ScanCards(s, obs(attempt).cards, url).state, obs, url, attempt + 1, maxScrolls, 0)
  {
    ScanCardsTotal(s, obs(attempt).cards, url);
  }
}
