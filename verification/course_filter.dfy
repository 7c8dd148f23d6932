/** `CourseFilter` of courses.js: category filter buttons, the search box,
    the results counter and the sort drop-down over the catalogue cards.

    `cards` is the static list the filter captured at start-up
    (`querySelectorAll('.course-card')`, document order); `order` is the order
    in which the cards currently sit in the container, as indices into
    `cards`. Showing a card sets `display: block` at once; hiding one only
    fades it and sets `display: none` 300 ms later. An operation therefore
    yields the catalogue as it stands right after the handler (`now`) and the
    set of cards whose hide timer is pending (`hiding`); `Settle` fires those
    timers. */
module CourseFilter {
  import opened Wrappers
  import opened Text
  import StableSort

  /** `card.style.display`: never set, `block`, or `none`. */
  datatype Display = Unset | Block | Hidden

  /** A `.course-card`: its `h3` title, its first paragraph, its
      `data-category`, the texts of its `.course-details span`s, the text of
      its `.course-category` element if any, and its display. */
  datatype Card = Card(
    title: string,
    description: string,
    category: string,
    details: seq<string>,
    categoryLabel: Option<string>,
    display: Display)

  datatype Catalogue = Catalogue(cards: seq<Card>, order: seq<nat>, currentFilter: string, counter: Option<string>)

  datatype Step = Step(now: Catalogue, hiding: set<nat>)

  /** The pending hide timers fire. */
  function Settle(s: Step): (c: Catalogue)
    ensures c == s.now.(cards := c.cards)
    ensures |c.cards| == |s.now.cards|
    ensures forall i | 0 <= i < |c.cards| ::
      c.cards[i] == s.now.cards[i].(display := if i in s.hiding then Hidden else s.now.cards[i].display)
  {
    var cards := s.now.cards;
    s.now.(cards := seq(|cards|, i requires 0 <= i < |cards| =>
      if i in s.hiding then cards[i].(display := Hidden) else cards[i]))
  }

  /** The filter test of `applyFilter` and of the search handler. */
  predicate PassesFilter(card: Card, filter: string) {
    filter == "all" || card.category == filter
  }

  // =====================================================================
  // Results counter

  /** The number of cards not set to `display: none`. */
  function CountShown(cards: seq<Card>): (n: nat)
    ensures n <= |cards|
    ensures n == 0 <==> forall i | 0 <= i < |cards| :: cards[i].display == Hidden
  {
    if |cards| == 0 then 0
    else if cards[0].display != Hidden then 1 + CountShown(cards[1..])
    else
      assert forall i | 1 <= i < |cards| :: cards[i] == cards[1..][i - 1];
      CountShown(cards[1..])
  }

  /** `charAt(0).toUpperCase() + slice(1)`. */
  function Capitalize(f: string): (r: string)
    ensures |r| == |f|
    ensures |f| > 0 ==> r[0] == UpperChar(f[0]) && r[1..] == f[1..]
  {
    if |f| == 0 then "" else [UpperChar(f[0])] + f[1..]
  }

  function FilterText(filter: string): string {
    if filter == "all" then "All Courses" else Capitalize(filter)
  }

  /** The counter text `Showing ${n} ${filterText}`. */
  function ResultsLabel(n: nat, filter: string): string {
    "Showing " + NatToDecimal(n) + " " + FilterText(filter)
  }

  /** The counter text can be read back: after "Showing " comes the decimal
      rendering of the count, then a space and the filter text, which is
      "All Courses" for `all` and otherwise the filter with its first
      character upper-cased. */
  lemma ResultsLabelReadsBack(n: nat, filter: string)
    ensures exists ds :: && AllDigits(ds) && DecimalValue(ds) == n
                         && ResultsLabel(n, filter) == "Showing " + ds + " " + FilterText(filter)
    ensures filter == "all" ==> FilterText(filter) == "All Courses"
    ensures filter != "all" && |filter| > 0 ==>
      && |FilterText(filter)| == |filter|
      && FilterText(filter)[0] == UpperChar(filter[0])
      && FilterText(filter)[1..] == filter[1..]
  {
    DecimalRoundTrip(n);
    assert ResultsLabel(n, filter) == "Showing " + NatToDecimal(n) + " " + FilterText(filter);
  }

  // =====================================================================
  // Filter

  /** `applyFilter(filter)`: remember the filter, show every card of that
      category (every card for `all`), start hiding all the others, then
      count. */
  function ApplyFilter(c: Catalogue, filter: string): (s: Step)
    ensures s.now.currentFilter == filter && s.now.order == c.order
    ensures |s.now.cards| == |c.cards|
    ensures forall i | 0 <= i < |c.cards| :: s.now.cards[i] == c.cards[i].(display := s.now.cards[i].display)
    ensures forall i | 0 <= i < |c.cards| :: (i in s.hiding <==> !PassesFilter(c.cards[i], filter))
    ensures forall i | 0 <= i < |c.cards| && PassesFilter(c.cards[i], filter) :: s.now.cards[i].display == Block
    ensures forall i | 0 <= i < |c.cards| && !PassesFilter(c.cards[i], filter) :: s.now.cards[i].display == c.cards[i].display
    ensures s.now.counter == Some(ResultsLabel(CountShown(s.now.cards), filter))
  {
    var cards := seq(|c.cards|, i requires 0 <= i < |c.cards| =>
      if PassesFilter(c.cards[i], filter) then c.cards[i].(display := Block) else c.cards[i]);
    var hiding := set i | 0 <= i < |c.cards| && !PassesFilter(c.cards[i], filter);
    Step(c.(cards := cards, currentFilter := filter, counter := Some(ResultsLabel(CountShown(cards), filter))), hiding)
  }

  /** Once its timers have fired, a filter leaves exactly the cards of its
      category displayed and every other card hidden. */
  lemma FilterSettles(c: Catalogue, filter: string)
    ensures var settled := Settle(ApplyFilter(c, filter));
      && settled.currentFilter == filter
      && forall i | 0 <= i < |c.cards| ::
           (settled.cards[i].display == Block <==> PassesFilter(c.cards[i], filter))
           && (settled.cards[i].display == Hidden <==> !PassesFilter(c.cards[i], filter))
  {
  }

  /** The number of cards that pass a filter. */
  function CountPassing(cards: seq<Card>, filter: string): (n: nat)
    ensures n <= |cards|
  {
    if |cards| == 0 then 0
    else (if PassesFilter(cards[0], filter) then 1 else 0) + CountPassing(cards[1..], filter)
  }

  /** Counting is monotone: if every card that passes the filter in `a` is
      displayed in `b`, `b` shows at least as many cards as pass in `a`. */
  lemma {:induction false} CountShownCovers(a: seq<Card>, b: seq<Card>, filter: string)
    requires |a| == |b|
    requires forall i | 0 <= i < |a| && PassesFilter(a[i], filter) :: b[i].display != Hidden
    ensures CountPassing(a, filter) <= CountShown(b)
  {
    if |a| > 0 {
      assert forall i | 0 <= i < |a| - 1 :: a[1..][i] == a[i + 1] && b[1..][i] == b[i + 1];
      CountShownCovers(a[1..], b[1..], filter);
    }
  }

  /** The counter is computed before the hide timers fire, so it counts every
      card of the category plus every other card that was not already hidden:
      never fewer than the cards of the category. */
  lemma FilterCounterBounds(c: Catalogue, filter: string)
    ensures var now := ApplyFilter(c, filter).now;
      CountPassing(c.cards, filter) <= CountShown(now.cards)
  {
    CountShownCovers(c.cards, ApplyFilter(c, filter).now.cards, filter);
  }

  /** Counting agrees when display and filter agree card by card. */
  lemma {:induction false} CountShownExactly(a: seq<Card>, b: seq<Card>, filter: string)
    requires |a| == |b|
    requires forall i | 0 <= i < |a| :: (b[i].display != Hidden <==> PassesFilter(a[i], filter))
    ensures CountPassing(a, filter) == CountShown(b)
  {
    if |a| > 0 {
      assert forall i | 0 <= i < |a| - 1 :: a[1..][i] == a[i + 1] && b[1..][i] == b[i + 1];
      CountShownExactly(a[1..], b[1..], filter);
    }
  }

  /** Different counts give different counter texts. */
  lemma ResultsLabelInjective(n: nat, m: nat, filter: string)
    requires ResultsLabel(n, filter) == ResultsLabel(m, filter)
    ensures n == m
  {
    SameFrameSameMiddle("Showing ", NatToDecimal(n), NatToDecimal(m), " ", FilterText(filter));
    DecimalRoundTrip(n);
    DecimalRoundTrip(m);
  }

  /** The counter as written over-counts: two cards whose display was never
      set, one in `programming` and one in `business`. Filtering on
      `programming` shows one card once the timers fire, but the counter,
      taken before they fire, reads "Showing 2 Programming". */
  lemma FilterCounterOverCounts(c: Catalogue, p: Card, q: Card)
    requires p.category == "programming" && p.display == Unset
    requires q.category == "business" && q.display == Unset
    requires c.cards == [p, q]
    ensures var s := ApplyFilter(c, "programming");
      && CountShown(Settle(s).cards) == 1
      && s.now.counter == Some(ResultsLabel(2, "programming"))
      && s.now.counter != Some(ResultsLabel(CountShown(Settle(s).cards), "programming"))
  {
    var s := ApplyFilter(c, "programming");
    assert s.now.cards[1..] == [s.now.cards[1]];
    assert Settle(s).cards[1..] == [Settle(s).cards[1]];
    assert CountShown(s.now.cards) == 2;
    assert CountShown(Settle(s).cards) == 1;
    if ResultsLabel(2, "programming") == ResultsLabel(1, "programming") {
      ResultsLabelInjective(2, 1, "programming");
    }
  }

  /** `applyFilter` with the count the counter evidently means: the cards of
      the category, which are the cards still displayed once the hide timers
      fire. Only the counter differs from `ApplyFilter`. */
  function ApplyFilterCounted(c: Catalogue, filter: string): (s: Step)
    ensures s == ApplyFilter(c, filter).(now := s.now)
    ensures s.now == ApplyFilter(c, filter).now.(counter := s.now.counter)
    ensures s.now.counter == Some(ResultsLabel(CountShown(Settle(s).cards), filter))
  {
    var s := ApplyFilter(c, filter);
    CountShownExactly(c.cards, Settle(s).cards, filter);
    s.(now := s.now.(counter := Some(ResultsLabel(CountPassing(c.cards, filter), filter))))
  }

  // =====================================================================
  // Search

  /** The search term: lower-cased, then trimmed. */
  function SearchTerm(query: string): string {
    Trim(ToLower(query))
  }

  /** The term occurs in the lower-cased title, description or category. */
  predicate CardMatches(card: Card, term: string) {
    || Contains(ToLower(card.title), term)
    || Contains(ToLower(card.description), term)
    || Contains(ToLower(card.category), term)
  }

  /** The search keeps a card when the term is empty or the card matches it. */
  predicate KeptBy(card: Card, term: string) {
    term == "" || CardMatches(card, term)
  }

  /** One card after the search: shown when it is kept by the search and
      passes the filter, otherwise as it was. */
  function Searched(card: Card, kept: bool, filter: string): (r: Card)
    ensures r == card.(display := r.display)
    ensures kept && PassesFilter(card, filter) ==> r.display == Block
    ensures !(kept && PassesFilter(card, filter)) ==> r == card
  {
    if kept && PassesFilter(card, filter) then card.(display := Block) else card
  }

  /** Every card after the search. */
  function SearchCards(cards: seq<Card>, term: string, filter: string): (r: seq<Card>)
    ensures |r| == |cards|
    ensures forall i | 0 <= i < |cards| :: r[i] == Searched(cards[i], KeptBy(cards[i], term), filter)
  {
    seq(|cards|, i requires 0 <= i < |cards| => Searched(cards[i], KeptBy(cards[i], term), filter))
  }

  /** The positions of the cards the search starts hiding. */
  function SearchHiding(cards: seq<Card>, term: string): (h: set<nat>)
    ensures forall i | 0 <= i < |cards| :: (i in h <==> !KeptBy(cards[i], term))
  {
    set i | 0 <= i < |cards| && !KeptBy(cards[i], term)
  }

  /** `handleSearch(query)`: a card that matches (or every card, for an empty
      term) is shown if it also passes the current filter and otherwise left
      as it is; a card that does not match starts hiding. The filter itself is
      kept. */
  function HandleSearch(c: Catalogue, query: string): (s: Step)
    ensures s.now.currentFilter == c.currentFilter && s.now.order == c.order
    ensures |s.now.cards| == |c.cards|
    ensures forall i | 0 <= i < |c.cards| :: s.now.cards[i] == c.cards[i].(display := s.now.cards[i].display)
    ensures forall i | 0 <= i < |c.cards| ::
      (i in s.hiding <==> !KeptBy(c.cards[i], SearchTerm(query)))
    ensures forall i | 0 <= i < |c.cards| && i !in s.hiding && PassesFilter(c.cards[i], c.currentFilter) ::
      s.now.cards[i].display == Block
    ensures forall i | 0 <= i < |c.cards| && (i in s.hiding || !PassesFilter(c.cards[i], c.currentFilter)) ::
      s.now.cards[i].display == c.cards[i].display
    ensures s.now.counter == Some(ResultsLabel(CountShown(s.now.cards), c.currentFilter))
  {
    var term := SearchTerm(query);
    var cards := SearchCards(c.cards, term, c.currentFilter);
    var hiding := SearchHiding(c.cards, term);
    Step(c.(cards := cards, counter := Some(ResultsLabel(CountShown(cards), c.currentFilter))), hiding)
  }

  /** The empty-term test is redundant: every card matches the empty term. */
  lemma EmptyTermMatchesEveryCard(card: Card)
    ensures CardMatches(card, "")
  {
    ContainsEmpty(ToLower(card.title));
  }

  /** The catalogue shows exactly the cards of the current filter. */
  ghost predicate ShowsFilter(c: Catalogue) {
    forall i | 0 <= i < |c.cards| ::
      c.cards[i].display == (if PassesFilter(c.cards[i], c.currentFilter) then Block else Hidden)
  }

  /** Every card that fails the current filter is hidden; the cards that pass
      may be in any state (an earlier search may have hidden some). */
  ghost predicate FailingHidden(c: Catalogue) {
    forall i | 0 <= i < |c.cards| ::
      !PassesFilter(c.cards[i], c.currentFilter) ==> c.cards[i].display == Hidden
  }

  /** Starting from a catalogue whose failing cards are hidden (a filtered
      view, or the result of earlier searches on one), a settled search shows
      exactly the cards that pass the filter and match the term, keeps the
      failing cards hidden, and clearing the search box brings back the
      filtered view. */
  lemma SearchNarrowsFilteredView(c: Catalogue, query: string)
    requires FailingHidden(c)
    ensures var settled := Settle(HandleSearch(c, query));
      forall i | 0 <= i < |c.cards| ::
        settled.cards[i].display ==
          (if PassesFilter(c.cards[i], c.currentFilter) && CardMatches(c.cards[i], SearchTerm(query)) then Block else Hidden)
    ensures FailingHidden(Settle(HandleSearch(c, query)))
    ensures SearchTerm(query) == "" ==> ShowsFilter(Settle(HandleSearch(c, query)))
  {
    forall i | 0 <= i < |c.cards|
      ensures SearchTerm(query) == "" ==> CardMatches(c.cards[i], SearchTerm(query))
    {
      EmptyTermMatchesEveryCard(c.cards[i]);
    }
  }

  /** A settled filter is a filtered view. */
  lemma FilterShowsFilter(c: Catalogue, filter: string)
    ensures ShowsFilter(Settle(ApplyFilter(c, filter)))
  {
  }

  /** A filtered view hides every failing card. */
  lemma FilteredViewHidesFailing(c: Catalogue)
    requires ShowsFilter(c)
    ensures FailingHidden(c)
  {
  }

  // =====================================================================
  // Hide timers that outlive the next handler

  /** `applyFilter` as written, run while hide timers of earlier handlers are
      still pending: nothing cancels them (`hideCard` keeps no handle to its
      timer), so the new hide timers join the old ones. */
  function ApplyFilterPending(s: Step, filter: string): (r: Step)
    ensures r.now == ApplyFilter(s.now, filter).now
    ensures forall i :: i in r.hiding <==>
      i in s.hiding || (0 <= i < |s.now.cards| && !PassesFilter(s.now.cards[i], filter))
  {
    var t := ApplyFilter(s.now, filter);
    Step(t.now, s.hiding + t.hiding)
  }

  /** `handleSearch` as written, run while earlier hide timers are pending. */
  function HandleSearchPending(s: Step, query: string): (r: Step)
    ensures r.now == HandleSearch(s.now, query).now
    ensures forall i :: i in r.hiding <==>
      i in s.hiding || (0 <= i < |s.now.cards| && !KeptBy(s.now.cards[i], SearchTerm(query)))
  {
    var t := HandleSearch(s.now, query);
    Step(t.now, s.hiding + t.hiding)
  }

  /** Once every timer has fired, a card is displayed after the filter as
      written exactly when it passes the filter and had no hide timer pending
      from before; a stale timer hides a card the filter has just shown. */
  lemma PendingFilterSettles(s: Step, filter: string)
    ensures var settled := Settle(ApplyFilterPending(s, filter));
      forall i | 0 <= i < |s.now.cards| ::
        settled.cards[i].display ==
          (if PassesFilter(s.now.cards[i], filter) && i !in s.hiding then Block else Hidden)
  {
  }

  /** Once every timer has fired, a card is displayed after the search as
      written exactly when the search keeps it, it had no hide timer pending
      from before, and it passes the filter or was displayed already. */
  lemma PendingSearchSettles(s: Step, query: string)
    ensures var settled := Settle(HandleSearchPending(s, query));
      forall i | 0 <= i < |s.now.cards| ::
        settled.cards[i].display ==
          (if i in s.hiding || !KeptBy(s.now.cards[i], SearchTerm(query)) then Hidden
           else if PassesFilter(s.now.cards[i], s.now.currentFilter) then Block
           else s.now.cards[i].display)
  {
  }

  /** A stale timer in action: a "business" card and a "programming" card;
      the user picks "business" and, within 300 ms, "all". The "all" filter
      shows both cards at once, but the timer the "business" filter started
      still fires and hides the programming card for good. */
  lemma StaleHideTimer(p: Card, q: Card)
    requires p.category == "business" && q.category == "programming"
    ensures var start := Step(Catalogue([p, q], [0, 1], "all", None), {});
      var quick := ApplyFilterPending(ApplyFilterPending(start, "business"), "all");
      && PassesFilter(q, "all")
      && quick.now.cards[1].display == Block
      && Settle(quick).cards[1].display == Hidden
      && !ShowsFilter(Settle(quick))
  {
    var start := Step(Catalogue([p, q], [0, 1], "all", None), {});
    var first := ApplyFilterPending(start, "business");
    assert 1 in first.hiding;
    var quick := ApplyFilterPending(first, "all");
    assert 1 in quick.hiding;
    assert Settle(quick).cards[1].display == Hidden;
  }

  /** The cards a filter shows: those that pass it. */
  function FilterShown(cards: seq<Card>, filter: string): (r: set<nat>)
    ensures forall i :: i in r <==> 0 <= i < |cards| && PassesFilter(cards[i], filter)
  {
    set i | 0 <= i < |cards| && PassesFilter(cards[i], filter)
  }

  /** The cards a search shows: those it keeps that pass the current filter. */
  function SearchShown(cards: seq<Card>, term: string, filter: string): (r: set<nat>)
    ensures forall i :: i in r <==> 0 <= i < |cards| && KeptBy(cards[i], term) && PassesFilter(cards[i], filter)
  {
    set i | 0 <= i < |cards| && KeptBy(cards[i], term) && PassesFilter(cards[i], filter)
  }

  /** `applyFilter` as evidently intended: showing a card cancels its pending
      hide timer. */
  function ApplyFilterCancelling(s: Step, filter: string): (r: Step)
    ensures r.now == ApplyFilter(s.now, filter).now
    ensures forall i :: i in r.hiding <==>
      (i in s.hiding && i !in FilterShown(s.now.cards, filter))
      || (0 <= i < |s.now.cards| && !PassesFilter(s.now.cards[i], filter))
  {
    var t := ApplyFilter(s.now, filter);
    Step(t.now, (s.hiding - FilterShown(s.now.cards, filter)) + t.hiding)
  }

  /** `handleSearch` as evidently intended: showing a card cancels its
      pending hide timer. */
  function HandleSearchCancelling(s: Step, query: string): (r: Step)
    ensures r.now == HandleSearch(s.now, query).now
    ensures forall i :: i in r.hiding <==>
      (i in s.hiding && i !in SearchShown(s.now.cards, SearchTerm(query), s.now.currentFilter))
      || (0 <= i < |s.now.cards| && !KeptBy(s.now.cards[i], SearchTerm(query)))
  {
    var t := HandleSearch(s.now, query);
    Step(t.now, (s.hiding - SearchShown(s.now.cards, SearchTerm(query), s.now.currentFilter)) + t.hiding)
  }

  /** Whatever timers were pending, the corrected filter settles to exactly
      the cards that pass it. */
  lemma CancellingFilterSettles(s: Step, filter: string)
    ensures ShowsFilter(Settle(ApplyFilterCancelling(s, filter)))
    ensures Settle(ApplyFilterCancelling(s, filter)).currentFilter == filter
  {
  }

  /** Every card that fails the current filter is hidden or about to be. */
  ghost predicate FailingHiddenOrPending(s: Step) {
    forall i | 0 <= i < |s.now.cards| ::
      !PassesFilter(s.now.cards[i], s.now.currentFilter) ==> s.now.cards[i].display == Hidden || i in s.hiding
  }

  /** The corrected filter leaves every failing card hidden or hiding. */
  lemma CancellingFilterHidesFailing(s: Step, filter: string)
    ensures FailingHiddenOrPending(ApplyFilterCancelling(s, filter))
  {
  }

  /** The corrected search, from any state in which the failing cards are
      hidden or hiding, settles to exactly the cards that pass the filter and
      match the term, and keeps the failing cards hidden or hiding. */
  lemma CancellingSearchSettles(s: Step, query: string)
    requires FailingHiddenOrPending(s)
    ensures var settled := Settle(HandleSearchCancelling(s, query));
      forall i | 0 <= i < |s.now.cards| ::
        settled.cards[i].display ==
          (if PassesFilter(s.now.cards[i], s.now.currentFilter) && CardMatches(s.now.cards[i], SearchTerm(query)) then Block else Hidden)
    ensures FailingHiddenOrPending(HandleSearchCancelling(s, query))
  {
    forall i | 0 <= i < |s.now.cards|
      ensures SearchTerm(query) == "" ==> CardMatches(s.now.cards[i], SearchTerm(query))
    {
      EmptyTermMatchesEveryCard(s.now.cards[i]);
    }
  }

  // =====================================================================
  // Sort

  /** The comparator result for two possibly missing numbers: their
      difference, or 0 when either is `NaN` (the sort reads `NaN` as 0). */
  function Difference(a: Option<int>, b: Option<int>): int {
    if a.Some? && b.Some? then a.value - b.value else 0
  }

  /** `parseInt` of the first detail span. */
  function DurationOf(card: Card): Option<int> {
    if |card.details| == 0 then None else ParseInt(card.details[0])
  }

  /** `parseInt` of the digits of the last detail span. */
  function PriceOf(card: Card): Option<int> {
    if |card.details| == 0 then None
    else
      var ds := DigitsOf(card.details[|card.details| - 1]);
      if |ds| == 0 then None else Some(DecimalValue(ds) as int)
  }

  /** The price key is `parseInt` of the digits of the last span: missing
      (`NaN`) when the span holds no digit. */
  lemma PriceIsParseIntOfDigits(card: Card)
    requires |card.details| > 0
    ensures PriceOf(card) == ParseInt(DigitsOf(card.details[|card.details| - 1]))
    ensures PriceOf(card).None? <==> DigitsOf(card.details[|card.details| - 1]) == ""
  {
    var ds := DigitsOf(card.details[|card.details| - 1]);
    if |ds| > 0 {
      ParseIntOfDigitsThen(ds, "");
      assert ds + "" == ds;
    }
  }

  /** The sort keys that read the detail spans. */
  predicate ReadsDetails(sortBy: string) {
    sortBy == "duration" || sortBy == "price" || sortBy == "price-desc"
  }

  /** The comparator of `sortCourses`. `collate` stands for `localeCompare`. */
  function CompareCards(sortBy: string, a: Card, b: Card, collate: (string, string) -> int): (r: int)
    ensures sortBy == "name" ==> r == collate(a.title, b.title)
    ensures sortBy == "name-desc" ==> r == collate(b.title, a.title)
    ensures sortBy == "price" && PriceOf(a).Some? && PriceOf(b).Some? ==>
      (r <= 0 <==> PriceOf(a).value <= PriceOf(b).value)
    ensures sortBy == "price-desc" && PriceOf(a).Some? && PriceOf(b).Some? ==>
      (r <= 0 <==> PriceOf(b).value <= PriceOf(a).value)
    ensures sortBy == "duration" && DurationOf(a).Some? && DurationOf(b).Some? ==>
      (r <= 0 <==> DurationOf(a).value <= DurationOf(b).value)
    ensures (sortBy == "price" || sortBy == "price-desc") && (PriceOf(a).None? || PriceOf(b).None?) ==> r == 0
    ensures sortBy == "duration" && (DurationOf(a).None? || DurationOf(b).None?) ==> r == 0
    ensures sortBy != "name" && sortBy != "name-desc" && !ReadsDetails(sortBy) ==> r == 0
  {
    if sortBy == "name" then collate(a.title, b.title)
    else if sortBy == "name-desc" then collate(b.title, a.title)
    else if sortBy == "duration" then Difference(DurationOf(a), DurationOf(b))
    else if sortBy == "price" then Difference(PriceOf(a), PriceOf(b))
    else if sortBy == "price-desc" then Difference(PriceOf(b), PriceOf(a))
    else 0
  }

  /** The comparator on positions of the start-up list. */
  function CompareAt(cards: seq<Card>, sortBy: string, collate: (string, string) -> int): (nat, nat) -> int {
    (i: nat, j: nat) => if i < |cards| && j < |cards| then CompareCards(sortBy, cards[i], cards[j], collate) else 0
  }

  /** `0, 1, ..., n - 1`. */
  function Positions(n: nat): (r: seq<nat>)
    ensures |r| == n
    ensures forall i | 0 <= i < n :: r[i] == i
  {
    seq(n, i requires 0 <= i < n => i)
  }

  /** Every card has the detail spans the comparator reads (the handler
      throws on a card without them). */
  predicate Sortable(c: Catalogue, sortBy: string) {
    ReadsDetails(sortBy) ==> forall i | 0 <= i < |c.cards| :: |c.cards[i].details| > 0
  }

  /** The sort order produced for a sort key. */
  function SortedOrder(c: Catalogue, sortBy: string, collate: (string, string) -> int): seq<nat> {
    StableSort.Sort(Positions(|c.cards|), CompareAt(c.cards, sortBy, collate))
  }

  /** `sortCourses(sortBy)`: sort the start-up list (not the current order),
      re-append the cards in that order, then re-apply the current filter. */
  function SortCourses(c: Catalogue, sortBy: string, collate: (string, string) -> int): (s: Step)
    requires Sortable(c, sortBy)
    ensures s == ApplyFilter(c.(order := s.now.order), c.currentFilter)
    ensures s.now.order == SortedOrder(c, sortBy, collate)
    ensures multiset(s.now.order) == multiset(Positions(|c.cards|))
  {
    ApplyFilter(c.(order := SortedOrder(c, sortBy, collate)), c.currentFilter)
  }

  /** "default" compares everything as equal, so the cards go back to their
      document order, whatever order a previous sort left them in. */
  lemma DefaultRestoresDocumentOrder(c: Catalogue, collate: (string, string) -> int)
    ensures SortedOrder(c, "default", collate) == Positions(|c.cards|)
  {
    StableSort.SortKeepsSortedInput(Positions(|c.cards|), CompareAt(c.cards, "default", collate));
  }

  /** The descending keys are the ascending ones read backwards. */
  lemma DescendingKeysReverse(a: Card, b: Card, collate: (string, string) -> int)
    ensures CompareCards("name-desc", a, b, collate) == CompareCards("name", b, a, collate)
    ensures CompareCards("price-desc", a, b, collate) == -CompareCards("price", a, b, collate)
  {
  }

  /** `localeCompare` behaves as a total preorder on titles. */
  ghost predicate IsCollation(collate: (string, string) -> int) {
    && (forall a, b :: collate(a, b) <= 0 || collate(b, a) <= 0)
    && (forall a, b, c :: collate(a, b) <= 0 && collate(b, c) <= 0 ==> collate(a, c) <= 0)
  }

  /** The sort order is a rearrangement of the positions of the cards. */
  lemma SortedOrderInRange(c: Catalogue, sortBy: string, collate: (string, string) -> int)
    ensures forall i | 0 <= i < |SortedOrder(c, sortBy, collate)| :: SortedOrder(c, sortBy, collate)[i] < |c.cards|
  {
    var o := SortedOrder(c, sortBy, collate);
    forall i | 0 <= i < |o| ensures o[i] < |c.cards| {
      assert o[i] in multiset(o);
      assert o[i] in multiset(Positions(|c.cards|));
    }
  }

  /** The set of positions of `n` cards. */
  ghost function PositionSet(n: nat): (r: set<nat>)
    ensures forall x | x in r :: x < n
  {
    set x | x in Positions(n)
  }

  lemma NamePreorder(c: Catalogue, sortBy: string, collate: (string, string) -> int)
    requires IsCollation(collate)
    requires sortBy == "name" || sortBy == "name-desc"
    ensures StableSort.TotalPreorderOn(CompareAt(c.cards, sortBy, collate), PositionSet(|c.cards|))
  {
    var cmp := CompareAt(c.cards, sortBy, collate);
    var elems := PositionSet(|c.cards|);
    forall a, b | a in elems && b in elems ensures cmp(a, b) <= 0 || cmp(b, a) <= 0 {
      var ta, tb := c.cards[a].title, c.cards[b].title;
      assert collate(ta, tb) <= 0 || collate(tb, ta) <= 0;
    }
    forall a, b, d | a in elems && b in elems && d in elems && cmp(a, b) <= 0 && cmp(b, d) <= 0
      ensures cmp(a, d) <= 0
    {
      var ta, tb, td := c.cards[a].title, c.cards[b].title, c.cards[d].title;
      if sortBy == "name" {
        assert collate(ta, tb) <= 0 && collate(tb, td) <= 0;
      } else {
        assert collate(td, tb) <= 0 && collate(tb, ta) <= 0;
      }
    }
  }

  lemma PricePreorder(c: Catalogue, sortBy: string, collate: (string, string) -> int)
    requires forall i | 0 <= i < |c.cards| :: PriceOf(c.cards[i]).Some?
    requires sortBy == "price" || sortBy == "price-desc"
    ensures StableSort.TotalPreorderOn(CompareAt(c.cards, sortBy, collate), PositionSet(|c.cards|))
  {
    var cmp := CompareAt(c.cards, sortBy, collate);
    var elems := PositionSet(|c.cards|);
    var sign := if sortBy == "price" then 1 else -1;
    forall a, b | a in elems && b in elems
      ensures cmp(a, b) == sign * (PriceOf(c.cards[a]).value - PriceOf(c.cards[b]).value)
    {
    }
  }

  /** With a total preorder the sort order is sorted by the comparator. */
  lemma SortedOrderSorted(c: Catalogue, sortBy: string, collate: (string, string) -> int)
    requires StableSort.TotalPreorderOn(CompareAt(c.cards, sortBy, collate), PositionSet(|c.cards|))
    ensures StableSort.SortedBy(SortedOrder(c, sortBy, collate), CompareAt(c.cards, sortBy, collate))
  {
    StableSort.SortSorted(Positions(|c.cards|), CompareAt(c.cards, sortBy, collate));
  }

  /** The sort is stable: the cards that compare equal to card `x` keep
      their document order. */
  lemma SortedOrderStable(c: Catalogue, sortBy: string, collate: (string, string) -> int, x: nat)
    requires StableSort.TotalPreorderOn(CompareAt(c.cards, sortBy, collate), PositionSet(|c.cards|))
    requires x < |c.cards|
    ensures var cmp := CompareAt(c.cards, sortBy, collate);
      StableSort.Ties(SortedOrder(c, sortBy, collate), x, cmp) == StableSort.Ties(Positions(|c.cards|), x, cmp)
  {
    var ps := Positions(|c.cards|);
    assert ps[x] == x;
    assert (set y | y in ps) + {x} == PositionSet(|c.cards|);
    StableSort.SortIsStable(ps, x, CompareAt(c.cards, sortBy, collate));
  }

  /** Sorting by name with a collation puts the titles in collation order. */
  lemma NameSortOrdersTitles(c: Catalogue, collate: (string, string) -> int)
    requires IsCollation(collate)
    ensures var o := SortedOrder(c, "name", collate);
      forall i, j | 0 <= i < j < |o| :: o[i] < |c.cards| && o[j] < |c.cards| && collate(c.cards[o[i]].title, c.cards[o[j]].title) <= 0
  {
    NamePreorder(c, "name", collate);
    SortedOrderSorted(c, "name", collate);
    SortedOrderInRange(c, "name", collate);
    var o := SortedOrder(c, "name", collate);
    var cmp := CompareAt(c.cards, "name", collate);
    forall i, j | 0 <= i < j < |o|
      ensures o[i] < |c.cards| && o[j] < |c.cards| && collate(c.cards[o[i]].title, c.cards[o[j]].title) <= 0
    {
      assert cmp(o[i], o[j]) <= 0;
    }
  }

  /** Sorting by "name-desc" puts the titles in reverse collation order. */
  lemma NameDescSortOrdersTitles(c: Catalogue, collate: (string, string) -> int)
    requires IsCollation(collate)
    ensures var o := SortedOrder(c, "name-desc", collate);
      forall i, j | 0 <= i < j < |o| :: o[i] < |c.cards| && o[j] < |c.cards| && collate(c.cards[o[j]].title, c.cards[o[i]].title) <= 0
  {
    NamePreorder(c, "name-desc", collate);
    SortedOrderSorted(c, "name-desc", collate);
    SortedOrderInRange(c, "name-desc", collate);
    var o := SortedOrder(c, "name-desc", collate);
    var cmp := CompareAt(c.cards, "name-desc", collate);
    forall i, j | 0 <= i < j < |o|
      ensures o[i] < |c.cards| && o[j] < |c.cards| && collate(c.cards[o[j]].title, c.cards[o[i]].title) <= 0
    {
      assert cmp(o[i], o[j]) <= 0;
    }
  }

  /** When every price carries a digit, sorting by price puts the prices in
      ascending order. */
  lemma PriceSortOrdersPrices(c: Catalogue, collate: (string, string) -> int)
    requires forall i | 0 <= i < |c.cards| :: PriceOf(c.cards[i]).Some?
    ensures var o := SortedOrder(c, "price", collate);
      forall i, j | 0 <= i < j < |o| :: o[i] < |c.cards| && o[j] < |c.cards| && PriceOf(c.cards[o[i]]).value <= PriceOf(c.cards[o[j]]).value
  {
    PricePreorder(c, "price", collate);
    SortedOrderSorted(c, "price", collate);
    SortedOrderInRange(c, "price", collate);
    var o := SortedOrder(c, "price", collate);
    var cmp := CompareAt(c.cards, "price", collate);
    forall i, j | 0 <= i < j < |o|
      ensures o[i] < |c.cards| && o[j] < |c.cards| && PriceOf(c.cards[o[i]]).value <= PriceOf(c.cards[o[j]]).value
    {
      assert cmp(o[i], o[j]) <= 0;
    }
  }

  /** When every price carries a digit, "price-desc" puts the prices in
      descending order. */
  lemma PriceDescSortOrdersPrices(c: Catalogue, collate: (string, string) -> int)
    requires forall i | 0 <= i < |c.cards| :: PriceOf(c.cards[i]).Some?
    ensures var o := SortedOrder(c, "price-desc", collate);
      forall i, j | 0 <= i < j < |o| :: o[i] < |c.cards| && o[j] < |c.cards| && PriceOf(c.cards[o[j]]).value <= PriceOf(c.cards[o[i]]).value
  {
    PricePreorder(c, "price-desc", collate);
    SortedOrderSorted(c, "price-desc", collate);
    SortedOrderInRange(c, "price-desc", collate);
    var o := SortedOrder(c, "price-desc", collate);
    var cmp := CompareAt(c.cards, "price-desc", collate);
    forall i, j | 0 <= i < j < |o|
      ensures o[i] < |c.cards| && o[j] < |c.cards| && PriceOf(c.cards[o[j]]).value <= PriceOf(c.cards[o[i]]).value
    {
      assert cmp(o[i], o[j]) <= 0;
    }
  }
}
