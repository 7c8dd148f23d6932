/** navigation.js: the mobile menu, the `aria-expanded` flag of the
    hamburger, the current-page and scroll-spy highlighting, the breadcrumb
    and the arrow-key movement between navigation links. The browser (the
    location, the window width, the element clicked) is given as
    parameters. */
module Navigation {

  // =====================================================================
  // Mobile menu and aria-expanded

  /** `MobileNavigation` and the hamburger's accessibility attribute:
      `isOpen`, the `active` classes of the hamburger and of the menu, the
      body's `overflow` style, and the `aria-expanded` attribute. */
  datatype Menu = Menu(isOpen: bool, hamburgerActive: bool, menuActive: bool, overflow: string, ariaExpanded: string)

  /** The page as loaded, once `setupAriaLabels` has run. */
  const InitialMenu := Menu(false, false, false, "", "false")

  /** What reaches the menu's listeners: a click on the hamburger, a click on
      a navigation link, a click elsewhere in the document (inside `.nav` or
      not), and a resize to the given inner width. */
  datatype NavEvent = HamburgerClick | LinkClick | DocumentClick(insideNav: bool) | Resize(width: int)

  /** `toggleMenu()`. */
  function ToggleMenu(m: Menu): (r: Menu)
    ensures r.isOpen == !m.isOpen
    ensures r.hamburgerActive == !m.hamburgerActive && r.menuActive == !m.menuActive
    ensures r.overflow == (if r.isOpen then "hidden" else "")
    ensures r.ariaExpanded == m.ariaExpanded
  {
    var open := !m.isOpen;
    m.(isOpen := open, hamburgerActive := !m.hamburgerActive, menuActive := !m.menuActive,
       overflow := if open then "hidden" else "")
  }

  /** `closeMenu()`: it leaves `aria-expanded` alone. */
  function CloseMenu(m: Menu): (r: Menu)
    ensures !r.isOpen && !r.hamburgerActive && !r.menuActive && r.overflow == ""
    ensures r.ariaExpanded == m.ariaExpanded
  {
    m.(isOpen := false, hamburgerActive := false, menuActive := false, overflow := "")
  }

  /** The hamburger's second click listener: `aria-expanded` becomes the
      negation of whether it read "true". */
  function FlipAria(m: Menu): (r: Menu)
    ensures r.ariaExpanded == (if m.ariaExpanded == "true" then "false" else "true")
    ensures r == m.(ariaExpanded := r.ariaExpanded)
  {
    m.(ariaExpanded := if m.ariaExpanded == "true" then "false" else "true")
  }

  /** Whether a document click or a resize closes an open menu. */
  predicate ClosesMenu(m: Menu, e: NavEvent) {
    match e
    case HamburgerClick => false
    case LinkClick => true
    case DocumentClick(insideNav) => !insideNav && m.isOpen
    case Resize(width) => width > 768 && m.isOpen
  }

  /** One event as the page's listeners handle it. A hamburger click runs
      `toggleMenu` and then the `aria-expanded` listener; the hamburger and
      the links sit inside `.nav`, so the document listener ignores their
      clicks. */
  function Step(m: Menu, e: NavEvent): (r: Menu)
    ensures e.HamburgerClick? ==> r == FlipAria(ToggleMenu(m))
    ensures !e.HamburgerClick? && ClosesMenu(m, e) ==> r == CloseMenu(m)
    ensures !e.HamburgerClick? && !ClosesMenu(m, e) ==> r == m
  {
    if e.HamburgerClick? then FlipAria(ToggleMenu(m))
    else if ClosesMenu(m, e) then CloseMenu(m)
    else m
  }

  /** The menu's own state agrees with itself: both `active` classes and the
      scroll lock follow `isOpen`. */
  predicate Consistent(m: Menu) {
    m.hamburgerActive == m.isOpen && m.menuActive == m.isOpen
    && m.overflow == (if m.isOpen then "hidden" else "")
  }

  /** `aria-expanded` tells the truth about the menu. */
  predicate AriaTruthful(m: Menu) {
    m.ariaExpanded == (if m.isOpen then "true" else "false")
  }

  /** Every event keeps the classes and the scroll lock in step with
      `isOpen`, although `toggleMenu` toggles the classes instead of setting
      them. */
  lemma StepKeepsConsistent(m: Menu, e: NavEvent)
    requires Consistent(m)
    ensures Consistent(Step(m, e))
  {
  }

  /** An open menu is closed by a link click, an outside click, or a resize
      wider than 768 pixels. */
  lemma OpenMenuCloses(m: Menu, e: NavEvent)
    requires m.isOpen
    requires e.LinkClick? || e == DocumentClick(false) || (e.Resize? && e.width > 768)
    ensures !Step(m, e).isOpen && Step(m, e).overflow == ""
  {
  }

  /** As written, `aria-expanded` stops telling the truth: open the menu with
      the hamburger and close it with a link, and the closed menu still says
      "true"; the next hamburger click opens it and says "false". */
  lemma AriaDesynchronises(m0: Menu)
    requires m0 == InitialMenu
    ensures AriaTruthful(m0)
    ensures var m1 := Step(m0, HamburgerClick);
      var m2 := Step(m1, LinkClick);
      var m3 := Step(m2, HamburgerClick);
      && AriaTruthful(m1)
      && !m2.isOpen && m2.ariaExpanded == "true"
      && m3.isOpen && m3.ariaExpanded == "false"
  {
  }

  /** `closeMenu()` as it is evidently meant: it also resets
      `aria-expanded`. */
  function CloseMenuFixed(m: Menu): (r: Menu)
    ensures r == CloseMenu(m).(ariaExpanded := "false")
    ensures AriaTruthful(r)
  {
    CloseMenu(m).(ariaExpanded := "false")
  }

  function StepFixed(m: Menu, e: NavEvent): (r: Menu)
    ensures AriaTruthful(m) ==> AriaTruthful(r)
    ensures r.isOpen == Step(m, e).isOpen && r.overflow == Step(m, e).overflow
  {
    if e.HamburgerClick? then FlipAria(ToggleMenu(m))
    else if ClosesMenu(m, e) then CloseMenuFixed(m)
    else m
  }

  /** With the reset, any sequence of events from the loaded page keeps
      `aria-expanded` truthful and the menu consistent. */
  lemma {:induction false} FixedRunStaysTruthful(events: seq<NavEvent>)
    ensures AriaTruthful(RunFixed(InitialMenu, events)) && Consistent(RunFixed(InitialMenu, events))
  {
    RunFixedPreserves(InitialMenu, events);
  }

  function RunFixed(m: Menu, events: seq<NavEvent>): Menu
    decreases |events|
  {
    if |events| == 0 then m else RunFixed(StepFixed(m, events[0]), events[1..])
  }

  lemma {:induction false} RunFixedPreserves(m: Menu, events: seq<NavEvent>)
    requires AriaTruthful(m) && Consistent(m)
    ensures AriaTruthful(RunFixed(m, events)) && Consistent(RunFixed(m, events))
    decreases |events|
  {
    if |events| > 0 {
      var next := StepFixed(m, events[0]);
      StepKeepsConsistent(m, events[0]);
      RunFixedPreserves(next, events[1..]);
    }
  }

  // =====================================================================
  // Current page

  /** `pathname.split('/').pop()`: the text after the last `/`. */
  function LastSegment(path: string): (r: string)
    ensures '/' !in r
    ensures |r| <= |path| && r == path[|path| - |r|..]
    ensures |r| < |path| ==> path[|path| - |r| - 1] == '/'
  {
    if |path| == 0 then ""
    else if path[|path| - 1] == '/' then ""
    else
      var r := LastSegment(path[..|path| - 1]);
      r + [path[|path| - 1]]
  }

  /** The page assumed when the path ends in `/`. */
  const HomePage: string := "index.html"

  lemma HomePageIsPageName()
    ensures HomePage != "" && '/' !in HomePage
  {
  }

  /** `pathname.split('/').pop() || 'index.html'`. */
  function CurrentPage(path: string): (p: string)
    ensures p != "" && '/' !in p
    ensures p == LastSegment(path) || (LastSegment(path) == "" && p == HomePage)
  {
    var last := LastSegment(path);
    HomePageIsPageName();
    if last == "" then HomePage else last
  }

  /** The test of `highlightCurrentPage` for one link, as written. */
  predicate HighlightsLink(href: string, currentPage: string) {
    || href == currentPage
    || (currentPage == "" && href == "index.html")
    || (currentPage == "/" && href == "index.html")
  }

  /** `highlightCurrentPage()`: which of the links (given by their `href`)
      carry the `active` class afterwards. */
  function HighlightCurrentPage(hrefs: seq<string>, currentPage: string): (active: seq<bool>)
    ensures |active| == |hrefs|
    ensures forall i | 0 <= i < |hrefs| :: active[i] == HighlightsLink(hrefs[i], currentPage)
    ensures currentPage != "" && '/' !in currentPage ==>
      forall i | 0 <= i < |hrefs| :: (active[i] <==> hrefs[i] == currentPage)
  {
    seq(|hrefs|, i requires 0 <= i < |hrefs| => HighlightsLink(hrefs[i], currentPage))
  }

  /** The two extra cases never apply: the current page is never empty and
      never holds a `/`, so exactly the links whose `href` is the page name
      are highlighted, and on the site root that is `index.html`. */
  lemma HighlightIsExactMatch(hrefs: seq<string>, path: string)
    ensures var active := HighlightCurrentPage(hrefs, CurrentPage(path));
      forall i | 0 <= i < |hrefs| :: (active[i] <==> hrefs[i] == CurrentPage(path))
    ensures LastSegment(path) == "" ==> CurrentPage(path) == HomePage
  {
    var p := CurrentPage(path);
    assert p != "/" by { assert '/' !in p; }
  }

  /** Scroll spy runs on the home page only (the empty-page case cannot
      arise). */
  predicate ScrollSpyEnabled(currentPage: string) {
    currentPage == "index.html" || currentPage == ""
  }

  /** On any URL path, scroll spy is enabled exactly on the home page. */
  lemma ScrollSpyOnHomeOnly(path: string)
    ensures ScrollSpyEnabled(CurrentPage(path)) <==> CurrentPage(path) == HomePage
  {
  }

  /** `updateActiveLink(sectionId)`. */
  function UpdateActiveLink(hrefs: seq<string>, sectionId: string): (active: seq<bool>)
    ensures |active| == |hrefs|
    ensures forall i | 0 <= i < |hrefs| :: active[i] <==> hrefs[i] == "#" + sectionId
  {
    seq(|hrefs|, i requires 0 <= i < |hrefs| => hrefs[i] == "#" + sectionId)
  }

  /** With distinct `href`s at most one link is active after an update, and
      the link of the section is. */
  lemma ActiveLinkUnique(hrefs: seq<string>, sectionId: string)
    requires forall i, j | 0 <= i < j < |hrefs| :: hrefs[i] != hrefs[j]
    ensures var active := UpdateActiveLink(hrefs, sectionId);
      forall i, j | 0 <= i < |hrefs| && 0 <= j < |hrefs| && active[i] && active[j] :: i == j
  {
  }

  // =====================================================================
  // Breadcrumb

  const PageMap: map<string, string> := map[
    "index.html" := "Home", "about.html" := "About", "courses.html" := "Courses",
    "placements.html" := "Placements", "students.html" := "Students", "contact.html" := "Contact"]

  /** `generateBreadcrumb()`, as the labels of the trail: "Home", then, off
      the home page, the page's title or "Page". */
  function Breadcrumb(currentPage: string): (trail: seq<string>)
    ensures |trail| >= 1 && trail[0] == "Home"
    ensures |trail| == 1 <==> currentPage == "index.html"
    ensures currentPage != "index.html" ==> |trail| == 2
    ensures |trail| == 2 && currentPage in PageMap ==> trail[1] == PageMap[currentPage]
    ensures |trail| == 2 && currentPage !in PageMap ==> trail[1] == "Page"
  {
    if currentPage == "index.html" then ["Home"]
    else ["Home", if currentPage in PageMap then PageMap[currentPage] else "Page"]
  }

  /** Every known page other than the home page gets its own distinct
      title; an unknown page reads "Page". */
  lemma BreadcrumbDistinguishesPages(p: string, q: string)
    requires p in PageMap && q in PageMap && p != q && p != "index.html" && q != "index.html"
    ensures Breadcrumb(p)[1] != Breadcrumb(q)[1]
    ensures Breadcrumb(p)[1] != "Page"
  {
  }

  // =====================================================================
  // Keyboard

  datatype Key = ArrowRight | ArrowLeft | Escape | OtherKey

  /** What a key press on link `index` does: move the focus to a link, blur
      the link, or nothing. */
  datatype KeyAction = FocusLink(target: nat) | Blur | NoAction

  /** The `keydown` listener of link `index` among `count` links. A missing
      neighbour (`navLinks[-1]` or `navLinks[count]`) is `undefined`, so the
      `||` wraps around. */
  function KeyDown(index: nat, count: nat, key: Key): (a: KeyAction)
    requires index < count
    ensures key == ArrowRight ==> a == FocusLink((index + 1) % count)
    ensures key == ArrowLeft ==> a == FocusLink((index + count - 1) % count)
    ensures key == Escape <==> a == Blur
    ensures key == OtherKey <==> a == NoAction
  {
    match key
    case ArrowRight =>
      if index + 1 < count then ModUnique(index + 1, count, 0, index + 1); FocusLink(index + 1)
      else ModUnique(index + 1, count, 1, 0); FocusLink(0)
    case ArrowLeft =>
      if index >= 1 then ModUnique(index + count - 1, count, 1, index - 1); FocusLink(index - 1)
      else ModUnique(index + count - 1, count, 0, count - 1); FocusLink(count - 1)
    case Escape => Blur
    case OtherKey => NoAction
  }

  /** Left undoes Right and Right undoes Left. */
  lemma ArrowsAreInverse(index: nat, count: nat)
    requires index < count
    ensures KeyDown(KeyDown(index, count, ArrowRight).target, count, ArrowLeft) == FocusLink(index)
    ensures KeyDown(KeyDown(index, count, ArrowLeft).target, count, ArrowRight) == FocusLink(index)
  {
  }

  /** Pressing Right `k` times from link `index`. */
  function RightTimes(index: nat, count: nat, k: nat): (r: nat)
    requires index < count
    ensures r < count
  {
    if k == 0 then index else KeyDown(RightTimes(index, count, k - 1), count, ArrowRight).target
  }

  /** Right visits the links in order: after `k` presses the focus is `k`
      links further on, wrapping round; after `count` presses it is back. */
  lemma {:induction false} RightTimesWraps(index: nat, count: nat, k: nat)
    requires index < count
    ensures RightTimes(index, count, k) == (index + k) % count
  {
    if k > 0 {
      RightTimesWraps(index, count, k - 1);
      ModSucc(index + k - 1, count);
    }
  }

  lemma ModSucc(a: nat, n: nat)
    requires n > 0
    ensures (a % n + 1) % n == (a + 1) % n
  {
    var q, r := a / n, a % n;
    assert a == q * n + r;
    if r + 1 < n {
      ModUnique(a + 1, n, q, r + 1);
      ModUnique(r + 1, n, 0, r + 1);
    } else {
      assert a + 1 == (q + 1) * n;
      ModUnique(a + 1, n, q + 1, 0);
      ModUnique(n, n, 1, 0);
    }
  }

  /** The remainder is determined by any quotient-remainder split. */
  lemma ModUnique(x: int, n: int, q: int, r: int)
    requires n > 0 && 0 <= r < n && x == q * n + r
    ensures x % n == r
  {
    var q', r' := x / n, x % n;
    assert x == q' * n + r';
    var d := q - q';
    assert d * n == r' - r;
    assert -n < d * n < n;
  }
}
