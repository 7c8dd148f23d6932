/** `NavigationSearch` of navigation.js: the site search box in the header,
    which lists the pages whose title or keywords contain the query. */
module NavSearch {
  import opened Wrappers
  import opened Text

  /** An entry of the search index. */
  datatype SearchEntry = SearchEntry(title: string, url: string, keywords: string)

  /** `buildSearchIndex()`. */
  const SearchIndex: seq<SearchEntry> := [
    SearchEntry("Home", "index.html", "home main landing"),
    SearchEntry("About Us", "about.html", "about history mission vision leadership"),
    SearchEntry("Courses", "courses.html", "courses programs education engineering business science"),
    SearchEntry("Placements", "placements.html", "placements jobs careers recruitment companies"),
    SearchEntry("Students", "students.html", "students life campus testimonials clubs activities"),
    SearchEntry("Contact", "contact.html", "contact address phone email location")]

  /** What the results box holds: nothing yet, a message, or links to the
      matching pages (their URL and title). */
  datatype Content = Blank | Message(text: string) | Links(links: seq<(string, string)>)

  /** The `.search-results` element: whether it is displayed and what it
      holds. */
  datatype ResultsBox = ResultsBox(shown: bool, content: Content)

  const NoResultsText := "No results found"

  /** The title or the keywords contain the query, ignoring case. */
  predicate EntryMatches(e: SearchEntry, query: string) {
    Contains(ToLower(e.title), ToLower(query)) || Contains(ToLower(e.keywords), ToLower(query))
  }

  /** `searchData.filter(...)`. */
  function FilterEntries(entries: seq<SearchEntry>, query: string): (r: seq<SearchEntry>)
    ensures |r| <= |entries|
    ensures forall e | e in r :: e in entries && EntryMatches(e, query)
    ensures forall e | e in entries && EntryMatches(e, query) :: e in r
  {
    if |entries| == 0 then []
    else
      var rest := FilterEntries(entries[1..], query);
      assert forall e | e in entries :: e == entries[0] || e in entries[1..];
      if EntryMatches(entries[0], query) then [entries[0]] + rest else rest
  }

  /** `r` is `s` with some entries dropped, the others in their order. */
  ghost predicate SubsequenceOf<T>(r: seq<T>, s: seq<T>)
    decreases |s|
  {
    if |r| == 0 then true
    else if |s| == 0 then false
    else (r[0] == s[0] && SubsequenceOf(r[1..], s[1..])) || SubsequenceOf(r, s[1..])
  }

  /** The results keep the order of the index. */
  lemma {:induction false} FilterKeepsOrder(entries: seq<SearchEntry>, query: string)
    ensures SubsequenceOf(FilterEntries(entries, query), entries)
  {
    if |entries| > 0 {
      FilterKeepsOrder(entries[1..], query);
      var r := FilterEntries(entries, query);
      var rest := FilterEntries(entries[1..], query);
      if EntryMatches(entries[0], query) {
        assert r[1..] == rest;
      } else if |r| > 0 {
        assert r == rest;
      }
    }
  }

  /** The results box as `showResults(results)` fills it. */
  function ShowResults(results: seq<SearchEntry>): (b: ResultsBox)
    ensures b.shown
    ensures |results| == 0 <==> b.content == Message(NoResultsText)
    ensures |results| > 0 ==>
      && b.content.Links? && |b.content.links| == |results|
      && forall i | 0 <= i < |results| :: b.content.links[i] == (results[i].url, results[i].title)
  {
    if |results| == 0 then ResultsBox(true, Message(NoResultsText))
    else ResultsBox(true, Links(seq(|results|, i requires 0 <= i < |results| => (results[i].url, results[i].title))))
  }

  /** `handleSearch(query)` on the results box; a page without the box
      (`None`) is left alone. A query shorter than two UTF-16 code units only
      hides the box. */
  function HandleSearch(box: Option<ResultsBox>, query: string): (r: Option<ResultsBox>)
    ensures box.None? ==> r.None?
    ensures box.Some? && Utf16Length(query) < 2 ==> r == Some(box.value.(shown := false))
    ensures box.Some? && Utf16Length(query) >= 2 ==> r == Some(ShowResults(FilterEntries(SearchIndex, query)))
  {
    match box
    case None => None
    case Some(b) =>
      if Utf16Length(query) < 2 then Some(b.(shown := false))
      else Some(ShowResults(FilterEntries(SearchIndex, query)))
  }

  /** A click outside `.nav-search` hides the box. */
  function ClickOutside(box: Option<ResultsBox>): (r: Option<ResultsBox>)
    ensures box.None? ==> r.None?
    ensures box.Some? ==> r == Some(box.value.(shown := false))
  {
    match box
    case None => None
    case Some(b) => Some(b.(shown := false))
  }

  /** A click outside hides the results but keeps them: searching for the
      same query again shows the same box. */
  lemma ClickOutsideKeepsResults(b: ResultsBox, query: string)
    requires Utf16Length(query) >= 2
    ensures var shown := HandleSearch(Some(b), query);
      && !ClickOutside(shown).value.shown
      && ClickOutside(shown).value.content == shown.value.content
      && HandleSearch(ClickOutside(shown), query) == shown
  {
  }

  /** The links shown for a query are exactly the matching pages of the
      index, in index order, and the message appears exactly when none
      matches. */
  lemma SearchShowsMatches(b: ResultsBox, query: string)
    requires Utf16Length(query) >= 2
    ensures var r := HandleSearch(Some(b), query).value;
      && r.shown
      && (r.content == Message(NoResultsText) <==> forall e | e in SearchIndex :: !EntryMatches(e, query))
      && (r.content.Links? ==> forall e | e in SearchIndex :: (EntryMatches(e, query) <==> (e.url, e.title) in r.content.links))
  {
    var found := FilterEntries(SearchIndex, query);
    var r := ShowResults(found);
    if r.content.Links? {
      forall e | e in SearchIndex ensures EntryMatches(e, query) <==> (e.url, e.title) in r.content.links {
        if (e.url, e.title) in r.content.links {
          var i :| 0 <= i < |found| && r.content.links[i] == (e.url, e.title);
          UrlIdentifiesEntry(found[i], e);
        }
      }
    }
    if found != [] {
      assert found[0] in found;
    }
  }

  /** No two entries of the index share a URL. */
  lemma UrlIdentifiesEntry(a: SearchEntry, b: SearchEntry)
    requires a in SearchIndex && b in SearchIndex && a.url == b.url
    ensures a == b
  {
  }

  /** Typing more characters never adds a result: every page found for the
      longer query is found for any part of it. */
  lemma LongerQueryNarrows(shorter: string, longer: string)
    requires Contains(longer, shorter)
    ensures forall e | e in FilterEntries(SearchIndex, longer) :: e in FilterEntries(SearchIndex, shorter)
  {
    ContainsLower(longer, shorter);
    forall e | e in FilterEntries(SearchIndex, longer) ensures EntryMatches(e, shorter) {
      if Contains(ToLower(e.title), ToLower(longer)) {
        ContainsTransitive(ToLower(e.title), ToLower(longer), ToLower(shorter));
      } else {
        ContainsTransitive(ToLower(e.keywords), ToLower(longer), ToLower(shorter));
      }
    }
  }

  /** The search ignores case: a query and its lower-cased form find the
      same pages. */
  lemma SearchIgnoresCase(query: string)
    ensures FilterEntries(SearchIndex, ToLower(query)) == FilterEntries(SearchIndex, query)
  {
    ToLowerIdempotent(query);
    FilterSameWhenLowerSame(SearchIndex, ToLower(query), query);
  }

  lemma {:induction false} FilterSameWhenLowerSame(entries: seq<SearchEntry>, p: string, q: string)
    requires ToLower(p) == ToLower(q)
    ensures FilterEntries(entries, p) == FilterEntries(entries, q)
  {
    if |entries| > 0 {
      FilterSameWhenLowerSame(entries[1..], p, q);
    }
  }
}
