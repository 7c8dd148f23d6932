# College website scripts, modelled in Dafny

This project models the client-side logic of a college website. The logic lives in four browser scripts under `college_site/main/static/js/`:

- **`contact.js`**
  - `ContactForm`: phone formatting as the user types, the e-mail pattern, whole-form validation with one error element per field, draft persistence under `contact_<name>` keys, and the submit sequence with its loading button.
  - `ContactInfo`: the office-hours badge and the click-to-copy eligibility test.
- **`courses.js`**
  - `CourseFilter`: the category filter, the text search, the "Showing N …" counter and the sort drop-down.
  - `CourseComparison`: the compare list of at most three courses, its floating panel and the feature lookup of the comparison table.
  - `CourseFavorites`: the favourites list, kept in storage as JSON.
- **`navigation.js`**
  - The mobile menu and its `aria-expanded` attribute.
  - Current-page highlighting, the scroll-spy link update and the breadcrumb.
  - The site search box.
  - Arrow-key focus moves.
- **`main.js`**
  - `showNotification`.
  - The `[data-searchable]` filter.
  - The generic form-loading button.

The document is abstracted into immutable records. A card is its title, description, category, detail texts and display state. A form field is its id, name, type, value, default value and error text. The menu is its flags and attribute. Every event handler becomes a pure function from the state before to the state after.

Services are injected:
- `localStorage` becomes a `map<string, string>`.
- The clock becomes a (day, hour) pair.
- `localeCompare` becomes a comparison function parameter.
- The network transport becomes a success-or-failure value.
- The browser's own constraint validation becomes an optional message.

Timers are modelled only where their order matters. The course filter returns the cards as they look right away, together with the set of cards whose pending hide timer will set `display: none` (`CourseFilter.Settle` fires those timers). `CourseFilter.ApplyFilter` and `CourseFilter.HandleSearch` start from a catalogue with no timer pending. `ApplyFilterPending` and `HandleSearchPending` run the same handlers while earlier timers are still pending: nothing cancels those timers, so they are kept.

JavaScript semantics are written out explicitly:
- the `\s` character class, `trim`, and `toLowerCase`/`toUpperCase`;
- `includes`;
- `replace` with an unanchored regular expression, which replaces the leftmost match;
- `parseInt`, including its hexadecimal prefix, on exact integers rather than doubles;
- the stable `Array.prototype.sort` with a comparator, where a `NaN` result counts as 0;
- the `||` fallback;
- `String.length` in UTF-16 code units;
- `JSON.stringify` for string arrays, following section 25.5.2 of ECMA-262.

Modules, one per concern:
- `Wrappers`: `Option`.
- `Text`: the string semantics above.
- `Sequences`: `splice` of one element.
- `StableSort`: the sort.
- `Notify`, `ContactForm`, `ContactInfo`, `CourseFilter`, `CourseCompare`, `JsonStrings`, `CourseFavorites`, `Navigation`, `NavSearch` and `SiteHelpers`, each matching the script part it models.

Where the code and its informal description disagree, the model follows the code.
- **Phone formatter.** It is described as formatting 3–5 digits partially, formatting from 6 digits on, and dropping digits beyond the tenth. In the code, the 3–5 digit branch uses a six-digit pattern and the 6–9 digit branch uses a ten-digit pattern, so neither can match. Only ten or more digits are reformatted, and digits beyond the tenth are kept after the layout.
- **Blank required e-mail.** A required `#email` holding only whitespace gets the e-mail message, not "This field is required". The required message is written first, and then the e-mail check replaces it in the field's single error slot.

## Model

| member | source | states |
|---|---|---|
| Notify.ShowNotification | college_site/main/static/js/main.js:181-193 | the text is the message; the type defaults to "info"; the class is `notification notification-<type>`; the background is the success colour exactly for "success", the error colour exactly for "error", and the primary colour for every other type |
| Notify.ClassNameDeterminesColour | college_site/main/static/js/main.js:183-193 | two notifications with the same class have the same type and colour, and the type is the class without its prefix |
| Text.TrimCharacterisation | college_site/main/static/js/contact.js:108 | a value is blank after `trim()` exactly when every character is whitespace, and the trimmed text is a contiguous slice of the value |
| Text.DigitsOfCount | college_site/main/static/js/contact.js:59 | removing `\D` keeps every digit as often as it occurs and no other character |
| Text.DigitsOfAppend | college_site/main/static/js/contact.js:59 | removing `\D` distributes over concatenation |
| Text.DecimalRoundTrip | college_site/main/static/js/courses.js:94 | the decimal text of a count reads back as that count |
| Text.ParseIntOfDigitsThen | college_site/main/static/js/courses.js:239-240 | `parseInt` of a digit run followed by nothing, or by a character that is neither a digit nor `x`, is the run's value |
| Text.ParseIntOfQuantity | college_site/main/static/js/courses.js:239-240 | `parseInt` of "<n> <unit>", as in a duration span, is n |
| Text.ParseInt | college_site/main/static/js/courses.js:239-245 | leading whitespace is skipped, so a text that is empty once the whitespace is gone is `NaN`; a negative result needs a leading minus sign |
| Text.ToLowerIdempotent | college_site/main/static/js/navigation.js:195-196 | lower-casing twice is lower-casing once |
| Text.ContainsLower | college_site/main/static/js/navigation.js:195-196 | a substring stays a substring after both sides are lower-cased |
| Text.Utf16Length | college_site/main/static/js/navigation.js:189 | the `length` of a string lies between its number of code points and twice that |
| Sequences.RemoveAt | college_site/main/static/js/courses.js:314 | `splice(i, 1)` keeps the elements before i and shifts the later ones down by one |
| Sequences.RemoveAtDistinct | college_site/main/static/js/courses.js:558 | removing one element of a repeat-free list keeps it repeat-free and drops that element entirely |
| StableSort.Sort | college_site/main/static/js/courses.js:232-253 | the sort returns a permutation of its input |
| StableSort.SortSorted | college_site/main/static/js/courses.js:232-253 | with a comparator that is a total preorder on the elements, every element may stay before every later one |
| StableSort.SortKeepsSortedInput | college_site/main/static/js/courses.js:232-253 | stability: an input already in order is returned unchanged |
| StableSort.InsertKeepsTies | college_site/main/static/js/courses.js:232-253 | inserting an element places it after every element already tied with it, and keeps the order of those elements |
| StableSort.SortIsStable | college_site/main/static/js/courses.js:232-253 | stability on any input: under a total preorder, the elements tied with any given element come out in their input order |
| ContactForm.FirstDigitRun | college_site/main/static/js/contact.js:61 | the match position is the leftmost place where the digit run starts |
| ContactForm.FormatPhone | college_site/main/static/js/contact.js:57-66 | the output's digits are the input's; with fewer than ten digits the output is the bare digit string; with ten or more it is `(ddd) ddd-dddd` followed by the remaining digits |
| ContactForm.ShortBranchesAreInert | college_site/main/static/js/contact.js:60-64 | with 3–5 digits the six-digit pattern cannot match, and with 6–9 digits the ten-digit pattern cannot match |
| ContactForm.FormatPhoneIdempotent | college_site/main/static/js/contact.js:57-66 | formatting a formatted number changes nothing |
| ContactForm.PhoneTenDigitsExample | college_site/main/static/js/contact.js:61 | typing 5551234567 shows (555) 123-4567 |
| ContactForm.EmailMatchesPattern | college_site/main/static/js/contact.js:288-291 | `isValidEmail` accepts a string exactly when it splits as atom@atom.atom, with no whitespace and no `@` in any atom |
| ContactForm.IsValidEmail | college_site/main/static/js/contact.js:288-291 | an accepted address has at least five characters and neither starts nor ends with `@` |
| ContactForm.EmailAcceptanceConditions | college_site/main/static/js/contact.js:289 | accepted iff there is no whitespace, exactly one `@` not at the start, and a `.` after the `@` with a character on each side of it; a string without `@` is rejected |
| ContactForm.AllRequiredPresent | college_site/main/static/js/contact.js:107-112 | true exactly when no required field is blank after trimming |
| ContactForm.Checked | college_site/main/static/js/contact.js:107-119 | one field after validation: only its error changes; a rejected e-mail gets the e-mail message; otherwise a blank required field gets the required message; otherwise the field is untouched |
| ContactForm.ValidateForm | college_site/main/static/js/contact.js:103-122 | the verdict is false iff some required field is blank or the `#email` field is non-empty and rejected; only error slots change; each failing field gets its message and every other field keeps its slot |
| ContactForm.EmailMessageOnlyForNonEmptyInvalid | college_site/main/static/js/contact.js:115-119 | validation writes the e-mail message only on the `#email` field, and only when its value is non-empty and rejected |
| ContactForm.BlankRequiredMessage | college_site/main/static/js/contact.js:107-119 | a blank required field gets "This field is required", except a non-empty whitespace-only `#email`, which gets the e-mail message |
| ContactForm.ValidationScenario | college_site/main/static/js/contact.js:103-122 | an empty required name and "bad-email" fail, each with its own message |
| ContactForm.DraftKeyInjective | college_site/main/static/js/contact.js:97 | different field names never share a draft key |
| ContactForm.SaveDraft | college_site/main/static/js/contact.js:94-100 | an input writes exactly the field's key with its value; submit controls write nothing; every other key is unchanged |
| ContactForm.RestoreField | college_site/main/static/js/contact.js:86-91 | only the value can change, and only to a non-empty saved draft of a non-submit field, which it always takes |
| ContactForm.RestoreDrafts | college_site/main/static/js/contact.js:84-91 | the page-load step applies the per-field restore to every field, in place, keeping the number of fields |
| ContactForm.ClearDrafts | college_site/main/static/js/contact.js:279-286 | removes the key of every non-submit field, keeps every other key, and adds nothing |
| ContactForm.ClearDraftsReadsNames | college_site/main/static/js/contact.js:279-286 | which keys are removed depends only on the fields' names and types, so clearing after `form.reset()` removes the same keys as before it |
| ContactForm.DraftRoundTrip | college_site/main/static/js/contact.js:86-98 | a non-empty value written by the input handler is what a reload restores into a field of that name |
| ContactForm.ClearedDraftsRestoreNothing | college_site/main/static/js/contact.js:279-286 | after the drafts are cleared a reload changes no field |
| ContactForm.SubmitControlsUntouched | college_site/main/static/js/contact.js:88-97 | submit controls are never saved or restored |
| ContactForm.OnInput | college_site/main/static/js/contact.js:28-38 | an input on one field changes only that field and its draft key; every other stored key is kept with its value; its error slot becomes the browser's verdict; the phone field is reformatted; the draft holds the final value |
| ContactForm.OnEmailBlur | college_site/main/static/js/contact.js:47-52 | leaving `#email` flags it exactly when its value is non-empty and rejected; nothing else changes |
| ContactForm.OnSubmit | college_site/main/static/js/contact.js:70-140 | a failed validation stops before the transport and only shows errors; otherwise the button is "Sending..." and disabled while the transport runs, and is restored afterwards; on success the success banner and toast appear, the fields are exactly the reset fields (only values change) and the store is exactly the store with the form's draft keys removed; on failure the error banner and toast appear and fields and drafts are kept |
| ContactForm.SuccessfulSubmitForgetsDrafts | college_site/main/static/js/contact.js:124-140 | after a successful submit a reload restores nothing |
| ContactForm.SubmitKeepsButtonIdle | college_site/main/static/js/contact.js:154-164 | whatever the outcome, an idle button is idle again with its original text afterwards |
| ContactForm.SetLoadingState | college_site/main/static/js/contact.js:154-164 | the button is disabled exactly while loading and reads "Sending..." then, or the original text otherwise; fields, drafts and the original text are untouched |
| ContactForm.ResetFields | college_site/main/static/js/contact.js:269-270 | `form.reset()` puts every field back to its default value and changes nothing else about it, including its error slot |
| ContactInfo.OfficeStatus | college_site/main/static/js/contact.js:359-386 | open exactly within the opening hours that a timetable gives for the day |
| ContactInfo.OpeningStretches | college_site/main/static/js/contact.js:367-386 | Sunday is always closed, Saturday is open iff 9 ≤ hour < 16, and Monday to Friday are open iff 8 ≤ hour < 18 |
| ContactInfo.StatusBadge | college_site/main/static/js/contact.js:367-391 | the badge reads "Open" in the success colour exactly when the office is open, and "Closed" otherwise |
| ContactInfo.ValidEmailIsCopyEligible | college_site/main/static/js/contact.js:310 | every valid e-mail address is offered for copying |
| ContactInfo.CopyEligibleSurvivesTrim | college_site/main/static/js/contact.js:310-315 | the eligibility test reads the whole line while the copy takes the trimmed line; a line is eligible exactly when its trimmed text is |
| CourseFilter.Settle | college_site/main/static/js/courses.js:55-61 | the pending timers fire: each card with a pending timer gets `display: none`, and every other card and field is unchanged |
| CourseFilter.ApplyFilter | college_site/main/static/js/courses.js:28-42 | records the filter; a card is scheduled to hide iff it fails the filter; passing cards show at once; hidden ones keep their display until the timer; only displays change |
| CourseFilter.FilterSettles | college_site/main/static/js/courses.js:28-62 | from a catalogue with no hide timer pending, once the timers have fired, a card is shown iff it is in the category or the filter is "all", and hidden otherwise |
| CourseFilter.CountShown | college_site/main/static/js/courses.js:72-74 | the count is at most the number of cards, and zero exactly when every card is hidden |
| CourseFilter.ResultsLabelReadsBack | college_site/main/static/js/courses.js:92-94 | the label is "Showing ", the count in decimal, a space and the filter text; the filter text is "All Courses" for "all", otherwise the filter with its first character upper-cased |
| CourseFilter.ResultsLabelInjective | college_site/main/static/js/courses.js:94 | two counts with the same label are equal |
| CourseFilter.FilterCounterBounds | college_site/main/static/js/courses.js:71-74 | the counter shown by the filter is never below the number of cards that pass it |
| CourseFilter.CountShownExactly | college_site/main/static/js/courses.js:72-74 | when the visible cards are exactly the passing ones, the count equals the number of passing cards |
| CourseFilter.FilterCounterOverCounts | college_site/main/static/js/courses.js:41 | as written, filtering two cards to one category labels two cards while one stays visible |
| CourseFilter.ApplyFilterCounted | college_site/main/static/js/courses.js:28-42 | the filter with the counter taken after the hide timers: same cards and timers, and the label counts the cards left visible |
| CourseFilter.HandleSearch | college_site/main/static/js/courses.js:154-177 | a card is scheduled to hide iff the trimmed, lower-cased term is non-empty and not found in its title, description or category; kept cards that pass the current filter are shown; all other cards keep their display |
| CourseFilter.SearchNarrowsFilteredView | college_site/main/static/js/courses.js:154-177 | on a settled catalogue whose failing cards are hidden (a filtered view, or earlier searches on one), after the timers a card is shown iff it passes the filter and matches the term; the failing cards stay hidden; an empty term leaves the filtered view |
| CourseFilter.FilterShowsFilter | college_site/main/static/js/courses.js:28-62 | from a catalogue with no hide timer pending, a settled filter leaves a view that shows exactly the cards passing it |
| CourseFilter.FilteredViewHidesFailing | college_site/main/static/js/courses.js:28-42 | a filtered view hides every card failing the filter, so a search may start from it |
| CourseFilter.ApplyFilterPending | college_site/main/static/js/courses.js:28-61 | as written, with earlier timers pending: the cards are as after the filter, and the pending set is the earlier one plus the failing cards |
| CourseFilter.HandleSearchPending | college_site/main/static/js/courses.js:154-177 | as written, with earlier timers pending: the cards are as after the search, and the pending set is the earlier one plus the cards the search drops |
| CourseFilter.PendingFilterSettles | college_site/main/static/js/courses.js:28-61 | as written, after the timers a card is shown iff it passes the filter and had no earlier timer pending |
| CourseFilter.PendingSearchSettles | college_site/main/static/js/courses.js:54-61 | as written, after the timers a card is hidden if an earlier timer was pending or the search drops it; otherwise it is shown if it passes the filter, and keeps its display if not |
| CourseFilter.StaleHideTimer | college_site/main/static/js/courses.js:54-61 | a "business" card and a "programming" card, filtered to "business" and within 300 ms to "all": the programming card is shown at once but hidden for good, so the view is not the "all" view |
| CourseFilter.ApplyFilterCancelling | college_site/main/static/js/courses.js:28-61 | the filter with showing a card cancelling its pending timer: the cards are as after the filter; a card is pending iff it fails the filter, or it was pending and the filter does not show it |
| CourseFilter.HandleSearchCancelling | college_site/main/static/js/courses.js:154-177 | the search with showing a card cancelling its pending timer: the cards are as after the search; a card is pending iff the search drops it, or it was pending and the search does not show it |
| CourseFilter.CancellingFilterSettles | college_site/main/static/js/courses.js:28-61 | whatever timers were pending, the corrected filter settles to a view that shows exactly the cards passing it |
| CourseFilter.CancellingFilterHidesFailing | college_site/main/static/js/courses.js:28-61 | after the corrected filter every failing card is hidden or pending |
| CourseFilter.CancellingSearchSettles | college_site/main/static/js/courses.js:154-177 | from any state whose failing cards are hidden or pending, the corrected search settles to exactly the cards that pass the filter and match the term, and keeps that state property |
| CourseFilter.EmptyTermMatchesEveryCard | college_site/main/static/js/courses.js:162-166 | every card contains the empty term |
| CourseFilter.PriceIsParseIntOfDigits | college_site/main/static/js/courses.js:243-244 | the price key is `parseInt` of the digits of the last span, and is `NaN` exactly when that span has no digit |
| CourseFilter.SortCourses | college_site/main/static/js/courses.js:228-262 | the new order is the stable sort of the document order by the chosen key (`SortedOrder`), a permutation of the cards, and the current filter is re-applied to it |
| CourseFilter.DefaultRestoresDocumentOrder | college_site/main/static/js/courses.js:250-251 | "default" puts the cards back in document order |
| CourseFilter.DescendingKeysReverse | college_site/main/static/js/courses.js:234-249 | "name-desc" compares as "name" with the cards swapped, and "price-desc" as the negation of "price" |
| CourseFilter.CompareCards | college_site/main/static/js/courses.js:232-253 | "name" and "name-desc" are the collation in either direction; with both keys present, "price" and "duration" say "not after" iff the first key is not larger, and "price-desc" iff it is not smaller; a missing key (`NaN`) compares as 0; "default" and unknown keys compare everything as 0 |
| CourseFilter.NamePreorder | college_site/main/static/js/courses.js:234-237 | when the collation is a total preorder, so are both name comparators |
| CourseFilter.PricePreorder | college_site/main/static/js/courses.js:242-249 | when every card has a price, both price comparators are total preorders |
| CourseFilter.SortedOrderSorted | college_site/main/static/js/courses.js:232-253 | under a total-preorder comparator the resulting order is sorted |
| CourseFilter.SortedOrderStable | college_site/main/static/js/courses.js:232-253 | under a total-preorder comparator, cards that compare equal keep their document order |
| CourseFilter.NameSortOrdersTitles | college_site/main/static/js/courses.js:234-235 | after "name" the titles are in collation order |
| CourseFilter.NameDescSortOrdersTitles | college_site/main/static/js/courses.js:236-237 | after "name-desc" the titles are in reverse collation order |
| CourseFilter.PriceSortOrdersPrices | college_site/main/static/js/courses.js:242-245 | after "price" the prices are ascending |
| CourseFilter.PriceDescSortOrdersPrices | college_site/main/static/js/courses.js:246-249 | after "price-desc" the prices are descending |
| CourseCompare.FindIndex | college_site/main/static/js/courses.js:310 | the first position with the title, or none exactly when the title is absent |
| CourseCompare.UpdatePanel | college_site/main/static/js/courses.js:380-401 | the panel is visible iff the list is non-empty; a non-empty list is listed by title and shows the action button iff it has at least two entries; an empty list leaves the content alone |
| CourseCompare.ToggleCompare | college_site/main/static/js/courses.js:308-335 | a listed title is spliced out and its button reads "Compare"; an unlisted title is appended with "Remove" unless three are listed, when a warning appears and nothing changes |
| CourseCompare.RemoveAtKeepsDistinct | college_site/main/static/js/courses.js:314 | removing an entry keeps the titles free of repeats and drops that title |
| CourseCompare.ToggleKeepsValid | college_site/main/static/js/courses.js:308-335 | the list never exceeds three entries and never repeats a title, and a click flips the membership of the clicked title unless the list is full |
| CourseCompare.AddThenRemove | college_site/main/static/js/courses.js:312-331 | adding a course and clicking it again restores the list |
| CourseCompare.PanelAfterLastRemoval | college_site/main/static/js/courses.js:385-389 | removing the last course hides the panel and leaves its old content in place |
| CourseCompare.FourthCourseRefused | college_site/main/static/js/courses.js:320-323 | a fourth course is refused with the warning "You can only compare up to 3 courses" |
| CourseCompare.OrNotAvailable | college_site/main/static/js/courses.js:495 | `text || 'N/A'`: a missing or empty text becomes "N/A" |
| CourseCompare.ExtractFeatureValue | college_site/main/static/js/courses.js:489-505 | Duration, Students and Price read spans 0, 1 and 2, and Category reads the category label; a missing or empty one and any other feature give "N/A"; the value is never empty |
| CourseCompare.NotAvailableExactlyWhenMissing | college_site/main/static/js/courses.js:494-503 | when no text itself reads "N/A", the value is "N/A" exactly when the element is missing or empty |
| CourseCompare.ComparisonTable | college_site/main/static/js/courses.js:462-487 | a "Feature" header then one column per compared course; one row per feature, named after it, whose cells are the courses' values for it |
| CourseCompare.TableMarksMissingValues | college_site/main/static/js/courses.js:462-503 | the rows are Duration, Students, Price and Category in that order, column j + 1 is the j-th course, and a cell reads "N/A" when its course lacks that feature, and only then provided none of that course's texts reads "N/A" literally |
| JsonStrings.EscapeChar | college_site/main/static/js/courses.js:567 | a character is escaped exactly when it is a quote, a backslash or a control character; all others are written as themselves |
| JsonStrings.HexDigitsRoundTrip | college_site/main/static/js/courses.js:567 | the `\u00xx` escape of a control character reads back as that character |
| JsonStrings.ParseEscaped | college_site/main/static/js/courses.js:511 | the escaped body of any string followed by its closing quote parses back to the string and leaves the rest |
| JsonStrings.ParseEncodedElements | college_site/main/static/js/courses.js:511 | the encoded elements of a non-empty list followed by `]` parse back to the list |
| JsonStrings.ArrayRoundTrip | college_site/main/static/js/courses.js:567 | `JSON.parse(JSON.stringify(list))` is the list, for every list of strings |
| JsonStrings.EncodeArray | college_site/main/static/js/courses.js:567 | the text is bracketed by `[` and `]`, is `[]` exactly for the empty list, and otherwise starts its first element with a quote |
| JsonStrings.DecodeArray | college_site/main/static/js/courses.js:511 | only a text starting with `[` is read as an array, and the empty list is read from `[]` and from nothing else |
| CourseFavorites.LoadFavorites | college_site/main/static/js/courses.js:511 | a missing key or stored `null` gives the empty list; any other text gives the decoded list when it is a JSON array of strings, and is unreadable otherwise |
| CourseFavorites.IndexOf | college_site/main/static/js/courses.js:555 | the first position of the title, or none exactly when it is absent |
| CourseFavorites.ToggleFavorite | college_site/main/static/js/courses.js:553-572 | a present title has its first occurrence removed, the outline heart and "Removed from favorites"; an absent one is appended with the filled heart and "Added to favorites"; the stored text is the JSON of the new list |
| CourseFavorites.ToggleFlipsMembership | college_site/main/static/js/courses.js:553-565 | on a repeat-free list, a click flips the clicked title's membership, keeps every other title and keeps the list repeat-free |
| CourseFavorites.ToggleTwiceRestores | college_site/main/static/js/courses.js:553-567 | favouriting and un-favouriting a course restores the list and the stored text |
| CourseFavorites.SavedFavouritesReload | college_site/main/static/js/courses.js:567 | what a click stores is what the next page load reads |
| CourseFavorites.UpdateFavoriteStates | college_site/main/static/js/courses.js:574-586 | the heart of every favourite card is filled and the others keep theirs |
| CourseFavorites.FreshPageShowsFavourites | college_site/main/static/js/courses.js:515-518 | on a fresh page the filled hearts are exactly the favourites |
| Navigation.ToggleMenu | college_site/main/static/js/navigation.js:37-44 | flips the open flag and both `active` classes; body overflow is "hidden" iff the menu is now open; the aria attribute is untouched |
| Navigation.CloseMenu | college_site/main/static/js/navigation.js:46-51 | closed, both classes off and overflow cleared; the aria attribute is untouched |
| Navigation.FlipAria | college_site/main/static/js/navigation.js:267-270 | a hamburger click turns "true" into "false" and anything else into "true", changing nothing else |
| Navigation.Step | college_site/main/static/js/navigation.js:13-33 | a hamburger click toggles and flips aria; a link click, an outside click while open or a resize above 768 pixels while open closes; anything else changes nothing |
| Navigation.StepKeepsConsistent | college_site/main/static/js/navigation.js:13-51 | the open flag, both classes and the overflow stay in agreement |
| Navigation.OpenMenuCloses | college_site/main/static/js/navigation.js:17-33 | an open menu is closed, with scrolling restored, by a link click, an outside click or a resize above 768 pixels |
| Navigation.AriaDesynchronises | college_site/main/static/js/navigation.js:46-51 | as written, opening with the hamburger and closing with a link leaves "true" on a closed menu, and the next click says "false" on an open one |
| Navigation.CloseMenuFixed | college_site/main/static/js/navigation.js:46-51 | closing also resets `aria-expanded` to "false", so the attribute is truthful |
| Navigation.StepFixed | college_site/main/static/js/navigation.js:13-51 | with the corrected close, every event keeps the attribute truthful and the menu behaves as before |
| Navigation.FixedRunStaysTruthful | college_site/main/static/js/navigation.js:261-271 | from the initial "false", any sequence of events leaves `aria-expanded` equal to whether the menu is open |
| Navigation.RunFixedPreserves | college_site/main/static/js/navigation.js:13-51 | a run from a truthful, consistent menu stays truthful and consistent |
| Navigation.LastSegment | college_site/main/static/js/navigation.js:58 | the last `/`-separated segment: a suffix with no `/`, preceded by a `/` when shorter than the path |
| Navigation.CurrentPage | college_site/main/static/js/navigation.js:58 | the last segment, or "index.html" when that is empty; never empty and never holds a `/` |
| Navigation.HighlightCurrentPage | college_site/main/static/js/navigation.js:68-79 | each link is active exactly when the highlight rule holds for its `href`; for a non-empty page name without `/`, exactly the links whose `href` is the page name |
| Navigation.HighlightIsExactMatch | college_site/main/static/js/navigation.js:73-75 | the two extra cases of the rule never apply, so a link is active iff its `href` is the current page |
| Navigation.ScrollSpyOnHomeOnly | college_site/main/static/js/navigation.js:82-83 | on any URL path, scroll spy is set up exactly on the home page; the empty-name case never arises |
| Navigation.UpdateActiveLink | college_site/main/static/js/navigation.js:104-111 | a link is active iff its `href` is `#` followed by the section id |
| Navigation.ActiveLinkUnique | college_site/main/static/js/navigation.js:104-111 | with distinct `href`s, at most one link is active |
| Navigation.Breadcrumb | college_site/main/static/js/navigation.js:129-149 | "Home" alone exactly on "index.html"; on every other page two entries, "Home" then the mapped title, or "Page" for an unmapped page |
| Navigation.BreadcrumbDistinguishesPages | college_site/main/static/js/navigation.js:130-143 | different mapped pages get different breadcrumb titles, none of them "Page" |
| Navigation.KeyDown | college_site/main/static/js/navigation.js:240-258 | ArrowRight focuses (i + 1) mod n and ArrowLeft (i + n - 1) mod n; Escape blurs; any other key does nothing |
| Navigation.ArrowsAreInverse | college_site/main/static/js/navigation.js:243-252 | Left after Right, and Right after Left, return to the starting link |
| Navigation.RightTimesWraps | college_site/main/static/js/navigation.js:243-247 | k presses of ArrowRight from i focus (i + k) mod n |
| NavSearch.FilterEntries | college_site/main/static/js/navigation.js:194-197 | the results are exactly the index entries whose lower-cased title or keywords contain the lower-cased query |
| NavSearch.ShowResults | college_site/main/static/js/navigation.js:202-216 | the box is shown; "No results found" exactly for no results; otherwise one link per result, in order, with its URL and title |
| NavSearch.HandleSearch | college_site/main/static/js/navigation.js:188-200 | a page without the box is left alone; a query shorter than two UTF-16 code units hides the box and keeps its content; a longer query shows the matching index entries |
| NavSearch.FilterKeepsOrder | college_site/main/static/js/navigation.js:194-197 | the results are a subsequence of the index, in index order |
| NavSearch.SearchShowsMatches | college_site/main/static/js/navigation.js:188-216 | for a query of two or more code units the box is shown; it says "No results found" exactly when nothing matches, and otherwise links exactly the matching pages |
| NavSearch.ClickOutside | college_site/main/static/js/navigation.js:170-174 | a click outside the search hides the box and leaves its content; a page without the box is left alone |
| NavSearch.ClickOutsideKeepsResults | college_site/main/static/js/navigation.js:170-174 | after a click outside, the box is hidden with its results kept, and the same query shows the same box again |
| NavSearch.UrlIdentifiesEntry | college_site/main/static/js/navigation.js:177-186 | no two index entries share a URL |
| NavSearch.LongerQueryNarrows | college_site/main/static/js/navigation.js:194-197 | extending a query never adds results |
| NavSearch.SearchIgnoresCase | college_site/main/static/js/navigation.js:195-196 | a query and its lower-cased form give the same results |
| NavSearch.FilterSameWhenLowerSame | college_site/main/static/js/navigation.js:194-197 | queries that agree after lower-casing give the same results |
| SiteHelpers.SearchableShownIffContains | college_site/main/static/js/main.js:163-174 | an element is displayed iff its lower-cased text contains the lower-cased term; an empty term shows everything |
| SiteHelpers.FilterSearchables | college_site/main/static/js/main.js:163-174 | one display per searchable element: "" (shown) exactly when the element's lower-cased text contains the lower-cased, untrimmed term, "none" otherwise |
| SiteHelpers.FilterShowsContaining | college_site/main/static/js/main.js:163-174 | across the page, exactly the elements whose lower-cased text contains the lower-cased term are shown; an empty box shows them all |
| SiteHelpers.PaddedTermHides | college_site/main/static/js/main.js:164-172 | the term is not trimmed: a trailing space hides an element whose text has no space |
| SiteHelpers.FormLoading | college_site/main/static/js/main.js:130-156 | the button goes "Sending..." and disabled, then "Sent!" in the success colour, then back to its text, enabled, with the form reset |
| SiteHelpers.FormLoadingRestores | college_site/main/static/js/main.js:137-151 | an idle button ends exactly as it started, and stays disabled until then |

## Left out

- Styling, CSS transitions, fade-ins and the other animation timers are cosmetic. Of the timers, only the course cards' hide timer is modelled, as `CourseFilter.Settle`.
- The stat counter animation in `main.js` is left out because it works with floating-point increments.
- The IntersectionObserver wiring of the scroll spy, `scrollIntoView`, lazy images and performance logging are left out. They are browser services; the link update they trigger is modelled as `Navigation.UpdateActiveLink`.
- Clipboard writes, `window.open` for the map and `document.execCommand` are foreign I/O. Only the `@`/`+` eligibility test is modelled.
- `simulateFormSubmission` and `form.submit()` are left out. The transport is the `Transport` parameter, either delivered or failed with a message.
- `localStorage` is an injected map and `Date` is a (day, hour) pair.
- `localeCompare` is a comparison parameter. Its ordering properties are assumed as a total preorder where the name-sort lemmas need them.
- The FAQ accordion and search, and the HTML markup of banners, result links, the compare panel and the comparison table are left out: they generate markup. The comparison table is modelled as its header and cell texts.
- `toLowerCase` and `toUpperCase` map ASCII letters only. Full Unicode case mapping is not modelled.
- The price sort reads `span:last-child`, which the model takes to be the last detail text. The comparison table's Price row reads the third span instead, as the code does.
- `Navigation.Breadcrumb`: page names inherited from `Object.prototype` (such as `constructor`) would print a function's text. The map is modelled as the six own entries.
- `CourseFavorites.LoadFavorites`: only JSON texts without insignificant whitespace, holding an array of strings or `null`, are decoded. Every other text counts as unreadable, including lone-surrogate escapes. The script behaves differently on those texts. Text that is not JSON makes `JSON.parse` throw. `JSON.parse(t) || []` turns the other falsy values (`false`, `0`, `""`) into `[]` and keeps any other non-array value. It also reads arrays padded with whitespace and arrays holding non-strings, which the model calls unreadable. The page itself only ever writes the compact form of an array of strings.
- `ContactForm.OnInput`: the browser's constraint validation (`checkValidity()` and `validationMessage`) is the `browserMessage` parameter. The model does not derive it from the field's constraints.
- `setupFormLoading` also registers a submit handler on the contact form. Its interleaving with the contact form's own handler, overlapping timers and double submissions are not modelled; each handler is modelled on its own.
- A missing DOM element makes the scripts throw, for example a card without a `.course-details span` during a duration or price sort. The model requires the elements to be present (`CourseFilter.Sortable`); a page without the search results box is `None` in `NavSearch`.
- `CourseFilter.ApplyFilter`, `CourseFilter.HandleSearch` and `CourseFilter.SortCourses` each start from a catalogue with no hide timer pending. Earlier pending timers are modelled separately by `ApplyFilterPending` and `HandleSearchPending` (see Findings). Timers that fire part-way through a series of handlers are modelled only by settling everything in between.
- `ContactForm.ValidateForm`: each field is assumed to have its own parent element. The script looks up and removes the `.field-error` in the field's parent, so fields that share a parent would share one error slot.
- `Navigation.Step`: the hamburger and the menu links are assumed to sit inside `.nav`, so a click on them is never an outside click. The script tests `closest('.nav')` on the click target.
- The "duration" sort is modelled (`CourseFilter.CompareCards`), but no ordering lemma is stated for it. A `NaN` duration makes its comparator inconsistent.
- `CourseFilter.SortCourses`: when a price or duration span has no digit, `parseInt` gives `NaN`, which the sort reads as 0, and the comparator is no longer consistent. For such a comparator the engine's sort order is implementation-defined: ECMA-262 defines the result of `Array.prototype.sort` only for a consistent comparator. The model fixes the order its insertion sort produces, which an engine need not produce. Only the permutation and the re-applied filter hold regardless of the engine. The ordering and stability lemmas assume a total preorder.
- `Text.ParseInt`: `parseInt` returns an IEEE double. The model returns the exact integer. Digit runs at or above 2^53 are rounded by the script, and runs of about 309 digits or more become `Infinity`. None of this is modelled.
- `ParseIntOfDigitsThen` (in `Text`): the value is the exact integer of the run; the script's value is the nearest double, which differs from 2^53 on.
- `ParseIntOfQuantity` (in `Text`): the same exact-integer reading of the quantity; the script rounds it to a double.
- `PriceIsParseIntOfDigits` (in `CourseFilter`): the price key is the exact integer, where the script's key is the rounded double.
- `CourseFilter.PriceSortOrdersPrices` and `CourseFilter.PriceDescSortOrdersPrices`: they order exact integer prices, while the script subtracts doubles. Two prices at or above 2^53 that round to the same double compare as equal in the script and keep document order. Two `Infinity` prices give `NaN`, which the sort reads as 0. The model orders both pairs strictly by their exact values.
- The Django files (`views.py`, `forms.py`, `models.py`, `urls.py`) are not part of this model: their behaviour lives in the framework.
- Not claimed as findings, because the code may mean them:
  - `sortCourses` re-applies only the filter, not the search text.
  - The compare panel keeps the old titles when it slides away.
  - The search's empty-term check is redundant, since every text contains the empty string.

## Findings

| source | as written | input that shows it | evidently intended | confidence | as-written member | corrected member |
|---|---|---|---|---|---|---|
| college_site/main/static/js/courses.js:41 | `updateResultsCount()` runs right after `applyFilter` starts the 300 ms hide timers, so it counts cards that are about to disappear | an unfiltered "programming" card and a "business" card, filtered to "programming": the label says "Showing 2 Programming" while one card stays visible | the label counts the cards left visible by the filter | not executed | CourseFilter.FilterCounterOverCounts | CourseFilter.ApplyFilterCounted |
| college_site/main/static/js/courses.js:54-61 | `hideCard` starts a 300 ms timer that sets `display: none` and keeps no handle to it; `showCard` does not cancel it | a "business" card and a "programming" card: pick "business", then "all" within 300 ms; the programming card is shown and then hidden for good | showing a card cancels its pending hide, so the view settles to the last filter and search | not executed | CourseFilter.StaleHideTimer | CourseFilter.ApplyFilterCancelling |
| college_site/main/static/js/navigation.js:46-51 | `closeMenu()` closes the menu but leaves `aria-expanded` as it was; only hamburger clicks flip it | open with the hamburger, then click a link: the closed menu says "true", and the next hamburger click opens it saying "false" | `aria-expanded` is "true" exactly when the menu is open | not executed | Navigation.AriaDesynchronises | Navigation.CloseMenuFixed |
