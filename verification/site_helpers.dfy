/** Helpers of main.js shared by every page: the `[data-searchable]` filter
    behind `input[type="search"]` boxes and the loading states of a
    submitted form's button. (`showNotification` is in `Notify`.) */
module SiteHelpers {
  import opened Text

  // =====================================================================
  // Searchable elements

  /** The `display` style the search listener gives a `[data-searchable]`
      element with text `text` for the box's value `term`: "" shows it,
      "none" hides it. The term is lower-cased but not trimmed. */
  function SearchableDisplay(text: string, term: string): (d: string)
    ensures d == "" || d == "none"
    ensures d == "" <==> Contains(ToLower(text), ToLower(term))
  {
    ContainsEmpty(ToLower(text));
    var t := ToLower(term);
    if Contains(ToLower(text), t) || t == "" then "" else "none"
  }

  /** The displays of all the searchable elements. */
  function FilterSearchables(texts: seq<string>, term: string): (ds: seq<string>)
    ensures |ds| == |texts|
    ensures forall i | 0 <= i < |texts| :: ds[i] == SearchableDisplay(texts[i], term)
  {
    seq(|texts|, i requires 0 <= i < |texts| => SearchableDisplay(texts[i], term))
  }

  /** An element is shown exactly when its lower-cased text contains the
      lower-cased term; the separate empty-term test adds nothing, since
      every text contains the empty term, so an empty box shows everything. */
  lemma SearchableShownIffContains(text: string, term: string)
    ensures SearchableDisplay(text, term) == "" <==> Contains(ToLower(text), ToLower(term))
    ensures term == "" ==> SearchableDisplay(text, term) == ""
  {
    ContainsEmpty(ToLower(text));
  }

  /** Over all the searchable elements, exactly those whose text contains
      the term are shown, and an empty box shows them all. */
  lemma FilterShowsContaining(texts: seq<string>, term: string)
    ensures var ds := FilterSearchables(texts, term);
      forall i | 0 <= i < |texts| :: (ds[i] == "" <==> Contains(ToLower(texts[i]), ToLower(term)))
    ensures term == "" ==> forall i | 0 <= i < |texts| :: FilterSearchables(texts, term)[i] == ""
  {
    forall i | 0 <= i < |texts| {
      SearchableShownIffContains(texts[i], term);
    }
  }

  /** Surrounding spaces are part of the term: a term padded with a space
      hides an element whose text holds no space at all. */
  lemma PaddedTermHides(text: string, term: string)
    requires ' ' !in text
    ensures SearchableDisplay(text, term + " ") == "none"
  {
    var t := ToLower(term + " ");
    assert t[|t| - 1] == ' ';
  }

  // =====================================================================
  // Form loading

  /** The submit button as the user sees it: its text, whether it is
      disabled, and whether it is painted in the success colour. */
  datatype SubmitButton = SubmitButton(text: string, disabled: bool, successColour: bool)

  /** The three moments of `setupFormLoading`'s submit handler: at once,
      after 1.5 s, and after a further 2 s (when the form is also reset). */
  datatype LoadingTrace = LoadingTrace(sending: SubmitButton, sent: SubmitButton, restored: SubmitButton, formReset: bool)

  /** The submit handler of `setupFormLoading` for a button showing
      `original`. The original text is read when the form is submitted. */
  function FormLoading(original: SubmitButton): (t: LoadingTrace)
    ensures t.sending.text == "Sending..." && t.sending.disabled
    ensures t.sent.text == "Sent!" && t.sent.disabled && t.sent.successColour
    ensures t.restored.text == original.text && !t.restored.disabled && !t.restored.successColour
    ensures t.formReset
  {
    var sending := original.(text := "Sending...", disabled := true);
    var sent := sending.(text := "Sent!", successColour := true);
    var restored := sent.(text := original.text, disabled := false, successColour := false);
    LoadingTrace(sending, sent, restored, true)
  }

  /** The button stays disabled until the last step, and a button that was
      enabled and unpainted ends as it began. */
  lemma FormLoadingRestores(original: SubmitButton)
    requires !original.disabled && !original.successColour
    ensures FormLoading(original).restored == original
    ensures FormLoading(original).sending.disabled && FormLoading(original).sent.disabled
  {
  }
}
