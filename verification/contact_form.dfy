/** The contact form of contact.js (`ContactForm`): phone formatting as the
    user types, the e-mail pattern, whole-form validation with one error slot
    per field, draft persistence under `contact_<name>` keys in an injected
    key/value store, and the submit sequence with its loading button.

    A form is a sequence of fields in document order. Each field carries the
    text of the error element shown under it (`None` when there is none):
    `showFieldError` first removes the existing `.field-error` of the field's
    group and then appends the new one, so a field shows at most one message. */
module ContactForm {
  import opened Wrappers
  import opened Text
  import Notify

  // =====================================================================
  // Phone formatting

  /** Ten (or `k`) consecutive digits start at position `i` of `v`. */
  predicate DigitRunAt(v: string, i: nat, k: nat) {
    i + k <= |v| && AllDigits(v[i..i + k])
  }

  /** The leftmost position at or after `from` where a run of `k` digits
      starts: where an unanchored `(\d{..})…` pattern first matches. */
  function FirstDigitRun(v: string, k: nat, from: nat): (r: Option<nat>)
    decreases |v| - from
    ensures r.Some? ==> from <= r.value && DigitRunAt(v, r.value, k)
    ensures r.Some? ==> forall i | from <= i < r.value :: !DigitRunAt(v, i, k)
    ensures r.None? ==> forall i: nat | from <= i :: !DigitRunAt(v, i, k)
  {
    if from + k > |v| then None
    else if DigitRunAt(v, from, k) then Some(from)
    else FirstDigitRun(v, k, from + 1)
  }

  /** In a string of digits a run of `k` digits starts at 0 exactly when the
      string is at least `k` long. */
  lemma FirstDigitRunOfDigits(v: string, k: nat)
    requires AllDigits(v)
    ensures |v| >= k ==> FirstDigitRun(v, k, 0) == Some(0)
    ensures |v| < k ==> FirstDigitRun(v, k, 0) == None
  {
    if |v| >= k {
      assert DigitRunAt(v, 0, k);
    }
  }

  /** `v.replace(/(\d{3})(\d{3})(\d{4})/, '($1) $2-$3')`. */
  function ReplaceTenDigitRun(v: string): string {
    match FirstDigitRun(v, 10, 0)
    case None => v
    case Some(i) =>
      v[..i] + "(" + v[i..i + 3] + ") " + v[i + 3..i + 6] + "-" + v[i + 6..i + 10] + v[i + 10..]
  }

  /** `v.replace(/(\d{3})(\d{3})/, '($1) $2')`. */
  function ReplaceSixDigitRun(v: string): string {
    match FirstDigitRun(v, 6, 0)
    case None => v
    case Some(i) => v[..i] + "(" + v[i..i + 3] + ") " + v[i + 3..i + 6] + v[i + 6..]
  }

  /** The canonical display form of a digit string of length at least ten. */
  function TenDigitLayout(d: string): string
    requires |d| >= 10
  {
    "(" + d[..3] + ") " + d[3..6] + "-" + d[6..10] + d[10..]
  }

  /** The phone `input` handler: strip the non-digits, then apply the
      six-or-more or the three-or-more replacement. */
  function FormatPhone(raw: string): (r: string)
    ensures DigitsOf(r) == DigitsOf(raw)
    ensures |DigitsOf(raw)| < 10 ==> r == DigitsOf(raw)
    ensures |DigitsOf(raw)| >= 10 ==> r == TenDigitLayout(DigitsOf(raw))
  {
    var value := DigitsOf(raw);
    DigitsOfAllDigits(value);
    FirstDigitRunOfDigits(value, 10);
    FirstDigitRunOfDigits(value, 6);
    LayoutKeepsDigits(value);
    TenDigitRunIsLayout(value);
    if |value| >= 6 then ReplaceTenDigitRun(value)
    else if |value| >= 3 then ReplaceSixDigitRun(value)
    else value
  }

  /** On a digit string of ten or more, the replacement matches at the start. */
  lemma TenDigitRunIsLayout(v: string)
    requires AllDigits(v)
    ensures |v| >= 10 ==> ReplaceTenDigitRun(v) == TenDigitLayout(v)
  {
    FirstDigitRunOfDigits(v, 10);
    if |v| >= 10 {
      assert v[..0] == "" && v[0..3] == v[..3];
    }
  }

  /** The layout adds only punctuation and a space: its digits are the input's. */
  lemma LayoutKeepsDigits(d: string)
    requires AllDigits(d)
    ensures |d| >= 10 ==> DigitsOf(TenDigitLayout(d)) == d
  {
    if |d| >= 10 {
      var a, b, c, e := d[..3], d[3..6], d[6..10], d[10..];
      var s1 := "(" + a;
      var s3 := s1 + ") " + b;
      var s5 := s3 + "-" + c;
      assert TenDigitLayout(d) == s5 + e;
      DigitsOfAppend("(", a);
      DigitsOfAllDigits(a);
      assert DigitsOf("(") == "";
      PunctuationThenDigits(s1, ") ", b);
      PunctuationThenDigits(s3, "-", c);
      DigitsOfAppend(s5, e);
      DigitsOfAllDigits(e);
      assert a + b + c + e == d;
    }
  }

  /** Punctuation contributes no digits: appending punctuation and then a
      digit string to a text appends just those digits. */
  lemma PunctuationThenDigits(t: string, p: string, x: string)
    requires DigitsOf(p) == ""
    requires AllDigits(x)
    ensures DigitsOf(t + p + x) == DigitsOf(t) + x
  {
    DigitsOfAllDigits(x);
    DigitsOfAppend(t, p);
    DigitsOfAppend(t + p, x);
  }

  /** The two shorter branches never change anything: with 3 to 5 digits the
      six-digit pattern cannot match, and with 6 to 9 digits the ten-digit
      pattern cannot match. */
  lemma ShortBranchesAreInert(v: string)
    requires AllDigits(v)
    ensures 3 <= |v| < 6 ==> ReplaceSixDigitRun(v) == v
    ensures 6 <= |v| < 10 ==> ReplaceTenDigitRun(v) == v
  {
    FirstDigitRunOfDigits(v, 6);
    FirstDigitRunOfDigits(v, 10);
  }

  /** Re-running the handler on its own output changes nothing, and the
      output's digits are the input's digits. */
  lemma FormatPhoneIdempotent(raw: string)
    ensures FormatPhone(FormatPhone(raw)) == FormatPhone(raw)
    ensures DigitsOf(FormatPhone(raw)) == DigitsOf(raw)
  {
    var r := FormatPhone(raw);
    var d := DigitsOf(raw);
    DigitsOfAllDigits(d);
    assert DigitsOf(r) == d;
  }

  /** Ten typed digits give the full layout. */
  lemma PhoneTenDigitsExample(typed: string)
    requires typed == "5551234567"
    ensures FormatPhone(typed) == "(555) 123-4567"
  {
    assert DigitsOf(typed) == typed by {
      DigitsOfAllDigits(typed);
    }
    assert TenDigitLayout(typed) == "(555) 123-4567" by {
      assert typed[..3] == "555" && typed[3..6] == "123" && typed[6..10] == "4567" && typed[10..] == "";
    }
  }

  // =====================================================================
  // E-mail pattern /^[^\s@]+@[^\s@]+\.[^\s@]+$/

  /** One `[^\s@]+` piece of the pattern: non-empty, no whitespace, no `@`. */
  predicate IsEmailAtom(t: string) {
    |t| > 0 && forall k | 0 <= k < |t| :: !IsWhitespace(t[k]) && t[k] != '@'
  }

  /** `s` splits as `local@domain.tld` with the `@` at `i` and the `.` at `j`. */
  predicate EmailSplit(s: string, i: int, j: int) {
    && 0 < i < j < |s|
    && s[i] == '@' && s[j] == '.'
    && IsEmailAtom(s[..i]) && IsEmailAtom(s[i + 1..j]) && IsEmailAtom(s[j + 1..])
  }

  /** The pattern read as a decomposition into three atoms around `@` and `.`. */
  ghost predicate MatchesEmailPattern(s: string) {
    exists i, j :: EmailSplit(s, i, j)
  }

  /** The first position of `c` in `s`, if any. */
  function IndexOf(s: string, c: char): (r: Option<nat>)
    ensures r.Some? ==> r.value < |s| && s[r.value] == c
    ensures r.Some? ==> forall k | 0 <= k < r.value :: s[k] != c
    ensures r.None? ==> forall k | 0 <= k < |s| :: s[k] != c
  {
    if |s| == 0 then None
    else if s[0] == c then Some(0)
    else match IndexOf(s[1..], c)
      case None => None
      case Some(i) => Some(i + 1)
  }

  /** `isValidEmail`, evaluated the way a reader checks it: no whitespace, an
      `@` that is not the first character and is the only one, and a `.`
      after it with at least one character on each side. */
  predicate IsValidEmail(s: string)
    ensures IsValidEmail(s) ==> |s| >= 5 && s[0] != '@' && s[|s| - 1] != '@'
  {
    && NoWhitespace(s)
    && match IndexOf(s, '@')
       case None => false
       case Some(i) =>
         && 0 < i
         && (forall k | i < k < |s| :: s[k] != '@')
         && exists j | i + 1 < j < |s| - 1 :: s[j] == '.'
  }

  lemma ValidEmailSplits(s: string)
    requires IsValidEmail(s)
    ensures MatchesEmailPattern(s)
  {
    var i := IndexOf(s, '@').value;
    var j :| i + 1 < j < |s| - 1 && s[j] == '.';
    assert EmailSplit(s, i, j);
  }

  lemma SplitIsValidEmail(s: string, i: int, j: int)
    requires EmailSplit(s, i, j)
    ensures IsValidEmail(s)
  {
    forall k | 0 <= k < |s|
      ensures !IsWhitespace(s[k]) && (k != i ==> s[k] != '@')
    {
      if k < i {
        assert s[k] == s[..i][k];
      } else if i < k < j {
        assert s[k] == s[i + 1..j][k - i - 1];
      } else if j < k {
        assert s[k] == s[j + 1..][k - j - 1];
      }
    }
    assert IndexOf(s, '@') == Some(i);
  }

  /** The evaluation agrees with the pattern on every string. */
  lemma EmailMatchesPattern(s: string)
    ensures IsValidEmail(s) <==> MatchesEmailPattern(s)
  {
    if IsValidEmail(s) {
      ValidEmailSplits(s);
    }
    if MatchesEmailPattern(s) {
      var i, j :| EmailSplit(s, i, j);
      SplitIsValidEmail(s, i, j);
    }
  }

  /** What acceptance amounts to: no whitespace, exactly one `@`, something
      before it, and a `.` after it with a character on either side. In
      particular a string without `@`, or with two, is rejected. */
  lemma EmailAcceptanceConditions(s: string)
    ensures IsValidEmail(s) <==>
      && NoWhitespace(s)
      && exists i | 0 < i < |s| ::
        && s[i] == '@'
        && (forall k | 0 <= k < |s| && k != i :: s[k] != '@')
        && (exists j | i + 1 < j < |s| - 1 :: s[j] == '.')
    ensures (forall k | 0 <= k < |s| :: s[k] != '@') ==> !IsValidEmail(s)
  {
    if NoWhitespace(s) {
      if i :| 0 < i < |s| && s[i] == '@' && (forall k | 0 <= k < |s| && k != i :: s[k] != '@')
             && (exists j | i + 1 < j < |s| - 1 :: s[j] == '.') {
        assert IndexOf(s, '@') == Some(i);
      }
    }
  }

  // =====================================================================
  // Fields and validation

  /** An `input`, `select` or `textarea` of the form, with the text of its
      error element. `inputType` is the element's `type` property. */
  datatype Field = Field(
    name: string,
    id: string,
    inputType: string,
    value: string,
    defaultValue: string,
    required: bool,
    error: Option<string>)

  const RequiredMessage := "This field is required"
  const EmailMessage := "Please enter a valid email address"

  /** `showFieldError`: the old error element goes, the new one takes its place. */
  function ShowFieldError(f: Field, message: string): Field {
    f.(error := Some(message))
  }

  /** `clearFieldError` (and `showFieldSuccess`, which only adds a colour). */
  function ClearFieldError(f: Field): Field {
    f.(error := None)
  }

  /** `form.querySelector('#id')`: the first field, in document order, with that id. */
  function FirstWithId(fields: seq<Field>, id: string): (r: Option<nat>)
    ensures r.Some? ==> r.value < |fields| && fields[r.value].id == id
    ensures r.Some? ==> forall k | 0 <= k < r.value :: fields[k].id != id
    ensures r.None? ==> forall k | 0 <= k < |fields| :: fields[k].id != id
  {
    if |fields| == 0 then None
    else if fields[0].id == id then Some(0)
    else match FirstWithId(fields[1..], id)
      case None => None
      case Some(k) => Some(k + 1)
  }

  /** A required field whose value trims to nothing. */
  predicate RequiredMissing(f: Field) {
    f.required && IsBlank(f.value)
  }

  /** `email.value && !isValidEmail(email.value)`. */
  predicate EmailRejected(f: Field) {
    |f.value| > 0 && !IsValidEmail(f.value)
  }

  /** The `#email` field exists and its non-empty value fails the pattern. */
  predicate EmailFieldRejected(fields: seq<Field>) {
    match FirstWithId(fields, "email")
    case None => false
    case Some(k) => EmailRejected(fields[k])
  }

  /** Is field `k` the `#email` field the extra check looks at? */
  predicate IsEmailField(fields: seq<Field>, k: nat) {
    FirstWithId(fields, "email") == Some(k)
  }

  /** Whether every required field is present, accumulated as the `forEach`
      over `[required]` does. */
  function AllRequiredPresent(fields: seq<Field>): (ok: bool)
    ensures ok <==> forall k | 0 <= k < |fields| :: !RequiredMissing(fields[k])
  {
    if |fields| == 0 then true
    else !RequiredMissing(fields[0]) && AllRequiredPresent(fields[1..])
  }

  datatype Validation = Validation(fields: seq<Field>, ok: bool)

  /** A field after both passes of `validateForm`: the e-mail pass runs
      second, so its message replaces a required-field message on the same
      field. `isEmail` says whether `f` is the `#email` field. */
  function Checked(f: Field, isEmail: bool): (r: Field)
    ensures r == f.(error := r.error)
    ensures isEmail && EmailRejected(f) ==> r.error == Some(EmailMessage)
    ensures !(isEmail && EmailRejected(f)) && RequiredMissing(f) ==> r.error == Some(RequiredMessage)
    ensures !(isEmail && EmailRejected(f)) && !RequiredMissing(f) ==> r == f
  {
    if isEmail && EmailRejected(f) then ShowFieldError(f, EmailMessage)
    else if RequiredMissing(f) then ShowFieldError(f, RequiredMessage)
    else f
  }

  /** `validateForm`: flag every blank required field, then flag a non-empty
      invalid `#email`, and report whether nothing was flagged. Only error
      slots change, and only on flagged fields. */
  function ValidateForm(fields: seq<Field>): (v: Validation)
    ensures |v.fields| == |fields|
    ensures v.ok <==>
      (forall k | 0 <= k < |fields| :: !RequiredMissing(fields[k])) && !EmailFieldRejected(fields)
    ensures forall k | 0 <= k < |fields| :: v.fields[k] == fields[k].(error := v.fields[k].error)
    ensures forall k | 0 <= k < |fields| && RequiredMissing(fields[k]) && !(IsEmailField(fields, k) && EmailRejected(fields[k])) ::
      v.fields[k].error == Some(RequiredMessage)
    ensures forall k | 0 <= k < |fields| && IsEmailField(fields, k) && EmailRejected(fields[k]) ::
      v.fields[k].error == Some(EmailMessage)
    ensures forall k | 0 <= k < |fields| && !RequiredMissing(fields[k]) && !(IsEmailField(fields, k) && EmailRejected(fields[k])) ::
      v.fields[k] == fields[k]
  {
    var email := FirstWithId(fields, "email");
    var checked := seq(|fields|, k requires 0 <= k < |fields| => Checked(fields[k], email == Some(k)));
    var emailBad := email.Some? && EmailRejected(fields[email.value]);
    Validation(checked, AllRequiredPresent(fields) && !emailBad)
  }

  /** The e-mail message is never put on an empty value, and a field gains it
      only when it is the `#email` field holding a non-empty invalid value. */
  lemma EmailMessageOnlyForNonEmptyInvalid(fields: seq<Field>, k: nat)
    requires k < |fields|
    requires ValidateForm(fields).fields[k].error == Some(EmailMessage)
    requires fields[k].error != Some(EmailMessage)
    ensures IsEmailField(fields, k) && |fields[k].value| > 0 && !IsValidEmail(fields[k].value)
  {
  }

  /** A blank required field with an empty value always ends up with exactly
      the required-field message; only a whitespace-only `#email` value can
      have it replaced by the e-mail message, because that value is non-empty. */
  lemma BlankRequiredMessage(fields: seq<Field>, k: nat)
    requires k < |fields| && RequiredMissing(fields[k])
    ensures fields[k].value == "" ==> ValidateForm(fields).fields[k].error == Some(RequiredMessage)
    ensures !IsEmailField(fields, k) ==> ValidateForm(fields).fields[k].error == Some(RequiredMessage)
    ensures IsEmailField(fields, k) && fields[k].value != "" ==> ValidateForm(fields).fields[k].error == Some(EmailMessage)
  {
    TrimCharacterisation(fields[k].value);
    if fields[k].value != "" {
      assert !IsValidEmail(fields[k].value) by {
        assert IsWhitespace(fields[k].value[0]);
      }
    }
  }

  /** The scenario of an empty required name and a malformed e-mail: both
      fields are flagged with their literal messages and the form is invalid. */
  lemma ValidationScenario(name: Field, email: Field)
    requires name.id == "name" && name.required && name.value == ""
    requires email.id == "email" && email.value == "bad-email"
    ensures var v := ValidateForm([name, email]);
      && !v.ok
      && v.fields[0].error == Some(RequiredMessage)
      && v.fields[1].error == Some(EmailMessage)
  {
    var fields := [name, email];
    assert FirstWithId(fields, "email") == Some(1) by {
      assert fields[1..] == [email];
    }
    assert EmailRejected(email) by {
      assert forall k | 0 <= k < |email.value| :: email.value[k] != '@';
      EmailAcceptanceConditions(email.value);
    }
    assert RequiredMissing(name) && !IsEmailField(fields, 0);
  }

  // =====================================================================
  // Draft persistence

  /** The browser's `localStorage`, injected. */
  type Store = map<string, string>

  const DraftPrefix := "contact_"

  /** The storage key of a field's draft. */
  function DraftKey(name: string): string {
    DraftPrefix + name
  }

  /** Different field names never share a draft key. */
  lemma DraftKeyInjective(a: string, b: string)
    requires DraftKey(a) == DraftKey(b)
    ensures a == b
  {
    assert a == DraftKey(a)[|DraftPrefix|..];
    assert b == DraftKey(b)[|DraftPrefix|..];
  }

  predicate IsSubmitControl(f: Field) {
    f.inputType == "submit"
  }

  /** The persistence `input` handler: write the current value under the
      field's key, unless the field is a submit control. */
  function SaveDraft(store: Store, f: Field): (r: Store)
    ensures IsSubmitControl(f) ==> r == store
    ensures !IsSubmitControl(f) ==> DraftKey(f.name) in r && r[DraftKey(f.name)] == f.value
    ensures forall key | key != DraftKey(f.name) :: (key in r <==> key in store)
    ensures forall key | key in r && key != DraftKey(f.name) :: r[key] == store[key]
  {
    if IsSubmitControl(f) then store else store[DraftKey(f.name) := f.value]
  }

  /** The load step for one field: a saved, non-empty value replaces the
      field's value; submit controls are skipped. */
  function RestoreField(store: Store, f: Field): (r: Field)
    ensures r == f.(value := r.value)
    ensures r.value != f.value ==> !IsSubmitControl(f) && DraftKey(f.name) in store && store[DraftKey(f.name)] == r.value
    ensures !IsSubmitControl(f) && DraftKey(f.name) in store && store[DraftKey(f.name)] != "" ==> r.value == store[DraftKey(f.name)]
  {
    var key := DraftKey(f.name);
    if key in store && store[key] != "" && !IsSubmitControl(f) then f.(value := store[key]) else f
  }

  function RestoreDrafts(fields: seq<Field>, store: Store): (r: seq<Field>)
    ensures |r| == |fields|
    ensures forall k | 0 <= k < |fields| :: r[k] == RestoreField(store, fields[k])
  {
    seq(|fields|, k requires 0 <= k < |fields| => RestoreField(store, fields[k]))
  }

  /** `clearFormPersistence`: remove the key of every non-submit field. */
  function ClearDrafts(store: Store, fields: seq<Field>): (r: Store)
    ensures forall k | 0 <= k < |fields| && !IsSubmitControl(fields[k]) :: DraftKey(fields[k].name) !in r
    ensures forall key | key in r :: key in store && r[key] == store[key]
    ensures forall key | key in store && (forall k | 0 <= k < |fields| :: IsSubmitControl(fields[k]) || DraftKey(fields[k].name) != key) ::
      key in r
  {
    if |fields| == 0 then store
    else
      var rest := ClearDrafts(store, fields[1..]);
      if IsSubmitControl(fields[0]) then rest else rest - {DraftKey(fields[0].name)}
  }

  /** Clearing the drafts looks only at the fields' names and types, so
      resetting the values first does not change which keys go. */
  lemma ClearDraftsReadsNames(store: Store, fields: seq<Field>, others: seq<Field>)
    requires |fields| == |others|
    requires forall k | 0 <= k < |fields| ::
      fields[k].name == others[k].name && IsSubmitControl(fields[k]) == IsSubmitControl(others[k])
    ensures ClearDrafts(store, fields) == ClearDrafts(store, others)
  {
  }

  /** A non-empty value written by the input handler is what a reload puts
      back into a field of the same name. */
  lemma DraftRoundTrip(store: Store, written: Field, reloaded: Field)
    requires !IsSubmitControl(written) && !IsSubmitControl(reloaded)
    requires written.name == reloaded.name && written.value != ""
    ensures RestoreField(SaveDraft(store, written), reloaded).value == written.value
  {
  }

  /** Once the drafts of a form are cleared, a reload restores nothing. */
  lemma ClearedDraftsRestoreNothing(store: Store, fields: seq<Field>)
    ensures RestoreDrafts(fields, ClearDrafts(store, fields)) == fields
  {
  }

  /** Submit controls are never written or restored. */
  lemma SubmitControlsUntouched(store: Store, f: Field)
    requires IsSubmitControl(f)
    ensures SaveDraft(store, f) == store
    ensures RestoreField(store, f) == f
  {
  }

  // =====================================================================
  // Events and submission

  /** The submit button: its text and whether it is disabled. */
  datatype Button = Button(text: string, disabled: bool)

  /** The form, its injected draft store, its submit button and the button
      text captured when the form was set up. */
  datatype ContactState = ContactState(fields: seq<Field>, store: Store, button: Button, originalText: string)

  /** The `input` event on field `k` with new text `raw`. `browserMessage` is
      the browser's constraint-validation verdict on the value: `None` when
      `checkValidity()` passes, otherwise the `validationMessage` that the
      `invalid` listener shows. Listeners run in registration order: error
      handling, then phone formatting (only on `#phone`), then the draft write. */
  function OnInput(st: ContactState, k: nat, raw: string, browserMessage: Option<string>): (r: ContactState)
    requires k < |st.fields|
    ensures |r.fields| == |st.fields|
    ensures forall j | 0 <= j < |st.fields| && j != k :: r.fields[j] == st.fields[j]
    ensures r.fields[k].error == browserMessage
    ensures FirstWithId(st.fields, "phone") == Some(k) ==> r.fields[k].value == FormatPhone(raw)
    ensures FirstWithId(st.fields, "phone") != Some(k) ==> r.fields[k].value == raw
    ensures r.fields[k] == st.fields[k].(value := r.fields[k].value, error := browserMessage)
    ensures !IsSubmitControl(st.fields[k]) ==>
      && DraftKey(st.fields[k].name) in r.store
      && r.store[DraftKey(st.fields[k].name)] == r.fields[k].value
    ensures IsSubmitControl(st.fields[k]) ==> r.store == st.store
    ensures forall key | key != DraftKey(st.fields[k].name) ::
      (key in r.store <==> key in st.store) && (key in r.store ==> r.store[key] == st.store[key])
    ensures r.button == st.button && r.originalText == st.originalText
  {
    var typed := st.fields[k].(value := raw);
    var checked := match browserMessage
      case None => ClearFieldError(typed)
      case Some(m) => ShowFieldError(ClearFieldError(typed), m);
    var formatted := if FirstWithId(st.fields, "phone") == Some(k) then checked.(value := FormatPhone(raw)) else checked;
    st.(fields := st.fields[k := formatted], store := SaveDraft(st.store, formatted))
  }

  /** The `blur` handler on `#email`: a non-empty invalid value gets the
      e-mail message; anything else is left as it is. */
  function OnEmailBlur(st: ContactState): (r: ContactState)
    ensures |r.fields| == |st.fields| && r.store == st.store && r.button == st.button
    ensures r.originalText == st.originalText
    ensures forall k | 0 <= k < |st.fields| && !(IsEmailField(st.fields, k) && EmailRejected(st.fields[k])) ::
      r.fields[k] == st.fields[k]
    ensures forall k | 0 <= k < |st.fields| && IsEmailField(st.fields, k) && EmailRejected(st.fields[k]) ::
      r.fields[k] == st.fields[k].(error := Some(EmailMessage))
  {
    match FirstWithId(st.fields, "email")
    case None => st
    case Some(k) =>
      if EmailRejected(st.fields[k]) then st.(fields := st.fields[k := ShowFieldError(st.fields[k], EmailMessage)])
      else st
  }

  const SendingText := "Sending..."

  /** `setLoadingState`. */
  function SetLoadingState(st: ContactState, loading: bool): (r: ContactState)
    ensures r.fields == st.fields && r.store == st.store && r.originalText == st.originalText
    ensures r.button.disabled <==> loading
    ensures r.button.text == (if loading then SendingText else st.originalText)
  {
    if loading then st.(button := Button(SendingText, true))
    else st.(button := Button(st.originalText, false))
  }

  /** `form.reset()`: every field back to its default value. Error elements are
      not part of the reset. */
  function ResetFields(fields: seq<Field>): (r: seq<Field>)
    ensures |r| == |fields|
    ensures forall k | 0 <= k < |fields| :: r[k] == fields[k].(value := fields[k].defaultValue)
  {
    seq(|fields|, k requires 0 <= k < |fields| => fields[k].(value := fields[k].defaultValue))
  }

  /** What the transport (`form.submit()`) did: returned, or threw an error
      with a message. */
  datatype Transport = Delivered | Failed(message: string)

  /** The inline banner inserted above the form. */
  datatype Banner = SuccessBanner | ErrorBanner(detail: string)

  /** Everything one submit event produces: the state afterwards, whether the
      transport was called, the button as it looked while the transport ran,
      and the banners and toasts shown. */
  datatype SubmitReport = SubmitReport(
    after: ContactState,
    transportCalled: bool,
    busyButton: Option<Button>,
    banners: seq<Banner>,
    toasts: seq<Notify.Notification>)

  const SentToast := "Message sent successfully!"
  const FailedToast := "Failed to send message. Please try again."

  /** The `submit` handler: validate and stop on failure; otherwise enter the
      loading state, call the transport, on success show the banner and toast,
      reset the form and clear the drafts, on failure show the error banner
      and toast, and in both cases leave the loading state. */
  function OnSubmit(st: ContactState, transport: Transport): (r: SubmitReport)
    ensures var v := ValidateForm(st.fields);
      && (r.transportCalled <==> v.ok)
      && (!v.ok ==> r == SubmitReport(st.(fields := v.fields), false, None, [], []))
    ensures r.transportCalled ==> r.busyButton == Some(Button(SendingText, true))
    ensures r.transportCalled ==> r.after.button == Button(st.originalText, false)
    ensures transport.Failed? ==> r.after.store == st.store
    ensures r.transportCalled && transport.Delivered? ==>
      forall k | 0 <= k < |st.fields| && !IsSubmitControl(st.fields[k]) :: DraftKey(st.fields[k].name) !in r.after.store
    ensures r.transportCalled && transport.Delivered? ==>
      && |r.after.fields| == |st.fields|
      && forall k | 0 <= k < |st.fields| :: r.after.fields[k].value == st.fields[k].defaultValue
    ensures r.transportCalled && transport.Failed? ==> r.after.fields == st.fields
    ensures r.transportCalled && transport.Delivered? ==> r.after.fields == ResetFields(st.fields)
    ensures r.transportCalled && transport.Delivered? ==> r.after.store == ClearDrafts(st.store, st.fields)
    ensures r.transportCalled && transport.Delivered? ==>
      r.banners == [SuccessBanner] && r.toasts == [Notify.ShowNotification(SentToast, Some("success"))]
    ensures r.transportCalled && transport.Failed? ==>
      r.banners == [ErrorBanner(transport.message)] && r.toasts == [Notify.ShowNotification(FailedToast, Some("error"))]
  {
    var v := ValidateForm(st.fields);
    if !v.ok then SubmitReport(st.(fields := v.fields), false, None, [], [])
    else
      var loading := SetLoadingState(st, true);
      var (settled, banners, toasts) := match transport
        case Delivered =>
          // `resetForm()` then `clearFormPersistence()`; the keys cleared
          // depend only on names and types, which the reset keeps
          // (`ClearDraftsReadsNames`).
          var reset := loading.(fields := ResetFields(loading.fields));
          (reset.(store := ClearDrafts(loading.store, loading.fields)),
           [SuccessBanner], [Notify.ShowNotification(SentToast, Some("success"))])
        case Failed(m) =>
          (loading, [ErrorBanner(m)], [Notify.ShowNotification(FailedToast, Some("error"))]);
      SubmitReport(SetLoadingState(settled, false), true, Some(loading.button), banners, toasts)
  }

  /** A form that passed validation and was delivered leaves no draft behind:
      a reload after a successful submit restores nothing, whatever was typed
      before. */
  lemma SuccessfulSubmitForgetsDrafts(st: ContactState)
    requires ValidateForm(st.fields).ok
    ensures var after := OnSubmit(st, Delivered).after;
      RestoreDrafts(after.fields, after.store) == after.fields
  {
    var after := OnSubmit(st, Delivered).after;
    forall k | 0 <= k < |after.fields|
      ensures RestoreField(after.store, after.fields[k]) == after.fields[k]
    {
      assert after.fields[k].name == st.fields[k].name;
      assert after.fields[k].inputType == st.fields[k].inputType;
    }
  }

  /** The button is idle (original text, enabled) before and after every
      submit, whichever way the submit went. */
  lemma SubmitKeepsButtonIdle(st: ContactState, transport: Transport)
    requires st.button == Button(st.originalText, false)
    ensures OnSubmit(st, transport).after.button == Button(st.originalText, false)
    ensures OnSubmit(st, transport).after.originalText == st.originalText
  {
  }
}
