/** `CourseComparison` of courses.js: up to three courses, identified by
    their titles, collected in a floating panel, and the feature values read
    from a card for the comparison table. */
module CourseCompare {
  import opened Wrappers
  import opened Text
  import opened Sequences
  import Notify
  import CourseFilter

  const MaxCompare: nat := 3

  /** An entry of `compareList`: the title that identifies it and the card it
      came from. */
  datatype CompareItem = CompareItem(id: string, element: CourseFilter.Card)

  /** The floating panel: shown or slid away, the titles it lists, and
      whether its "Compare Selected" button is displayed. */
  datatype Panel = Panel(visible: bool, entries: seq<string>, actionShown: bool)

  datatype Comparison = Comparison(list: seq<CompareItem>, panel: Panel)

  /** The look of a card's compare button. */
  datatype ButtonColour = SecondaryColour | ErrorColour
  datatype ButtonLook = ButtonLook(text: string, background: ButtonColour)

  /** What one click on a card's compare button does: the new comparison,
      the new look of the button and the new `comparing` class of the card
      (`None` when left alone), and the warning toast if any. */
  datatype Click = Click(after: Comparison, look: Option<ButtonLook>, comparing: Option<bool>, toast: Option<Notify.Notification>)

  /** The panel as `createComparePanel` builds it. */
  const InitialPanel := Panel(false, [], false)

  const LimitWarning := "You can only compare up to " + NatToDecimal(MaxCompare) + " courses"

  /** The titles of the list, in order. */
  function Ids(list: seq<CompareItem>): (r: seq<string>)
    ensures |r| == |list|
    ensures forall i | 0 <= i < |list| :: r[i] == list[i].id
  {
    seq(|list|, i requires 0 <= i < |list| => list[i].id)
  }

  /** No title is listed twice. */
  predicate DistinctIds(list: seq<CompareItem>) {
    Distinct(Ids(list))
  }

  /** The comparison state every click keeps. */
  predicate Valid(list: seq<CompareItem>) {
    DistinctIds(list) && |list| <= MaxCompare
  }

  /** `findIndex(item => item.id === id)`. */
  function FindIndex(list: seq<CompareItem>, id: string): (r: Option<nat>)
    ensures r.None? <==> id !in Ids(list)
    ensures r.Some? ==> r.value < |list| && list[r.value].id == id
    ensures r.Some? ==> forall k | 0 <= k < r.value :: list[k].id != id
  {
    if |list| == 0 then None
    else if list[0].id == id then Some(0)
    else
      var r := FindIndex(list[1..], id);
      assert Ids(list) == [list[0].id] + Ids(list[1..]);
      if r.None? then None else Some(r.value + 1)
  }

  /** `updateComparePanel`: an empty list only slides the panel away, leaving
      its list and button as they were; otherwise the panel lists every title
      and shows its button for two or more courses. */
  function UpdatePanel(p: Panel, list: seq<CompareItem>): (q: Panel)
    ensures q.visible <==> |list| > 0
    ensures |list| == 0 ==> q.entries == p.entries && q.actionShown == p.actionShown
    ensures |list| > 0 ==> q.entries == Ids(list) && (q.actionShown <==> |list| >= 2)
  {
    if |list| == 0 then p.(visible := false)
    else Panel(true, Ids(list), |list| >= 2)
  }

  /** `toggleCompare(card, button)` for a card whose title is `id`. */
  function ToggleCompare(c: Comparison, id: string, card: CourseFilter.Card): (k: Click)
    ensures id in Ids(c.list) ==>
      && (exists i | 0 <= i < |c.list| :: c.list[i].id == id && k.after.list == RemoveAt(c.list, i))
      && k.look == Some(ButtonLook("Compare", SecondaryColour))
      && k.comparing == Some(false) && k.toast.None?
    ensures id !in Ids(c.list) && |c.list| >= MaxCompare ==>
      && k.after == c && k.look.None? && k.comparing.None?
      && k.toast == Some(Notify.ShowNotification(LimitWarning, Some("warning")))
    ensures id !in Ids(c.list) && |c.list| < MaxCompare ==>
      && k.after.list == c.list + [CompareItem(id, card)]
      && k.look == Some(ButtonLook("Remove", ErrorColour))
      && k.comparing == Some(true) && k.toast.None?
    ensures k.toast.None? ==> k.after.panel == UpdatePanel(c.panel, k.after.list)
  {
    match FindIndex(c.list, id)
    case Some(i) =>
      var list := RemoveAt(c.list, i);
      Click(Comparison(list, UpdatePanel(c.panel, list)), Some(ButtonLook("Compare", SecondaryColour)), Some(false), None)
    case None =>
      if |c.list| >= MaxCompare then
        Click(c, None, None, Some(Notify.ShowNotification(LimitWarning, Some("warning"))))
      else
        var list := c.list + [CompareItem(id, card)];
        Click(Comparison(list, UpdatePanel(c.panel, list)), Some(ButtonLook("Remove", ErrorColour)), Some(true), None)
  }

  /** Removing an item removes its title from the titles. */
  lemma RemoveAtIds(list: seq<CompareItem>, i: nat)
    requires i < |list|
    ensures Ids(RemoveAt(list, i)) == RemoveAt(Ids(list), i)
  {
  }

  /** Removing the item at `i` from a list with distinct titles drops that
      title and keeps every other. */
  lemma RemoveAtKeepsDistinct(list: seq<CompareItem>, i: nat)
    requires DistinctIds(list) && i < |list|
    ensures var after := RemoveAt(list, i);
      && DistinctIds(after)
      && list[i].id !in Ids(after)
      && forall other | other != list[i].id :: (other in Ids(after) <==> other in Ids(list))
  {
    RemoveAtIds(list, i);
    RemoveAtMembers(Ids(list), i);
    RemoveAtDistinct(Ids(list), i);
  }

  /** Every click keeps the titles distinct and the list at most three long,
      and flips the clicked title's membership unless the list is full. */
  lemma ToggleKeepsValid(c: Comparison, id: string, card: CourseFilter.Card)
    requires Valid(c.list)
    ensures var after := ToggleCompare(c, id, card).after.list;
      && Valid(after)
      && (id in Ids(c.list) ==> id !in Ids(after))
      && (id !in Ids(c.list) && |c.list| < MaxCompare ==> id in Ids(after))
      && (id !in Ids(c.list) && |c.list| >= MaxCompare ==> after == c.list)
      && forall other | other != id :: (other in Ids(after) <==> other in Ids(c.list))
  {
    var after := ToggleCompare(c, id, card).after.list;
    match FindIndex(c.list, id)
    case Some(i) =>
      RemoveAtKeepsDistinct(c.list, i);
    case None =>
      if |c.list| < MaxCompare {
        assert Ids(after) == Ids(c.list) + [id];
      }
  }

  /** Adding a course and removing it again gives back the list. */
  lemma AddThenRemove(c: Comparison, id: string, card: CourseFilter.Card)
    requires id !in Ids(c.list) && |c.list| < MaxCompare
    ensures ToggleCompare(ToggleCompare(c, id, card).after, id, card).after.list == c.list
  {
    var mid := ToggleCompare(c, id, card).after;
    assert mid.list == c.list + [CompareItem(id, card)];
    assert Ids(mid.list)[|c.list|] == id;
    var i := FindIndex(mid.list, id).value;
    assert RemoveAt(mid.list, i) == c.list;
  }

  /** The panel after any click shows the titles of a non-empty list, with
      the action button for two or more; after the last course is removed the
      panel is hidden but still lists that course. */
  lemma PanelAfterLastRemoval(c: Comparison, id: string, card: CourseFilter.Card)
    requires |c.list| == 1 && c.list[0].id == id
    requires c.panel == UpdatePanel(InitialPanel, c.list)
    ensures var p := ToggleCompare(c, id, card).after.panel;
      !p.visible && p.entries == [id] && !p.actionShown
  {
  }

  /** The fourth distinct course is refused with the warning and changes
      nothing. */
  lemma FourthCourseRefused(c: Comparison, id: string, card: CourseFilter.Card)
    requires Valid(c.list) && |c.list| == MaxCompare && id !in Ids(c.list)
    ensures var k := ToggleCompare(c, id, card);
      && k.after == c
      && k.toast.Some? && k.toast.value.message == LimitWarning && k.toast.value.kind == "warning"
  {
  }

  /** The comparison table's rows. */
  datatype Feature = Duration | Students | Price | Category | Other(name: string)

  /** `x?.textContent || 'N/A'`: the text if there is one and it is not
      empty. */
  function OrNotAvailable(t: Option<string>): (r: string)
    ensures t.Some? && t.value != "" ==> r == t.value
    ensures t.None? || t.value == "" ==> r == "N/A"
  {
    if t.Some? && t.value != "" then t.value else "N/A"
  }

  function DetailAt(card: CourseFilter.Card, i: nat): Option<string> {
    if i < |card.details| then Some(card.details[i]) else None
  }

  /** The card has no text for the feature: the element is missing or
      empty. */
  predicate Lacks(card: CourseFilter.Card, f: Feature) {
    match f
    case Duration => |card.details| == 0 || card.details[0] == ""
    case Students => |card.details| <= 1 || card.details[1] == ""
    case Price => |card.details| <= 2 || card.details[2] == ""
    case Category => card.categoryLabel.None? || card.categoryLabel.value == ""
    case Other(_) => true
  }

  /** `extractFeatureValue(card, feature)`. */
  function ExtractFeatureValue(card: CourseFilter.Card, f: Feature): (v: string)
    ensures v != ""
    ensures f.Duration? && |card.details| > 0 && card.details[0] != "" ==> v == card.details[0]
    ensures f.Students? && |card.details| > 1 && card.details[1] != "" ==> v == card.details[1]
    ensures f.Price? && |card.details| > 2 && card.details[2] != "" ==> v == card.details[2]
    ensures f.Category? && card.categoryLabel.Some? && card.categoryLabel.value != "" ==> v == card.categoryLabel.value
    ensures f.Other? ==> v == "N/A"
    ensures Lacks(card, f) ==> v == "N/A"
  {
    match f
    case Duration => OrNotAvailable(DetailAt(card, 0))
    case Students => OrNotAvailable(DetailAt(card, 1))
    case Price => OrNotAvailable(DetailAt(card, 2))
    case Category => OrNotAvailable(card.categoryLabel)
    case Other(_) => "N/A"
  }

  /** No text the card shows for the table's features reads "N/A" itself. */
  predicate NoLiteralNotAvailable(card: CourseFilter.Card) {
    && (forall i | 0 <= i < |card.details| :: card.details[i] != "N/A")
    && card.categoryLabel != Some("N/A")
  }

  /** A table cell reads "N/A" exactly when the card lacks the value. */
  lemma NotAvailableExactlyWhenMissing(card: CourseFilter.Card, f: Feature)
    requires !f.Other?
    requires NoLiteralNotAvailable(card)
    ensures ExtractFeatureValue(card, f) == "N/A" <==> Lacks(card, f)
  {
  }

  const Features := [Duration, Students, Price, Category]

  function FeatureName(f: Feature): string {
    match f
    case Duration => "Duration"
    case Students => "Students"
    case Price => "Price"
    case Category => "Category"
    case Other(name) => name
  }

  /** The comparison table: a header row and, for each feature, its name and
      one cell per compared course. */
  datatype Table = Table(header: seq<string>, rows: seq<(string, seq<string>)>)

  /** `generateComparisonTable()`, as the cells it lays out. */
  function ComparisonTable(list: seq<CompareItem>): (t: Table)
    ensures t.header == ["Feature"] + Ids(list)
    ensures |t.rows| == |Features|
    ensures forall r | 0 <= r < |Features| ::
      && t.rows[r].0 == FeatureName(Features[r])
      && |t.rows[r].1| == |list|
      && forall j | 0 <= j < |list| :: t.rows[r].1[j] == ExtractFeatureValue(list[j].element, Features[r])
  {
    Table(["Feature"] + Ids(list),
      seq(|Features|, r requires 0 <= r < |Features| =>
        (FeatureName(Features[r]),
         seq(|list|, j requires 0 <= j < |list| => ExtractFeatureValue(list[j].element, Features[r])))))
  }

  /** The table has the rows Duration, Students, Price and Category, one
      column per compared course after the "Feature" column, and a cell reads
      "N/A" exactly when its course lacks that feature. */
  lemma TableMarksMissingValues(list: seq<CompareItem>, r: nat, j: nat)
    requires r < |Features| && j < |list|
    requires NoLiteralNotAvailable(list[j].element)
    ensures |ComparisonTable(list).header| == |list| + 1
    ensures ComparisonTable(list).header[j + 1] == list[j].id
    ensures [ComparisonTable(list).rows[0].0, ComparisonTable(list).rows[1].0,
             ComparisonTable(list).rows[2].0, ComparisonTable(list).rows[3].0]
            == ["Duration", "Students", "Price", "Category"]
    ensures ComparisonTable(list).rows[r].1[j] == "N/A" <==> Lacks(list[j].element, Features[r])
  {
    var t := ComparisonTable(list);
    assert t.header == ["Feature"] + Ids(list);
    NotAvailableExactlyWhenMissing(list[j].element, Features[r]);
  }
}
