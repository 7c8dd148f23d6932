/** `ContactInfo` of contact.js: the open/closed badge computed from the day
    of the week and the hour, and which contact lines offer click-to-copy.
    The clock is a parameter; clipboard access and the map window are not
    modelled. */
module ContactInfo {
  import ContactForm
  import Text

  datatype Status = Open | Closed

  /** The colour variable painted behind the badge. */
  datatype BadgeColour = SuccessColour | ErrorColour

  /** The badge as `displayCurrentStatus` appends it. */
  datatype Badge = Badge(text: string, colour: BadgeColour)

  /** The week as a timetable: the opening hour and the closing hour of each
      day that opens at all (`getDay()` numbering, 0 = Sunday). */
  const Timetable: map<nat, (nat, nat)> :=
    map[1 := (8, 18), 2 := (8, 18), 3 := (8, 18), 4 := (8, 18), 5 := (8, 18), 6 := (9, 16)]

  /** The branch structure of `displayCurrentStatus`: Sunday, Saturday, and
      the other days. `day` and `hour` are what `getDay()` and `getHours()`
      return. The status agrees with the timetable: open exactly when the day
      opens and the hour lies in `[opening, closing)`. */
  function OfficeStatus(day: nat, hour: nat): (s: Status)
    requires day <= 6 && hour <= 23
    ensures s == Open <==> day in Timetable && Timetable[day].0 <= hour < Timetable[day].1
  {
    if day == 0 then Closed
    else if day == 6 then (if 9 <= hour < 16 then Open else Closed)
    else (if 8 <= hour < 18 then Open else Closed)
  }

  function StatusBadge(s: Status): (b: Badge)
    ensures b.text == "Open" <==> s == Open
    ensures b.text == "Closed" <==> s == Closed
    ensures b.colour == SuccessColour <==> s == Open
  {
    match s
    case Open => Badge("Open", SuccessColour)
    case Closed => Badge("Closed", ErrorColour)
  }

  /** Sunday is always closed, Saturday is open for seven hours and a weekday
      for ten, each as one unbroken stretch. */
  lemma OpeningStretches(day: nat)
    requires day <= 6
    ensures day == 0 ==> forall h | 0 <= h <= 23 :: OfficeStatus(day, h) == Closed
    ensures day == 6 ==> forall h | 0 <= h <= 23 :: OfficeStatus(day, h) == Open <==> 9 <= h < 16
    ensures 1 <= day <= 5 ==> forall h | 0 <= h <= 23 :: OfficeStatus(day, h) == Open <==> 8 <= h < 18
  {
  }

  /** A contact line offers click-to-copy when it contains `@` or `+`. */
  predicate CopyEligible(text: string) {
    '@' in text || '+' in text
  }

  /** The copied text is the trimmed line, and trimming never removes the
      `@` or `+` that made the line eligible: a line is eligible exactly when
      its trimmed text is. */
  lemma CopyEligibleSurvivesTrim(text: string)
    ensures CopyEligible(text) <==> CopyEligible(Text.Trim(text))
  {
    Text.TrimCharacterisation(text);
    var a, b :| 0 <= a <= b <= |text| && Text.Trim(text) == text[a..b]
      && Text.AllWhitespace(text[..a]) && Text.AllWhitespace(text[b..]);
    KeptByTrim(text, a, b, '@');
    KeptByTrim(text, a, b, '+');
  }

  /** A character that is not whitespace occurs in a text exactly when it
      occurs in the part left between two whitespace margins. */
  lemma KeptByTrim(text: string, a: nat, b: nat, c: char)
    requires a <= b <= |text|
    requires Text.AllWhitespace(text[..a]) && Text.AllWhitespace(text[b..])
    requires !Text.IsWhitespace(c)
    ensures c in text <==> c in text[a..b]
  {
    if c in text {
      var i :| 0 <= i < |text| && text[i] == c;
      if a <= i < b {
        assert text[a..b][i - a] == c;
      }
    }
    if c in text[a..b] {
      var j :| 0 <= j < b - a && text[a..b][j] == c;
      assert text[a + j] == c;
    }
  }

  /** Every line that passes the contact form's e-mail check offers copying. */
  lemma ValidEmailIsCopyEligible(text: string)
    requires ContactForm.IsValidEmail(text)
    ensures CopyEligible(text)
  {
    var i := ContactForm.IndexOf(text, '@').value;
    assert text[i] == '@';
  }
}
