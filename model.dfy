/**
 The registration form's state with the widgets stripped away: the three text boxes, the three
 gender radio buttons, the birthdate picker, the country drop-down list, the colour label, the
 photo box and the result label. Also the constants the form's handlers share.
 */
module FormModel {

  import opened Wrappers
  import opened DotNetString

  /** A `System.DateTime`, kept opaque as its tick count (100 ns units since 0001-01-01). */
  datatype DateTime = DateTime(ticks: int)

  /** An image shown in the photo box; decoding and encoding are not modelled. */
  datatype Image = Image(handle: nat)

  datatype Gender = Male | Female | Other

  const TicksPerDay: int := 864_000_000_000

  /** `DateTimePicker.MinimumDateTime`, 1753-01-01 (639,905 days after 0001-01-01). */
  const PickerMinDate: DateTime := DateTime(639_905 * TicksPerDay)

  /** `DateTimePicker.MaximumDateTime`, 9998-12-31 (3,651,693 days after 0001-01-01). */
  const PickerMaxDate: DateTime := DateTime(3_651_693 * TicksPerDay)

  /** The values the birthdate picker accepts; its `Value` setter throws on any other. */
  predicate InPickerRange(d: DateTime) {
    PickerMinDate.ticks <= d.ticks <= PickerMaxDate.ticks
  }

  /** The items of the country drop-down list. */
  const Countries: seq<string> := ["Yemen", "Egypt", "Oman", "Qatar", "Palestine", "Syria"]

  /** The colour label's text once a colour is picked is this prefix and the colour's name. */
  const ColorPrefix: string := "Selected Color: "

  /** The colour label's text while no colour is picked. */
  const NoColorSelected: string := "No Color Selected"

  datatype FormState = FormState(
    name: string,
    email: string,
    password: string,
    male: bool,
    female: bool,
    other: bool,
    birthdate: DateTime,
    country: Option<string>,
    colorLabel: string,
    photo: Option<Image>,
    result: string)

  predicate IsChecked(f: FormState, g: Gender) {
    match g
    case Male => f.male
    case Female => f.female
    case Other => f.other
  }

  /** The three radio buttons share one group box, so at most one is checked. */
  predicate AtMostOneChecked(f: FormState) {
    !(f.male && f.female) && !(f.male && f.other) && !(f.female && f.other)
  }

  /** What every reachable form state satisfies: one radio button at most, a country from the
      list (the drop-down list accepts no typed text) and a date the picker accepts. */
  predicate WellFormed(f: FormState) {
    && AtMostOneChecked(f)
    && (f.country.Some? ==> f.country.value in Countries)
    && InPickerRange(f.birthdate)
  }

  /** The checked radio button, if any (the handlers test Male, then Female, then Other). */
  function CheckedGender(f: FormState): (r: Option<Gender>)
    ensures r.None? <==> !f.male && !f.female && !f.other
    ensures AtMostOneChecked(f) ==> forall g :: r == Some(g) <==> IsChecked(f, g)
  {
    if f.male then Some(Male) else if f.female then Some(Female) else if f.other then Some(Other) else None
  }

  /** The gender Save and Submit write: the checked one, and Other when none is checked. */
  function ReportedGender(f: FormState): (g: Gender)
    ensures CheckedGender(f).Some? ==> g == CheckedGender(f).value
    ensures CheckedGender(f).None? ==> g == Other
  {
    if f.male then Male else if f.female then Female else Other
  }

  function GenderText(g: Gender): string {
    match g
    case Male => "Male"
    case Female => "Female"
    case Other => "Other"
  }

  /** The state with exactly the radio button for `g` checked: setting one button of a group
      to checked clears the others. */
  function WithChecked(f: FormState, g: Gender): (r: FormState)
    ensures AtMostOneChecked(r) && CheckedGender(r) == Some(g)
    ensures r.(male := f.male, female := f.female, other := f.other) == f
  {
    f.(male := g == Male, female := g == Female, other := g == Other)
  }

  /** The state Reset leaves: empty texts, nothing checked or selected, the date `now`,
      the no-colour label, no photo and an empty result. The designer's initial values
      are the same, with the date the picker was created at. */
  function Cleared(now: DateTime): (f: FormState)
    ensures CheckedGender(f).None? && f.country.None? && f.photo.None?
  {
    FormState("", "", "", false, false, false, now, None, NoColorSelected, None, "")
  }

  /** The colour's name as Save and Submit derive it: the label with every occurrence of the
      prefix removed. */
  function ColorName(text: string): string {
    Replace(text, ColorPrefix, "")
  }

  /** The selected country's text, and the empty text when none is selected. */
  function CountryText(f: FormState): string {
    match f.country
    case Some(c) => c
    case None => ""
  }

  /** A picked colour's label names that colour, provided the name does not itself hold the prefix. */
  lemma ColorNameOfPicked(c: string)
    requires !Contains(c, ColorPrefix)
    ensures ColorName(ColorPrefix + c) == c
  {
    StripPrefix(ColorPrefix, c);
  }

  /** The no-colour label holds no prefix, so it is its own colour name. */
  lemma ColorNameOfNoColor()
    ensures ColorName(NoColorSelected) == NoColorSelected
  {
    assert !StartsWith(NoColorSelected, ColorPrefix) by {
      assert NoColorSelected[0] != ColorPrefix[0];
    }
    assert !StartsWith(NoColorSelected[1..], ColorPrefix) by {
      assert NoColorSelected[1] != ColorPrefix[0];
    }
    ShorterNeverContains(NoColorSelected[2..], ColorPrefix);
    ReplaceAbsent(NoColorSelected, ColorPrefix, "");
  }
}
