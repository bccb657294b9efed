/**
 The registration window: its widgets' values as the fields of one object, and the button
 handlers that change them. Save's record and Submit's verdict are the functions of the Record
 and Validation modules applied to the form's current state.
 */
module RegistrationForm {

  import opened Wrappers
  import opened DotNetString
  import opened FormModel
  import Record
  import Validation

  /** The photo file dialog's answer: cancelled, or a file chosen and what decoding it gave. */
  datatype PhotoChoice = Cancelled | Chosen(decoded: Option<Image>)

  datatype UploadOutcome = NotChosen | DecodeFailed | Shown

  class Form {
    var name: string
    var email: string
    var password: string
    var male: bool
    var female: bool
    var other: bool
    var birthdate: DateTime
    var country: Option<string>
    var colorLabel: string
    var photo: Option<Image>
    var result: string

    function State(): FormState
      reads this
    {
      FormState(name, email, password, male, female, other, birthdate, country, colorLabel, photo, result)
    }

    predicate Valid()
      reads this
    {
      WellFormed(State())
    }

    /** The window as the designer lays it out, its date picker created at `now`. */
    constructor (now: DateTime)
      requires InPickerRange(now)
      ensures Valid() && State() == Cleared(now)
    {
      name, email, password := "", "", "";
      male, female, other := false, false, false;
      birthdate := now;
      country := None;
      colorLabel := NoColorSelected;
      photo := None;
      result := "";
    }

    /** Pick Color: a confirmed choice names the colour in the label; a cancelled one changes nothing. */
    method PickColor(chosen: Option<string>)
      requires Valid()
      modifies this`colorLabel
      ensures Valid()
      ensures State() == if chosen.Some? then old(State()).(colorLabel := ColorPrefix + chosen.value) else old(State())
    {
      if chosen.Some? {
        colorLabel := ColorPrefix + chosen.value;
      }
    }

    /** Upload Photo: a chosen file that decodes replaces the photo; one that does not is reported
        and the photo stays. */
    method UploadPhoto(choice: PhotoChoice) returns (outcome: UploadOutcome)
      requires Valid()
      modifies this`photo
      ensures Valid()
      ensures outcome == NotChosen <==> choice.Cancelled?
      ensures outcome == DecodeFailed <==> choice == Chosen(None)
      ensures State() == if outcome == Shown then old(State()).(photo := choice.decoded) else old(State())
    {
      match choice
      case Cancelled =>
        outcome := NotChosen;
      case Chosen(decoded) =>
        if decoded.Some? {
          photo := decoded;
          outcome := Shown;
        } else {
          outcome := DecodeFailed;
        }
    }

    /** Reset: every field back to its default, the date to `now`. */
    method Reset(now: DateTime)
      requires InPickerRange(now)
      modifies this
      ensures Valid() && State() == Cleared(now)
    {
      name := "";
      email := "";
      password := "";
      male := false;
      female := false;
      other := false;
      country := None;
      birthdate := now;
      colorLabel := NoColorSelected;
      result := "";
      photo := None;
    }

    /** Checking one radio button of the group clears the other two. */
    method SetChecked(g: Gender)
      modifies this`male, this`female, this`other
      ensures State() == WithChecked(old(State()), g)
    {
      male := g == Male;
      female := g == Female;
      other := g == Other;
    }

    /** Load's first steps: the three texts, then the gender line's radio button. */
    method RestoreTextsAndGender(lines: seq<string>)
      requires |lines| >= Record.RecordLength
      modifies this
      ensures State() == Record.WithTextsAndGender(old(State()), lines)
    {
      name := lines[Record.NameLine];
      email := lines[Record.EmailLine];
      password := lines[Record.PasswordLine];
      if lines[Record.GenderLine] == "Male" {
        SetChecked(Male);
      } else if lines[Record.GenderLine] == "Female" {
        SetChecked(Female);
      } else {
        SetChecked(Other);
      }
    }

    /** Load's last steps, once the parsed date (if any) is one the picker takes. A country line
        that names no listed country leaves the selection as it was. */
    method RestoreRemainingFields(lines: seq<string>, parsed: Option<DateTime>,
                                  photoExists: bool, decoded: Option<Image>)
      requires |lines| >= Record.RecordLength && !Record.PickerRejects(parsed)
      modifies this
      ensures State() == Record.WithRemainingFields(old(State()), lines, parsed, photoExists, decoded)
    {
      if parsed.Some? {
        birthdate := parsed.value;
      }
      var countryLine := lines[Record.CountryLine];
      if countryLine != "" {
        if countryLine in Countries {
          country := Some(countryLine);
        }
      } else {
        country := None;
      }
      colorLabel := ColorPrefix + lines[Record.ColorLine];
      if lines[Record.PhotoLine] == Record.ImageFileName && photoExists {
        photo := decoded;
      } else {
        photo := None;
      }
    }

    /** Load: read the record and set the widgets one after another, as `AfterLoad` describes.
        The contract leaves the selection open only for a country line that names no listed country. */
    method Load(file: Record.RecordFile, tryParse: string -> Option<DateTime>,
                photoExists: bool, decoded: Option<Image>) returns (outcome: Record.LoadOutcome)
      requires Valid()
      modifies this
      ensures Valid()
      ensures outcome == Record.LoadOutcomeOf(file, tryParse)
      ensures var expected := Record.AfterLoad(old(State()), file, tryParse, photoExists, decoded);
        && State().(country := expected.country) == expected
        && (!(outcome == Record.Loaded && Record.NamesUnlistedCountry(file)) ==> country == expected.country)
    {
      match file
      case Missing =>
        return Record.NotFound;
      case Unreadable =>
        return Record.ReadFailed;
      case Present(lines) =>
        if |lines| < Record.RecordLength {
          return Record.Incomplete;
        }
        RestoreTextsAndGender(lines);
        var parsed := tryParse(lines[Record.DateLine]);
        if Record.PickerRejects(parsed) {
          return Record.DateRejected;
        }
        RestoreRemainingFields(lines, parsed, photoExists, decoded);
        return Record.Loaded;
    }

    /** Submit: on acceptance the result label shows the summary; a rejection changes nothing. */
    method Submit(shortDate: DateTime -> string) returns (outcome: Validation.SubmitOutcome)
      requires Valid()
      modifies this`result
      ensures Valid()
      ensures outcome == Validation.Submit(old(State()), shortDate)
      ensures State() == if outcome.Accepted? then old(State()).(result := outcome.summary) else old(State())
    {
      outcome := Validation.Submit(State(), shortDate);
      if outcome.Accepted? {
        result := outcome.summary;
      }
    }
  }

  /** After Reset, Submit stops at its first check. */
  lemma SubmitAfterResetNeedsName(now: DateTime, shortDate: DateTime -> string)
    ensures Validation.Submit(Cleared(now), shortDate) == Validation.Rejected(Validation.NameRequired)
  {
  }

  /** A picked colour's label always passes Submit's colour check; so does the label that
      loading the no-colour record gives, "Selected Color: No Color Selected". */
  lemma PickedColorPassesColorCheck(f: FormState, c: string)
    ensures Validation.Passes(Validation.ColorRequired, f.(colorLabel := ColorPrefix + c))
  {
    assert (ColorPrefix + c)[0] != NoColorSelected[0];
  }

  /** Picking a colour, saving and loading gives the picked label back, when the colour's
      name (a known colour name or an ARGB hex text) does not hold the prefix. */
  lemma PickSaveLoadKeepsColor(f: FormState, c: string, g: FormState, shortDate: DateTime -> string,
                               tryParse: string -> Option<DateTime>, photoExists: bool, decoded: Option<Image>)
    requires !Contains(c, ColorPrefix)
    requires Record.Save(f.(colorLabel := ColorPrefix + c), shortDate).Write?
    requires !Record.PickerRejects(tryParse(shortDate(f.birthdate)))
    ensures var picked := f.(colorLabel := ColorPrefix + c);
      Record.AfterLoad(g, Record.Present(Record.Save(picked, shortDate).lines), tryParse, photoExists, decoded).colorLabel
        == ColorPrefix + c
  {
    Record.SaveLoadColor(f.(colorLabel := ColorPrefix + c), g, shortDate, tryParse, photoExists, decoded);
  }
}
