/**
 The saved record: the eight lines Save writes to `student_data.txt`, and the state Load
 rebuilds from them. The file is its list of lines; reading and writing the disk are not modelled.
 */
module Record {

  import opened Wrappers
  import opened DotNetString
  import opened FormModel

  /** The one file name a saved photo is written under. */
  const ImageFileName: string := "student_picture.jpg"

  /** The photo line when no photo was shown. */
  const NoImage: string := "NoImage"

  const RecordLength: nat := 8

  const NameLine: nat := 0
  const EmailLine: nat := 1
  const PasswordLine: nat := 2
  const GenderLine: nat := 3
  const DateLine: nat := 4
  const CountryLine: nat := 5
  const ColorLine: nat := 6
  const PhotoLine: nat := 7

  // ---------------------------------------------------------------------------------------
  // Save

  /** What the Save button does: refuse, or write these lines (and this photo, when there is one). */
  datatype SaveOutcome = NameOrEmailMissing | Write(lines: seq<string>, image: Option<Image>)

  function SaveMessage(r: SaveOutcome): string {
    match r
    case NameOrEmailMissing => "Please fill in at least Name and Email before saving!"
    case Write(_, _) => "Data saved successfully!"
  }

  function PhotoText(f: FormState): string {
    if f.photo.Some? then ImageFileName else NoImage
  }

  /** The record Save writes for the form `f`; `shortDate` is the culture's short date format. */
  function Save(f: FormState, shortDate: DateTime -> string): (r: SaveOutcome)
    ensures r.NameOrEmailMissing? <==> IsNullOrWhiteSpace(f.name) || IsNullOrWhiteSpace(f.email)
    ensures r.Write? ==>
      && |r.lines| == RecordLength
      && r.lines[NameLine] == f.name
      && r.lines[EmailLine] == f.email
      && r.lines[PasswordLine] == f.password
      && r.lines[GenderLine] == GenderText(ReportedGender(f))
      && r.lines[DateLine] == shortDate(f.birthdate)
      && r.lines[CountryLine] == CountryText(f)
      && r.lines[ColorLine] == ColorName(f.colorLabel)
      && r.lines[PhotoLine] == PhotoText(f)
      && r.image == f.photo
  {
    if IsNullOrWhiteSpace(f.name) || IsNullOrWhiteSpace(f.email) then NameOrEmailMissing
    else
      Write([f.name, f.email, f.password, GenderText(ReportedGender(f)), shortDate(f.birthdate),
             CountryText(f), ColorName(f.colorLabel), PhotoText(f)],
            f.photo)
  }

  // ---------------------------------------------------------------------------------------
  // Load

  /** What reading `student_data.txt` gives: no file, an I/O error, or its lines. */
  datatype RecordFile = Missing | Unreadable | Present(lines: seq<string>)

  /** DateRejected is a parseable birthdate outside the picker's range: the picker's setter
      throws, and the handler reports a failure after it has already set the texts and gender. */
  datatype LoadOutcome = NotFound | ReadFailed | Incomplete | DateRejected | Loaded

  /** The message's text; the two failures report the exception's own message after the prefix. */
  function LoadMessage(r: LoadOutcome): string {
    match r
    case NotFound => "No saved data found!"
    case Incomplete => "Saved data is incomplete or corrupted!"
    case ReadFailed => "Failed to load data: "
    case DateRejected => "Failed to load data: "
    case Loaded => "Data loaded successfully!"
  }

  /** The gender a gender line selects: compared case-sensitively, anything else is Other. */
  function ParseGender(line: string): (g: Gender)
    ensures g == Male <==> line == "Male"
    ensures g == Female <==> line == "Female"
  {
    if line == "Male" then Male else if line == "Female" then Female else Other
  }

  /** A parse result the picker cannot take. */
  predicate PickerRejects(parsed: Option<DateTime>) {
    parsed.Some? && !InPickerRange(parsed.value)
  }

  /** How Load ends for a given file; `tryParse` is the culture's `DateTime.TryParse`. */
  function LoadOutcomeOf(file: RecordFile, tryParse: string -> Option<DateTime>): (r: LoadOutcome)
    ensures r == NotFound <==> file.Missing?
    ensures r == ReadFailed <==> file.Unreadable?
    ensures r == Incomplete <==> file.Present? && |file.lines| < RecordLength
    ensures r == DateRejected <==>
      file.Present? && |file.lines| >= RecordLength && PickerRejects(tryParse(file.lines[DateLine]))
  {
    match file
    case Missing => NotFound
    case Unreadable => ReadFailed
    case Present(lines) =>
      if |lines| < RecordLength then Incomplete
      else if PickerRejects(tryParse(lines[DateLine])) then DateRejected
      else Loaded
  }

  /** The fields Load sets before it reaches the date: the three texts, then the gender. */
  function WithTextsAndGender(f: FormState, lines: seq<string>): FormState
    requires |lines| >= RecordLength
  {
    WithChecked(f.(name := lines[NameLine], email := lines[EmailLine], password := lines[PasswordLine]),
                ParseGender(lines[GenderLine]))
  }

  /** The fields Load sets once the date is known to be acceptable: the date (kept when its line
      does not parse), the country, the colour label and the photo. */
  function WithRemainingFields(g: FormState, lines: seq<string>, parsed: Option<DateTime>,
                               photoExists: bool, decoded: Option<Image>): FormState
    requires |lines| >= RecordLength
  {
    g.(birthdate := if parsed.Some? then parsed.value else g.birthdate,
       country := RestoredCountry(g, lines[CountryLine]),
       colorLabel := ColorPrefix + lines[ColorLine],
       photo := RestoredPhoto(lines[PhotoLine], photoExists, decoded))
  }

  /** The country a country line selects: none for the empty line, the item it names when
      the list has it, and otherwise the previous selection. */
  function RestoredCountry(f: FormState, line: string): Option<string> {
    if line == "" then None else if line in Countries then Some(line) else f.country
  }

  /** A record whose country line is neither empty nor one of the listed countries. */
  predicate NamesUnlistedCountry(file: RecordFile) {
    file.Present? && |file.lines| >= RecordLength
    && file.lines[CountryLine] != "" && file.lines[CountryLine] !in Countries
  }

  /** The photo Load shows: the decoded file, when the photo line names it and it exists;
      a file that does not decode (`decoded` is None) silently clears the photo. */
  function RestoredPhoto(line: string, photoExists: bool, decoded: Option<Image>): (r: Option<Image>)
    ensures r.Some? <==> line == ImageFileName && photoExists && decoded.Some?
    ensures r.Some? ==> r == decoded
  {
    if line == ImageFileName && photoExists then decoded else None
  }

  /** The form after Load, from the form `f` before it. `photoExists` and `decoded` stand for
      `File.Exists` and decoding of `student_picture.jpg`. */
  function AfterLoad(f: FormState, file: RecordFile, tryParse: string -> Option<DateTime>,
                     photoExists: bool, decoded: Option<Image>): (r: FormState)
    ensures LoadOutcomeOf(file, tryParse) in {NotFound, ReadFailed, Incomplete} ==> r == f
    ensures LoadOutcomeOf(file, tryParse) in {DateRejected, Loaded} ==>
      && r.name == file.lines[NameLine]
      && r.email == file.lines[EmailLine]
      && r.password == file.lines[PasswordLine]
      && AtMostOneChecked(r) && CheckedGender(r) == Some(ParseGender(file.lines[GenderLine]))
      && r.result == f.result
    ensures LoadOutcomeOf(file, tryParse) == DateRejected ==>
      r.birthdate == f.birthdate && r.country == f.country && r.colorLabel == f.colorLabel && r.photo == f.photo
    ensures LoadOutcomeOf(file, tryParse) == Loaded ==>
      && r.birthdate == (match tryParse(file.lines[DateLine]) case Some(d) => d case None => f.birthdate)
      && r.country == RestoredCountry(f, file.lines[CountryLine])
      && r.colorLabel == ColorPrefix + file.lines[ColorLine]
      && r.photo == RestoredPhoto(file.lines[PhotoLine], photoExists, decoded)
    ensures WellFormed(f) ==> WellFormed(r)
  {
    match LoadOutcomeOf(file, tryParse)
    case NotFound => f
    case ReadFailed => f
    case Incomplete => f
    case DateRejected => WithTextsAndGender(f, file.lines)
    case Loaded =>
      WithRemainingFields(WithTextsAndGender(f, file.lines), file.lines, tryParse(file.lines[DateLine]),
                          photoExists, decoded)
  }

  // ---------------------------------------------------------------------------------------
  // Save followed by Load

  lemma ParseGenderText(g: Gender)
    ensures ParseGender(GenderText(g)) == g
  {
  }

  /** A saved record is never incomplete, and loads in full unless its date line parses to a
      date the picker rejects. */
  lemma SaveLoadOutcome(f: FormState, shortDate: DateTime -> string, tryParse: string -> Option<DateTime>)
    requires Save(f, shortDate).Write?
    ensures var file := Present(Save(f, shortDate).lines);
      LoadOutcomeOf(file, tryParse) == (if PickerRejects(tryParse(shortDate(f.birthdate))) then DateRejected else Loaded)
  {
  }

  /** Name, e-mail and password come back verbatim, and the gender as the one Save wrote:
      a single checked button is kept, and none checked comes back as Other. */
  lemma SaveLoadTextsAndGender(f: FormState, g: FormState, shortDate: DateTime -> string,
                               tryParse: string -> Option<DateTime>, photoExists: bool, decoded: Option<Image>)
    requires Save(f, shortDate).Write?
    ensures var r := AfterLoad(g, Present(Save(f, shortDate).lines), tryParse, photoExists, decoded);
      && r.name == f.name && r.email == f.email && r.password == f.password
      && (CheckedGender(f).Some? ==> CheckedGender(r) == CheckedGender(f))
      && (CheckedGender(f).None? ==> CheckedGender(r) == Some(Other))
  {
    ParseGenderText(ReportedGender(f));
  }

  /** A country from the list, or none, comes back as it was. */
  lemma SaveLoadCountry(f: FormState, g: FormState, shortDate: DateTime -> string,
                        tryParse: string -> Option<DateTime>, photoExists: bool, decoded: Option<Image>)
    requires WellFormed(f) && Save(f, shortDate).Write?
    requires !PickerRejects(tryParse(shortDate(f.birthdate)))
    ensures AfterLoad(g, Present(Save(f, shortDate).lines), tryParse, photoExists, decoded).country == f.country
  {
    assert "" !in Countries;
  }

  /** A picked colour's label comes back exactly when its name does not hold the prefix; the no-colour
      label comes back as the label of a colour named "No Color Selected". */
  lemma SaveLoadColor(f: FormState, g: FormState, shortDate: DateTime -> string,
                      tryParse: string -> Option<DateTime>, photoExists: bool, decoded: Option<Image>)
    requires Save(f, shortDate).Write?
    requires !PickerRejects(tryParse(shortDate(f.birthdate)))
    ensures var r := AfterLoad(g, Present(Save(f, shortDate).lines), tryParse, photoExists, decoded);
      && (forall c :: f.colorLabel == ColorPrefix + c && !Contains(c, ColorPrefix) ==> r.colorLabel == f.colorLabel)
      && (forall c :: f.colorLabel == ColorPrefix + c && Contains(c, ColorPrefix) ==> r.colorLabel != f.colorLabel)
      && (f.colorLabel == NoColorSelected ==> r.colorLabel == ColorPrefix + NoColorSelected)
  {
    forall c | f.colorLabel == ColorPrefix + c && !Contains(c, ColorPrefix)
      ensures ColorName(f.colorLabel) == c
    {
      ColorNameOfPicked(c);
    }
    forall c | f.colorLabel == ColorPrefix + c && Contains(c, ColorPrefix)
      ensures ColorPrefix + ColorName(f.colorLabel) != f.colorLabel
    {
      NestedPrefixIsLost(c);
    }
    if f.colorLabel == NoColorSelected {
      ColorNameOfNoColor();
    }
  }

  /** A label whose colour name itself holds the prefix is not restored: every copy of the prefix
      is stripped on save, and only one is put back on load, so the label comes back shorter. */
  lemma NestedPrefixIsLost(c: string)
    requires Contains(c, ColorPrefix)
    ensures ColorPrefix + ColorName(ColorPrefix + c) != ColorPrefix + c
  {
    ReplaceLeading(ColorPrefix, c, "");
    ReplaceShrinks(c, ColorPrefix);
    assert |ColorName(ColorPrefix + c)| < |c|;
  }

  /** A photo comes back only if one was saved; when one was and its file is there, the form
      shows what decoding it gives (nothing, if it does not decode). No photo saved clears the photo. */
  lemma SaveLoadPhoto(f: FormState, g: FormState, shortDate: DateTime -> string,
                      tryParse: string -> Option<DateTime>, photoExists: bool, decoded: Option<Image>)
    requires Save(f, shortDate).Write?
    requires !PickerRejects(tryParse(shortDate(f.birthdate)))
    ensures var r := AfterLoad(g, Present(Save(f, shortDate).lines), tryParse, photoExists, decoded);
      && (f.photo.None? ==> r.photo.None?)
      && (f.photo.Some? && photoExists ==> r.photo == decoded)
      && (!photoExists ==> r.photo.None?)
  {
    assert ImageFileName != NoImage;
  }

  /** The birthdate comes back as its short date text parses; text that does not parse keeps
      the date the form had before the load. */
  lemma SaveLoadDate(f: FormState, g: FormState, shortDate: DateTime -> string,
                     tryParse: string -> Option<DateTime>, photoExists: bool, decoded: Option<Image>)
    requires Save(f, shortDate).Write?
    requires !PickerRejects(tryParse(shortDate(f.birthdate)))
    ensures var r := AfterLoad(g, Present(Save(f, shortDate).lines), tryParse, photoExists, decoded);
      && (tryParse(shortDate(f.birthdate)) == Some(f.birthdate) ==> r.birthdate == f.birthdate)
      && (tryParse(shortDate(f.birthdate)).None? ==> r.birthdate == g.birthdate)
  {
  }

  // ---------------------------------------------------------------------------------------
  // Load followed by Save

  /** A record in the form Save writes: its colour line holds no prefix, its gender, country
      and photo lines are ones Save can write, and its date line is what `shortDate` makes of
      the date it parses to (or it does not parse and the previous date prints that way). */
  predicate IsCanonical(lines: seq<string>, f: FormState, shortDate: DateTime -> string,
                        tryParse: string -> Option<DateTime>, photoExists: bool, decoded: Option<Image>) {
    && |lines| == RecordLength
    && !IsNullOrWhiteSpace(lines[NameLine]) && !IsNullOrWhiteSpace(lines[EmailLine])
    && lines[GenderLine] in {"Male", "Female", "Other"}
    && (match tryParse(lines[DateLine])
        case Some(d) => InPickerRange(d) && shortDate(d) == lines[DateLine]
        case None => shortDate(f.birthdate) == lines[DateLine])
    && (lines[CountryLine] == "" || lines[CountryLine] in Countries)
    && !Contains(lines[ColorLine], ColorPrefix)
    && (lines[PhotoLine] == NoImage || (lines[PhotoLine] == ImageFileName && photoExists && decoded.Some?))
  }

  /** Loading a record Save could have written and saving again writes the same record and photo. */
  lemma LoadSaveRoundTrip(lines: seq<string>, f: FormState, shortDate: DateTime -> string,
                          tryParse: string -> Option<DateTime>, photoExists: bool, decoded: Option<Image>)
    requires IsCanonical(lines, f, shortDate, tryParse, photoExists, decoded)
    ensures var r := AfterLoad(f, Present(lines), tryParse, photoExists, decoded);
      Save(r, shortDate) == Write(lines, RestoredPhoto(lines[PhotoLine], photoExists, decoded))
  {
    var r := AfterLoad(f, Present(lines), tryParse, photoExists, decoded);
    ColorNameOfPicked(lines[ColorLine]);
    assert GenderText(ReportedGender(r)) == lines[GenderLine];
    var saved := Save(r, shortDate).lines;
    assert saved[PhotoLine] == lines[PhotoLine] by {
      assert ImageFileName != NoImage;
    }
    assert saved == lines;
  }
}
