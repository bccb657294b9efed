# Student registration form, modelled in Dafny

The form collects a student's name, e-mail, password, gender (three radio buttons), birthdate,
country (a drop-down list of Yemen, Egypt, Oman, Qatar, Palestine and Syria), favourite colour
(shown as the label text `Selected Color: <name>`, or `No Color Selected`) and a photo.
Its buttons act on that state:

- **Save** refuses when the name or the e-mail is empty or white space. Otherwise it writes an
  8-line record to `student_data.txt`: name, e-mail, password, gender, short date, country,
  colour name, and `student_picture.jpg` or `NoImage`. It also writes the photo, if there is one.
- **Load** reads the record back. Gender, colour and photo are restored through lossy mappings.
  A missing file or one with fewer than 8 lines changes nothing.
- **Submit** runs six checks in order and reports the first that fails: name, e-mail shape,
  password length of at least 6, a gender, a country, a colour. When all pass, it shows a
  six-line summary without the password.
- **Reset** puts every field back to its default. **Pick Color** and **Upload Photo** replace
  the colour label and the photo.

The files:

- `model.dfy` (module `FormModel`): the form's state as a datatype, with its shared constants
  and projections.
- `record.dfy` (module `Record`): Save as a function and the state after Load as a function. It
  holds the round-trip lemmas in both directions (save then load, load then save).
- `validation.dfy` (module `Validation`): Submit's verdict and summary.
- `form.dfy` (module `RegistrationForm`): a class `Form` whose fields are the widgets' values.
  Load, Reset, Submit, Pick Color and Upload Photo are methods on it that assign those fields.
  Their contracts tie the new state to the functions above.
- `email.dfy` (module `EmailPattern`): the e-mail check, proved equal to a literal reading of
  the pattern `^[^@\s]+@[^@\s]+\.[^@\s]+$`.
- `text.dfy` (module `DotNetString`): the .NET string operations the form uses.
  `Char.IsWhiteSpace` is written out as its exact character set. `String.Replace` is the
  ordinal left-to-right replacement.

Parameters stand for what the model does not compute:

- the culture's short-date formatter and `DateTime.TryParse` (`shortDate`, `tryParse`);
- the clock (`now`);
- whether `student_picture.jpg` exists, and what decoding it gives (`photoExists`, `decoded`);
- what the colour and file dialogs return.

A record file is `Missing`, `Unreadable` or `Present(lines)`.

In these places the code behaves in ways one might not expect; the model follows the code:

- A failed Load does not always leave the form unchanged. The birthdate picker (Gregorian calendar) accepts only
  dates from 1753-01-01 to 9998-12-31, and its setter throws on any other date. So a date line
  that parses to a date outside that range makes Load report "Failed to load data". By then the
  name, e-mail, password and gender have already been set (`Record.LoadOutcome.DateRejected`).
- The e-mail pattern allows more than one `.` after the `@` (`a@b..c` is accepted). It only
  needs one `.` that is neither the first nor the last character of the domain.
- Submit's gender check asks for at least one checked button, not exactly one. The three
  buttons share a group box, so at most one is ever checked (`FormModel.WellFormed`).
- Load checks a radio button by setting it, and the group then clears the other two. The model
  includes that clearing (`FormModel.WithChecked`).

## Model

| member | source | states |
|---|---|---|
| `DotNetString.ReplaceAbsent` | Form1.cs:80 | removing a prefix that does not occur in the label leaves the label unchanged |
| `DotNetString.ReplaceLeading` | Form1.cs:80 | an occurrence at the start is replaced, and the scan goes on right after it |
| `DotNetString.ReplaceNoLonger` | Form1.cs:80 | removing every copy of the prefix never lengthens the label |
| `DotNetString.ReplaceShrinks` | Form1.cs:80 | removing every copy of the prefix from a text that contains it shortens the text by at least the prefix's length |
| `DotNetString.StripPrefix` | Form1.cs:80 | removing the prefix from prefix + text gives back the text, when the text does not contain the prefix |
| `EmailPattern.ValidEmailMatches` | Form1.cs:184 | every address the check accepts splits as local part, `@`, d1, `.`, d2, with each piece a non-empty run of non-`@`, non-white-space characters |
| `EmailPattern.MatchesAreValidEmails` | Form1.cs:184 | every string of that shape passes the check |
| `EmailPattern.IsValidEmailMatchesPattern` | Form1.cs:184 | the check accepts exactly the strings the pattern matches (both directions) |
| `FormModel.CheckedGender` | Form1.cs:200 | no gender exactly when no button is checked; in a well-formed state, the gender reported is exactly the checked button |
| `FormModel.ReportedGender` | Form1.cs:87 | the gender written is the checked one; Other when none is checked |
| `FormModel.WithChecked` | Form1.cs:132-134 | checking one button leaves exactly that button checked and changes no other field |
| `FormModel.Cleared` | Form1.cs:54-65 | the reset state has no gender, no country and no photo |
| `FormModel.ColorNameOfPicked` | Form1.cs:80 | the colour name taken from the label `Selected Color: c` is c, when c does not contain the prefix |
| `FormModel.ColorNameOfNoColor` | Form1.cs:80 | the no-colour label is saved as `No Color Selected` unchanged |
| `Record.Save` | Form1.cs:69-101 | refuses exactly when the name or the e-mail is empty or white space, and checks no other field; otherwise writes 8 lines in the fixed order, with country `""` when none is selected, the colour label with the prefix removed, and the image name or `NoImage`; the photo is written exactly when there is one |
| `Record.ParseGender` | Form1.cs:132-134 | the line selects Male exactly when it is `Male`, Female exactly when it is `Female`, and Other otherwise |
| `Record.LoadOutcomeOf` | Form1.cs:115-137 | not found exactly for a missing file; read failure exactly for an unreadable one; incomplete exactly for fewer than 8 lines; rejected exactly when the date line parses to a date outside the picker's range |
| `Record.RestoredPhoto` | Form1.cs:146-163 | a photo is shown exactly when line 8 is `student_picture.jpg`, the file exists and it decodes; otherwise the photo is cleared |
| `Record.AfterLoad` | Form1.cs:111-163 | a missing, unreadable or short file changes nothing; otherwise name, e-mail and password are lines 1-3 and the gender is exactly the one line 4 selects; a rejected date changes nothing else; a full load sets the date (or keeps it when the line does not parse), the country, the label `Selected Color: ` + line 7 and the photo; well-formedness is kept |
| `Record.ParseGenderText` | Form1.cs:132-134 | reading back a written gender gives that gender |
| `Record.SaveLoadOutcome` | Form1.cs:121-137 | a saved record is never incomplete; it loads in full unless its date text parses to a date the picker rejects |
| `Record.SaveLoadTextsAndGender` | Form1.cs:128-134 | save then load gives back name, e-mail and password verbatim, and keeps a single checked gender; no gender checked comes back as Other |
| `Record.SaveLoadCountry` | Form1.cs:139-142 | save then load gives back the selected country, or no selection |
| `Record.SaveLoadColor` | Form1.cs:144 | for a label `Selected Color: c`, save then load gives the label back exactly when c does not contain the prefix (both directions); the no-colour label comes back as `Selected Color: No Color Selected` |
| `Record.NestedPrefixIsLost` | Form1.cs:80 | for every colour name c that contains the prefix, the label `Selected Color: c` is not restored: save strips every copy of the prefix, so the reloaded label is shorter |
| `Record.SaveLoadPhoto` | Form1.cs:146-163 | a photo comes back only if one was saved; when one was saved and its file exists, the form shows what decoding the file gives |
| `Record.SaveLoadDate` | Form1.cs:137 | the birthdate comes back when its short-date text parses to it; a text that does not parse keeps the date the form had before the load |
| `Record.LoadSaveRoundTrip` | Form1.cs:78-92 | loading a record of the shape Save writes, then saving again, writes the same 8 lines |
| `Validation.Submit` | Form1.cs:173-229 | a rejection names a check the form fails, and every earlier check passes; acceptance exactly when all six checks pass, with the summary of name, e-mail, gender, short date, country and colour name |
| `Validation.SubmitReportsFirstFailure` | Form1.cs:175-219 | Submit rejects with check c exactly when c fails and every check before it passes |
| `Validation.SubmitIgnoresPasswordText` | Form1.cs:192-229 | the password matters only through its length: two passwords on the same side of 6 give the same verdict and summary |
| `Validation.SummaryReadsBackAsLines` | Form1.cs:229 | when no shown value contains a line break, splitting the summary at line breaks gives its six labelled lines |
| `Validation.ExampleAddressIsValid` | Form1.cs:184 | `a@b.c` passes the e-mail check |
| `Validation.ExamplePassesEveryCheck` | Form1.cs:176-219 | the example form (A, a@b.c, six-character password, Male, Yemen, Red) passes all six checks |
| `Validation.ExampleSummary` | Form1.cs:229 | the example form's summary text, exactly |
| `Validation.ExampleIsAccepted` | Form1.cs:173-229 | Submit accepts the example form with that summary |
| `Validation.RejectedAddresses` | Form1.cs:184 | `@b.c`, `a@bc`, `a@b.` and `a b@c.d` fail the e-mail check |
| `RegistrationForm.Form.constructor` | Form1.cs:11-14 | the new window's state is the reset state, with the date it was created at |
| `RegistrationForm.Form.PickColor` | Form1.cs:16-27 | a confirmed colour c sets the label to `Selected Color: c`; a cancelled dialog changes nothing |
| `RegistrationForm.Form.UploadPhoto` | Form1.cs:29-50 | a chosen file that decodes replaces the photo; one that does not decode is reported and the photo stays; a cancelled dialog changes nothing |
| `RegistrationForm.Form.Reset` | Form1.cs:52-67 | every field is set to its default and the date to now |
| `RegistrationForm.Form.SetChecked` | Form1.cs:132-134 | checking a button leaves exactly that button checked |
| `RegistrationForm.Form.RestoreTextsAndGender` | Form1.cs:128-134 | sets the three texts from lines 1-3 and checks the button line 4 selects |
| `RegistrationForm.Form.RestoreRemainingFields` | Form1.cs:137-163 | sets the parsed date, the country, the colour label and the photo as `Record.AfterLoad` describes |
| `RegistrationForm.Form.Load` | Form1.cs:111-171 | reports `Record.LoadOutcomeOf`; the new state is `Record.AfterLoad` of the old one, except the country when line 6 names an unlisted country; the form stays well-formed |
| `RegistrationForm.Form.Submit` | Form1.cs:173-230 | returns `Validation.Submit`; on acceptance only the result text changes, to the summary; a rejection changes nothing |
| `RegistrationForm.SubmitAfterResetNeedsName` | Form1.cs:176-181 | after Reset, Submit always rejects with "Name is required!" |
| `RegistrationForm.PickedColorPassesColorCheck` | Form1.cs:215 | any label `Selected Color: c` passes the colour check, including the `Selected Color: No Color Selected` that loading the no-colour record gives |
| `RegistrationForm.PickSaveLoadKeepsColor` | Form1.cs:144 | pick colour c, save, load: the label is `Selected Color: c` again when c does not contain the prefix |

## Left out

- Message boxes, focus changes and the colour label's background colour are not modelled.
  Messages are result values (`Record.SaveMessage`, `Record.LoadMessage`, `Validation.Message`).
  The text an exception adds after "Failed to load data: " is not modelled.
- The disk is not modelled: `File.WriteAllLines`, `File.ReadAllLines`, `File.Exists` and
  `Image.Save`. A record is its list of lines.
- Record.Save: does not model a failed write ("Failed to save data"). It also does not model
  that the text file and the photo file are written separately, so one can succeed while the
  other fails.
- The line encoding of the record file is not modelled. A field holding a line break would
  shift the fields after it when the file is read back.
- Image decoding and copying (`Image.FromFile`, `new Bitmap`) are inputs. An image is an
  opaque handle.
- FormModel.InPickerRange: assumes the Gregorian calendar for the picker's range. The picker's
  `MinimumDateTime` and `MaximumDateTime` are also limited by the range that the current
  culture's calendar supports. That limit is library behaviour and is not modelled.
- `ToShortDateString` and `DateTime.TryParse` depend on the culture, so they are function
  parameters. Dates are opaque tick counts. Only the picker's range is interpreted.
- RegistrationForm.Form.Reset: requires the clock to be within the picker's range (1753 to
  9998). A clock outside it would make the date assignment throw part way through the reset.
- RegistrationForm.Form.Load: the contract does not say which country is selected when line 6
  names a country that is not in the list. That is decided by the drop-down list's
  `SelectedItem` setter, which is library code. The body keeps the previous selection.
- EmailPattern.IsValidEmail: does not accept an address followed by a single trailing line
  feed. The .NET pattern accepts it, because its `$` also matches before a final newline.
- Validation.Submit: measures the password in Unicode characters; .NET's `Length` counts
  UTF-16 code units. The two differ for characters outside the Basic Multilingual Plane.
- Text-box texts are never null, so the "null" half of `String.IsNullOrWhiteSpace` is not
  modelled.
- `InitializeComponent` and `Dispose` (designer layout) are not modelled. The model keeps
  only the country list and the initial label and result texts (Form1.cs:481, 498-504, 562).
