/**
 Submit: six checks run in a fixed order, the first that fails is reported, and when all pass
 the result label shows a six-line summary of the form (without the password).
 */
module Validation {

  import opened Wrappers
  import opened DotNetString
  import opened EmailPattern
  import opened FormModel

  const MinPasswordLength: nat := 6

  /** Submit's checks, named by the failure each reports. */
  datatype Check = NameRequired | EmailInvalid | PasswordTooShort | GenderRequired | CountryRequired | ColorRequired

  /** The position of a check in the order Submit runs them. */
  function Rank(c: Check): nat {
    match c
    case NameRequired => 0
    case EmailInvalid => 1
    case PasswordTooShort => 2
    case GenderRequired => 3
    case CountryRequired => 4
    case ColorRequired => 5
  }

  /** Whether the form passes a check. */
  predicate Passes(c: Check, f: FormState) {
    match c
    case NameRequired => !IsNullOrWhiteSpace(f.name)
    case EmailInvalid => IsValidEmail(f.email)
    case PasswordTooShort => |f.password| >= MinPasswordLength
    case GenderRequired => f.male || f.female || f.other
    case CountryRequired => f.country.Some?
    case ColorRequired => f.colorLabel != NoColorSelected
  }

  /** The warning each failed check shows. */
  function Message(c: Check): string {
    match c
    case NameRequired => "Name is required!"
    case EmailInvalid => "Enter a valid email address!"
    case PasswordTooShort => "Password must be at least 6 characters!"
    case GenderRequired => "Please select a gender!"
    case CountryRequired => "Please select a country!"
    case ColorRequired => "Please select your favorite color!"
  }

  datatype SubmitOutcome = Rejected(check: Check) | Accepted(summary: string)

  /** The summary's lines: name, e-mail, gender, birthdate, country and colour, each after its label. */
  function SummaryLines(f: FormState, shortDate: DateTime -> string): (r: seq<string>)
    ensures |r| == 6
  {
    ["Name: " + f.name,
     "Email: " + f.email,
     "Gender: " + GenderText(ReportedGender(f)),
     "Birthdate: " + shortDate(f.birthdate),
     "Country: " + CountryText(f),
     "Favorite Color: " + ColorName(f.colorLabel)]
  }

  /** The result label's text after a successful Submit. */
  function Summary(f: FormState, shortDate: DateTime -> string): string {
    Join(SummaryLines(f, shortDate), '\n')
  }

  /** Submit's verdict on the form `f`; `shortDate` is the culture's short date format. */
  function Submit(f: FormState, shortDate: DateTime -> string): (r: SubmitOutcome)
    ensures r.Rejected? ==> !Passes(r.check, f) && forall c :: Rank(c) < Rank(r.check) ==> Passes(c, f)
    ensures r.Accepted? <==> forall c :: Passes(c, f)
    ensures r.Accepted? ==> r.summary == Summary(f, shortDate)
  {
    if IsNullOrWhiteSpace(f.name) then Rejected(NameRequired)
    else if !IsValidEmail(f.email) then Rejected(EmailInvalid)
    else if |f.password| < MinPasswordLength then Rejected(PasswordTooShort)
    else if !f.male && !f.female && !f.other then Rejected(GenderRequired)
    else if f.country.None? then Rejected(CountryRequired)
    else if f.colorLabel == NoColorSelected then Rejected(ColorRequired)
    else Accepted(Summary(f, shortDate))
  }

  /** The check Submit reports is exactly the first one, in Submit's order, that the form fails. */
  lemma SubmitReportsFirstFailure(f: FormState, shortDate: DateTime -> string, c: Check)
    ensures Submit(f, shortDate) == Rejected(c) <==>
      !Passes(c, f) && forall d :: Rank(d) < Rank(c) ==> Passes(d, f)
  {
    var r := Submit(f, shortDate);
    if !Passes(c, f) && forall d :: Rank(d) < Rank(c) ==> Passes(d, f) {
      assert r.Rejected?;
    }
  }

  /** The password takes part only through its length: two passwords on the same side of the
      minimum give the same verdict and the same summary. */
  lemma SubmitIgnoresPasswordText(f: FormState, shortDate: DateTime -> string, p: string)
    requires (|p| >= MinPasswordLength) == (|f.password| >= MinPasswordLength)
    ensures Submit(f.(password := p), shortDate) == Submit(f, shortDate)
  {
  }

  /** When no shown value holds a line break, the summary reads back as its six labelled lines. */
  lemma SummaryReadsBackAsLines(f: FormState, shortDate: DateTime -> string)
    requires '\n' !in f.name && '\n' !in f.email && '\n' !in shortDate(f.birthdate)
    requires '\n' !in CountryText(f) && '\n' !in ColorName(f.colorLabel)
    ensures Split(Summary(f, shortDate), '\n') == SummaryLines(f, shortDate)
  {
    var lines := SummaryLines(f, shortDate);
    forall i | 0 <= i < |lines| ensures '\n' !in lines[i] {
      assert lines[i] == ["Name: ", "Email: ", "Gender: ", "Birthdate: ", "Country: ", "Favorite Color: "][i]
        + [f.name, f.email, GenderText(ReportedGender(f)), shortDate(f.birthdate), CountryText(f), ColorName(f.colorLabel)][i];
    }
    SplitJoin(lines, '\n');
  }

  lemma JoinSixLines(a: string, b: string, c: string, d: string, e: string, g: string)
    ensures Join([a, b, c, d, e, g], '\n') == a + "\n" + b + "\n" + c + "\n" + d + "\n" + e + "\n" + g
  {
    assert [a, b, c, d, e, g][1..] == [b, c, d, e, g];
    assert [b, c, d, e, g][1..] == [c, d, e, g];
    assert [c, d, e, g][1..] == [d, e, g];
    assert [d, e, g][1..] == [e, g];
    assert [e, g][1..] == [g];
    assert Join([g], '\n') == g;
    var j5 := Join([e, g], '\n');
    assert j5 == e + "\n" + g;
    var j4 := Join([d, e, g], '\n');
    assert j4 == d + "\n" + j5;
    var j3 := Join([c, d, e, g], '\n');
    assert j3 == c + "\n" + j4;
    var j2 := Join([b, c, d, e, g], '\n');
    assert j2 == b + "\n" + j3;
    assert Join([a, b, c, d, e, g], '\n') == a + "\n" + j2;
  }

  lemma ExampleAddressIsValid()
    ensures IsValidEmail("a@b.c")
  {
    IndexOfFirst("a@b.c", '@', 1);
    assert "a@b.c"[2..][1] == '.';
  }

  /** The example form: name "A", e-mail "a@b.c", a six-character password, Male checked,
      Yemen selected and the colour Red picked. */
  function ExampleForm(d: DateTime): FormState {
    FormState("A", "a@b.c", "secret", true, false, false, d, Some("Yemen"), ColorPrefix + "Red", None, "")
  }

  lemma ExamplePassesEveryCheck(d: DateTime)
    ensures forall c :: Passes(c, ExampleForm(d))
  {
    assert !IsWhiteSpace(ExampleForm(d).name[0]);
    ExampleAddressIsValid();
  }

  lemma ExampleSummary(shortDate: DateTime -> string, d: DateTime)
    ensures Summary(ExampleForm(d), shortDate) ==
      ("Name: " + "A") + "\n" + ("Email: " + "a@b.c") + "\n" + ("Gender: " + "Male") + "\n"
      + ("Birthdate: " + shortDate(d)) + "\n" + ("Country: " + "Yemen") + "\n" + ("Favorite Color: " + "Red")
  {
    var f := ExampleForm(d);
    ShorterNeverContains("Red", ColorPrefix);
    ColorNameOfPicked("Red");
    JoinSixLines("Name: " + f.name, "Email: " + f.email, "Gender: " + GenderText(ReportedGender(f)),
                 "Birthdate: " + shortDate(f.birthdate), "Country: " + CountryText(f),
                 "Favorite Color: " + ColorName(f.colorLabel));
  }

  /** The example form is accepted, and the result label shows its six fields. */
  lemma ExampleIsAccepted(shortDate: DateTime -> string, d: DateTime)
    ensures Submit(ExampleForm(d), shortDate) == Accepted(
      ("Name: " + "A") + "\n" + ("Email: " + "a@b.c") + "\n" + ("Gender: " + "Male") + "\n"
      + ("Birthdate: " + shortDate(d)) + "\n" + ("Country: " + "Yemen") + "\n" + ("Favorite Color: " + "Red"))
  {
    ExamplePassesEveryCheck(d);
    ExampleSummary(shortDate, d);
  }

  /** Addresses the pattern refuses: no local part, no dot in the domain, a dot that ends the
      domain, and white space. */
  lemma RejectedAddresses()
    ensures !IsValidEmail("@b.c") && !IsValidEmail("a@bc") && !IsValidEmail("a@b.") && !IsValidEmail("a b@c.d")
  {
    IndexOfFirst("@b.c", '@', 0);
    IndexOfFirst("a@bc", '@', 1);
    IndexOfFirst("a@b.", '@', 1);
    IndexOfFirst("a b@c.d", '@', 3);
    assert IsWhiteSpace("a b@c.d"[..3][1]);
  }
}
