/**
 The e-mail shape Submit demands of the address, the pattern `^[^@\s]+@[^@\s]+\.[^@\s]+$`:
 a non-empty local part, one `@`, and a domain holding a `.` that is neither its first
 nor its last character, with no `@` and no white space anywhere.
 */
module EmailPattern {

  import opened Wrappers
  import opened DotNetString

  /** A character of the class `[^@\s]`. */
  predicate IsAddressChar(c: char) {
    c != '@' && !IsWhiteSpace(c)
  }

  predicate AllAddressChars(s: string) {
    forall i | 0 <= i < |s| :: IsAddressChar(s[i])
  }

  /** The domain's `.` is neither its first nor its last character. */
  predicate HasInnerDot(domain: string) {
    exists i | 0 < i < |domain| - 1 :: domain[i] == '.'
  }

  /** The check Submit applies to the e-mail text box: everything before the first `@` is a
      non-empty run of address characters, and everything after it is all address characters
      with an inner `.`. */
  predicate IsValidEmail(s: string) {
    match IndexOf(s, '@')
    case None => false
    case Some(k) => 0 < k && AllAddressChars(s[..k]) && AllAddressChars(s[k + 1..]) && HasInnerDot(s[k + 1..])
  }

  /** The pattern read literally: `s` is `local + "@" + d1 + "." + d2`, where `@` stands at `k`,
      the chosen `.` at `j`, and each of the three pieces is a non-empty run of `[^@\s]`. */
  ghost predicate MatchesPattern(s: string) {
    exists k, j | 0 < k && k + 1 < j < |s| - 1 ::
      s[k] == '@' && s[j] == '.'
      && AllAddressChars(s[..k]) && AllAddressChars(s[k + 1..j]) && AllAddressChars(s[j + 1..])
  }

  /** Every string the check accepts matches the pattern. */
  lemma ValidEmailMatches(s: string)
    requires IsValidEmail(s)
    ensures MatchesPattern(s)
  {
    var k := IndexOf(s, '@').value;
    var domain := s[k + 1..];
    var i :| 0 < i < |domain| - 1 && domain[i] == '.';
    var j := k + 1 + i;
    assert s[j] == '.';
    assert s[k + 1..j] == domain[..i];
    assert s[j + 1..] == domain[i + 1..];
  }

  /** The three pieces of a match and the two literals between them make up the whole domain. */
  lemma DomainOfMatch(s: string, k: nat, j: nat)
    requires 0 < k && k + 1 < j < |s| - 1 && s[j] == '.'
    requires AllAddressChars(s[k + 1..j]) && AllAddressChars(s[j + 1..])
    ensures AllAddressChars(s[k + 1..]) && HasInnerDot(s[k + 1..])
  {
    var domain := s[k + 1..];
    forall m | 0 <= m < |domain| ensures IsAddressChar(domain[m]) {
      if m < j - k - 1 {
        assert domain[m] == s[k + 1..j][m];
      } else if m > j - k - 1 {
        assert domain[m] == s[j + 1..][m - (j - k)];
      }
    }
    assert domain[j - k - 1] == '.';
  }

  /** Every string the pattern matches passes the check. */
  lemma MatchesAreValidEmails(s: string)
    requires MatchesPattern(s)
    ensures IsValidEmail(s)
  {
    var k, j :| 0 < k && k + 1 < j < |s| - 1 && s[k] == '@' && s[j] == '.'
      && AllAddressChars(s[..k]) && AllAddressChars(s[k + 1..j]) && AllAddressChars(s[j + 1..]);
    assert '@' !in s[..k] by {
      forall m | 0 <= m < k ensures s[..k][m] != '@' {
        assert IsAddressChar(s[..k][m]);
      }
    }
    IndexOfFirst(s, '@', k);
    DomainOfMatch(s, k, j);
  }

  /** The hand-written check accepts exactly the strings the pattern matches. */
  lemma IsValidEmailMatchesPattern(s: string)
    ensures IsValidEmail(s) <==> MatchesPattern(s)
  {
    if IsValidEmail(s) {
      ValidEmailMatches(s);
    }
    if MatchesPattern(s) {
      MatchesAreValidEmails(s);
    }
  }
}
