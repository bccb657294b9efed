/**
 The few .NET string operations the form relies on, stated over `string` (a `seq<char>`):
 `Char.IsWhiteSpace`, `String.IsNullOrWhiteSpace`, `String.Contains` and the ordinal
 `String.Replace(string, string)`, plus a line joiner and splitter used to read the summary text.
 */
module DotNetString {

  import opened Wrappers

  /** `Char.IsWhiteSpace`: the Unicode separators (categories Zs, Zl, Zp), the controls
      U+0009..U+000D and U+0085. The class `\s` of .NET regular expressions is the same set. */
  predicate IsWhiteSpace(c: char) {
    c == ' ' || ('\t' <= c <= '\r') || c == '\U{0085}' || c == '\U{00A0}' || c == '\U{1680}'
    || ('\U{2000}' <= c <= '\U{200A}') || c == '\U{2028}' || c == '\U{2029}'
    || c == '\U{202F}' || c == '\U{205F}' || c == '\U{3000}'
  }

  /** `String.IsNullOrWhiteSpace` of a text box's text, which is never null: empty or only white space. */
  predicate IsNullOrWhiteSpace(s: string) {
    forall i | 0 <= i < |s| :: IsWhiteSpace(s[i])
  }

  predicate StartsWith(s: string, prefix: string) {
    |prefix| <= |s| && s[..|prefix|] == prefix
  }

  /** Ordinal `String.Contains`: `p` occurs in `s` at some position. */
  predicate Contains(s: string, p: string)
    decreases |s|
  {
    StartsWith(s, p) || (|s| > 0 && Contains(s[1..], p))
  }

  /** Ordinal `String.Replace(oldValue, newValue)`: scans left to right and replaces every
      non-overlapping occurrence of `oldValue`. .NET throws on an empty `oldValue`. */
  function Replace(s: string, oldValue: string, newValue: string): string
    requires |oldValue| > 0
    decreases |s|
  {
    if StartsWith(s, oldValue) then newValue + Replace(s[|oldValue|..], oldValue, newValue)
    else if |s| == 0 then ""
    else [s[0]] + Replace(s[1..], oldValue, newValue)
  }

  lemma {:induction false} ShorterNeverContains(s: string, p: string)
    requires |s| < |p|
    ensures !Contains(s, p)
  {
    if |s| > 0 {
      ShorterNeverContains(s[1..], p);
    }
  }

  /** Replacing a pattern that does not occur changes nothing. */
  lemma {:induction false} ReplaceAbsent(s: string, oldValue: string, newValue: string)
    requires |oldValue| > 0 && !Contains(s, oldValue)
    ensures Replace(s, oldValue, newValue) == s
  {
    if |s| > 0 {
      ReplaceAbsent(s[1..], oldValue, newValue);
      assert [s[0]] + s[1..] == s;
    }
  }

  /** An occurrence at the very start is replaced, and the scan resumes right after it. */
  lemma ReplaceLeading(p: string, rest: string, newValue: string)
    requires |p| > 0
    ensures Replace(p + rest, p, newValue) == newValue + Replace(rest, p, newValue)
  {
    assert (p + rest)[..|p|] == p;
    assert (p + rest)[|p|..] == rest;
  }

  /** Removing every `p` never lengthens a text. */
  lemma {:induction false} ReplaceNoLonger(s: string, p: string)
    requires |p| > 0
    ensures |Replace(s, p, "")| <= |s|
    decreases |s|
  {
    if StartsWith(s, p) {
      ReplaceNoLonger(s[|p|..], p);
    } else if |s| > 0 {
      ReplaceNoLonger(s[1..], p);
    }
  }

  /** Removing every `p` from a text that contains `p` shortens it by at least `|p|`. */
  lemma {:induction false} ReplaceShrinks(s: string, p: string)
    requires |p| > 0 && Contains(s, p)
    ensures |Replace(s, p, "")| <= |s| - |p|
    decreases |s|
  {
    if StartsWith(s, p) {
      ReplaceNoLonger(s[|p|..], p);
    } else {
      ReplaceShrinks(s[1..], p);
    }
  }

  /** Prefixing `p` to a text in which `p` does not occur, then removing every `p`, gives the text back. */
  lemma StripPrefix(p: string, rest: string)
    requires |p| > 0 && !Contains(rest, p)
    ensures Replace(p + rest, p, "") == rest
  {
    ReplaceLeading(p, rest, "");
    ReplaceAbsent(rest, p, "");
  }

  /** `String.Join(sep, lines)`. */
  function Join(lines: seq<string>, sep: char): string
    decreases |lines|
  {
    if |lines| == 0 then ""
    else if |lines| == 1 then lines[0]
    else lines[0] + [sep] + Join(lines[1..], sep)
  }

  /** The index of the first `c` in `s`, if any. */
  function IndexOf(s: string, c: char): (r: Option<nat>)
    ensures r.Some? ==> r.value < |s| && s[r.value] == c && c !in s[..r.value]
    ensures r.None? <==> c !in s
    decreases |s|
  {
    if |s| == 0 then None
    else if s[0] == c then Some(0)
    else match IndexOf(s[1..], c)
      case None => None
      case Some(i) => Some(i + 1)
  }

  /** A `c` with no `c` before it is the first one. */
  lemma IndexOfFirst(s: string, c: char, k: nat)
    requires k < |s| && s[k] == c && c !in s[..k]
    ensures IndexOf(s, c) == Some(k)
  {
    assert s[k] in s;
  }

  /** `String.Split(sep)`: the pieces between the separators, in order. */
  function Split(s: string, sep: char): (r: seq<string>)
    ensures |r| > 0
    decreases |s|
  {
    match IndexOf(s, sep)
    case None => [s]
    case Some(i) => [s[..i]] + Split(s[i + 1..], sep)
  }

  /** Splitting a join gives the lines back, provided no line holds the separator. */
  lemma {:induction false} SplitJoin(lines: seq<string>, sep: char)
    requires |lines| > 0
    requires forall i | 0 <= i < |lines| :: sep !in lines[i]
    ensures Split(Join(lines, sep), sep) == lines
  {
    if |lines| > 1 {
      var s := Join(lines, sep);
      var head := lines[0];
      assert s == head + [sep] + Join(lines[1..], sep);
      assert s[..|head|] == head;
      assert s[|head|] == sep;
      IndexOfFirst(s, sep, |head|);
      assert s[|head| + 1..] == Join(lines[1..], sep);
      SplitJoin(lines[1..], sep);
    }
  }
}
