/**
 * The few Python `str` operations the pipeline relies on, written over
 * `string` (a sequence of Unicode code points, as a Python `str` is):
 * `strip(chars)`, `lower()`, `upper()` of one character, and the regular
 * expression substitution that replaces every maximal run of some characters
 * by one replacement character (`re.sub(r"\s+", " ", s)`). A set of
 * characters is given by its membership predicate.
 */
module Text {

  /** Python's `str.isspace()`; these are also exactly the characters that
      `\s` matches in a `str` pattern. */
  predicate IsSpace(c: char) {
    || c == ' '
    || '\t' <= c <= '\r'
    || '\U{001C}' <= c <= '\U{001F}'
    || c == '\U{0085}' || c == '\U{00A0}' || c == '\U{1680}'
    || '\U{2000}' <= c <= '\U{200A}'
    || c == '\U{2028}' || c == '\U{2029}' || c == '\U{202F}' || c == '\U{205F}' || c == '\U{3000}'
  }

  predicate IsAsciiUpper(c: char) { 'A' <= c <= 'Z' }
  predicate IsAsciiLower(c: char) { 'a' <= c <= 'z' }
  predicate IsDigit(c: char) { '0' <= c <= '9' }

  /** `c.lower()` on the ASCII letters; every other character is kept. */
  function LowerChar(c: char): (r: char)
    ensures !IsAsciiUpper(r)
    ensures IsAsciiUpper(c) || r == c
  {
    if IsAsciiUpper(c) then (c as int + 32) as char else c
  }

  /** `c.upper()` on the ASCII letters; every other character is kept. */
  function UpperChar(c: char): (r: char)
    ensures !IsAsciiLower(r)
    ensures IsAsciiLower(c) || r == c
  {
    if IsAsciiLower(c) then (c as int - 32) as char else c
  }

  /** `s.lower()`. */
  function Lower(s: string): (r: string)
    ensures |r| == |s|
    ensures forall i :: 0 <= i < |s| ==> r[i] == LowerChar(s[i])
  {
    seq(|s|, i requires 0 <= i < |s| => LowerChar(s[i]))
  }

  /** A string that `lower()` leaves unchanged. */
  predicate IsLowerCase(s: string) {
    forall i :: 0 <= i < |s| ==> !IsAsciiUpper(s[i])
  }

  lemma LowerIsLowerCase(s: string)
    ensures IsLowerCase(Lower(s))
    ensures Lower(Lower(s)) == Lower(s)
  {
  }

  lemma LowerOfLowerCase(s: string)
    requires IsLowerCase(s)
    ensures Lower(s) == s
  {
  }

  /** `[e.lower() for e in xs]`. */
  function LowerAll(xs: seq<string>): (r: seq<string>)
    ensures |r| == |xs|
    ensures forall i :: 0 <= i < |xs| ==> r[i] == Lower(xs[i])
  {
    seq(|xs|, i requires 0 <= i < |xs| => Lower(xs[i]))
  }

  /** How many characters `s.lstrip(chars)` drops: the longest prefix of
      characters in the class. */
  function LeadingCount(s: string, cs: char -> bool): (n: nat)
    ensures n <= |s|
    ensures n < |s| ==> !cs(s[n])
  {
    if s != [] && cs(s[0]) then 1 + LeadingCount(s[1..], cs) else 0
  }

  /** Every character of the prefix `LeadingCount` measures is in the class. */
  lemma {:induction false} LeadingInClass(s: string, cs: char -> bool)
    ensures forall i :: 0 <= i < LeadingCount(s, cs) ==> cs(s[i])
    decreases |s|
  {
    if s != [] && cs(s[0]) {
      LeadingInClass(s[1..], cs);
      assert forall i :: 1 <= i < LeadingCount(s, cs) ==> s[i] == s[1..][i - 1];
    }
  }

  /** Where the suffix that `s.rstrip(chars)` drops begins: the longest
      suffix of characters in the class. */
  function TrailingStart(s: string, cs: char -> bool): (n: nat)
    ensures n <= |s|
    ensures 0 < n ==> !cs(s[n - 1])
  {
    if s != [] && cs(s[|s| - 1]) then TrailingStart(s[..|s| - 1], cs) else |s|
  }

  /** Every character of the suffix `TrailingStart` marks is in the class. */
  lemma {:induction false} TrailingInClass(s: string, cs: char -> bool)
    ensures forall i :: TrailingStart(s, cs) <= i < |s| ==> cs(s[i])
    decreases |s|
  {
    if s != [] && cs(s[|s| - 1]) {
      TrailingInClass(s[..|s| - 1], cs);
      assert forall i :: 0 <= i < |s| - 1 ==> s[i] == s[..|s| - 1][i];
    }
  }

  /** `s.strip(chars)`: the result is the part of `s` left once the longest
      prefix and then the longest suffix of characters of the class are
      dropped; it neither starts nor ends with one. */
  function Strip(s: string, cs: char -> bool): (r: string)
    ensures |r| <= |s|
    ensures r != [] ==> !cs(r[0]) && !cs(r[|r| - 1])
  {
    var a := LeadingCount(s, cs);
    var b := TrailingStart(s, cs);
    if a < b then s[a..b] else []
  }

  /** What `Strip` keeps: the characters of `s` after the dropped prefix, up
      to a suffix made only of characters of the class. */
  lemma StripSpec(s: string, cs: char -> bool)
    ensures var a, r := LeadingCount(s, cs), Strip(s, cs);
      && a + |r| <= |s|
      && (forall i :: 0 <= i < |r| ==> r[i] == s[a + i])
      && (forall i :: a + |r| <= i < |s| ==> cs(s[i]))
  {
    var a, b := LeadingCount(s, cs), TrailingStart(s, cs);
    TrailingInClass(s, cs);
    if a < b {
      assert Strip(s, cs) == s[a..b];
    } else {
      assert Strip(s, cs) == [];
    }
  }

  /** When no character of `s` is in the class, stripping changes nothing. */
  lemma StripNothing(s: string, cs: char -> bool)
    requires forall i :: 0 <= i < |s| ==> !cs(s[i])
    ensures Strip(s, cs) == s
  {
  }

  /** `re.sub("[cs]+", rep, s)`: every maximal run of characters of the class
      is replaced by the single character `rep`; everything else is kept. */
  function Collapse(s: string, cs: char -> bool, rep: char): (r: string)
    ensures |r| <= |s|
    ensures s == [] <==> r == []
    ensures s != [] && !cs(s[0]) ==> r[0] == s[0]
    ensures s != [] && cs(s[0]) ==> r[0] == rep
    decreases |s|
  {
    if s == [] then []
    else if cs(s[0]) then [rep] + Collapse(s[LeadingCount(s, cs)..], cs, rep)
    else [s[0]] + Collapse(s[1..], cs, rep)
  }

  /** What `Collapse` guarantees: a character of the class occurs only as
      `rep`, and never next to another one. */
  predicate RunsCollapsed(r: string, cs: char -> bool, rep: char) {
    && (forall i :: 0 <= i < |r| && cs(r[i]) ==> r[i] == rep)
    && (forall i, j :: 0 <= i < |r| && j == i + 1 && j < |r| ==> !cs(r[i]) || !cs(r[j]))
  }

  lemma {:induction false} CollapseRuns(s: string, cs: char -> bool, rep: char)
    ensures RunsCollapsed(Collapse(s, cs, rep), cs, rep)
    decreases |s|
  {
    if s == [] {
    } else if cs(s[0]) {
      var t := s[LeadingCount(s, cs)..];
      CollapseRuns(t, cs, rep);
      var rest := Collapse(t, cs, rep);
      var r := Collapse(s, cs, rep);
      assert r == [rep] + rest;
      forall i, j | 0 <= i < |r| && j == i + 1 && j < |r|
        ensures !cs(r[i]) || !cs(r[j])
      {
        if i == 0 {
          assert t != [] && !cs(t[0]);
          assert r[j] == rest[0];
        } else {
          assert r[i] == rest[i - 1] && r[j] == rest[j - 1];
        }
      }
    } else {
      CollapseRuns(s[1..], cs, rep);
      var rest := Collapse(s[1..], cs, rep);
      var r := Collapse(s, cs, rep);
      assert r == [s[0]] + rest;
      forall i, j | 0 <= i < |r| && j == i + 1 && j < |r|
        ensures !cs(r[i]) || !cs(r[j])
      {
        if i > 0 {
          assert r[i] == rest[i - 1] && r[j] == rest[j - 1];
        }
      }
    }
  }

  /** When no character of `s` is in the class, collapsing changes nothing. */
  lemma {:induction false} CollapseNothing(s: string, cs: char -> bool, rep: char)
    requires forall i :: 0 <= i < |s| ==> !cs(s[i])
    ensures Collapse(s, cs, rep) == s
    decreases |s|
  {
    if s != [] {
      CollapseNothing(s[1..], cs, rep);
    }
  }

  /** Stripping a string whose runs are collapsed leaves them collapsed. */
  lemma StripKeepsRunsCollapsed(s: string, cs: char -> bool, ds: char -> bool, rep: char)
    requires RunsCollapsed(s, cs, rep)
    ensures RunsCollapsed(Strip(s, ds), cs, rep)
  {
    var t := Strip(s, ds);
    var a := LeadingCount(s, ds);
    StripSpec(s, ds);
    forall i, j | 0 <= i < |t| && j == i + 1 && j < |t|
      ensures !cs(t[i]) || !cs(t[j])
    {
      assert t[i] == s[a + i] && t[j] == s[a + j];
    }
  }

  /** The answer to a `(Y/n)` prompt accepts: once stripped and lower-cased,
      it is empty (the default), `y` or `yes`. */
  predicate AnswersYes(answer: string) {
    var a := Lower(Strip(answer, IsSpace));
    a == "" || a == "y" || a == "yes"
  }
}
