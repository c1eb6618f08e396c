/**
 * Cleaning, validating and formatting the definitions of scraped entries,
 * and validating a whole raw entry before it is stored.
 */
module Definitions {
  import opened Text
  import opened Records
  import opened PyDict

  /** The characters `clean_definition` strips from both ends:
      `.,;:!?()[]{}`. */
  predicate IsPunctuation(c: char) {
    || c == '.' || c == ',' || c == ';' || c == ':' || c == '!' || c == '?'
    || c == '(' || c == ')' || c == '[' || c == ']' || c == '{' || c == '}'
  }

  /** The characters of the class `[0-9.,;:!?()[\]{}\- ]`. */
  predicate IsNumericOrPunctuation(c: char) {
    IsDigit(c) || IsPunctuation(c) || c == '-' || c == ' '
  }

  /** The default `min_length` of `is_valid_definition`. */
  const DefaultMinLength := 5

  /** Index of the first occurrence of `c` in `s`. */
  function IndexOf(s: string, c: char): (i: nat)
    requires c in s
    ensures i < |s| && s[i] == c
    ensures forall j :: 0 <= j < i ==> s[j] != c
  {
    if s[0] == c then 0 else 1 + IndexOf(s[1..], c)
  }

  /** `s` starts with a match of `<[^>]+>`: a `<`, at least one character
      other than `>`, then a `>`. */
  predicate StartsWithTag(s: string) {
    |s| > 1 && s[0] == '<' && s[1] != '>' && '>' in s[2..]
  }

  /** `re.sub(r"<[^>]+>", "", s)`: scanning left to right, each match is
      removed, from its `<` up to the first `>` after it. */
  function StripTags(s: string): (r: string)
    ensures |r| <= |s|
    ensures forall c :: c in r ==> c in s
    ensures s != [] && s[0] != '<' ==> r != [] && r[0] == s[0]
    decreases |s|
  {
    if s == [] then []
    else if StartsWithTag(s) then StripTags(s[IndexOf(s[2..], '>') + 3..])
    else [s[0]] + StripTags(s[1..])
  }

  /** No match of `<[^>]+>` is left anywhere in `r`. */
  predicate NoTag(r: string) {
    forall i :: 0 <= i < |r| ==> !StartsWithTag(r[i..])
  }

  lemma {:induction false} StripTagsLeavesNoTag(s: string)
    ensures NoTag(StripTags(s))
    decreases |s|
  {
    if s == [] {
    } else if StartsWithTag(s) {
      StripTagsLeavesNoTag(s[IndexOf(s[2..], '>') + 3..]);
    } else {
      var rest := StripTags(s[1..]);
      StripTagsLeavesNoTag(s[1..]);
      var r := [s[0]] + rest;
      assert StripTags(s) == r;
      forall i | 0 <= i < |r| ensures !StartsWithTag(r[i..]) {
        if i == 0 {
          if s[0] == '<' && |s| > 1 && s[1] != '>' {
            assert '>' !in s[1..] by {
              assert s[1..] == [s[1]] + s[2..];
            }
            assert '>' !in rest;
            assert r[2..] == rest[1..];
          } else if s[0] == '<' && |s| > 1 {
            assert rest[0] == '>';
          }
        } else {
          assert r[i..] == rest[i - 1..];
        }
      }
    }
  }

  /** `clean_definition`: drop HTML tags, turn every whitespace run into one
      space, strip whitespace, then strip the punctuation above from both ends. */
  function CleanDefinition(d: string): (r: string)
    ensures d == [] ==> r == []
    ensures |r| <= |d|
    ensures r != [] ==> !IsPunctuation(r[0]) && !IsPunctuation(r[|r| - 1])
  {
    if d == [] then []
    else Strip(Strip(Collapse(StripTags(d), IsSpace, ' '), IsSpace), IsPunctuation)
  }

  /** A cleaned definition holds no whitespace but single spaces. */
  lemma CleanDefinitionCollapsed(d: string)
    ensures RunsCollapsed(CleanDefinition(d), IsSpace, ' ')
  {
    if d != [] {
      var collapsed := Collapse(StripTags(d), IsSpace, ' ');
      CollapseRuns(StripTags(d), IsSpace, ' ');
      StripKeepsRunsCollapsed(collapsed, IsSpace, IsSpace, ' ');
      StripKeepsRunsCollapsed(Strip(collapsed, IsSpace), IsSpace, IsPunctuation, ' ');
    }
  }

  /** `j` is where the two characters `": "` start in `s`. */
  predicate SeparatorAt(s: string, j: int) {
    0 <= j && j + 1 < |s| && s[j] == ':' && s[j + 1] == ' '
  }

  /** The index of the first `": "` in `s` at or after `from`. */
  function FindSeparator(s: string, from: nat): (r: Option<nat>)
    ensures r.Some? ==> from <= r.value && SeparatorAt(s, r.value)
    ensures r.Some? ==> forall j :: from <= j < r.value ==> !SeparatorAt(s, j)
    ensures r.None? ==> forall j :: from <= j ==> !SeparatorAt(s, j)
    decreases |s| - from
  {
    if from + 1 >= |s| then None
    else if s[from] == ':' && s[from + 1] == ' ' then Some(from)
    else FindSeparator(s, from + 1)
  }

  /** The placeholder test: the text has a `": "` and what follows its first
      occurrence, stripped, is shorter than `minLength`. */
  predicate IsPlaceholder(c: string, minLength: int) {
    match FindSeparator(c, 0)
    case Some(j) => |Strip(c[j + 2..], IsSpace)| < minLength
    case None => false
  }

  /** `re.match(r"^[0-9.,;:!?()[\]{}\- ]+$", c)` on a cleaned text, which has
      no newline for `$` to stop before. */
  predicate OnlyNumericOrPunctuation(c: string) {
    c != [] && forall i :: 0 <= i < |c| ==> IsNumericOrPunctuation(c[i])
  }

  /** `is_valid_definition`. */
  predicate IsValidDefinition(d: string, minLength: int) {
    && d != []
    && var c := CleanDefinition(d);
    && c != []
    && |c| >= minLength
    && !IsPlaceholder(c, minLength)
    && !OnlyNumericOrPunctuation(c)
  }

  /** `c[0].upper() + c[1:]`. */
  function Capitalise(c: string): (r: string)
    requires c != []
    ensures |r| == |c| && r[0] == UpperChar(c[0])
    ensures forall i :: 1 <= i < |c| ==> r[i] == c[i]
  {
    [UpperChar(c[0])] + c[1..]
  }

  /** `f if f.endswith(".") else f + "."`. */
  function WithPeriod(f: string): (r: string)
    ensures r != [] && r[|r| - 1] == '.'
    ensures f != [] && f[|f| - 1] == '.' ==> r == f
    ensures f == [] || f[|f| - 1] != '.' ==> |r| == |f| + 1 && forall i :: 0 <= i < |f| ==> r[i] == f[i]
  {
    if f != [] && f[|f| - 1] == '.' then f else f + ['.']
  }

  /** `format_definition`: the cleaned text, when it is still a valid
      definition (default minimum length), with its first character upper-cased
      and a period appended unless it already ends in one; `""` otherwise. */
  function FormatDefinition(d: string): (r: string)
    ensures r == [] <==> !IsValidDefinition(CleanDefinition(d), DefaultMinLength)
    ensures r != [] ==> EndsWithPeriod(r)
  {
    var c := CleanDefinition(d);
    if !IsValidDefinition(c, DefaultMinLength) then []
    else WithPeriod(Capitalise(c))
  }

  /** Capitalising a cleaned text never makes it end in a period. */
  lemma CapitalisedCleanNoPeriod(d: string)
    requires CleanDefinition(d) != []
    ensures var f := Capitalise(CleanDefinition(d)); f[|f| - 1] != '.'
  {
    var c := CleanDefinition(d);
    assert !IsPunctuation(c[|c| - 1]);
  }

  /** A definition `is_valid_definition` accepts is itself at least
      `min_length` characters long, because cleaning never lengthens it. */
  lemma ValidDefinitionLength(c: string, minLength: int)
    requires IsValidDefinition(c, minLength)
    ensures |c| >= minLength
  {
    assert |CleanDefinition(c)| <= |c|;
  }

  /** A non-empty `format_definition` result has at least six characters. */
  lemma FormattedLength(d: string)
    requires FormatDefinition(d) != []
    ensures |FormatDefinition(d)| >= DefaultMinLength + 1
  {
    ValidDefinitionLength(CleanDefinition(d), DefaultMinLength);
    CapitalisedCleanNoPeriod(d);
  }

  /** What a non-empty `format_definition` result is, in terms of the cleaned
      text `c`: `c` with an upper-cased first character and one period added
      (a cleaned text never ends in a period, so one is always added), hence
      at least six characters long. */
  lemma FormatDefinitionShape(d: string)
    requires FormatDefinition(d) != []
    ensures var c, r := CleanDefinition(d), FormatDefinition(d);
      && |r| == |c| + 1 && |r| >= DefaultMinLength + 1
      && r[0] == UpperChar(c[0]) && r[|c|] == '.'
      && forall i :: 1 <= i < |c| ==> r[i] == c[i]
  {
    var c := CleanDefinition(d);
    ValidDefinitionLength(c, DefaultMinLength);
    CapitalisedCleanNoPeriod(d);
    var f := Capitalise(c);
    assert WithPeriod(f) == FormatDefinition(d);
  }

  /** The default-argument reading of `is_valid_definition(d)`. */
  predicate IsValid(d: string) {
    IsValidDefinition(d, DefaultMinLength)
  }

  predicate EndsWithPeriod(s: string) {
    s != [] && s[|s| - 1] == '.'
  }

  /** At least two characters long once stripped of whitespace. */
  predicate HasTwoChars(t: string) {
    |Strip(t, IsSpace)| >= 2
  }

  /** A well-formed validated entry, as `validate_translation_entry` returns it. */
  predicate WellFormed(e: Entry) {
    && HasTwoChars(e.ojibweText)
    && |e.englishText| > 0
    && (forall i :: 0 <= i < |e.englishText| ==> HasTwoChars(e.englishText[i]))
    && |e.definition| >= DefaultMinLength + 1
    && EndsWithPeriod(e.definition)
  }

  /** The `ojibwe_text` check: a string at least two characters long once
      stripped. */
  predicate IsOjibweText(v: RawValue) {
    v.Str? && HasTwoChars(v.s)
  }

  /** The `english_text` check: a non-empty list of strings, each at least two
      characters long once stripped. */
  predicate IsEnglishTexts(v: RawValue) {
    && v.List?
    && |v.items| > 0
    && forall i :: 0 <= i < |v.items| ==> v.items[i].Str? && HasTwoChars(v.items[i].s)
  }

  function Strings(items: seq<RawValue>): (r: seq<string>)
    requires forall i :: 0 <= i < |items| ==> items[i].Str?
    ensures |r| == |items| && forall i :: 0 <= i < |items| ==> r[i] == items[i].s
  {
    seq(|items|, i requires 0 <= i < |items| => items[i].s)
  }

  /** The strings of an accepted `english_text` list keep what was checked. */
  lemma EnglishTextsKept(v: RawValue)
    requires IsEnglishTexts(v)
    ensures var t := Strings(v.items); |t| > 0 && forall i :: 0 <= i < |t| ==> HasTwoChars(t[i])
  {
  }

  predicate HasRequiredKeys(entry: RawEntry) {
    entry.ojibweText.Some? && entry.englishText.Some? && entry.definition.Some?
  }

  /** `validate_translation_entry`: `None` unless every check passes; then the
      same texts with the formatted definition. The `min_length` parameter of
      the source is never used by it, so it is not modelled. */
  function ValidateTranslationEntry(entry: RawEntry): (r: Option<Entry>)
    ensures r.Some? ==> WellFormed(r.value)
    ensures r.Some? ==> && HasRequiredKeys(entry)
                        && entry.ojibweText.value == Str(r.value.ojibweText)
                        && IsEnglishTexts(entry.englishText.value)
                        && r.value.englishText == Strings(entry.englishText.value.items)
                        && entry.definition.value.Str?
                        && r.value.definition == FormatDefinition(entry.definition.value.s)
  {
    if !HasRequiredKeys(entry) then None
    else if !IsOjibweText(entry.ojibweText.value) then None
    else if !IsEnglishTexts(entry.englishText.value) then None
    else if !entry.definition.value.Str? then None
    else
      var formatted := FormatDefinition(entry.definition.value.s);
      if formatted == [] then None
      else
        FormattedLength(entry.definition.value.s);
        EnglishTextsKept(entry.englishText.value);
        Some(Entry(entry.ojibweText.value.s, Strings(entry.englishText.value.items), formatted))
  }

  /** The entries `validate_translation_entry` rejects are exactly those with a
      missing key, a bad `ojibwe_text`, a bad `english_text`, or a definition
      that is not a string or formats to `""`. */
  lemma ValidateRejects(entry: RawEntry)
    ensures ValidateTranslationEntry(entry).None? <==>
      || !HasRequiredKeys(entry)
      || !IsOjibweText(entry.ojibweText.value)
      || !IsEnglishTexts(entry.englishText.value)
      || !entry.definition.value.Str?
      || FormatDefinition(entry.definition.value.s) == []
  {
  }
}
