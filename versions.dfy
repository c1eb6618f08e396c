/**
 * The `"major.minor"` version strings the scraper keeps in Firestore:
 * `map(int, version.split("."))` to read one and `f"{major}.{minor + 1}"` to
 * make the next. A version that does not read as two integers makes the
 * unpacking or `int()` raise `ValueError`, modelled as `None`.
 */
module Versions {
  import opened PyDict
  import opened Numbers

  /** Where `sep` first occurs in `s`. */
  function FirstIndex(s: string, sep: char): (i: nat)
    requires sep in s
    ensures i < |s| && s[i] == sep && sep !in s[..i]
  {
    if s[0] == sep then 0
    else
      assert sep in s[1..] by {
        var k :| 0 <= k < |s| && s[k] == sep;
        assert s[1..][k - 1] == sep;
      }
      var j := FirstIndex(s[1..], sep);
      assert s[..j + 1] == [s[0]] + s[1..][..j];
      j + 1
  }

  /** `s.split(sep)`: the parts between the separators, empty ones
      included; there is always at least one. */
  function Split(s: string, sep: char): (r: seq<string>)
    ensures |r| >= 1
    decreases |s|
  {
    if sep !in s then [s]
    else
      var i := FirstIndex(s, sep);
      [s[..i]] + Split(s[i + 1..], sep)
  }

  /** Two parts free of the separator, joined by it, split back into the
      two parts. */
  lemma SplitJoined(x: string, y: string, sep: char)
    requires sep !in x && sep !in y
    ensures Split(x + [sep] + y, sep) == [x, y]
  {
    var s := x + [sep] + y;
    assert s[|x|] == sep;
    var i := FirstIndex(s, sep);
    assert i == |x|;
    assert s[..i] == x;
    assert s[i + 1..] == y;
  }

  /** `major, minor = map(int, version.split("."))`. */
  function ParseVersion(v: string): (r: Option<(int, int)>)
    ensures r.Some? ==> |Split(v, '.')| == 2
  {
    var parts := Split(v, '.');
    if |parts| != 2 then None
    else
      match (ParseInt(parts[0]), ParseInt(parts[1]))
      case (Some(major), Some(minor)) => Some((major, minor))
      case _ => None
  }

  /** `f"{major}.{minor}"`. */
  function FormatVersion(major: int, minor: int): string {
    IntToString(major) + "." + IntToString(minor)
  }

  lemma NoDotInInt(i: int)
    ensures '.' !in IntToString(i)
  {
    var s := IntToString(i);
    if i < 0 {
      assert s == "-" + NatToString(-i);
    }
  }

  /** A version that is written can be read back. */
  lemma ParseFormatVersion(major: int, minor: int)
    ensures ParseVersion(FormatVersion(major, minor)) == Some((major, minor))
  {
    NoDotInInt(major);
    NoDotInInt(minor);
    SplitJoined(IntToString(major), IntToString(minor), '.');
    ParseIntOfString(major);
    ParseIntOfString(minor);
  }

  /** The next minor version, `f"{major}.{minor + 1}"`, or `None` where the
      source raises `ValueError`. */
  function BumpMinor(v: string): (r: Option<string>) {
    var parsed := ParseVersion(v);
    if parsed.Some? then Some(FormatVersion(parsed.value.0, parsed.value.1 + 1)) else None
  }

  /** Bumping fails exactly when the version does not read as two
      integers. */
  lemma BumpMinorFails(v: string)
    ensures BumpMinor(v).None? <==> ParseVersion(v).None?
  {
  }

  /** A version that reads as two integers bumps to one that reads as the
      same major and the next minor number. */
  lemma BumpMinorSpec(v: string, major: int, minor: int)
    requires ParseVersion(v) == Some((major, minor))
    ensures BumpMinor(v).Some? && ParseVersion(BumpMinor(v).value) == Some((major, minor + 1))
  {
    BumpMinorValue(v, major, minor);
    ParseFormatVersion(major, minor + 1);
  }

  lemma BumpMinorValue(v: string, major: int, minor: int)
    requires ParseVersion(v) == Some((major, minor))
    ensures BumpMinor(v) == Some(FormatVersion(major, minor + 1))
  {
  }
}
