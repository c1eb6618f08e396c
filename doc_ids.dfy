/**
 * `sanitize_document_id`: how a text becomes a Firestore document id. The
 * text is stripped, each run of whitespace becomes one `_`, every character
 * outside `[A-Za-z0-9_-]` becomes `_`, an id of more than 1500 UTF-8 bytes is
 * cut to its first 500 characters, and an empty id becomes `"unknown"`.
 */
module DocIds {
  import opened Text
  import opened Seqs

  /** The characters `[a-zA-Z0-9_-]` that survive the rewrite. */
  predicate IsIdChar(c: char) {
    || 'a' <= c <= 'z'
    || 'A' <= c <= 'Z'
    || '0' <= c <= '9'
    || c == '_' || c == '-'
  }

  predicate IsIdString(s: string) {
    forall i :: 0 <= i < |s| ==> IsIdChar(s[i])
  }

  /** The largest id, in UTF-8 bytes, that is kept whole. */
  const MaxIdBytes := 1500
  /** How many characters a longer id is cut to. */
  const TruncatedLength := 500
  const Fallback := "unknown"

  /** `re.sub(r"[^a-zA-Z0-9_-]", "_", s)`. */
  function ReplaceNonId(s: string): (r: string)
    ensures |r| == |s|
    ensures forall i :: 0 <= i < |s| ==> r[i] == (if IsIdChar(s[i]) then s[i] else '_')
  {
    seq(|s|, i requires 0 <= i < |s| => if IsIdChar(s[i]) then s[i] else '_')
  }

  /** How many bytes the UTF-8 encoding of one code point takes. */
  function Utf8Width(c: char): nat {
    if c as int < 0x80 then 1
    else if c as int < 0x800 then 2
    else if c as int < 0x1_0000 then 3
    else 4
  }

  /** `len(s.encode("utf-8"))`. */
  function Utf8Length(s: string): nat {
    if s == [] then 0 else Utf8Width(s[0]) + Utf8Length(s[1..])
  }

  /** An id string is ASCII, so its UTF-8 length is its length. */
  lemma {:induction false} IdStringUtf8Length(s: string)
    requires IsIdString(s)
    ensures Utf8Length(s) == |s|
  {
    if s != [] {
      IdStringUtf8Length(s[1..]);
    }
  }

  /** The text after the two substitutions, before the length check. */
  function Rewritten(text: string): (t: string)
    ensures IsIdString(t)
  {
    ReplaceNonId(Collapse(Strip(text, IsSpace), IsSpace, '_'))
  }

  /** The result is a non-empty id of at most 1500 characters made only of
      `[A-Za-z0-9_-]`: the rewritten text when it is non-empty and short
      enough, its first 500 characters when it is longer than 1500, and
      `"unknown"` exactly when it is empty. */
  function SanitizeDocumentId(text: string): (r: string)
    ensures r != []
    ensures IsIdString(r)
    ensures |r| <= MaxIdBytes
    ensures |Rewritten(text)| > MaxIdBytes ==> r == Rewritten(text)[..TruncatedLength]
    ensures 0 < |Rewritten(text)| <= MaxIdBytes ==> r == Rewritten(text)
    ensures r == Fallback <==> Rewritten(text) == [] || Rewritten(text) == Fallback
  {
    var t := Rewritten(text);
    IdStringUtf8Length(t);
    var u := if Utf8Length(t) > MaxIdBytes then t[..TruncatedLength] else t;
    if u == [] then Fallback else u
  }

  /** No id character is whitespace, so collapsing and stripping leave an id
      string as it is. */
  lemma IdStringHasNoSpace(s: string)
    requires IsIdString(s)
    ensures forall i :: 0 <= i < |s| ==> !IsSpace(s[i])
  {
  }

  /** The ids that come out are exactly the non-empty id strings of at most
      1500 characters: each of those is its own id. */
  lemma SanitizeOfId(s: string)
    requires s != [] && IsIdString(s) && |s| <= MaxIdBytes
    ensures SanitizeDocumentId(s) == s
  {
    IdStringHasNoSpace(s);
    StripNothing(s, IsSpace);
    CollapseNothing(s, IsSpace, '_');
    IdStringUtf8Length(s);
    assert ReplaceNonId(s) == s;
  }

  /** Sanitising an id again changes nothing. */
  lemma SanitizeIdempotent(text: string)
    ensures SanitizeDocumentId(SanitizeDocumentId(text)) == SanitizeDocumentId(text)
  {
    SanitizeOfId(SanitizeDocumentId(text));
  }

  /** Collapsing a text that starts with characters outside the class keeps
      that part and collapses the rest. */
  lemma {:induction false} CollapseKeepsPrefix(a: string, t: string, cs: char -> bool, rep: char)
    requires forall i :: 0 <= i < |a| ==> !cs(a[i])
    ensures Collapse(a + t, cs, rep) == a + Collapse(t, cs, rep)
    decreases |a|
  {
    if a == [] {
      assert a + t == t;
    } else {
      assert (a + t)[0] == a[0];
      assert (a + t)[1..] == a[1..] + t;
      CollapseKeepsPrefix(a[1..], t, cs, rep);
      assert a == [a[0]] + a[1..];
    }
  }

  /** Collapsing two runs outside the class around one run inside it. */
  lemma CollapseJoin(a: string, w: string, b: string, cs: char -> bool, rep: char)
    requires forall i :: 0 <= i < |a| ==> !cs(a[i])
    requires forall i :: 0 <= i < |b| ==> !cs(b[i])
    requires w != [] && forall i :: 0 <= i < |w| ==> cs(w[i])
    requires b != []
    ensures Collapse(a + w + b, cs, rep) == a + [rep] + b
  {
    AppendAssoc(a, w, b);
    CollapseKeepsPrefix(a, w + b, cs, rep);
    CollapseRunThen(w, b, cs, rep);
    AppendAssoc(a, [rep], b);
  }

  /** A run inside the class followed by a text outside it collapses to
      `rep` followed by that text. */
  lemma CollapseRunThen(w: string, b: string, cs: char -> bool, rep: char)
    requires forall i :: 0 <= i < |b| ==> !cs(b[i])
    requires w != [] && forall i :: 0 <= i < |w| ==> cs(w[i])
    requires b != []
    ensures Collapse(w + b, cs, rep) == [rep] + b
  {
    LeadingRun(w, b, cs);
    assert (w + b)[0] == w[0];
    assert (w + b)[|w|..] == b;
    CollapseNothing(b, cs, rep);
  }

  /** A whitespace run between two words becomes one `_`: two non-empty ids
      joined by any run of whitespace give the ids joined by `_`. */
  lemma SanitizeJoinsWords(a: string, w: string, b: string)
    requires a != [] && IsIdString(a)
    requires b != [] && IsIdString(b)
    requires w != [] && forall i :: 0 <= i < |w| ==> IsSpace(w[i])
    requires |a| + 1 + |b| <= MaxIdBytes
    ensures SanitizeDocumentId(a + w + b) == a + "_" + b
  {
    var s := a + w + b;
    IdStringHasNoSpace(a);
    IdStringHasNoSpace(b);
    assert Strip(s, IsSpace) == s by {
      assert s[0] == a[0];
      assert s[|s| - 1] == b[|b| - 1];
    }
    CollapseJoin(a, w, b, IsSpace, '_');
    var joined := a + "_" + b;
    assert IsIdString(joined) by {
      forall i | 0 <= i < |joined| ensures IsIdChar(joined[i]) {
        if i < |a| {
          assert joined[i] == a[i];
        } else if i > |a| {
          assert joined[i] == b[i - |a| - 1];
        }
      }
    }
    assert ReplaceNonId(joined) == joined;
    IdStringUtf8Length(joined);
  }

  /** A run of characters of the class followed by one outside it is exactly
      what a leading strip drops. */
  lemma {:induction false} LeadingRun(w: string, b: string, cs: char -> bool)
    requires forall i :: 0 <= i < |w| ==> cs(w[i])
    requires b != [] && !cs(b[0])
    ensures LeadingCount(w + b, cs) == |w|
    decreases |w|
  {
    if w != [] {
      assert (w + b)[1..] == w[1..] + b;
      LeadingRun(w[1..], b, cs);
    } else {
      assert w + b == b;
    }
  }
}
