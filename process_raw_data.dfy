/**
 * Turning the raw scraped records into validated translation entries: an
 * order-preserving filter through `validate_translation_entry`.
 */
module RawData {
  import opened PyDict
  import opened Records
  import opened Definitions
  import opened Seqs

  /** The validated forms of the records of `raw` that validation accepts,
      in their input order. */
  function ValidEntries(raw: seq<RawEntry>): seq<Entry> {
    FilterMap(raw, ValidateTranslationEntry)
  }

  /** What the output of `process_raw_data` is: no longer than the input, made
      of exactly the validated forms of accepted records, each well formed
      (non-empty texts, a definition of at least six characters ending in a
      period), and in input order (processing two lists one after the other
      gives the two outputs one after the other). */
  lemma ValidEntriesSpec(raw: seq<RawEntry>)
    ensures |ValidEntries(raw)| <= |raw|
    ensures raw == [] ==> ValidEntries(raw) == []
    ensures forall e :: e in ValidEntries(raw) <==>
      exists i :: 0 <= i < |raw| && ValidateTranslationEntry(raw[i]) == Some(e)
    ensures forall e :: e in ValidEntries(raw) ==> WellFormed(e)
    ensures |ValidEntries(raw)| == |raw| <==> forall i :: 0 <= i < |raw| ==> ValidateTranslationEntry(raw[i]).Some?
  {
    forall e ensures e in ValidEntries(raw) <==>
      exists i :: 0 <= i < |raw| && ValidateTranslationEntry(raw[i]) == Some(e)
    {
      FilterMapMembers(raw, ValidateTranslationEntry, e);
    }
    FilterMapKeepsAll(raw, ValidateTranslationEntry);
  }

  lemma ValidEntriesAppend(a: seq<RawEntry>, b: seq<RawEntry>)
    ensures ValidEntries(a + b) == ValidEntries(a) + ValidEntries(b)
  {
    FilterMapAppend(a, b, ValidateTranslationEntry);
  }

  /** `process_raw_data`: validates the records one by one and appends the
      accepted ones to a new list; the input list is a value and is left as
      it is. */
  method ProcessRawData(raw: seq<RawEntry>) returns (validated: seq<Entry>)
    ensures validated == ValidEntries(raw)
  {
    validated := [];
    for i := 0 to |raw|
      invariant validated == ValidEntries(raw[..i])
    {
      assert raw[..i + 1][..i] == raw[..i];
      match ValidateTranslationEntry(raw[i])
      case Some(e) =>
        validated := validated + [e];
      case None =>
    }
    assert raw[..|raw|] == raw;
  }
}
