/**
 * The records the ingestion pipeline passes between its stages.
 */
module Records {
  import opened PyDict

  /** A value of a raw scraped record, as `json.load` gives it: a string, a
      list, or anything else (a number, `null`, an object). */
  datatype RawValue = Str(s: string) | List(items: seq<RawValue>) | Other

  /** A raw scraped record, a JSON object such as
      `{"ojibwe_text": ..., "english_text": [...], "definition": ...}`, seen
      through the three keys the pipeline reads; `None` is a missing key. */
  datatype RawEntry = RawEntry(ojibweText: Option<RawValue>, englishText: Option<RawValue>, definition: Option<RawValue>)

  /** A translation entry that passed validation. */
  datatype Entry = Entry(ojibweText: string, englishText: seq<string>, definition: string)

  /** A document of the `english_to_ojibwe` collection (and, with a version,
      a row of `english_to_ojibwe_local`). */
  datatype EnglishToOjibwe = EnglishToOjibwe(englishText: string, ojibweText: string, definition: string)

  /** A document of the `ojibwe_to_english` collection. */
  datatype OjibweToEnglish = OjibweToEnglish(ojibweText: string, englishText: seq<string>)

  /** A semantic match between an English word and an Ojibwe word; the
      similarity score is a float in the source and only stored here. */
  datatype SemanticMatch = SemanticMatch(
    englishText: string, ojibweText: string, similarity: real,
    englishDefinition: string, ojibweDefinition: string)
}
