/**
 * The local SQLite store: the five tables the pipeline writes, and the
 * `create_*_local` functions that insert one row each. Texts are stored
 * lower-cased, and an English-to-Ojibwe row holds either no definition or a
 * formatted one.
 */
module Store {
  import opened Text
  import opened Records
  import opened Definitions

  /** A row of `english_to_ojibwe_local`. */
  datatype EnglishToOjibweRow = EnglishToOjibweRow(
    englishText: string, ojibweText: string, definition: string, version: string)

  /** A row of `ojibwe_to_english_local`; `english_text` is a JSON list. */
  datatype OjibweToEnglishRow = OjibweToEnglishRow(
    ojibweText: string, englishText: seq<string>, version: string)

  /** A row of `semantic_matches_local`. */
  datatype SemanticMatchRow = SemanticMatchRow(
    englishText: string, ojibweText: string, similarity: real,
    englishDefinition: string, ojibweDefinition: string, version: string)

  /** A row of `missing_translations_local`. */
  datatype MissingTranslationRow = MissingTranslationRow(
    englishText: string, frequency: int, version: string)

  /** What `format_definition` makes of a definition that is given (`""` means
      none was given): `""` when none was given or it does not format. */
  function FormattedOrEmpty(definition: string): (r: string)
    ensures definition == [] ==> r == []
    ensures r != [] ==> r == FormatDefinition(definition)
    ensures IsStoredDefinition(r)
  {
    if definition != [] then
      (if FormatDefinition(definition) != [] then FormattedLength(definition); FormatDefinition(definition) else [])
    else []
  }

  /** A stored definition: none, or one that `format_definition` produced. */
  predicate IsStoredDefinition(d: string) {
    d == [] || (|d| >= 6 && EndsWithPeriod(d))
  }

  predicate ValidEnglishRows(rows: seq<EnglishToOjibweRow>) {
    forall i :: 0 <= i < |rows| ==>
      && IsLowerCase(rows[i].englishText)
      && IsLowerCase(rows[i].ojibweText)
      && IsStoredDefinition(rows[i].definition)
  }

  /** Appending a valid row keeps the table valid. */
  lemma EnglishRowsAppend(rows: seq<EnglishToOjibweRow>, row: EnglishToOjibweRow)
    requires ValidEnglishRows(rows)
    requires IsLowerCase(row.englishText) && IsLowerCase(row.ojibweText) && IsStoredDefinition(row.definition)
    ensures ValidEnglishRows(rows + [row])
  {
    assert forall i :: 0 <= i < |rows| ==> (rows + [row])[i] == rows[i];
  }

  predicate ValidOjibweRows(rows: seq<OjibweToEnglishRow>) {
    forall i :: 0 <= i < |rows| ==>
      && IsLowerCase(rows[i].ojibweText)
      && forall j :: 0 <= j < |rows[i].englishText| ==> IsLowerCase(rows[i].englishText[j])
  }

  predicate ValidMatchRows(rows: seq<SemanticMatchRow>) {
    forall i :: 0 <= i < |rows| ==> IsLowerCase(rows[i].englishText) && IsLowerCase(rows[i].ojibweText)
  }

  predicate ValidMissingRows(rows: seq<MissingTranslationRow>) {
    forall i :: 0 <= i < |rows| ==> IsLowerCase(rows[i].englishText)
  }

  class LocalStore {
    var englishToOjibwe: seq<EnglishToOjibweRow>
    var ojibweToEnglish: seq<OjibweToEnglishRow>
    var semanticMatches: seq<SemanticMatchRow>
    var missingTranslations: seq<MissingTranslationRow>
    /** `english_dict`, one row per English word. */
    var englishWords: seq<string>

    /** What every insert keeps: texts are lower-case and definitions are
        stored formatted. */
    predicate Valid()
      reads this
    {
      && ValidEnglishRows(englishToOjibwe)
      && ValidOjibweRows(ojibweToEnglish)
      && ValidMatchRows(semanticMatches)
      && ValidMissingRows(missingTranslations)
    }

    /** An empty store, holding the given English dictionary. */
    constructor (words: seq<string>)
      ensures Valid()
      ensures englishToOjibwe == [] && ojibweToEnglish == [] && semanticMatches == []
      ensures missingTranslations == [] && englishWords == words
    {
      englishToOjibwe := [];
      ojibweToEnglish := [];
      semanticMatches := [];
      missingTranslations := [];
      englishWords := words;
    }

    /** `create_english_to_ojibwe_local`: both texts are lower-cased and the
        definition is formatted; a definition that is given but does not
        format means no row is written. */
    method CreateEnglishToOjibweLocal(english: string, ojibwe: string, definition: string, version: string)
      requires Valid()
      modifies this
      ensures Valid()
      ensures definition != [] && FormattedOrEmpty(definition) == [] ==> englishToOjibwe == old(englishToOjibwe)
      ensures definition == [] || FormattedOrEmpty(definition) != [] ==>
        englishToOjibwe == old(englishToOjibwe) + [EnglishToOjibweRow(Lower(english), Lower(ojibwe), FormattedOrEmpty(definition), version)]
      ensures ojibweToEnglish == old(ojibweToEnglish) && semanticMatches == old(semanticMatches)
      ensures missingTranslations == old(missingTranslations) && englishWords == old(englishWords)
    {
      var formatted := FormattedOrEmpty(definition);
      if definition != [] && formatted == [] {
        return;
      }
      LowerIsLowerCase(english);
      LowerIsLowerCase(ojibwe);
      var row := EnglishToOjibweRow(Lower(english), Lower(ojibwe), formatted, version);
      EnglishRowsAppend(englishToOjibwe, row);
      englishToOjibwe := englishToOjibwe + [row];
    }

    /** `create_ojibwe_to_english_local`: the Ojibwe text and every English
        text are lower-cased. */
    method CreateOjibweToEnglishLocal(ojibwe: string, english: seq<string>, version: string)
      requires Valid()
      modifies this
      ensures Valid()
      ensures ojibweToEnglish == old(ojibweToEnglish) + [OjibweToEnglishRow(Lower(ojibwe), LowerAll(english), version)]
      ensures englishToOjibwe == old(englishToOjibwe) && semanticMatches == old(semanticMatches)
      ensures missingTranslations == old(missingTranslations) && englishWords == old(englishWords)
    {
      LowerIsLowerCase(ojibwe);
      forall j | 0 <= j < |english| ensures IsLowerCase(LowerAll(english)[j]) {
        LowerIsLowerCase(english[j]);
      }
      ojibweToEnglish := ojibweToEnglish + [OjibweToEnglishRow(Lower(ojibwe), LowerAll(english), version)];
    }

    /** `create_semantic_match_local`: both texts are lower-cased; the
        definitions are stored as given. */
    method CreateSemanticMatchLocal(m: SemanticMatch, version: string)
      requires Valid()
      modifies this
      ensures Valid()
      ensures semanticMatches == old(semanticMatches) + [SemanticMatchRow(
        Lower(m.englishText), Lower(m.ojibweText), m.similarity, m.englishDefinition, m.ojibweDefinition, version)]
      ensures englishToOjibwe == old(englishToOjibwe) && ojibweToEnglish == old(ojibweToEnglish)
      ensures missingTranslations == old(missingTranslations) && englishWords == old(englishWords)
    {
      LowerIsLowerCase(m.englishText);
      LowerIsLowerCase(m.ojibweText);
      semanticMatches := semanticMatches + [SemanticMatchRow(
        Lower(m.englishText), Lower(m.ojibweText), m.similarity, m.englishDefinition, m.ojibweDefinition, version)];
    }

    /** `create_missing_translation_local`: the English text is lower-cased. */
    method CreateMissingTranslationLocal(english: string, frequency: int, version: string)
      requires Valid()
      modifies this
      ensures Valid()
      ensures missingTranslations == old(missingTranslations) + [MissingTranslationRow(Lower(english), frequency, version)]
      ensures englishToOjibwe == old(englishToOjibwe) && ojibweToEnglish == old(ojibweToEnglish)
      ensures semanticMatches == old(semanticMatches) && englishWords == old(englishWords)
    {
      LowerIsLowerCase(english);
      missingTranslations := missingTranslations + [MissingTranslationRow(Lower(english), frequency, version)];
    }
  }
}
