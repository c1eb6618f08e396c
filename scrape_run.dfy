/**
 * `scrape_ojibwe_async`, the pipeline run: decide whether to scrape and keep
 * what was scraped, validate the raw records, sync the English dictionary,
 * store the new translations and the missing common words locally, choose
 * the sync version, and sync to Firestore. Files, the clock, the prompt and
 * the collection reads are parameters; the local store and Firestore are the
 * objects the run changes.
 */
module ScrapeRun {
  import opened Text
  import opened PyDict
  import opened Seqs
  import opened Records
  import opened Definitions
  import opened RawData
  import opened Ranking
  import opened Store
  import opened Cloud
  import opened Scraper

  /** The two entries of `timestamps.json`, in whole seconds. */
  datatype Timestamps = Timestamps(lastScrape: int, lastSync: int)

  /** How a run ends: it returns a list of entries, or an exception escapes. */
  datatype Finish = Returned(entries: seq<Entry>) | Raised

  /** Whether `create_english_to_ojibwe_local` writes a row for an entry: its
      definition is absent or formats. */
  predicate WritesEnglish(e: Entry) {
    e.definition == [] || FormattedOrEmpty(e.definition) != []
  }

  /** The row `create_english_to_ojibwe_local` writes for one English text of
      an entry. */
  function EnglishRow(english: string, e: Entry, version: string): EnglishToOjibweRow {
    EnglishToOjibweRow(Lower(english), Lower(e.ojibweText), FormattedOrEmpty(e.definition), version)
  }

  /** `EnglishRow` for a given entry and version. */
  function EnglishRowAt(e: Entry, version: string): string -> EnglishToOjibweRow {
    english => EnglishRow(english, e, version)
  }

  /** The rows written for entry `e`: one per English text, or none when its
      definition does not format. */
  function EntryEnglishRows(e: Entry, version: string): seq<EnglishToOjibweRow> {
    if WritesEnglish(e) then Map(e.englishText, EnglishRowAt(e, version)) else []
  }

  /** `EntryEnglishRows` for a given version. */
  function EntryRowsAt(version: string): Entry -> seq<EnglishToOjibweRow> {
    e => EntryEnglishRows(e, version)
  }

  /** The English-to-Ojibwe rows stored for `entries`, entry after entry. */
  function EntryRows(entries: seq<Entry>, version: string): seq<EnglishToOjibweRow> {
    FlatMap(entries, EntryRowsAt(version))
  }

  /** The Ojibwe-to-English row stored for an entry. */
  function OjibweRow(e: Entry, version: string): OjibweToEnglishRow {
    OjibweToEnglishRow(Lower(e.ojibweText), LowerAll(e.englishText), version)
  }

  /** `OjibweRow` for a given version. */
  function OjibweRowAt(version: string): Entry -> OjibweToEnglishRow {
    e => OjibweRow(e, version)
  }

  /** The Ojibwe-to-English rows stored for `entries`, one each. */
  function OjibweRows(entries: seq<Entry>, version: string): seq<OjibweToEnglishRow> {
    Map(entries, OjibweRowAt(version))
  }

  /** The missing-translation rows stored for the ranked words. */
  function MissingRows(words: seq<string>, freqs: Dict<int>, version: string): seq<MissingTranslationRow> {
    seq(|words|, i requires 0 <= i < |words| => MissingTranslationRow(Lower(words[i]), Freq(freqs, words[i]), version))
  }

  /** The rows stored for one entry are one per English text, when its
      definition is absent or formats. */
  lemma EntryEnglishRowsMembers(e: Entry, version: string, r: EnglishToOjibweRow)
    ensures r in EntryEnglishRows(e, version) <==>
      WritesEnglish(e) && exists j :: 0 <= j < |e.englishText| && r == EnglishRow(e.englishText[j], e, version)
  {
    MapMembers(e.englishText, EnglishRowAt(e, version), r);
  }

  /** The stored English-to-Ojibwe rows are exactly one row per English text
      of each entry whose definition is absent or formats, each lower-cased
      and tagged with the version. */
  lemma EntryRowsMembers(entries: seq<Entry>, version: string, r: EnglishToOjibweRow)
    ensures r in EntryRows(entries, version) <==>
      exists i, j :: 0 <= i < |entries| && 0 <= j < |entries[i].englishText| && WritesEnglish(entries[i])
                     && r == EnglishRow(entries[i].englishText[j], entries[i], version)
  {
    FlatMapMembers(entries, EntryRowsAt(version), r);
    if r in EntryRows(entries, version) {
      var i :| 0 <= i < |entries| && r in EntryRowsAt(version)(entries[i]);
      EntryEnglishRowsMembers(entries[i], version, r);
    }
    if exists i, j :: 0 <= i < |entries| && 0 <= j < |entries[i].englishText| && WritesEnglish(entries[i])
                     && r == EnglishRow(entries[i].englishText[j], entries[i], version) {
      var i, j :| 0 <= i < |entries| && 0 <= j < |entries[i].englishText| && WritesEnglish(entries[i])
                  && r == EnglishRow(entries[i].englishText[j], entries[i], version);
      EntryEnglishRowsMembers(entries[i], version, r);
      assert r in EntryRowsAt(version)(entries[i]);
    }
  }

  /** Each stored row is lower-cased, carries the version and a stored-form
      definition. */
  lemma EntryRowsShape(entries: seq<Entry>, version: string)
    ensures forall r :: r in EntryRows(entries, version) ==>
      && IsLowerCase(r.englishText) && IsLowerCase(r.ojibweText)
      && IsStoredDefinition(r.definition) && r.version == version
  {
    forall r | r in EntryRows(entries, version)
      ensures IsLowerCase(r.englishText) && IsLowerCase(r.ojibweText)
      ensures IsStoredDefinition(r.definition) && r.version == version
    {
      EntryRowsMembers(entries, version, r);
      var i, j :| 0 <= i < |entries| && 0 <= j < |entries[i].englishText| && WritesEnglish(entries[i])
                  && r == EnglishRow(entries[i].englishText[j], entries[i], version);
      LowerIsLowerCase(entries[i].englishText[j]);
      LowerIsLowerCase(entries[i].ojibweText);
    }
  }

  /** The missing words are stored each once, lower-case as ranked, with
      their frequency and the version, by non-increasing frequency, and every
      missing word is stored. */
  lemma MissingRowsSpec(ranked: seq<string>, freqs: Dict<int>, existing: seq<EnglishToOjibwe>, version: string)
    requires RankedBy(ranked, MissingCommonWords(freqs, existing), freqs)
    ensures var rows := MissingRows(ranked, freqs, version);
      && |rows| == |ranked|
      && (forall i :: 0 <= i < |rows| ==>
            && rows[i].englishText in MissingCommonWords(freqs, existing)
            && rows[i].frequency == Freq(freqs, rows[i].englishText)
            && rows[i].version == version)
      && (forall i, j :: 0 <= i < j < |rows| ==>
            rows[i].englishText != rows[j].englishText && rows[j].frequency <= rows[i].frequency)
      && (forall w :: w in MissingCommonWords(freqs, existing) ==> exists i :: 0 <= i < |rows| && rows[i].englishText == w)
  {
    var missing := MissingCommonWords(freqs, existing);
    MissingCommonWordsSpec(freqs, existing);
    var rows := MissingRows(ranked, freqs, version);
    forall i | 0 <= i < |ranked| ensures rows[i].englishText == ranked[i] {
      LowerOfLowerCase(ranked[i]);
    }
    forall w | w in missing ensures exists i :: 0 <= i < |rows| && rows[i].englishText == w {
      var i :| 0 <= i < |ranked| && ranked[i] == w;
      assert rows[i].englishText == w;
    }
  }

  /** The stored Ojibwe-to-English rows hold one lower-cased row per entry, in
      order, each with the version. */
  lemma OjibweRowsSpec(entries: seq<Entry>, version: string)
    ensures var rows := OjibweRows(entries, version);
      && |rows| == |entries|
      && forall i :: 0 <= i < |rows| ==>
        && IsLowerCase(rows[i].ojibweText) && Lower(entries[i].ojibweText) == rows[i].ojibweText
        && |rows[i].englishText| == |entries[i].englishText|
        && (forall j :: 0 <= j < |rows[i].englishText| ==> IsLowerCase(rows[i].englishText[j]))
        && rows[i].version == version
  {
    var rows := OjibweRows(entries, version);
    forall i | 0 <= i < |rows|
      ensures IsLowerCase(rows[i].ojibweText) && Lower(entries[i].ojibweText) == rows[i].ojibweText
      ensures |rows[i].englishText| == |entries[i].englishText|
      ensures forall j :: 0 <= j < |rows[i].englishText| ==> IsLowerCase(rows[i].englishText[j])
      ensures rows[i].version == version
    {
      MapAt(entries, OjibweRowAt(version), i);
      assert rows[i] == OjibweRow(entries[i], version);
      LowerIsLowerCase(entries[i].ojibweText);
      forall j | 0 <= j < |rows[i].englishText| ensures IsLowerCase(rows[i].englishText[j]) {
        LowerIsLowerCase(entries[i].englishText[j]);
      }
    }
  }

  /** One step of the storing loop: the entry's Ojibwe-to-English row, then
      one English-to-Ojibwe row per English text. */
  method StoreEntry(store: LocalStore, entry: Entry, version: string)
    requires store.Valid()
    modifies store
    ensures store.Valid()
    ensures store.ojibweToEnglish == old(store.ojibweToEnglish) + [OjibweRow(entry, version)]
    ensures store.englishToOjibwe == old(store.englishToOjibwe) + EntryEnglishRows(entry, version)
    ensures store.semanticMatches == old(store.semanticMatches)
    ensures store.missingTranslations == old(store.missingTranslations)
    ensures store.englishWords == old(store.englishWords)
  {
    store.CreateOjibweToEnglishLocal(entry.ojibweText, entry.englishText, version);
    ghost var o2e := store.ojibweToEnglish;
    assert o2e == old(store.ojibweToEnglish) + [OjibweRow(entry, version)];
    if WritesEnglish(entry) {
      StoreEnglishTexts(store, entry, version);
      assert EntryEnglishRows(entry, version) == Map(entry.englishText, EnglishRowAt(entry, version));
    } else {
      assert entry.definition != [] && FormattedOrEmpty(entry.definition) == [];
      assert EntryEnglishRows(entry, version) == [];
      for j := 0 to |entry.englishText|
        invariant store.Valid()
        invariant store.englishToOjibwe == old(store.englishToOjibwe)
        invariant store.ojibweToEnglish == o2e
        invariant store.semanticMatches == old(store.semanticMatches)
        invariant store.missingTranslations == old(store.missingTranslations)
        invariant store.englishWords == old(store.englishWords)
      {
        store.CreateEnglishToOjibweLocal(entry.englishText[j], entry.ojibweText, entry.definition, version);
      }
    }
  }

  /** The English-to-Ojibwe inserts of an entry whose definition is absent or
      formats: one row per English text, in order. */
  method StoreEnglishTexts(store: LocalStore, entry: Entry, version: string)
    requires store.Valid() && WritesEnglish(entry)
    modifies store
    ensures store.Valid()
    ensures store.englishToOjibwe == old(store.englishToOjibwe) + Map(entry.englishText, EnglishRowAt(entry, version))
    ensures store.ojibweToEnglish == old(store.ojibweToEnglish)
    ensures store.semanticMatches == old(store.semanticMatches)
    ensures store.missingTranslations == old(store.missingTranslations)
    ensures store.englishWords == old(store.englishWords)
  {
    ghost var rows := Map(entry.englishText, EnglishRowAt(entry, version));
    AppendPrefixEnds(store.englishToOjibwe, rows);
    for j := 0 to |entry.englishText|
      invariant store.Valid()
      invariant store.englishToOjibwe == old(store.englishToOjibwe) + rows[..j]
      invariant store.ojibweToEnglish == old(store.ojibweToEnglish)
      invariant store.semanticMatches == old(store.semanticMatches)
      invariant store.missingTranslations == old(store.missingTranslations)
      invariant store.englishWords == old(store.englishWords)
    {
      StoreEnglishText(store, entry, j, version, old(store.englishToOjibwe));
    }
  }

  /** The insert for the `j`-th English text of an entry whose definition is
      absent or formats: it always writes that text's row, after the rows of
      the texts before it. */
  method StoreEnglishText(store: LocalStore, entry: Entry, j: nat, version: string, ghost start: seq<EnglishToOjibweRow>)
    requires store.Valid() && WritesEnglish(entry) && j < |entry.englishText|
    requires store.englishToOjibwe == start + Map(entry.englishText, EnglishRowAt(entry, version))[..j]
    modifies store
    ensures store.Valid()
    ensures store.englishToOjibwe == start + Map(entry.englishText, EnglishRowAt(entry, version))[..j + 1]
    ensures store.ojibweToEnglish == old(store.ojibweToEnglish)
    ensures store.semanticMatches == old(store.semanticMatches)
    ensures store.missingTranslations == old(store.missingTranslations)
    ensures store.englishWords == old(store.englishWords)
  {
    MapAt(entry.englishText, EnglishRowAt(entry, version), j);
    store.CreateEnglishToOjibweLocal(entry.englishText[j], entry.ojibweText, entry.definition, version);
    AppendNext(start, Map(entry.englishText, EnglishRowAt(entry, version)), j);
  }

  /** The storing loop of the run: each cleaned entry in turn. */
  method StoreTranslations(store: LocalStore, entries: seq<Entry>, version: string)
    requires store.Valid()
    modifies store
    ensures store.Valid()
    ensures store.ojibweToEnglish == old(store.ojibweToEnglish) + OjibweRows(entries, version)
    ensures store.englishToOjibwe == old(store.englishToOjibwe) + EntryRows(entries, version)
    ensures store.semanticMatches == old(store.semanticMatches)
    ensures store.missingTranslations == old(store.missingTranslations)
    ensures store.englishWords == old(store.englishWords)
  {
    for i := 0 to |entries|
      invariant store.Valid()
      invariant store.ojibweToEnglish == old(store.ojibweToEnglish) + OjibweRows(entries[..i], version)
      invariant store.englishToOjibwe == old(store.englishToOjibwe) + EntryRows(entries[..i], version)
      invariant store.semanticMatches == old(store.semanticMatches)
      invariant store.missingTranslations == old(store.missingTranslations)
      invariant store.englishWords == old(store.englishWords)
    {
      MapStep(entries, i, OjibweRowAt(version));
      FlatMapStep(entries, i, EntryRowsAt(version));
      ghost var o2e := OjibweRows(entries[..i], version);
      ghost var e2o := EntryRows(entries[..i], version);
      ghost var row := OjibweRow(entries[i], version);
      ghost var rows := EntryEnglishRows(entries[i], version);
      ghost var preO := store.ojibweToEnglish;
      ghost var preE := store.englishToOjibwe;
      StoreEntry(store, entries[i], version);
      assert store.ojibweToEnglish == preO + [row];
      assert store.englishToOjibwe == preE + rows;
      AppendAssoc(old(store.ojibweToEnglish), o2e, [row]);
      AppendAssoc(old(store.englishToOjibwe), e2o, rows);
    }
    assert entries[..|entries|] == entries;
  }

  /** The missing-words loop of the run: one row per ranked word, with its
      frequency. */
  method StoreMissing(store: LocalStore, words: seq<string>, freqs: Dict<int>, version: string)
    requires store.Valid()
    modifies store
    ensures store.Valid()
    ensures store.missingTranslations == old(store.missingTranslations) + MissingRows(words, freqs, version)
    ensures store.englishToOjibwe == old(store.englishToOjibwe)
    ensures store.ojibweToEnglish == old(store.ojibweToEnglish)
    ensures store.semanticMatches == old(store.semanticMatches)
    ensures store.englishWords == old(store.englishWords)
  {
    for i := 0 to |words|
      invariant store.Valid()
      invariant store.missingTranslations == old(store.missingTranslations) + MissingRows(words[..i], freqs, version)
      invariant store.englishToOjibwe == old(store.englishToOjibwe)
      invariant store.ojibweToEnglish == old(store.ojibweToEnglish)
      invariant store.semanticMatches == old(store.semanticMatches)
      invariant store.englishWords == old(store.englishWords)
    {
      store.CreateMissingTranslationLocal(words[i], Freq(freqs, words[i]), version);
      assert MissingRows(words[..i + 1], freqs, version) ==
        MissingRows(words[..i], freqs, version) + [MissingTranslationRow(Lower(words[i]), Freq(freqs, words[i]), version)];
    }
    assert words[..|words|] == words;
  }

  /** What the storing steps of a run leave in the local tables, given the
      tables before them. */
  ghost predicate Stored(e2o0: seq<EnglishToOjibweRow>, o2e0: seq<OjibweToEnglishRow>, missing0: seq<MissingTranslationRow>,
                         e2o: seq<EnglishToOjibweRow>, o2e: seq<OjibweToEnglishRow>, missing: seq<MissingTranslationRow>,
                         cleaned: seq<Entry>, existing: seq<EnglishToOjibwe>, freqs: Dict<int>, version: string) {
    && o2e == o2e0 + OjibweRows(cleaned, version)
    && e2o == e2o0 + EntryRows(cleaned, version)
    && exists ranked :: RankedBy(ranked, MissingCommonWords(freqs, existing), freqs)
                        && missing == missing0 + MissingRows(ranked, freqs, version)
  }

  /** The run from the read of the stored translations on: store the new
      translations and the missing common words under the current version,
      decide on analysis and the sync version, and sync when the trigger
      holds. The analysis call always fails (it passes an argument the
      analysis function does not take), so no semantic match is added.
      Returns the list the run returns and the new timestamps. */
  method StoreAndSync(store: LocalStore, db: Firestore, validated: seq<Entry>, existing: seq<EnglishToOjibwe>,
                      existingMatches: seq<SemanticMatch>, freqs: Dict<int>, ts: Timestamps, now: int)
    returns (result: seq<Entry>, ts': Timestamps)
    requires store.Valid()
    requires forall e :: e in validated ==> HasEnglish(e)
    modifies store, db
    ensures store.Valid()
    ensures var cleaned := CleanedTranslations(validated, existing);
      Stored(old(store.englishToOjibwe), old(store.ojibweToEnglish), old(store.missingTranslations),
             store.englishToOjibwe, store.ojibweToEnglish, store.missingTranslations,
             cleaned, existing, freqs, CurrentVersion(db.available, old(db.Documents())))
    ensures store.semanticMatches == old(store.semanticMatches) && store.englishWords == old(store.englishWords)
    ensures ts'.lastScrape == ts.lastScrape
    ensures var cleaned := CleanedTranslations(validated, existing);
      !ShouldSync(cleaned, [], existing, existingMatches != []) ==>
        result == validated && ts'.lastSync == ts.lastSync && db.log == old(db.log) && db.budget == old(db.budget)
    ensures var cleaned := CleanedTranslations(validated, existing);
      var groups := SyncGroups(store.englishToOjibwe, store.ojibweToEnglish, store.semanticMatches, store.missingTranslations);
      var failed := !db.available || old(db.budget) < |groups|;
      ShouldSync(cleaned, [], existing, existingMatches != []) ==>
        && (failed ==> result == cleaned && ts'.lastSync == ts.lastSync)
        && (!failed ==> result == validated && ts'.lastSync == now)
        && (db.available ==>
              db.log == old(db.log) + SyncLog(groups, old(db.budget), CurrentVersion(db.available, old(db.Documents()))))
  {
    var cleaned := CleanedTranslations(validated, existing);
    var version := CurrentVersion(db.available, db.Documents());
    StoreTranslations(store, cleaned, version);
    var ranked := RankByFrequency(MissingCommonWords(freqs, existing), freqs);
    StoreMissing(store, ranked, freqs, version);
    assert Stored(old(store.englishToOjibwe), old(store.ojibweToEnglish), old(store.missingTranslations),
                  store.englishToOjibwe, store.ojibweToEnglish, store.missingTranslations,
                  cleaned, existing, freqs, version);
    var hasExistingMatches := existingMatches != [];
    var performAnalysis := PerformAnalysis(cleaned, hasExistingMatches);
    var semanticMatches: seq<SemanticMatch> := [];
    var newMatches := CheckSemanticDuplicates(semanticMatches, existingMatches);
    var syncVersion := SyncVersion(version, hasExistingMatches, performAnalysis, newMatches != []).value;
    ts' := ts;
    result := validated;
    if ShouldSync(cleaned, newMatches, existing, hasExistingMatches) {
      var raised := db.SyncToFirestore(store, syncVersion);
      if raised {
        result := cleaned;
      } else {
        ts' := ts'.(lastSync := now);
      }
    }
  }

  /** Every validated entry has an English text. */
  lemma ValidatedHaveEnglish(raw: seq<RawEntry>)
    ensures forall e :: e in ValidEntries(raw) ==> HasEnglish(e)
  {
    ValidEntriesSpec(raw);
  }

  /** Whether a run takes new records in: scraping is confirmed and due, and
      the scrapers found something. */
  predicate TakesScrape(populated: bool, answer: string, now: int, ts: Timestamps, dictSize: nat, count: nat,
                        scraped: seq<RawEntry>) {
    PromptToScrape(populated, answer) && ScrapeDue(now, ts.lastScrape, dictSize, count) && scraped != []
  }

  /** `scrape_ojibwe_async`. `raw` is the saved raw data, `scraped` what the
      scrapers return, `existing` and `existingMatches` what the Firestore
      collections hold, `populated` and `answer` the database check and the
      prompt's answer. Returns how the run ends, the new timestamps and the
      raw data as saved. */
  method ScrapeOjibwe(store: LocalStore, db: Firestore, ts: Timestamps, now: int, raw: seq<RawEntry>,
                      populated: bool, answer: string, dictSize: nat, scraped: seq<RawEntry>,
                      existing: seq<EnglishToOjibwe>, existingMatches: seq<SemanticMatch>, freqs: Dict<int>)
    returns (finish: Finish, ts': Timestamps, raw': seq<RawEntry>)
    requires store.Valid()
    modifies store, db
    ensures store.Valid()
    ensures var taken := TakesScrape(populated, answer, now, ts, dictSize, |existing|, scraped);
      && raw' == raw + (if taken then scraped else [])
      && ts'.lastScrape == (if taken then now else ts.lastScrape)
    ensures ValidEntries(raw') == [] ==>
      finish == Returned([]) && ts'.lastSync == ts.lastSync
      && unchanged(store) && db.log == old(db.log) && db.budget == old(db.budget)
    ensures finish == Raised ==>
      && ValidEntries(raw') != [] && db.available && ts'.lastSync == ts.lastSync && unchanged(store)
      && !SkipDictSync(RemoteDictCount(true, old(db.Documents())), |store.englishWords|)
    ensures && ValidEntries(raw') != [] && db.available
            && !SkipDictSync(RemoteDictCount(true, old(db.Documents())), |old(store.englishWords)|)
            && old(db.budget) < |DictGroups(old(store.englishWords))|
            ==> finish == Raised
    ensures finish == Raised ==> old(db.budget) < |DictGroups(old(store.englishWords))|
    ensures finish == Raised && old(db.budget) <= |DictGroups(old(store.englishWords))| ==>
      db.log == old(db.log) + DictGroups(old(store.englishWords))[..old(db.budget)]
    ensures ValidEntries(raw') != [] && finish != Raised ==>
      (forall e :: e in ValidEntries(raw') ==> HasEnglish(e)) &&
      var cleaned := CleanedTranslations(ValidEntries(raw'), existing);
      && Stored(old(store.englishToOjibwe), old(store.ojibweToEnglish), old(store.missingTranslations),
                store.englishToOjibwe, store.ojibweToEnglish, store.missingTranslations,
                cleaned, existing, freqs, CurrentVersion(db.available, old(db.Documents())))
      && (finish == Returned(ValidEntries(raw')) || finish == Returned(cleaned))
      && (ts'.lastSync != ts.lastSync ==> ts'.lastSync == now && finish == Returned(ValidEntries(raw')))
      && (!ShouldSync(cleaned, [], existing, existingMatches != []) ==>
            finish == Returned(ValidEntries(raw')) && ts'.lastSync == ts.lastSync)
  {
    ts' := ts;
    raw' := raw;
    if PromptToScrape(populated, answer) {
      if ScrapeDue(now, ts.lastScrape, dictSize, |existing|) {
        if scraped != [] {
          raw' := raw' + scraped;
          ts' := ts'.(lastScrape := now);
        }
      }
    }
    var validated := ProcessRawData(raw');
    if validated == [] {
      return Returned([]), ts', raw';
    }
    ValidatedHaveEnglish(raw');
    var raised := db.SyncEnglishDictToFirestore(store.englishWords);
    if raised {
      return Raised, ts', raw';
    }
    var result;
    result, ts' := StoreAndSync(store, db, validated, existing, existingMatches, freqs, ts', now);
    finish := Returned(result);
  }
}
