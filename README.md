# Voice of the Ancients: the ingestion pipeline, modelled in Dafny

Voice of the Ancients builds English–Ojibwe dictionaries. Its backend runs one main process, the
scraper. The scraper works in these steps:

1. It decides whether a new scrape is due and appends what was scraped to the saved raw records.
2. It validates every raw record. Definitions are cleaned and formatted and bad entries are dropped.
3. It syncs the English dictionary to Firestore, unless Firestore already holds enough of it.
4. It drops the new entries that are already stored, and self-translations.
5. It stores the remaining entries in the local SQLite tables, lower-cased and tagged with the
   current Firestore version.
6. It records the most frequent English words that still lack a translation.
7. It picks the version to sync under and pushes every local table to Firestore in batches of
   500 writes. The version document is written last.

Alongside the scraper are four smaller parts:

- a gap report of the common words no translation covers;
- the word selection of the semantic analysis;
- the shared word-frequency table;
- the Django database router.

This project models all of these in Dafny and proves what they promise.

- **Pure code** becomes functions with lemmas:
  - definition cleaning;
  - document-id sanitising;
  - duplicate filters;
  - version strings;
  - routing;
  - ranking.
- **Code that changes state** becomes methods with loop invariants:
  - the raw-record loop;
  - the frequency-table loop;
  - the fetch retry loop;
  - the storing loops;
  - the batch/commit loops.
- **The two stores** are classes whose methods change their fields.
  - `Store.LocalStore` is the local SQLite store: five tables held as sequences of rows.
  - `Cloud.Firestore` is Firestore seen as a log of atomic commits. Its documents are what the
    log leaves.
  - An unreliable Firestore is modelled as a budget of commits that will still succeed.

Modules, one file each:

| module | what it models |
|---|---|
| `Text`, `Numbers`, `PyDict`, `Seqs`, `Batches`, `Ranking` | the Python building blocks: `str.strip`, `lower`, `re.sub` on a character class, `str(i)`/`int(s)`, insertion-ordered dicts, comprehensions, 500-write batches, `sorted(..., reverse=True)` |
| `Definitions` | `definition_utils.py` |
| `RawData` | `process_raw_data` |
| `Records` | the records passed between the stages |
| `Versions` | the `"major.minor"` version strings |
| `Fetch` | the retry loop of `fetch_url` |
| `Scraper`, `ScrapeRun` | the decisions and the run of `scrape_ojibwe_async` |
| `DocIds` | `sanitize_document_id` |
| `Store` | the SQLite models and the `create_*_local` functions |
| `Cloud` | the Firestore functions of `models.py` |
| `MissingTranslations` | `compile_missing_translations` |
| `Analysis` | the word selection of `print_semantic_matches` |
| `Frequencies` | `frequencies.py` |
| `Routers` | `DatabaseRouter` |

## Model

| member | source | states |
|---|---|---|
| Text.Lower | backend/translations/models.py:164-165 | `s.lower()` keeps the length and lower-cases each character in place |
| Text.LowerIsLowerCase | backend/translations/models.py:164-165 | lower-casing leaves no upper-case letter and is idempotent |
| Text.LowerAll | backend/translations/models.py:181 | `[e.lower() for e in xs]`: same length, each element lower-cased |
| Text.Strip | backend/translations/utils/definition_utils.py:35 | `strip` never lengthens a string, and what it returns neither starts nor ends with a stripped character |
| Text.StripSpec | backend/translations/utils/definition_utils.py:35-37 | `strip` returns a contiguous slice of its input that starts after the dropped prefix, and every character dropped from the end is in the stripped class |
| Text.Collapse | backend/translations/utils/definition_utils.py:33 | `re.sub(r"\s+", " ", s)` is never longer and is empty exactly when the input is; a leading run becomes the replacement, and a first character outside the class is kept |
| Text.CollapseRuns | backend/translations/utils/definition_utils.py:33 | after the substitution, a character of the class appears only as the lone replacement and never next to another one |
| Text.StripKeepsRunsCollapsed | backend/translations/utils/definition_utils.py:33-37 | the strips that follow the substitution keep every whitespace run collapsed |
| Numbers.NatToString | backend/scrapers/ojibwe_scraper.py:440 | `str(n)` is a non-empty run of digits without a leading zero |
| Numbers.NatToStringValue | backend/scrapers/ojibwe_scraper.py:440 | the digits of `str(n)` read back as `n` |
| Numbers.ParseInt | backend/scrapers/ojibwe_scraper.py:439 | `int(s)` can succeed only on text that is not blank once stripped |
| Numbers.ParseIntOfString | backend/scrapers/ojibwe_scraper.py:439-440 | `int(str(i)) == i` for every integer |
| Versions.Split | backend/scrapers/ojibwe_scraper.py:439 | `split(".")` gives at least one part |
| Versions.SplitJoined | backend/scrapers/ojibwe_scraper.py:439 | two dot-free parts joined by a dot split back into exactly those two parts |
| Versions.ParseVersion | backend/scrapers/ojibwe_scraper.py:439 | the unpacking succeeds only when the version splits into exactly two parts |
| Versions.ParseFormatVersion | backend/scrapers/ojibwe_scraper.py:439-440 | a version written as `f"{major}.{minor}"` reads back as `(major, minor)` |
| Versions.BumpMinorFails | backend/scrapers/ojibwe_scraper.py:439-440 | the bump raises exactly when the current version does not read as two integers |
| Versions.BumpMinorSpec | backend/scrapers/ojibwe_scraper.py:439-440 | a bumped version reads as the same major number and the next minor number |
| Definitions.StripTags | backend/translations/utils/definition_utils.py:31 | removing tags never lengthens the text, adds no character, and keeps a first character that does not open a tag |
| Definitions.StripTagsLeavesNoTag | backend/translations/utils/definition_utils.py:31 | no match of `<[^>]+>` is left after the substitution |
| Definitions.CleanDefinition | backend/translations/utils/definition_utils.py:17-38 | empty input gives `""`; the cleaned text is never longer and neither starts nor ends with `.,;:!?()[]{}` |
| Definitions.CleanDefinitionCollapsed | backend/translations/utils/definition_utils.py:33-37 | a cleaned definition holds no whitespace except single spaces |
| Definitions.FindSeparator | backend/translations/utils/definition_utils.py:73-74 | finds the first `": "` at or after a position, or shows there is none |
| Definitions.ValidDefinitionLength | backend/translations/utils/definition_utils.py:68-70 | a definition `is_valid_definition` accepts is itself at least `min_length` characters long, because cleaning never lengthens it |
| Definitions.Capitalise | backend/translations/utils/definition_utils.py:102 | only the first character changes, to its upper-case form |
| Definitions.WithPeriod | backend/translations/utils/definition_utils.py:103-104 | the result ends in a period; text already ending in one is unchanged, and otherwise exactly one period is appended |
| Definitions.FormatDefinition | backend/translations/utils/definition_utils.py:87-105 | `""` exactly when the cleaned definition is not valid; otherwise the result ends in a period |
| Definitions.CapitalisedCleanNoPeriod | backend/translations/utils/definition_utils.py:102-104 | a cleaned and capitalised text never ends in a period, so formatting always appends one |
| Definitions.FormattedLength | backend/translations/utils/definition_utils.py:97-105 | a non-empty formatted definition has at least six characters |
| Definitions.FormatDefinitionShape | backend/translations/utils/definition_utils.py:97-105 | a formatted definition is the cleaned text with its first character upper-cased and one period added |
| Definitions.EnglishTextsKept | backend/translations/utils/definition_utils.py:137-143 | an accepted `english_text` list is non-empty and each string has at least two characters once stripped |
| Definitions.ValidateTranslationEntry | backend/translations/utils/definition_utils.py:108-161 | an accepted entry has all three keys and valid texts; it keeps the same texts with the formatted definition and is well formed |
| Definitions.ValidateRejects | backend/translations/utils/definition_utils.py:123-153 | an entry is rejected exactly when a key is missing, a text check fails, the definition is not a string, or the definition formats to `""` |
| RawData.ValidEntriesSpec | backend/translations/utils/process_raw_data.py:38-49 | the output is no longer than the input and empty for empty input; it holds exactly the validated forms of accepted records, each well formed; it loses no record exactly when all are accepted |
| RawData.ValidEntriesAppend | backend/translations/utils/process_raw_data.py:41-46 | records are processed in order: two lists give the two outputs one after the other |
| RawData.ProcessRawData | backend/translations/utils/process_raw_data.py:38-49 | the loop builds a new list equal to the in-order filter of accepted records; the input is a value and stays as it was |
| Scraper.PromptToScrape | backend/scrapers/ojibwe_scraper.py:115-123 | an empty database always proceeds; on a populated one, `""`, `y` and `yes` (stripped, any case) proceed, `n` and `no` decline, and no answer longer than three characters proceeds |
| Scraper.IsValidTranslation | backend/scrapers/ojibwe_scraper.py:268-274 | true exactly when both sides are present and no English text equals the Ojibwe text, ignoring case |
| Scraper.CheckDuplicates | backend/scrapers/ojibwe_scraper.py:277-285 | keeps exactly the new entries whose `(english_text[0], ojibwe_text)` is not a stored pair |
| Scraper.CheckDuplicatesOrder | backend/scrapers/ojibwe_scraper.py:280-283 | the filter keeps input order and keeps every copy of an entry it keeps, so repeats among the new entries stay |
| Scraper.CheckDuplicatesIsCaseSensitive | backend/scrapers/ojibwe_scraper.py:279-283 | an entry `Bear`/`makwa` is not a duplicate of the stored `bear`/`makwa` |
| Scraper.CheckSemanticDuplicates | backend/scrapers/ojibwe_scraper.py:288-295 | keeps exactly the new matches whose text pair is not a stored match's pair |
| Scraper.CheckSemanticDuplicatesBounds | backend/scrapers/ojibwe_scraper.py:288-295 | no new matches give none; with no stored matches every new match is kept |
| Scraper.CleanedTranslationsSpec | backend/scrapers/ojibwe_scraper.py:361-365 | the cleaned entries are exactly the validated ones that are neither stored pairs nor self-translations, in input order |
| Scraper.ScrapeDueCoverage | backend/scrapers/ojibwe_scraper.py:322-327 | the integer trigger equals "a month passed, or coverage below 0.2" read in exact arithmetic; an empty dictionary always triggers; a recent scrape with full coverage does not |
| Scraper.CoverageBelow | backend/scrapers/ojibwe_scraper.py:324-327 | `count / size < 0.2` exactly when `5 * count < size` |
| Scraper.CommonWords | backend/scrapers/ojibwe_scraper.py:380 | the common words are exactly the lower-cased top words of two or more characters, at most one per entry |
| Scraper.MissingCommonWordsSpec | backend/scrapers/ojibwe_scraper.py:378-382 | at most 1000 words are missing; each is lower-case, at least two characters long, comes from a top-1000 word and is the English text of no stored translation |
| Scraper.SyncVersion | backend/scrapers/ojibwe_scraper.py:430-447 | the current version is kept unless matches are stored, analysis ran and it found new matches |
| Scraper.SyncVersionFails | backend/scrapers/ojibwe_scraper.py:438-440 | when a bump is due, it fails exactly on a version that does not read as two integers |
| Scraper.SyncVersionBumps | backend/scrapers/ojibwe_scraper.py:438-440 | a due bump gives `major.(minor+1)` |
| Scraper.ShouldSync | backend/scrapers/ojibwe_scraper.py:449-454 | the sync runs exactly when there are new translations, new matches, no stored translations or no stored matches: with none of the new and both stores populated it does not run |
| Fetch.FetchUrl | backend/scrapers/ojibwe_scraper.py:126-150 | the attempt loop gives the same result, request count and sleeps as the reference reading of the loop, attempt by attempt |
| Fetch.AttemptsBounded | backend/scrapers/ojibwe_scraper.py:134 | at most `retries` requests are made and at most one sleep follows each |
| Fetch.ExhaustedGivesEmpty | backend/scrapers/ojibwe_scraper.py:134-150 | when every attempt is retried, all `retries` attempts are made and the result is `""`; a 429 uses up an attempt |
| Fetch.FirstSuccessReturned | backend/scrapers/ojibwe_scraper.py:142-143 | after any number of retried attempts, the first successful response's body is returned |
| Fetch.ClientErrorsBackOff | backend/scrapers/ojibwe_scraper.py:144-149 | under repeated client errors, the loop sleeps `2 ** attempt` after each attempt but the last |
| Fetch.RateLimitWaits | backend/scrapers/ojibwe_scraper.py:137-141 | under repeated 429s without `Retry-After`, the loop sleeps 60 seconds after every attempt and gives `""` |
| DocIds.ReplaceNonId | backend/translations/models.py:89 | each character outside `[a-zA-Z0-9_-]` becomes `_`; the others are kept in place |
| DocIds.IdStringUtf8Length | backend/translations/models.py:90 | after the rewrite the id is ASCII, so its UTF-8 length is its length |
| DocIds.SanitizeDocumentId | backend/translations/models.py:84-92 | the id is never empty, holds only `[A-Za-z0-9_-]`, and has at most 1500 characters; a rewritten text longer than 1500 is cut to its first 500 characters, one of 1 to 1500 is kept whole, and the result is `"unknown"` exactly when the rewritten text is empty (or is `unknown` itself) |
| DocIds.SanitizeOfId | backend/translations/models.py:84-92 | every non-empty id string of at most 1500 characters sanitises to itself |
| DocIds.SanitizeIdempotent | backend/translations/models.py:84-92 | sanitising an id again changes nothing |
| DocIds.SanitizeJoinsWords | backend/translations/models.py:88-89 | a whitespace run between two ids becomes one `_` |
| Batches.ChunksSpec | backend/translations/models.py:394-415 | every batch holds 1 to 500 writes and all but the last hold exactly 500; the number of batches is the ceiling of writes/500; the batches concatenate back to the writes in order |
| Batches.ChunksAppend | backend/translations/models.py:406-410 | writes that follow whole batches start a new batch |
| Batches.ChunksOfOne | backend/translations/models.py:413-415 | a non-empty final group of at most 500 writes is committed as one batch |
| Store.FormattedOrEmpty | backend/translations/models.py:159-162 | no definition stays `""`; a given one is stored only in formatted form, six or more characters ending in a period |
| Store.EnglishRowsAppend | backend/translations/models.py:163-168 | appending a lower-cased row with a stored-form definition keeps the table valid |
| Store.LocalStore.constructor | backend/translations/models.py:97-146 | the store starts with five empty translation tables and the given English dictionary |
| Store.LocalStore.CreateEnglishToOjibweLocal | backend/translations/models.py:154-171 | both texts are lower-cased and the definition is formatted; a given definition that does not format writes nothing; the other tables are unchanged |
| Store.LocalStore.CreateOjibweToEnglishLocal | backend/translations/models.py:174-186 | appends one row with the Ojibwe text and every English text lower-cased; the other tables are unchanged |
| Store.LocalStore.CreateSemanticMatchLocal | backend/translations/models.py:189-209 | appends one row with both texts lower-cased and the rest as given; the other tables are unchanged |
| Store.LocalStore.CreateMissingTranslationLocal | backend/translations/models.py:212-224 | appends one row with the English text lower-cased; the other tables are unchanged |
| Cloud.ContentsLastWrite | backend/translations/models.py:417-419 | a single `set` committed last decides its document |
| Cloud.CurrentVersion | backend/translations/models.py:301-313 | `"1.0"` when Firestore is unavailable; otherwise the stored version when there is one |
| Cloud.RemoteDictCount | backend/translations/models.py:328-355 | 0 when unavailable; with a metadata document, its count, or 0 when it has none; without one, -1 when the dictionary collection holds a document and 0 when it is empty |
| Cloud.DictWritesCount | backend/translations/models.py:399-404 | one document write per local word |
| Cloud.DictSyncSettles | backend/translations/models.py:417-419 | after a successful dictionary sync the metadata holds the local count, so the next sync of the same words is skipped |
| Cloud.DictSyncKeepsVersion | backend/translations/models.py:358-423 | the dictionary sync never changes the stored version |
| Cloud.SyncGroupsAvoidVersion | backend/translations/models.py:442-531 | no batch of the four collection loops touches the version document |
| Cloud.VersionWrittenLast | backend/translations/models.py:533-538 | a commit touching the version is the sync's last one and follows every batch; once it goes through, the stored version is the one synced |
| Cloud.Distinct | backend/translations/models.py:616 | `list(set(xs))` holds each element of `xs` exactly once |
| Cloud.Firestore.constructor | backend/translations/models.py:50-58 | a database with the given availability, commit log and commit budget |
| Cloud.Firestore.Commit | backend/translations/models.py:407 | a commit adds its writes together and uses one commit of the budget, or raises and writes nothing |
| Cloud.Firestore.CommitBatched | backend/translations/models.py:394-415 | the writes of the kept rows are committed in order in batches of 500, and the last partial batch only if non-empty; skipped rows do not count toward a batch; a failing commit stops the loop |
| Cloud.Firestore.SyncEnglishDictToFirestore | backend/translations/models.py:358-423 | nothing happens when unavailable or skipped by the 90% rule; otherwise the word batches and then the metadata count are committed, a failure raises, and the version is untouched |
| Cloud.Firestore.PushCollections | backend/translations/models.py:442-531 | the four collections are pushed one after the other, and a failing commit stops them all |
| Cloud.Firestore.SyncToFirestore | backend/translations/models.py:426-538 | raises when unavailable; otherwise it raises exactly when a batch commit fails; the batches are committed in order and the version document is written only after all of them, when one more write succeeds (a failed version write is logged, not raised) |
| Cloud.Firestore.UpdateOrCreateOjibweToEnglish | backend/translations/models.py:604-622 | an existing document's English list becomes the duplicate-free union of the stored list and the lower-cased new texts; the stored `ojibwe_text` is kept on update; otherwise a document with the lower-cased texts is created |
| Ranking.SortByValueDesc | backend/translations/utils/compile_missing_translations.py:32 | the sorted list is a permutation of the entries, ordered by non-increasing frequency |
| Ranking.SortByValueDescStable | backend/translations/utils/compile_missing_translations.py:32 | the sort is stable: for every frequency, the entries of that frequency come out in the order they went in |
| Ranking.WordsPermutation | backend/translations/utils/analysis.py:196-197 | reordering the pairs reorders their words the same way |
| Ranking.TopEntriesAreTop | backend/translations/utils/compile_missing_translations.py:32 | exactly `min(n, len(table))` entries are kept, all from the table, and no left-out entry is more frequent than a kept one |
| Ranking.RankByFrequency | backend/translations/utils/compile_missing_translations.py:37 | the ranked list holds each word of the set exactly once, highest frequency first |
| MissingTranslations.SliceCount | backend/translations/utils/compile_missing_translations.py:32 | `[:top_n]` keeps at most the list's length and at most `top_n` |
| MissingTranslations.CandidateWords | backend/translations/utils/compile_missing_translations.py:33 | the candidates are exactly the lower-cased top words, at most one per entry |
| MissingTranslations.MissingWordsBound | backend/translations/utils/compile_missing_translations.py:32-36 | at most `top_n` words are missing |
| MissingTranslations.MissingWordsSound | backend/translations/utils/compile_missing_translations.py:29-36 | each missing word is lower-case, comes from a top word and is the first English text of no translation |
| MissingTranslations.MissingWordsComplete | backend/translations/utils/compile_missing_translations.py:29-36 | every top word that no translation gives first is missing |
| MissingTranslations.CompileMissingTranslations | backend/translations/utils/compile_missing_translations.py:20-42 | the output lists each missing word once, by non-increasing frequency |
| Analysis.Normalise | backend/translations/utils/analysis.py:146-168 | the analysis is skipped (`None`) for an empty value, a list mixing formats or holding other values, and any other JSON value; an object is kept as it is |
| Analysis.NormaliseWordList | backend/translations/utils/analysis.py:156-157 | a list of strings becomes the identity dictionary on those strings |
| Analysis.NormaliseWordObjects | backend/translations/utils/analysis.py:158-162 | a list of word objects becomes `word -> definition`, defaulting to the word; a repeated word keeps its last definition |
| Analysis.Untranslated | backend/translations/utils/analysis.py:177-182 | the untranslated words are exactly the dictionary words that are the first English text of no translation, compared exactly |
| Analysis.UntranslatedIsCaseSensitive | backend/translations/utils/analysis.py:177-182 | a translation into `Dog` leaves the word `dog` untranslated |
| Analysis.WordFreqs | backend/translations/utils/analysis.py:191-195 | one pair per unprocessed untranslated word |
| Analysis.RemainingWordsSpec | backend/translations/utils/analysis.py:190-197 | the remaining words are the unprocessed untranslated words, each as often as before, by non-increasing frequency of the lower-cased word |
| Analysis.RemainingWordsStable | backend/translations/utils/analysis.py:190-197 | among the remaining words of any one frequency, the dictionary's order is kept, as the stable `list.sort` keeps it |
| Analysis.ProcessedAfter | backend/translations/utils/analysis.py:251 | the processed set grows to include every batch word |
| Analysis.SecondRunFindsNothing | backend/translations/utils/analysis.py:190-252 | after a run records its batch, a second run on the same data has no remaining words |
| Analysis.Batch | backend/translations/utils/analysis.py:170-204 | every word analysed is a word of the normalised dictionary |
| Analysis.BuildDefinitions | backend/translations/utils/analysis.py:217-223 | the words are the batch, each paired with its own definition, or with itself when it has none |
| Analysis.PrintSemanticMatches | backend/translations/utils/analysis.py:120-298 | returns False and keeps the processed set when there is nothing to analyse; otherwise records the batch and returns the answer to the prompt; each word is embedded with its own definition |
| Frequencies.RankedCount | backend/translations/utils/frequencies.py:40 | `words[:10000]` keeps all lines or exactly 10000 |
| Frequencies.RankedPairs | backend/translations/utils/frequencies.py:40-41 | one assignment per kept line |
| Frequencies.FetchWordFrequencies | backend/translations/utils/frequencies.py:24-45 | the loop builds the table of the ranked pairs, or `{}` when the request fails |
| Frequencies.RankedStep | backend/translations/utils/frequencies.py:40-41 | each turn of the loop assigns the next ranked pair |
| Frequencies.FrequencyTableShape | backend/translations/utils/frequencies.py:40-41 | at most 10000 words, all lower-case, each valued between 990001 and 1000000 |
| Frequencies.FrequencyOfLastLine | backend/translations/utils/frequencies.py:40-41 | a word's value is `1000000 - i` for the last kept line `i` that lower-cases to it |
| Frequencies.LoadWordFrequencies | backend/translations/utils/frequencies.py:48-89 | a missing file, a file older than 7 days or an unreadable file means a download, and a non-empty result is written back; otherwise the saved table is used; a failed download gives `{}` and writes nothing |
| PyDict.Put | backend/translations/utils/frequencies.py:41 | `d[k] = v` sets `k` to `v` and leaves every other key as it was, keeping an existing key's position |
| PyDict.FromPairs | backend/translations/utils/analysis.py:157 | a dict built from pairs has exactly the keys of the pairs |
| PyDict.FromPairsLastWins | backend/translations/utils/analysis.py:159-162 | in a dict built from pairs, a key keeps the value of its last pair |
| PyDict.FromPairsDistinct | backend/translations/utils/analysis.py:159-162 | a dict built from pairs holds each key once |
| Routers.Route | backend/translations/routers.py:13-17 | semantic-match models go to `semantic_matches`, `untranslatedword` to `untranslated_words`, everything else to `translations` |
| Routers.DbForRead | backend/translations/routers.py:10-18 | a database exactly for models of the `translations` app, always one of the three known ones |
| Routers.DbForWrite | backend/translations/routers.py:20-28 | the same for writes |
| Routers.ReadWriteAgree | backend/translations/routers.py:10-28 | reads and writes of every model are routed to the same database, the one the routing table names |
| Routers.AllowRelation | backend/translations/routers.py:30-35 | an answer exactly when both objects are in known databases, and then True exactly when it is the same database |
| Routers.AllowMigrate | backend/translations/routers.py:37-45 | an answer exactly for the `translations` app |
| Routers.MigrateFollowsRouting | backend/translations/routers.py:37-45 | a model of the app migrates exactly on the database its writes are routed to |
| Routers.RelationFollowsRouting | backend/translations/routers.py:30-35 | two models of the app may be related exactly when they are routed to the same database |
| ScrapeRun.EntryEnglishRowsMembers | backend/scrapers/ojibwe_scraper.py:371-374 | an entry gives one English-to-Ojibwe row per English text when its definition is absent or formats, and none otherwise |
| ScrapeRun.EntryRowsMembers | backend/scrapers/ojibwe_scraper.py:367-374 | the stored English-to-Ojibwe rows are exactly those rows, over all cleaned entries |
| ScrapeRun.EntryRowsShape | backend/scrapers/ojibwe_scraper.py:367-374 | every stored row is lower-cased, has a stored-form definition and carries the current version |
| ScrapeRun.OjibweRowsSpec | backend/scrapers/ojibwe_scraper.py:367-370 | one lower-cased Ojibwe-to-English row per cleaned entry, in order, with the current version |
| ScrapeRun.MissingRowsSpec | backend/scrapers/ojibwe_scraper.py:383-390 | each missing word is stored once, with its frequency and the version, by non-increasing frequency, and every missing word is stored |
| ScrapeRun.ValidatedHaveEnglish | backend/scrapers/ojibwe_scraper.py:361-364 | every validated entry has an English text, so the duplicate check cannot fail on one |
| ScrapeRun.StoreEnglishText | backend/scrapers/ojibwe_scraper.py:372-374 | one insert appends the row of the next English text |
| ScrapeRun.StoreEnglishTexts | backend/scrapers/ojibwe_scraper.py:371-374 | the inner loop appends one row per English text, in order |
| ScrapeRun.StoreEntry | backend/scrapers/ojibwe_scraper.py:367-374 | one entry adds its Ojibwe-to-English row and its English-to-Ojibwe rows; the other tables are unchanged |
| ScrapeRun.StoreTranslations | backend/scrapers/ojibwe_scraper.py:366-375 | the storing loop adds the rows of every cleaned entry, entry after entry |
| ScrapeRun.StoreMissing | backend/scrapers/ojibwe_scraper.py:386-391 | one missing-translation row per ranked word, with its frequency |
| ScrapeRun.StoreAndSync | backend/scrapers/ojibwe_scraper.py:356-464 | stores the cleaned entries and the ranked missing words under the current version; then, when the trigger holds, syncs under the current version, since the run adds no semantic match; `last_sync` is set only after a successful sync, and a failed sync returns the cleaned entries |
| ScrapeRun.ScrapeOjibwe | backend/scrapers/ojibwe_scraper.py:298-464 | new records are appended and `last_scrape` is set only when scraping was confirmed, due and found something; no valid record returns `[]` with nothing written; a failing dictionary sync raises before anything is stored, and it fails exactly when the sync is not skipped and the commit budget is smaller than the number of dictionary commits (the word batches and then the metadata count), in which case the log gains exactly the commits that fitted |

## Left out

- **File and JSON I/O.** Loading and saving the raw data, the timestamps, the processed words,
  the frequency file, the English dictionary and the missing-words file are left out. What a
  load would give is a parameter, and what would be saved is a result.
- **HTTP and concurrency.**
  - Left out: `aiohttp` sessions, the semaphore, `asyncio.gather`, `sync_to_async` and real
    sleeps.
  - `fetch_url` is modelled over a scripted sequence of outcomes, and its sleeps are returned
    as a list.
  - HTML scraping with BeautifulSoup (`scrape_ojibwe_page`, `scrape_full_dictionary`) is left
    out. What the scrapers return is a parameter.
- **Embeddings and similarity.**
  - Left out: the tokenizer, the model, the cosine similarity, the match list and its sort.
  - Also left out: the per-match `update_or_create_*` calls in `print_semantic_matches`.
  - Similarities are stored as `real` and never computed.
- **The call from the scraper into the analysis.** It is broken in the source: it passes a
  `version=` argument that `print_semantic_matches` does not take, and the resulting error is
  swallowed. `ScrapeRun.StoreAndSync` therefore adds no semantic match. The analysis word
  selection is modelled on its own.
- **Reads of Firestore and SQLite.** The `get_all_*` functions and their fallbacks to SQLite,
  `check_databases_populated`, `get_existing_translations_count` and `get_english_dict_size`
  become parameters.
- **Firestore functions the pipeline does not call.** `create_english_to_ojibwe`,
  `create_ojibwe_to_english` and `update_or_create_english_to_ojibwe` are not part of this
  model. `update_or_create_ojibwe_to_english` is modelled.
- **Errors and outages.**
  - SQLite insert failures, which the `create_*_local` functions log and swallow, are not
    modelled: every insert succeeds.
  - A Firestore outage is modelled as a budget of commits that will still succeed.
- **Loop constants, logs and prompts.** Logging, `print` and `tqdm` are left out. The answers
  to the interactive prompts are parameters.
- **JSON values.** A raw record's values are strings, lists or "something else", so `null` and
  numbers are not told apart. Only the three keys the validator reads are modelled.
- Text.Lower: lower-cases ASCII letters only; Python's full Unicode case mapping is not
  modelled.
- Definitions.Capitalise: upper-cases ASCII letters only. Python's `str.upper` also maps other
  letters (`é` to `É`) and can lengthen a character (`ß` to `SS`), which would change the length
  that `Definitions.FormatDefinitionShape` states.
- Analysis.Normalise: a list object whose `"word"` member is present but not a string is treated
  like one without the member, so the analysis is skipped. The source accepts such a list and
  later fails at `word.lower()`.
- Analysis.NormaliseWordObjects: a `"definition"` member that is present but not a string (such
  as `null`) is treated as absent, so the word becomes its own definition. In the source,
  `dict.get` keeps the `None` and the embedding step then fails.
- Cloud.RemoteDictCount: a read that raises, for which the source returns 0, is not modelled;
  reads always succeed when Firestore is available.
- Cloud.CurrentVersion: a read that raises, for which the source returns `"1.0"`, is not
  modelled; reads always succeed when Firestore is available.
- Cloud.Firestore: a client that fails to initialise is not modelled. This is the case where the
  Firebase library imports but `initialize_firebase` returns `None`; `available` stands for both
  at once. In the source every read then takes its fallback (version `"1.0"`, dictionary count
  0), and `sync_to_firestore` raises at `client.batch()` even with nothing to push. The model
  with a budget of 0 and empty tables instead completes that sync, so `ScrapeRun.StoreAndSync`
  returns the validated list and sets `last_sync`, where the source returns the cleaned list and
  keeps `last_sync`.
- Numbers.ParseInt: reads ASCII digits with optional sign and surrounding whitespace; `int()`'s
  underscores and non-ASCII digits are not modelled.
- Ranking.RankByFrequency: the order of equally frequent words is left open, because it comes
  from Python's set iteration order.
- Analysis.RemainingWordsSpec: states the permutation and the order by frequency; that equally
  frequent words keep their dictionary order is the separate lemma
  `Analysis.RemainingWordsStable`.
- Cloud.Distinct: `list(set(...))` has no defined order in Python. The model keeps first
  occurrences, and `Cloud.Firestore.UpdateOrCreateOjibweToEnglish` states only membership and
  the absence of duplicates.
- Scraper.CheckDuplicates: requires every new entry to have an English text. The source raises
  `IndexError` otherwise, and the pipeline only passes validated entries, which always have one
  (`ScrapeRun.ValidatedHaveEnglish`).
- Scraper.ScrapeDue: timestamps are whole seconds, not floats, and the 0.2 coverage threshold
  is the integer test `5 * count < size` (`Scraper.ScrapeDueCoverage` proves the two agree).
- Cloud.DictThreshold: `int(local_count * 0.9)` is modelled as the exact `9 * local_count / 10`.
  The floating-point product is not modelled; the double nearest 0.9 lies just above it, so the
  two agree for any dictionary of realistic size.
- Frequencies.LoadWordFrequencies: the file's age is a `real` given as a parameter; the clock
  is not modelled.
- Store.LocalStore.CreateMissingTranslationLocal: the frequency column is a float in the
  source; the model stores the integer frequency that the pipeline passes to it.
- Definitions.ValidateTranslationEntry: the `min_length` parameter is not modelled, because the
  source never uses it.
- **Code and documentation.** Where they differ, the model follows the code:
  - the duplicate check compares texts exactly, without case folding;
  - a 429 response uses up one of the `fetch_url` attempts.
