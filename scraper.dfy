/**
 * The decisions `scrape_ojibwe_async` takes between its I/O steps: whether to
 * scrape, which scraped entries are new and valid, which common English words
 * still lack a translation, which version to sync under, and whether to sync
 * at all.
 */
module Scraper {
  import opened Text
  import opened PyDict
  import opened Seqs
  import opened Records
  import opened Ranking
  import opened Versions

  /** `ONE_MONTH_SECONDS`. */
  const OneMonthSeconds := 30 * 24 * 60 * 60
  /** The `top_n` of the missing-words computation. */
  const TopCommonWords := 1000

  /** `prompt_to_scrape`: when the databases already hold translations, the
      answer (stripped and lower-cased) must be empty, `y` or `yes`. */
  function PromptToScrape(populated: bool, answer: string): (r: bool)
    ensures !populated ==> r
    ensures populated && Lower(Strip(answer, IsSpace)) in ["", "y", "yes"] ==> r
    ensures populated && Lower(Strip(answer, IsSpace)) in ["n", "no"] ==> !r
    ensures populated && r ==> |Strip(answer, IsSpace)| <= 3
  {
    !populated || AnswersYes(answer)
  }

  /** `is_valid_translation`: both sides are present and the Ojibwe text is
      not one of the English texts, ignoring case. */
  function IsValidTranslation(ojibwe: string, english: seq<string>): (r: bool)
    ensures r <==> ojibwe != [] && english != [] && forall i :: 0 <= i < |english| ==> Lower(english[i]) != Lower(ojibwe)
  {
    ojibwe != [] && english != [] && Lower(ojibwe) !in LowerAll(english)
  }

  /** The pairs `(english_text, ojibwe_text)` of the stored translations. */
  function ExistingPairs(existing: seq<EnglishToOjibwe>): set<(string, string)> {
    set t | t in existing :: (t.englishText, t.ojibweText)
  }

  /** The key `check_duplicates` looks an entry up by. */
  function DuplicateKey(e: Entry): (string, string)
    requires HasEnglish(e)
  {
    (e.englishText[0], e.ojibweText)
  }

  predicate HasEnglish(e: Entry) {
    e.englishText != []
  }

  /** `check_duplicates`: the new entries whose first English text and Ojibwe
      text are not the pair of a stored translation, compared exactly. An
      entry without English texts makes the source raise `IndexError`. */
  function CheckDuplicates(newEntries: seq<Entry>, existing: seq<EnglishToOjibwe>): (r: seq<Entry>)
    requires forall e :: e in newEntries ==> HasEnglish(e)
    ensures forall e :: e in r <==> e in newEntries && DuplicateKey(e) !in ExistingPairs(existing)
  {
    var pairs := ExistingPairs(existing);
    Filter(newEntries, (e: Entry) => !HasEnglish(e) || DuplicateKey(e) !in pairs)
  }

  /** The filter keeps input order, and an entry it keeps is kept as often as
      it occurs: repeats among the new entries are not removed. */
  lemma CheckDuplicatesOrder(a: seq<Entry>, b: seq<Entry>, existing: seq<EnglishToOjibwe>)
    requires forall e :: e in a + b ==> HasEnglish(e)
    ensures CheckDuplicates(a + b, existing) == CheckDuplicates(a, existing) + CheckDuplicates(b, existing)
    ensures forall e :: e in CheckDuplicates(a + b, existing) ==>
      multiset(CheckDuplicates(a + b, existing))[e] == multiset(a + b)[e]
  {
    var pairs := ExistingPairs(existing);
    var p := (e: Entry) => !HasEnglish(e) || DuplicateKey(e) !in pairs;
    FilterAppend(a, b, p);
    forall e | e in CheckDuplicates(a + b, existing)
      ensures multiset(CheckDuplicates(a + b, existing))[e] == multiset(a + b)[e]
    {
      FilterKeepsCount(a + b, p, e);
    }
  }

  /** The comparison is case-sensitive: a stored translation is lower-cased,
      so a scraped entry whose English text is capitalised is not recognised
      as a duplicate of it. */
  lemma CheckDuplicatesIsCaseSensitive()
    ensures var e := Entry("makwa", ["Bear"], "A bear.");
      CheckDuplicates([e], [EnglishToOjibwe("bear", "makwa", "A bear.")]) == [e]
  {
    var e := Entry("makwa", ["Bear"], "A bear.");
    var existing := [EnglishToOjibwe("bear", "makwa", "A bear.")];
    assert ExistingPairs(existing) == {("bear", "makwa")};
    assert DuplicateKey(e) == ("Bear", "makwa");
    assert "Bear"[0] != "bear"[0];
    var r := CheckDuplicates([e], existing);
    assert e in r;
    assert |r| <= 1;
  }

  /** The pairs `(english_text, ojibwe_text)` of the stored semantic matches. */
  function ExistingMatchPairs(existing: seq<SemanticMatch>): set<(string, string)> {
    set m | m in existing :: (m.englishText, m.ojibweText)
  }

  /** `check_semantic_duplicates`: the new matches whose pair of texts is not
      the pair of a stored match. */
  function CheckSemanticDuplicates(newMatches: seq<SemanticMatch>, existing: seq<SemanticMatch>): (r: seq<SemanticMatch>)
    ensures forall m :: m in r <==> m in newMatches && (m.englishText, m.ojibweText) !in ExistingMatchPairs(existing)
    ensures |r| <= |newMatches|
  {
    var pairs := ExistingMatchPairs(existing);
    Filter(newMatches, (m: SemanticMatch) => (m.englishText, m.ojibweText) !in pairs)
  }

  /** Matching against no stored match keeps every new one, and no new match
      at all leaves none. */
  lemma CheckSemanticDuplicatesBounds(newMatches: seq<SemanticMatch>, existing: seq<SemanticMatch>)
    ensures newMatches == [] ==> CheckSemanticDuplicates(newMatches, existing) == []
    ensures existing == [] ==> CheckSemanticDuplicates(newMatches, existing) == newMatches
  {
    if existing == [] {
      var p := (m: SemanticMatch) => (m.englishText, m.ojibweText) !in ExistingMatchPairs(existing);
      FilterAll(newMatches, p);
    }
  }

  /** A filter that accepts everything keeps everything. */
  lemma {:induction false} FilterAll<A(!new)>(xs: seq<A>, p: A -> bool)
    requires forall x :: p(x)
    ensures Filter(xs, p) == xs
  {
    if xs != [] {
      FilterAll(xs[..|xs| - 1], p);
      assert xs == xs[..|xs| - 1] + [xs[|xs| - 1]];
    }
  }

  predicate IsValidEntry(e: Entry) {
    IsValidTranslation(e.ojibweText, e.englishText)
  }

  /** `cleaned_translations`: the new entries that pass `is_valid_translation`. */
  function CleanedTranslations(validated: seq<Entry>, existing: seq<EnglishToOjibwe>): seq<Entry>
    requires forall e :: e in validated ==> HasEnglish(e)
  {
    Filter(CheckDuplicates(validated, existing), IsValidEntry)
  }

  /** The cleaned entries are the validated ones that are neither a stored
      pair nor a self-translation, in input order: cleaning two lists one
      after the other gives the two results one after the other. */
  lemma CleanedTranslationsSpec(a: seq<Entry>, b: seq<Entry>, existing: seq<EnglishToOjibwe>)
    requires forall e :: e in a + b ==> HasEnglish(e)
    ensures forall e :: e in CleanedTranslations(a + b, existing) <==>
      e in a + b && DuplicateKey(e) !in ExistingPairs(existing) && IsValidEntry(e)
    ensures CleanedTranslations(a + b, existing) == CleanedTranslations(a, existing) + CleanedTranslations(b, existing)
  {
    CheckDuplicatesOrder(a, b, existing);
    FilterAppend(CheckDuplicates(a, existing), CheckDuplicates(b, existing), IsValidEntry);
  }

  /** The scrape trigger: a month has passed since the last scrape, or
      translations cover less than 20% of the dictionary (`count / size <
      0.2`, with coverage 0 for an empty dictionary). */
  function ScrapeDue(now: int, lastScrape: int, dictSize: nat, count: nat): bool {
    now - lastScrape >= OneMonthSeconds || (if dictSize > 0 then 5 * count < dictSize else true)
  }

  /** The integer test is the coverage test of the source read in exact
      arithmetic, and a recent scrape with full coverage is not repeated. */
  lemma ScrapeDueCoverage(now: int, lastScrape: int, dictSize: nat, count: nat)
    ensures dictSize > 0 ==>
      (ScrapeDue(now, lastScrape, dictSize, count) <==>
        now - lastScrape >= OneMonthSeconds || (count as real) / (dictSize as real) < 0.2)
    ensures dictSize == 0 ==> ScrapeDue(now, lastScrape, dictSize, count)
    ensures now - lastScrape < OneMonthSeconds && count >= dictSize > 0 ==> !ScrapeDue(now, lastScrape, dictSize, count)
  {
    if dictSize > 0 {
      CoverageBelow(count as real, dictSize as real);
    }
  }

  lemma CoverageBelow(c: real, s: real)
    requires s > 0.0
    ensures c / s < 0.2 <==> 5.0 * c < s
  {
    var q := c / s;
    assert q * s == c;
    if q < 0.2 {
      assert q * s < 0.2 * s;
    } else {
      assert q * s >= 0.2 * s;
    }
  }

  /** The common words of the top entries: the lower-cased words at least two
      characters long. */
  function CommonWords(top: seq<Pair>): (r: set<string>)
    ensures |r| <= |top|
    ensures forall w :: w in r ==> exists i :: 0 <= i < |top| && |top[i].0| >= 2 && w == Lower(top[i].0)
    ensures forall i :: 0 <= i < |top| && |top[i].0| >= 2 ==> Lower(top[i].0) in r
  {
    ImageSet(top, (p: Pair) => |p.0| >= 2, (p: Pair) => Lower(p.0))
  }

  /** The lower-cased English texts of the stored translations. */
  function TranslatedEnglish(existing: seq<EnglishToOjibwe>): set<string> {
    set t | t in existing :: Lower(t.englishText)
  }

  /** `missing_common_words` before sorting: the common words among the 1000
      most frequent that no stored translation covers. */
  function MissingCommonWords(freqs: Dict<int>, existing: seq<EnglishToOjibwe>): set<string> {
    CommonWords(TopEntries(freqs, TopCommonWords)) - TranslatedEnglish(existing)
  }

  /** At most 1000 words are missing; each is lower-case, at least two
      characters long, the lower-cased form of a word among the 1000 most
      frequent, and the English text of no stored translation. */
  lemma MissingCommonWordsSpec(freqs: Dict<int>, existing: seq<EnglishToOjibwe>)
    ensures |MissingCommonWords(freqs, existing)| <= TopCommonWords
    ensures forall w :: w in MissingCommonWords(freqs, existing) ==>
      && IsLowerCase(w) && |w| >= 2
      && (exists p :: p in TopEntries(freqs, TopCommonWords) && w == Lower(p.0))
      && forall t :: t in existing ==> Lower(t.englishText) != w
  {
    var top := TopEntries(freqs, TopCommonWords);
    TopEntriesAreTop(freqs, TopCommonWords);
    var common := CommonWords(top);
    assert |MissingCommonWords(freqs, existing)| <= |common| by {
      assert MissingCommonWords(freqs, existing) <= common;
      SubsetCard(MissingCommonWords(freqs, existing), common);
    }
    forall w | w in MissingCommonWords(freqs, existing)
      ensures IsLowerCase(w) && |w| >= 2 && exists p :: p in top && w == Lower(p.0)
    {
      var i :| 0 <= i < |top| && |top[i].0| >= 2 && w == Lower(top[i].0);
      LowerIsLowerCase(top[i].0);
      assert top[i] in top;
    }
  }

  /** Whether semantic analysis runs: there are new translations, or no
      semantic match is stored yet. */
  function PerformAnalysis(cleaned: seq<Entry>, hasExistingMatches: bool): bool {
    cleaned != [] || !hasExistingMatches
  }

  /** The sync version: the current version with its minor number bumped when
      matches are stored, analysis ran and it found new matches; the current
      version otherwise. `None` where the bump raises `ValueError`. */
  function SyncVersion(current: string, hasExistingMatches: bool, performAnalysis: bool, hasNewMatches: bool): (r: Option<string>)
    ensures !(hasExistingMatches && performAnalysis && hasNewMatches) ==> r == Some(current)
  {
    if !hasExistingMatches then Some(current)
    else if performAnalysis && hasNewMatches then BumpMinor(current)
    else Some(current)
  }

  /** When the version is bumped, the bump fails only on a version that does
      not read as two integers. */
  lemma SyncVersionFails(current: string, hasExistingMatches: bool, performAnalysis: bool, hasNewMatches: bool)
    requires hasExistingMatches && performAnalysis && hasNewMatches
    ensures SyncVersion(current, hasExistingMatches, performAnalysis, hasNewMatches).None? <==> ParseVersion(current).None?
  {
    BumpMinorFails(current);
  }

  /** A bumped sync version keeps the major number and adds one to the minor
      number. */
  lemma SyncVersionBumps(current: string, hasExistingMatches: bool, performAnalysis: bool, hasNewMatches: bool,
                         major: int, minor: int)
    requires hasExistingMatches && performAnalysis && hasNewMatches
    requires ParseVersion(current) == Some((major, minor))
    ensures var r := SyncVersion(current, hasExistingMatches, performAnalysis, hasNewMatches);
      r.Some? && ParseVersion(r.value) == Some((major, minor + 1))
  {
    BumpMinorSpec(current, major, minor);
  }

  /** The sync trigger: new translations, new semantic matches, or no stored
      translations or no stored matches. */
  function ShouldSync(cleaned: seq<Entry>, newMatches: seq<SemanticMatch>,
                      existing: seq<EnglishToOjibwe>, hasExistingMatches: bool): (r: bool)
    ensures existing == [] || !hasExistingMatches ==> r
    ensures cleaned != [] || newMatches != [] ==> r
    ensures cleaned == [] && newMatches == [] && existing != [] && hasExistingMatches ==> !r
  {
    cleaned != [] || newMatches != [] || !(existing != [] && hasExistingMatches)
  }
}
