/**
 * `compile_missing_translations`: the common English words, among the
 * `top_n` most frequent, that no Ojibwe-to-English translation gives as its
 * first English text, listed by frequency. The translations and the
 * frequency table are parameters; writing the JSON file is left out.
 */
module MissingTranslations {
  import opened PyDict
  import opened Text
  import opened Records
  import opened Ranking
  import opened Seqs

  const DefaultTopN := 1000

  /** How many elements `xs[:n]` keeps of a list of length `len`: a negative
      `n` drops that many from the end. */
  function SliceCount(len: nat, n: int): (k: nat)
    ensures k <= len
    ensures 0 <= n ==> k <= n
  {
    if 0 <= n then (if n < len then n else len)
    else if len + n < 0 then 0 else len + n
  }

  /** `translated_english`: the lower-cased first English text of every
      translation that has one. */
  function TranslatedFirstTexts(translations: seq<OjibweToEnglish>): set<string> {
    set t | t in translations && t.englishText != [] :: Lower(t.englishText[0])
  }

  /** `common_words`: the lower-cased words of the top entries. */
  function CandidateWords(top: seq<Pair>): (r: set<string>)
    ensures |r| <= |top|
    ensures forall w :: w in r ==> exists i :: 0 <= i < |top| && w == Lower(top[i].0)
    ensures forall i :: 0 <= i < |top| ==> Lower(top[i].0) in r
  {
    ImageSet(top, (p: Pair) => true, (p: Pair) => Lower(p.0))
  }

  /** The entries `sorted(WORD_FREQUENCIES.items(), ...)[:top_n]` keeps. */
  function TopN(freqs: Dict<int>, topN: int): seq<Pair> {
    TopEntries(freqs, SliceCount(|freqs|, topN))
  }

  /** `missing_words` before sorting. */
  function MissingWords(translations: seq<OjibweToEnglish>, freqs: Dict<int>, topN: int): set<string> {
    CandidateWords(TopN(freqs, topN)) - TranslatedFirstTexts(translations)
  }

  /** The missing words number at most `top_n`. */
  lemma MissingWordsBound(translations: seq<OjibweToEnglish>, freqs: Dict<int>, topN: int)
    requires 0 <= topN
    ensures |MissingWords(translations, freqs, topN)| <= topN
  {
    var missing := MissingWords(translations, freqs, topN);
    var common := CandidateWords(TopN(freqs, topN));
    assert missing <= common;
    SubsetCard(missing, common);
  }

  /** Each missing word is lower-case, the lower-cased form of a top entry,
      and the first English text of no translation. */
  lemma MissingWordsSound(translations: seq<OjibweToEnglish>, freqs: Dict<int>, topN: int)
    ensures forall w :: w in MissingWords(translations, freqs, topN) ==>
      && IsLowerCase(w)
      && (exists p :: p in TopN(freqs, topN) && w == Lower(p.0))
      && forall t :: t in translations && t.englishText != [] ==> Lower(t.englishText[0]) != w
  {
    var top := TopN(freqs, topN);
    forall w | w in MissingWords(translations, freqs, topN)
      ensures IsLowerCase(w) && exists p :: p in top && w == Lower(p.0)
    {
      var i :| 0 <= i < |top| && w == Lower(top[i].0);
      LowerIsLowerCase(top[i].0);
    }
  }

  /** Every top entry whose lower-cased word no translation gives first is
      missing. */
  lemma MissingWordsComplete(translations: seq<OjibweToEnglish>, freqs: Dict<int>, topN: int)
    ensures forall p :: (p in TopN(freqs, topN) &&
      forall t :: t in translations && t.englishText != [] ==> Lower(t.englishText[0]) != Lower(p.0)) ==>
        Lower(p.0) in MissingWords(translations, freqs, topN)
  {
    var top := TopN(freqs, topN);
    forall p | p in top ensures Lower(p.0) in CandidateWords(top) {
      var i :| 0 <= i < |top| && top[i] == p;
    }
  }

  /** `compile_missing_translations(output_path, top_n)`, up to the list it
      writes: each missing word once, highest frequency first. */
  method CompileMissingTranslations(translations: seq<OjibweToEnglish>, freqs: Dict<int>, topN: int)
    returns (missing: seq<string>)
    ensures RankedBy(missing, MissingWords(translations, freqs, topN), freqs)
    ensures |missing| == |MissingWords(translations, freqs, topN)|
  {
    var translated := TranslatedFirstTexts(translations);
    var common := CandidateWords(TopN(freqs, topN));
    missing := RankByFrequency(common - translated, freqs);
  }
}
