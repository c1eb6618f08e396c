/**
 * The word selection of `print_semantic_matches`: the English dictionary
 * loaded from `english_dict.json` is normalised to a `word -> definition`
 * dictionary, its words that no Ojibwe-to-English translation gives as its
 * first English text are the untranslated ones, and those not processed in
 * an earlier run are analysed, most frequent first, and then added to the
 * processed set. The embeddings and the similarity matching are left out;
 * the loaded files, the translations and the user's answer are parameters.
 */
module Analysis {
  import opened PyDict
  import opened Text
  import opened Seqs
  import opened Records
  import opened Ranking

  /** An element of a JSON list in `english_dict.json`: a string, an object
      (with its `"word"` and `"definition"` members when they are strings),
      or anything else. */
  datatype ListItem =
    | WordItem(word: string)
    | ObjectItem(wordMember: Option<string>, definition: Option<string>)
    | OtherItem

  /** What `load_english_definitions` gives: a JSON object (`{}` when the
      file cannot be loaded), a JSON list, or any other JSON value. */
  datatype EnglishJson =
    | JsonObject(entries: Dict<string>)
    | JsonList(items: seq<ListItem>)
    | JsonOther

  predicate AllWords(items: seq<ListItem>) {
    forall i :: 0 <= i < |items| ==> items[i].WordItem?
  }

  predicate AllWordObjects(items: seq<ListItem>) {
    forall i :: 0 <= i < |items| ==> items[i].ObjectItem? && items[i].wordMember.Some?
  }

  /** The pairs of `{word: word for word in english_dict}`. */
  function IdentityPairs(items: seq<ListItem>): seq<(string, string)>
    requires AllWords(items)
  {
    seq(|items|, i requires 0 <= i < |items| => (items[i].word, items[i].word))
  }

  /** `item.get("definition", item["word"])`. */
  function ObjectDefinition(item: ListItem): string
    requires item.ObjectItem? && item.wordMember.Some?
  {
    match item.definition
    case Some(d) => d
    case None => item.wordMember.value
  }

  /** The pairs of `{item["word"]: item.get("definition", item["word"]) ...}`. */
  function DefinitionPairs(items: seq<ListItem>): seq<(string, string)>
    requires AllWordObjects(items)
  {
    seq(|items|, i requires 0 <= i < |items| => (items[i].wordMember.value, ObjectDefinition(items[i])))
  }

  /** The dictionary the analysis works on, or `None` when it is skipped: an
      empty value, a list mixing formats or holding other values, and any
      value that is neither an object nor a list. */
  function Normalise(json: EnglishJson): (r: Option<Dict<string>>)
    ensures r.Some? ==> r.value != []
    ensures json.JsonOther? ==> r.None?
    ensures json.JsonList? && (exists i :: 0 <= i < |json.items| && json.items[i].OtherItem?) ==> r.None?
    ensures (json.JsonList? && (exists i :: 0 <= i < |json.items| && json.items[i].WordItem?)
      && exists j :: 0 <= j < |json.items| && json.items[j].ObjectItem?) ==> r.None?
    ensures json.JsonObject? ==> r == if json.entries == [] then None else Some(json.entries)
  {
    match json
    case JsonObject(entries) => if entries == [] then None else Some(entries)
    case JsonList(items) =>
      if items == [] then None
      else if AllWords(items) then
        assert IdentityPairs(items)[0].0 in Keys(FromPairs(IdentityPairs(items)));
        Some(FromPairs(IdentityPairs(items)))
      else if AllWordObjects(items) then
        assert DefinitionPairs(items)[0].0 in Keys(FromPairs(DefinitionPairs(items)));
        Some(FromPairs(DefinitionPairs(items)))
      else None
    case JsonOther => None
  }

  /** A non-empty list of strings becomes the identity dictionary on those
      strings. */
  lemma NormaliseWordList(items: seq<ListItem>)
    requires items != [] && AllWords(items)
    ensures Normalise(JsonList(items)).Some?
    ensures var d := Normalise(JsonList(items)).value;
      && (forall k :: k in Keys(d) <==> exists i :: 0 <= i < |items| && items[i].word == k)
      && (forall k :: k in Keys(d) ==> Get(d, k) == Some(k))
  {
    var ps := IdentityPairs(items);
    var d := Normalise(JsonList(items)).value;
    assert d == FromPairs(ps);
    assert forall i :: 0 <= i < |items| ==> ps[i].0 == items[i].word;
    forall k | k in Keys(d) ensures Get(d, k) == Some(k) {
      FromPairsValues(ps, k, Get(d, k).value);
    }
  }

  /** A non-empty list of objects that all have a word becomes the
      dictionary from each word to its definition, or to itself when the
      object has none; a word given twice keeps its last definition. */
  lemma NormaliseWordObjects(items: seq<ListItem>, i: nat)
    requires items != [] && AllWordObjects(items)
    requires i < |items|
    requires forall j :: i < j < |items| ==> items[j].wordMember != items[i].wordMember
    ensures Normalise(JsonList(items)).Some?
    ensures var d := Normalise(JsonList(items)).value;
      && (forall k :: k in Keys(d) <==> exists j :: 0 <= j < |items| && items[j].wordMember == Some(k))
      && Get(d, items[i].wordMember.value) == Some(ObjectDefinition(items[i]))
  {
    var ps := DefinitionPairs(items);
    assert !AllWords(items) by { assert !items[0].WordItem?; }
    assert Normalise(JsonList(items)) == Some(FromPairs(ps));
    assert forall j :: 0 <= j < |items| ==> Some(ps[j].0) == items[j].wordMember;
    FromPairsLastWins(ps, i);
  }

  /** `translated_english`: the first English text of every translation
      that has one, exactly as stored. */
  function TranslatedFirst(translations: seq<OjibweToEnglish>): set<string> {
    set t | t in translations && t.englishText != [] :: t.englishText[0]
  }

  /** `untranslated_words`, in the dictionary's order: its words that are
      the first English text of no translation, compared case-sensitively. */
  function Untranslated(dict: Dict<string>, translations: seq<OjibweToEnglish>): (r: seq<string>)
    ensures forall w :: w in r <==>
      w in Keys(dict) && forall t :: t in translations && t.englishText != [] ==> t.englishText[0] != w
  {
    var translated := TranslatedFirst(translations);
    Filter(Keys(dict), w => w !in translated)
  }

  /** The comparison is case-sensitive: a translation into `Dog` leaves the
      dictionary word `dog` untranslated. */
  lemma UntranslatedIsCaseSensitive()
    ensures Untranslated([("dog", "a domestic canine")], [OjibweToEnglish("animosh", ["Dog"])]) == ["dog"]
  {
    var translations := [OjibweToEnglish("animosh", ["Dog"])];
    assert "Dog" != "dog" by { assert "Dog"[0] != "dog"[0]; }
    assert TranslatedFirst(translations) == {"Dog"};
    assert Keys([("dog", "a domestic canine")]) == ["dog"];
  }

  /** The untranslated words not processed in an earlier run, in order. */
  function Unprocessed(untranslated: seq<string>, processed: set<string>): seq<string> {
    Filter(untranslated, w => w !in processed)
  }

  /** `word_freqs` before sorting: each unprocessed word with the frequency
      of its lower-cased form. */
  function WordFreqs(untranslated: seq<string>, processed: set<string>, freqs: Dict<int>): (r: seq<Pair>)
    ensures |r| == |Unprocessed(untranslated, processed)|
  {
    var ws := Unprocessed(untranslated, processed);
    seq(|ws|, i requires 0 <= i < |ws| => (ws[i], Freq(freqs, Lower(ws[i]))))
  }

  /** `remaining_words`: the words of `word_freqs` after the stable sort by
      frequency, highest first. */
  function RemainingWords(untranslated: seq<string>, processed: set<string>, freqs: Dict<int>): seq<string> {
    Words(SortByValueDesc(WordFreqs(untranslated, processed, freqs)))
  }

  /** The remaining words are the untranslated words not yet processed, each
      as often as it is untranslated, ordered by non-increasing frequency of
      the lower-cased word. */
  lemma RemainingWordsSpec(untranslated: seq<string>, processed: set<string>, freqs: Dict<int>)
    ensures var r := RemainingWords(untranslated, processed, freqs);
      && multiset(r) == multiset(Unprocessed(untranslated, processed))
      && (forall w :: w in r <==> w in untranslated && w !in processed)
      && (forall i, j :: 0 <= i < j < |r| ==> Freq(freqs, Lower(r[j])) <= Freq(freqs, Lower(r[i])))
  {
    var ws := Unprocessed(untranslated, processed);
    var ps := WordFreqs(untranslated, processed, freqs);
    var sorted := SortByValueDesc(ps);
    var r := RemainingWords(untranslated, processed, freqs);
    assert Words(ps) == ws;
    WordsPermutation(sorted, ps);
    forall i | 0 <= i < |sorted| ensures sorted[i].1 == Freq(freqs, Lower(r[i])) {
      assert sorted[i] in multiset(ps);
      var k :| 0 <= k < |ps| && ps[k] == sorted[i];
    }
    forall w ensures w in r <==> w in untranslated && w !in processed {
      assert w in r <==> w in multiset(ws);
    }
  }

  /** The words of `ws` whose lower-cased form has frequency `v`, in their
      order in `ws`. */
  function WordsWithFreq(ws: seq<string>, freqs: Dict<int>, v: int): seq<string> {
    if ws == [] then []
    else (if Freq(freqs, Lower(ws[0])) == v then [ws[0]] else []) + WordsWithFreq(ws[1..], freqs, v)
  }

  predicate FreqsOfWords(ps: seq<Pair>, freqs: Dict<int>) {
    forall i :: 0 <= i < |ps| ==> ps[i].1 == Freq(freqs, Lower(ps[i].0))
  }

  /** For pairs carrying their word's frequency, picking the pairs of one
      value and picking the words of that frequency agree. */
  lemma {:induction false} WordsOfValue(ps: seq<Pair>, freqs: Dict<int>, v: int)
    requires FreqsOfWords(ps, freqs)
    ensures Words(WithValue(ps, v)) == WordsWithFreq(Words(ps), freqs, v)
    decreases |ps|
  {
    if ps != [] {
      var head := if ps[0].1 == v then [ps[0]] else [];
      assert FreqsOfWords(ps[1..], freqs) by {
        forall i | 0 <= i < |ps| - 1 ensures ps[1..][i].1 == Freq(freqs, Lower(ps[1..][i].0)) {
          assert ps[1..][i] == ps[i + 1];
        }
      }
      WordsOfValue(ps[1..], freqs, v);
      WordsAppend(head, WithValue(ps[1..], v));
      assert Words(ps)[1..] == Words(ps[1..]);
    }
  }

  lemma WordsAppend(a: seq<Pair>, b: seq<Pair>)
    ensures Words(a + b) == Words(a) + Words(b)
  {
  }

  /** The sort is stable: among the remaining words of any one frequency,
      the dictionary's order is kept. */
  lemma RemainingWordsStable(untranslated: seq<string>, processed: set<string>, freqs: Dict<int>, v: int)
    ensures WordsWithFreq(RemainingWords(untranslated, processed, freqs), freqs, v)
      == WordsWithFreq(Unprocessed(untranslated, processed), freqs, v)
  {
    var ps := WordFreqs(untranslated, processed, freqs);
    var sorted := SortByValueDesc(ps);
    assert Words(ps) == Unprocessed(untranslated, processed);
    assert FreqsOfWords(sorted, freqs) by {
      forall i | 0 <= i < |sorted| ensures sorted[i].1 == Freq(freqs, Lower(sorted[i].0)) {
        assert sorted[i] in multiset(ps);
        var k :| 0 <= k < |ps| && ps[k] == sorted[i];
      }
    }
    SortByValueDescStable(ps, v);
    WordsOfValue(sorted, freqs, v);
    WordsOfValue(ps, freqs, v);
  }

  /** `processed_words.update(batch_words)`. */
  function ProcessedAfter(processed: set<string>, batch: seq<string>): (r: set<string>)
    ensures processed <= r
    ensures forall w :: w in batch ==> w in r
  {
    processed + set w | w in batch
  }

  /** Once a run has added its batch to the processed words, another run on
      the same dictionary and translations finds no remaining words. */
  lemma SecondRunFindsNothing(untranslated: seq<string>, processed: set<string>, freqs: Dict<int>)
    ensures var batch := RemainingWords(untranslated, processed, freqs);
      RemainingWords(untranslated, ProcessedAfter(processed, batch), freqs) == []
  {
    var batch := RemainingWords(untranslated, processed, freqs);
    var after := ProcessedAfter(processed, batch);
    RemainingWordsSpec(untranslated, processed, freqs);
    RemainingWordsSpec(untranslated, after, freqs);
    assert forall i :: 0 <= i < |untranslated| ==> untranslated[i] in after;
    FilterNone(untranslated, w => w !in after);
  }

  /** The words a run analyses: the remaining words, or none when the
      dictionary cannot be normalised or there are no translations. Each is
      a word of the normalised dictionary. */
  function Batch(json: EnglishJson, translations: seq<OjibweToEnglish>,
                 processed: set<string>, freqs: Dict<int>): (r: seq<string>)
    ensures forall w :: w in r ==> Normalise(json).Some? && w in Keys(Normalise(json).value)
  {
    match Normalise(json)
    case None => []
    case Some(dict) =>
      if translations == [] then []
      else
        RemainingWordsSpec(Untranslated(dict, translations), processed, freqs);
        RemainingWords(Untranslated(dict, translations), processed, freqs)
  }

  /** The loop that pairs each batch word with `english_dict.get(word,
      word)`: its definition, or the word itself when it has none. */
  method BuildDefinitions(dict: Dict<string>, batch: seq<string>)
    returns (engWords: seq<string>, engDefs: seq<string>)
    ensures engWords == batch
    ensures |engDefs| == |batch|
    ensures forall i :: 0 <= i < |batch| ==>
      && (batch[i] in Keys(dict) ==> Get(dict, batch[i]) == Some(engDefs[i]))
      && (batch[i] !in Keys(dict) ==> engDefs[i] == batch[i])
  {
    engWords, engDefs := [], [];
    for i := 0 to |batch|
      invariant engWords == batch[..i]
      invariant |engDefs| == i
      invariant forall k :: 0 <= k < i ==>
        && (batch[k] in Keys(dict) ==> Get(dict, batch[k]) == Some(engDefs[k]))
        && (batch[k] !in Keys(dict) ==> engDefs[k] == batch[k])
    {
      var definition := GetOr(dict, batch[i], batch[i]);
      engWords := engWords + [batch[i]];
      engDefs := engDefs + [definition];
    }
  }

  /** `print_semantic_matches` up to the similarity matching: `again` is
      what it returns, `processedAfter` the processed set it saves (the old
      one when it stops early), and `engWords` and `engDefs` the words it
      analyses and the definitions it embeds for them, each word's own. */
  method PrintSemanticMatches(json: EnglishJson, translations: seq<OjibweToEnglish>,
                              processed: set<string>, freqs: Dict<int>, answer: string)
    returns (again: bool, processedAfter: set<string>, engWords: seq<string>, engDefs: seq<string>)
    ensures engWords == Batch(json, translations, processed, freqs)
    ensures engWords == [] ==> !again && processedAfter == processed && engDefs == []
    ensures engWords != [] ==> processedAfter == ProcessedAfter(processed, engWords) && again == AnswersYes(answer)
    ensures |engDefs| == |engWords|
    ensures forall i :: 0 <= i < |engWords| ==>
      Normalise(json).Some? && Get(Normalise(json).value, engWords[i]) == Some(engDefs[i])
  {
    var normalised := Normalise(json);
    if normalised.None? {
      return false, processed, [], [];
    }
    var dict := normalised.value;
    if translations == [] {
      return false, processed, [], [];
    }
    var untranslated := Untranslated(dict, translations);
    var batch := RemainingWords(untranslated, processed, freqs);
    if batch == [] {
      return false, processed, [], [];
    }
    assert batch == Batch(json, translations, processed, freqs);
    engWords, engDefs := BuildDefinitions(dict, batch);
    processedAfter := ProcessedAfter(processed, engWords);
    again := AnswersYes(answer);
  }
}
