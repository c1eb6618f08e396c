/**
 * The shared word-frequency table: `fetch_word_frequencies` turns the lines
 * of a downloaded word list into a table that ranks the `i`-th line at
 * `1000000 - i`, and `load_word_frequencies` decides between the saved file
 * and a fresh download. The download, the file and its age are parameters.
 */
module Frequencies {
  import opened PyDict
  import opened Text

  /** Only the first lines of the list are ranked. */
  const LineLimit := 10000
  /** The value given to the first line. */
  const TopFrequency := 1000000
  /** A saved table older than 7 days is replaced. */
  const UpdateThresholdSeconds := 7 * 24 * 60 * 60

  /** What `requests.get(FREQUENCY_URL, timeout=10)` gives: a response, with
      its status and the lines of its text, or a `RequestException`. */
  datatype Fetched = Response(status: int, lines: seq<string>) | RequestFailure

  /** `raise_for_status()` raises for statuses from 400, and the exception is
      caught as a `RequestException`. */
  predicate FetchFailed(f: Fetched) {
    f.RequestFailure? || f.status >= 400
  }

  /** How many lines `words[:10000]` keeps. */
  function RankedCount(lines: seq<string>): (n: nat)
    ensures n <= |lines| && n <= LineLimit
    ensures n == |lines| || n == LineLimit
  {
    if |lines| < LineLimit then |lines| else LineLimit
  }

  /** The assignments the loop makes, in order: the `i`-th kept line,
      lower-cased, with `1000000 - i`. */
  function RankedPairs(lines: seq<string>): (r: seq<(string, int)>)
    ensures |r| == RankedCount(lines)
  {
    seq(RankedCount(lines), i requires 0 <= i < RankedCount(lines) => (Lower(lines[i]), TopFrequency - i))
  }

  /** The table `fetch_word_frequencies` returns: empty when the request
      fails, otherwise the ranked pairs with later lines overwriting the
      value of an equal earlier key. */
  function FrequencyTable(f: Fetched): Dict<int> {
    if FetchFailed(f) then [] else FromPairs(RankedPairs(f.lines))
  }

  /** `fetch_word_frequencies`. */
  method FetchWordFrequencies(f: Fetched) returns (freqs: Dict<int>)
    ensures freqs == FrequencyTable(f)
  {
    if f.RequestFailure? || f.status >= 400 {
      return [];
    }
    var words := f.lines;
    freqs := [];
    assert RankedPairs(words)[..0] == [];
    for i := 0 to RankedCount(words)
      invariant freqs == FromPairs(RankedPairs(words)[..i])
    {
      RankedStep(words, i);
      freqs := Put(freqs, Lower(words[i]), TopFrequency - i);
    }
    assert RankedPairs(words)[..RankedCount(words)] == RankedPairs(words);
  }

  /** One turn of the loop adds the next ranked pair. */
  lemma RankedStep(lines: seq<string>, i: nat)
    requires i < RankedCount(lines)
    ensures FromPairs(RankedPairs(lines)[..i + 1])
      == Put(FromPairs(RankedPairs(lines)[..i]), Lower(lines[i]), TopFrequency - i)
  {
    RankedPairAt(lines, i);
    FromPairsStep(RankedPairs(lines), i);
  }

  lemma RankedPairAt(lines: seq<string>, i: nat)
    requires i < RankedCount(lines)
    ensures RankedPairs(lines)[i] == (Lower(lines[i]), TopFrequency - i)
  {
  }

  /** The table ranks at most the first 10000 lines, every word in it is
      lower-case and every value lies between 990001 and 1000000. */
  lemma FrequencyTableShape(f: Fetched)
    ensures |FrequencyTable(f)| <= LineLimit
    ensures forall k :: k in Keys(FrequencyTable(f)) ==> IsLowerCase(k)
    ensures forall k :: Get(FrequencyTable(f), k).Some? ==>
      TopFrequency - LineLimit < Get(FrequencyTable(f), k).value <= TopFrequency
  {
    if !FetchFailed(f) {
      var pairs := RankedPairs(f.lines);
      FromPairsSize(pairs);
      forall k | k in Keys(FrequencyTable(f)) ensures IsLowerCase(k) {
        var i :| 0 <= i < |pairs| && pairs[i].0 == k;
        LowerIsLowerCase(f.lines[i]);
      }
      forall k | Get(FrequencyTable(f), k).Some?
        ensures TopFrequency - LineLimit < Get(FrequencyTable(f), k).value <= TopFrequency
      {
        FromPairsValues(pairs, k, Get(FrequencyTable(f), k).value);
      }
    }
  }

  /** A word's value is `1000000 - i` for the last kept line `i` that
      lower-cases to it. */
  lemma FrequencyOfLastLine(f: Fetched, i: nat)
    requires !FetchFailed(f) && i < RankedCount(f.lines)
    requires forall j :: i < j < RankedCount(f.lines) ==> Lower(f.lines[j]) != Lower(f.lines[i])
    ensures Get(FrequencyTable(f), Lower(f.lines[i])) == Some(TopFrequency - i)
  {
    var ps := RankedPairs(f.lines);
    assert forall j :: i < j < |ps| ==> ps[j].0 == Lower(f.lines[j]);
    assert ps[i] == (Lower(f.lines[i]), TopFrequency - i);
    FromPairsLastWins(ps, i);
  }

  /** The `should_update` decision: the file is missing or older than the
      threshold. */
  predicate ShouldUpdate(fileExists: bool, age: real) {
    !fileExists || age > UpdateThresholdSeconds as real
  }

  /** `load_word_frequencies`. `fileExists` and `age` describe the saved
      file, `saved` is what reading it gives (`None` when `json.load`
      raises), and `fetched` is what a download would give. Returns the
      table and what is written back to the file, if anything. */
  method LoadWordFrequencies(fileExists: bool, age: real, saved: Option<Dict<int>>, fetched: Fetched)
    returns (freqs: Dict<int>, written: Option<Dict<int>>)
    ensures var downloads := ShouldUpdate(fileExists, age) || saved.None?;
      && (downloads ==> freqs == FrequencyTable(fetched))
      && (!downloads ==> freqs == saved.value && written == None)
    ensures written.Some? <==> (ShouldUpdate(fileExists, age) || saved.None?) && FrequencyTable(fetched) != []
    ensures written.Some? ==> written.value == freqs
    ensures FetchFailed(fetched) && (ShouldUpdate(fileExists, age) || saved.None?) ==> freqs == [] && written == None
  {
    written := None;
    var shouldUpdate := false;
    if !fileExists {
      shouldUpdate := true;
    } else if age > UpdateThresholdSeconds as real {
      shouldUpdate := true;
    }
    if shouldUpdate {
      freqs := FetchWordFrequencies(fetched);
      if freqs != [] {
        written := Some(freqs);
      } else {
        freqs := [];
      }
    } else {
      match saved
      case Some(table) =>
        freqs := table;
      case None =>
        freqs := FetchWordFrequencies(fetched);
        if freqs != [] {
          written := Some(freqs);
        }
    }
  }
}
