/**
 * Ordering words by frequency, as the gap-ranking code does it with Python's
 * `sorted(..., key=..., reverse=True)` and `list.sort(...)`: a stable sort on
 * the value, highest first, and a slice `[:n]` for the top `n` entries.
 */
module Ranking {
  import opened PyDict
  import Seqs

  /** A (word, frequency) pair, as in `WORD_FREQUENCIES.items()`. */
  type Pair = (string, int)

  /** `WORD_FREQUENCIES.get(w, 0)`. */
  function Freq(table: Dict<int>, w: string): int {
    GetOr(table, w, 0)
  }

  predicate NonIncreasing(xs: seq<Pair>) {
    forall i, j :: 0 <= i < j < |xs| ==> xs[j].1 <= xs[i].1
  }

  /** Inserts `p` after every entry whose value is at least `p`'s, so that an
      entry inserted later never overtakes an equal one (stability). */
  function InsertDesc(p: Pair, xs: seq<Pair>): (r: seq<Pair>)
    ensures |r| == |xs| + 1
    ensures multiset(r) == multiset(xs) + multiset{p}
    ensures r[0] == p || (xs != [] && r[0] == xs[0])
  {
    if xs == [] then [p]
    else if xs[0].1 >= p.1 then
      assert xs == [xs[0]] + xs[1..];
      [xs[0]] + InsertDesc(p, xs[1..])
    else [p] + xs
  }

  /** Inserting into a list sorted by non-increasing value keeps it sorted. */
  lemma {:induction false} InsertDescSorted(p: Pair, xs: seq<Pair>)
    requires NonIncreasing(xs)
    ensures NonIncreasing(InsertDesc(p, xs))
  {
    if xs != [] && xs[0].1 >= p.1 {
      InsertDescSorted(p, xs[1..]);
      var rest := InsertDesc(p, xs[1..]);
      assert forall k :: 0 <= k < |rest| ==> rest[k].1 <= xs[0].1 by {
        forall k | 0 <= k < |rest| ensures rest[k].1 <= xs[0].1 {
          if k > 0 {
            assert rest[0].1 <= xs[0].1;
          }
        }
      }
    }
  }

  /** `sorted(xs, key=lambda x: x[1], reverse=True)`: the result is a
      permutation of `xs` in non-increasing order of value. */
  function SortByValueDesc(xs: seq<Pair>): (r: seq<Pair>)
    ensures |r| == |xs|
    ensures multiset(r) == multiset(xs)
    ensures NonIncreasing(r)
  {
    if xs == [] then []
    else
      var init := xs[..|xs| - 1];
      assert xs == init + [xs[|xs| - 1]];
      InsertDescSorted(xs[|xs| - 1], SortByValueDesc(init));
      InsertDesc(xs[|xs| - 1], SortByValueDesc(init))
  }

  /** The entries of `xs` whose value is `v`, in their order in `xs`. */
  function WithValue(xs: seq<Pair>, v: int): seq<Pair> {
    if xs == [] then []
    else (if xs[0].1 == v then [xs[0]] else []) + WithValue(xs[1..], v)
  }

  lemma {:induction false} WithValueAppend(a: seq<Pair>, b: seq<Pair>, v: int)
    ensures WithValue(a + b, v) == WithValue(a, v) + WithValue(b, v)
    decreases |a|
  {
    if a == [] {
      assert a + b == b;
    } else {
      assert (a + b)[0] == a[0];
      assert (a + b)[1..] == a[1..] + b;
      WithValueAppend(a[1..], b, v);
      Seqs.AppendAssoc(if a[0].1 == v then [a[0]] else [], WithValue(a[1..], v), WithValue(b, v));
    }
  }

  /** A list none of whose entries has value `v` keeps none. */
  lemma {:induction false} WithValueNone(xs: seq<Pair>, v: int)
    requires forall i :: 0 <= i < |xs| ==> xs[i].1 != v
    ensures WithValue(xs, v) == []
    decreases |xs|
  {
    if xs != [] {
      WithValueNone(xs[1..], v);
    }
  }

  /** Inserting `p` places it after every entry of its own value. */
  lemma {:induction false} InsertDescStable(p: Pair, xs: seq<Pair>, v: int)
    requires NonIncreasing(xs)
    ensures WithValue(InsertDesc(p, xs), v) == WithValue(xs, v) + (if p.1 == v then [p] else [])
    decreases |xs|
  {
    var own := if p.1 == v then [p] else [];
    if xs == [] {
      assert WithValue([p], v) == own + WithValue([], v);
    } else if xs[0].1 >= p.1 {
      var head := if xs[0].1 == v then [xs[0]] else [];
      InsertDescStable(p, xs[1..], v);
      assert [xs[0]] + InsertDesc(p, xs[1..]) == InsertDesc(p, xs);
      assert WithValue(InsertDesc(p, xs), v) == head + (WithValue(xs[1..], v) + own);
      Seqs.AppendAssoc(head, WithValue(xs[1..], v), own);
    } else {
      assert forall i :: 0 <= i < |xs| ==> xs[i].1 <= xs[0].1;
      if p.1 == v {
        WithValueNone(xs, v);
      }
      assert ([p] + xs)[1..] == xs;
    }
  }

  /** `sorted` is stable: for every value, the entries of that value come out
      in the order they went in, so the sort is fully determined by its
      input. */
  lemma {:induction false} SortByValueDescStable(xs: seq<Pair>, v: int)
    ensures WithValue(SortByValueDesc(xs), v) == WithValue(xs, v)
    decreases |xs|
  {
    if xs != [] {
      var init, last := xs[..|xs| - 1], xs[|xs| - 1];
      SortByValueDescStable(init, v);
      SortStep(xs);
      InsertDescStable(last, SortByValueDesc(init), v);
      WithValueLast(xs, v);
    }
  }

  /** The sort inserts the last entry into the sorted others. */
  lemma SortStep(xs: seq<Pair>)
    requires xs != []
    ensures SortByValueDesc(xs) == InsertDesc(xs[|xs| - 1], SortByValueDesc(xs[..|xs| - 1]))
  {
  }

  lemma WithValueLast(xs: seq<Pair>, v: int)
    requires xs != []
    ensures WithValue(xs, v) == WithValue(xs[..|xs| - 1], v) + (if xs[|xs| - 1].1 == v then [xs[|xs| - 1]] else [])
  {
    var init, last := xs[..|xs| - 1], xs[|xs| - 1];
    assert xs == init + [last];
    WithValueAppend(init, [last], v);
    assert WithValue([last], v) == (if last.1 == v then [last] else []) + WithValue([], v);
  }

  function Words(xs: seq<Pair>): (r: seq<string>)
    ensures |r| == |xs|
    ensures forall i :: 0 <= i < |xs| ==> r[i] == xs[i].0
  {
    seq(|xs|, i requires 0 <= i < |xs| => xs[i].0)
  }

  /** Reordering the pairs reorders their words the same way. */
  lemma {:induction false} WordsPermutation(xs: seq<Pair>, ys: seq<Pair>)
    requires multiset(xs) == multiset(ys)
    ensures multiset(Words(xs)) == multiset(Words(ys))
    decreases |xs|
  {
    if xs != [] {
      var x := xs[|xs| - 1];
      var init := xs[..|xs| - 1];
      assert xs == init + [x];
      assert x in multiset(ys);
      var k :| 0 <= k < |ys| && ys[k] == x;
      Seqs.RemoveOccurrence(init, x, ys, k);
      WordsPermutation(init, ys[..k] + ys[k + 1..]);
      WordsLast(xs);
      WordsRemove(ys, k);
    }
  }

  /** The words of all pairs: those of all but the last, and the last one's. */
  lemma WordsLast(xs: seq<Pair>)
    requires xs != []
    ensures multiset(Words(xs)) == multiset(Words(xs[..|xs| - 1])) + multiset{xs[|xs| - 1].0}
  {
    assert Words(xs) == Words(xs[..|xs| - 1]) + [xs[|xs| - 1].0];
  }

  /** The words of all pairs: those of the others, and the `k`-th one's. */
  lemma WordsRemove(ys: seq<Pair>, k: nat)
    requires k < |ys|
    ensures multiset(Words(ys)) == multiset(Words(ys[..k] + ys[k + 1..])) + multiset{ys[k].0}
  {
    assert Words(ys) == Words(ys[..k]) + [ys[k].0] + Words(ys[k + 1..]);
    assert Words(ys[..k] + ys[k + 1..]) == Words(ys[..k]) + Words(ys[k + 1..]);
  }

  /** `sorted(table.items(), key=lambda x: x[1], reverse=True)[:n]`. */
  function TopEntries(table: Dict<int>, n: nat): seq<Pair> {
    var sorted := SortByValueDesc(table);
    sorted[..if n < |sorted| then n else |sorted|]
  }

  /** The top `n` entries are the first `min(n, len(table))` of the sort, come from the table, and none of
      the entries left out has a higher frequency than one kept. */
  lemma TopEntriesAreTop(table: Dict<int>, n: nat)
    ensures |TopEntries(table, n)| == if n < |table| then n else |table|
    ensures forall p :: p in TopEntries(table, n) ==> p in table
    ensures forall p, q :: p in TopEntries(table, n) && q in table && q !in TopEntries(table, n) ==> q.1 <= p.1
  {
    var sorted := SortByValueDesc(table);
    var m := if n < |sorted| then n else |sorted|;
    var top := sorted[..m];
    forall p | p in top ensures p in table {
      assert p in multiset(sorted);
    }
    forall p, q | p in top && q in table && q !in top ensures q.1 <= p.1 {
      assert q in multiset(sorted);
      var j :| 0 <= j < |sorted| && sorted[j] == q;
      var i :| 0 <= i < m && top[i] == p;
      assert j >= m;
    }
  }

  /** What `sorted(words, key=lambda x: table.get(x, 0), reverse=True)` returns
      for a set of words: each word once, highest frequency first. The order of
      words with equal frequency follows the set's iteration order, which
      Python leaves unspecified, so this predicate does not fix it. */
  ghost predicate RankedBy(r: seq<string>, words: set<string>, table: Dict<int>) {
    && (forall w :: w in r <==> w in words)
    && (forall i, j :: 0 <= i < j < |r| ==> r[i] != r[j])
    && (forall i, j :: 0 <= i < j < |r| ==> Freq(table, r[j]) <= Freq(table, r[i]))
  }

  /** Every non-empty finite set of words has a word of highest frequency. */
  lemma {:induction false} HighestExists(s: set<string>, table: Dict<int>)
    requires s != {}
    ensures exists w :: w in s && forall y :: y in s ==> Freq(table, y) <= Freq(table, w)
    decreases |s|
  {
    var x :| x in s;
    var rest := s - {x};
    if rest != {} {
      HighestExists(rest, table);
      var w :| w in rest && forall y :: y in rest ==> Freq(table, y) <= Freq(table, w);
      if Freq(table, x) <= Freq(table, w) {
        assert forall y :: y in s ==> Freq(table, y) <= Freq(table, w);
      } else {
        assert forall y :: y in s ==> Freq(table, y) <= Freq(table, x);
      }
    } else {
      assert s == {x};
    }
  }

  /** Lists a set of words by non-increasing frequency, by taking out a word
      of highest frequency at each step. */
  method RankByFrequency(words: set<string>, table: Dict<int>) returns (r: seq<string>)
    ensures RankedBy(r, words, table)
    ensures |r| == |words|
  {
    r := [];
    var rest := words;
    while rest != {}
      invariant forall w :: w in words <==> w in r || w in rest
      invariant forall w :: w in r ==> w !in rest
      invariant forall i, j :: 0 <= i < j < |r| ==> r[i] != r[j]
      invariant forall i, j :: 0 <= i < j < |r| ==> Freq(table, r[j]) <= Freq(table, r[i])
      invariant forall w, i :: w in rest && 0 <= i < |r| ==> Freq(table, w) <= Freq(table, r[i])
      invariant |r| + |rest| == |words|
      decreases |rest|
    {
      HighestExists(rest, table);
      var w :| w in rest && forall y :: y in rest ==> Freq(table, y) <= Freq(table, w);
      r := r + [w];
      rest := rest - {w};
    }
  }

  /** A subset is no larger than the set. */
  lemma SubsetCard<T>(a: set<T>, b: set<T>)
    requires a <= b
    ensures |a| <= |b|
  {
    assert b == a + (b - a);
  }
}
