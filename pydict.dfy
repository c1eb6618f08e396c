/**
 * A Python `dict` with string keys, as the pipeline uses it: a sequence of
 * (key, value) pairs in insertion order. Assigning to a key that is already
 * present replaces its value and keeps its position; assigning to a new key
 * appends it. Iterating over `d.items()` or `d.keys()` follows this order.
 */
module PyDict {

  datatype Option<T> = None | Some(value: T)

  type Dict<V> = seq<(string, V)>

  /** `list(d.keys())`. */
  function Keys<V>(d: Dict<V>): (r: seq<string>)
    ensures |r| == |d|
    ensures forall i :: 0 <= i < |d| ==> r[i] == d[i].0
  {
    seq(|d|, i requires 0 <= i < |d| => d[i].0)
  }

  /** Every key occurs once, which is what a Python `dict` guarantees. */
  predicate DistinctKeys<V>(d: Dict<V>) {
    forall i, j :: 0 <= i < j < |d| ==> d[i].0 != d[j].0
  }

  /** `d[k]` if `k in d`, else `None`. */
  function Get<V>(d: Dict<V>, k: string): (r: Option<V>)
    ensures r.Some? <==> k in Keys(d)
  {
    if d == [] then None
    else if d[0].0 == k then Some(d[0].1)
    else
      assert forall x :: x in Keys(d[1..]) <==> x in Keys(d)[1..];
      Get(d[1..], k)
  }

  /** `d.get(k, default)`. */
  function GetOr<V>(d: Dict<V>, k: string, default: V): V {
    match Get(d, k)
    case Some(v) => v
    case None => default
  }

  /** `d[k] = v`. */
  function Put<V>(d: Dict<V>, k: string, v: V): (r: Dict<V>)
    ensures Get(r, k) == Some(v)
    ensures forall k' :: k' != k ==> Get(r, k') == Get(d, k')
    ensures k in Keys(d) ==> |r| == |d| && forall i :: 0 <= i < |d| ==> r[i].0 == d[i].0
    ensures k !in Keys(d) ==> r == d + [(k, v)]
  {
    if d == [] then [(k, v)]
    else if d[0].0 == k then [(k, v)] + d[1..]
    else
      KeysTail(d);
      ConsAppend(d, (k, v));
      [d[0]] + Put(d[1..], k, v)
  }

  /** The keys of a non-empty dictionary: the first key, then the others. */
  lemma KeysTail<V>(d: Dict<V>)
    requires d != []
    ensures Keys(d) == [d[0].0] + Keys(d[1..])
  {
  }

  /** Putting the head back in front of the tail with `x` appended. */
  lemma ConsAppend<A>(d: seq<A>, x: A)
    requires d != []
    ensures [d[0]] + (d[1..] + [x]) == d + [x]
  {
    assert d == [d[0]] + d[1..];
  }

  lemma PutKeepsDistinct<V>(d: Dict<V>, k: string, v: V)
    requires DistinctKeys(d)
    ensures DistinctKeys(Put(d, k, v))
  {
    var r := Put(d, k, v);
    if k !in Keys(d) {
      forall i, j | 0 <= i < j < |r| ensures r[i].0 != r[j].0 {
        if j == |d| {
          assert Keys(d)[i] == r[i].0;
        }
      }
    }
  }

  /** `dict(pairs)`, also what `json.load` builds from an object: later pairs
      overwrite the value of an earlier equal key without moving it. */
  function FromPairs<V>(ps: seq<(string, V)>): (r: Dict<V>)
    ensures forall k :: k in Keys(r) <==> exists i :: 0 <= i < |ps| && ps[i].0 == k
  {
    if ps == [] then []
    else
      var d := FromPairs(ps[..|ps| - 1]);
      var last := ps[|ps| - 1];
      var r := Put(d, last.0, last.1);
      assert forall k :: k in Keys(r) <==> Get(r, k).Some?;
      assert forall k :: k in Keys(d) <==> Get(d, k).Some?;
      assert forall i :: 0 <= i < |ps| - 1 ==> ps[..|ps| - 1][i] == ps[i];
      r
  }

  /** `dict(pairs)` holds each key once. */
  lemma {:induction false} FromPairsDistinct<V>(ps: seq<(string, V)>)
    ensures DistinctKeys(FromPairs(ps))
  {
    if ps != [] {
      var init := ps[..|ps| - 1];
      FromPairsDistinct(init);
      PutKeepsDistinct(FromPairs(init), ps[|ps| - 1].0, ps[|ps| - 1].1);
    }
  }

  /** Building the dictionary one pair at a time. */
  lemma FromPairsStep<V>(ps: seq<(string, V)>, i: nat)
    requires i < |ps|
    ensures FromPairs(ps[..i + 1]) == Put(FromPairs(ps[..i]), ps[i].0, ps[i].1)
  {
    assert ps[..i + 1][..i] == ps[..i];
  }

  /** The value `dict(pairs)` keeps for a key is the one of its last pair. */
  lemma {:induction false} FromPairsLastWins<V>(ps: seq<(string, V)>, i: int)
    requires 0 <= i < |ps|
    requires forall j :: i < j < |ps| ==> ps[j].0 != ps[i].0
    ensures Get(FromPairs(ps), ps[i].0) == Some(ps[i].1)
  {
    if i < |ps| - 1 {
      var init := ps[..|ps| - 1];
      assert init[i] == ps[i];
      FromPairsLastWins(init, i);
    }
  }

  /** Every value `dict(pairs)` holds comes from one of the pairs. */
  lemma {:induction false} FromPairsValues<V>(ps: seq<(string, V)>, k: string, v: V)
    requires Get(FromPairs(ps), k) == Some(v)
    ensures exists i :: 0 <= i < |ps| && ps[i] == (k, v)
  {
    if ps != [] {
      var init := ps[..|ps| - 1];
      if ps[|ps| - 1].0 != k {
        FromPairsValues(init, k, v);
        var i :| 0 <= i < |init| && init[i] == (k, v);
        assert ps[i] == init[i];
      }
    }
  }

  /** `dict(pairs)` has at most one entry per pair. */
  lemma {:induction false} FromPairsSize<V>(ps: seq<(string, V)>)
    ensures |FromPairs(ps)| <= |ps|
  {
    if ps != [] {
      FromPairsSize(ps[..|ps| - 1]);
    }
  }
}
