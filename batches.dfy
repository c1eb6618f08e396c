/**
 * How the Firestore sync loops group their writes: operations are added to a
 * batch, the batch is committed as soon as it holds 500 operations, and a
 * last, partial batch is committed only when it is not empty.
 */
module Batches {

  /** The most operations one Firestore batch may hold. */
  const BatchLimit := 500

  /** The batches a sequence of operations is committed in. */
  function Chunks<T>(xs: seq<T>): (r: seq<seq<T>>)
    decreases |xs|
  {
    if xs == [] then []
    else if |xs| <= BatchLimit then [xs]
    else [xs[..BatchLimit]] + Chunks(xs[BatchLimit..])
  }

  /** The batches one after the other. */
  function Flatten<T>(bs: seq<seq<T>>): seq<T> {
    if bs == [] then [] else bs[0] + Flatten(bs[1..])
  }

  /** Every batch holds between 1 and 500 operations, every batch but the
      last holds exactly 500, there are as many batches as 500-operation
      blocks started, and the batches together are the operations in order. */
  lemma {:induction false} ChunksSpec<T>(xs: seq<T>)
    ensures forall i :: 0 <= i < |Chunks(xs)| ==> 0 < |Chunks(xs)[i]| <= BatchLimit
    ensures forall i :: 0 <= i < |Chunks(xs)| - 1 ==> |Chunks(xs)[i]| == BatchLimit
    ensures |Chunks(xs)| == (|xs| + BatchLimit - 1) / BatchLimit
    ensures Flatten(Chunks(xs)) == xs
    decreases |xs|
  {
    if |xs| > BatchLimit {
      var rest := xs[BatchLimit..];
      ChunksSpec(rest);
      var r := Chunks(xs);
      assert r == [xs[..BatchLimit]] + Chunks(rest);
      assert r[1..] == Chunks(rest);
      forall i | 0 <= i < |r| ensures 0 < |r[i]| <= BatchLimit {
        if i > 0 {
          assert r[i] == Chunks(rest)[i - 1];
        }
      }
      forall i | 0 <= i < |r| - 1 ensures |r[i]| == BatchLimit {
        if i > 0 {
          assert r[i] == Chunks(rest)[i - 1];
        }
      }
      assert xs == xs[..BatchLimit] + rest;
    } else if xs != [] {
      assert Flatten(Chunks(xs)) == xs + Flatten<T>([]);
    }
  }

  /** Operations committed after a whole number of full batches start a new
      batch. */
  lemma {:induction false} ChunksAppend<T>(a: seq<T>, b: seq<T>)
    requires |a| % BatchLimit == 0
    ensures Chunks(a + b) == Chunks(a) + Chunks(b)
    ensures |Chunks(a)| == |a| / BatchLimit
    decreases |a|
  {
    if a == [] {
      assert a + b == b;
    } else if b == [] {
      assert a + b == a;
      ChunksAppend(a[BatchLimit..], b);
    } else {
      var rest := a[BatchLimit..];
      ChunksAppend(rest, b);
      assert (a + b)[..BatchLimit] == a[..BatchLimit];
      assert (a + b)[BatchLimit..] == rest + b;
      assert Chunks(a + b) == [a[..BatchLimit]] + Chunks(rest + b);
      if rest == [] {
        assert Chunks(a) == [a[..BatchLimit]];
      } else {
        assert Chunks(a) == [a[..BatchLimit]] + Chunks(rest);
      }
    }
  }

  /** A non-empty batch of at most 500 operations is committed on its own. */
  lemma ChunksOfOne<T>(xs: seq<T>)
    requires 0 < |xs| <= BatchLimit
    ensures Chunks(xs) == [xs]
  {
  }
}
