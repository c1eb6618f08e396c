/**
 * The list comprehensions the pipeline is built from, `[g(x) for x in xs if
 * ...]`, as a filter-and-map over a sequence, with the facts every use of
 * them needs: order is kept, and membership is exactly "some input maps to it".
 */
module Seqs {
  import opened PyDict

  /** The `Some` results of `f` over `xs`, in order. */
  function FilterMap<A, B>(xs: seq<A>, f: A -> Option<B>): (r: seq<B>)
    ensures |r| <= |xs|
  {
    if xs == [] then []
    else
      var init := FilterMap(xs[..|xs| - 1], f);
      match f(xs[|xs| - 1])
      case Some(y) => init + [y]
      case None => init
  }

  /** Filtering a concatenation filters each part, so the kept elements keep
      their relative order. */
  lemma {:induction false} FilterMapAppend<A, B>(a: seq<A>, b: seq<A>, f: A -> Option<B>)
    ensures FilterMap(a + b, f) == FilterMap(a, f) + FilterMap(b, f)
    decreases |b|
  {
    if b == [] {
      assert a + b == a;
    } else {
      var b' := b[..|b| - 1];
      FilterMapAppend(a, b', f);
      assert (a + b)[..|a + b| - 1] == a + b';
      assert (a + b)[|a + b| - 1] == b[|b| - 1];
    }
  }

  /** One more element of the input adds its image, if any, at the end. */
  lemma FilterMapStep<A, B>(xs: seq<A>, i: nat, f: A -> Option<B>)
    requires i < |xs|
    ensures FilterMap(xs[..i + 1], f) ==
      FilterMap(xs[..i], f) + (match f(xs[i]) case Some(y) => [y] case None => [])
  {
    assert xs[..i + 1][..i] == xs[..i];
  }

  /** The images of a prefix and of the rest make up the whole. */
  lemma FilterMapSplit<A, B>(xs: seq<A>, i: nat, f: A -> Option<B>)
    requires i <= |xs|
    ensures FilterMap(xs, f) == FilterMap(xs[..i], f) + FilterMap(xs[i..], f)
  {
    FilterMapAppend(xs[..i], xs[i..], f);
    assert xs[..i] + xs[i..] == xs;
  }

  /** `y` is kept exactly when some element of `xs` maps to it. */
  lemma {:induction false} FilterMapMembers<A, B>(xs: seq<A>, f: A -> Option<B>, y: B)
    ensures y in FilterMap(xs, f) <==> exists i :: 0 <= i < |xs| && f(xs[i]) == Some(y)
  {
    if xs != [] {
      var init := xs[..|xs| - 1];
      FilterMapMembers(init, f, y);
      if exists i :: 0 <= i < |init| && f(init[i]) == Some(y) {
        var i :| 0 <= i < |init| && f(init[i]) == Some(y);
        assert xs[i] == init[i];
      }
      if exists i :: 0 <= i < |xs| && f(xs[i]) == Some(y) {
        var i :| 0 <= i < |xs| && f(xs[i]) == Some(y);
        if i < |init| {
          assert init[i] == xs[i];
        }
      }
    }
  }

  /** Nothing is dropped exactly when `f` accepts every element. */
  lemma {:induction false} FilterMapKeepsAll<A, B>(xs: seq<A>, f: A -> Option<B>)
    ensures |FilterMap(xs, f)| == |xs| <==> forall i :: 0 <= i < |xs| ==> f(xs[i]).Some?
  {
    if xs != [] {
      var init := xs[..|xs| - 1];
      FilterMapKeepsAll(init, f);
      assert forall i :: 0 <= i < |init| ==> init[i] == xs[i];
    }
  }

  /** `[x for x in xs if p(x)]`. */
  function Filter<A(!new)>(xs: seq<A>, p: A -> bool): (r: seq<A>)
    ensures |r| <= |xs|
    ensures forall x :: x in r <==> x in xs && p(x)
  {
    if xs == [] then []
    else
      var init := xs[..|xs| - 1];
      assert xs == init + [xs[|xs| - 1]];
      if p(xs[|xs| - 1]) then Filter(init, p) + [xs[|xs| - 1]] else Filter(init, p)
  }

  /** Filtering a concatenation filters each part. */
  lemma {:induction false} FilterAppend<A(!new)>(a: seq<A>, b: seq<A>, p: A -> bool)
    ensures Filter(a + b, p) == Filter(a, p) + Filter(b, p)
    decreases |b|
  {
    if b == [] {
      assert a + b == a;
    } else {
      var init := b[..|b| - 1];
      var x := b[|b| - 1];
      var kept := if p(x) then [x] else [];
      FilterAppend(a, init, p);
      assert (a + b)[..|a + b| - 1] == a + init;
      assert (a + b)[|a + b| - 1] == x;
      assert Filter(a + b, p) == Filter(a + init, p) + kept;
      assert Filter(b, p) == Filter(init, p) + kept;
      AppendAssoc(Filter(a, p), Filter(init, p), kept);
    }
  }

  /** A filter that rejects every element keeps nothing. */
  lemma {:induction false} FilterNone<A(!new)>(xs: seq<A>, p: A -> bool)
    requires forall i :: 0 <= i < |xs| ==> !p(xs[i])
    ensures Filter(xs, p) == []
  {
    if xs != [] {
      FilterNone(xs[..|xs| - 1], p);
    }
  }

  /** Filtering twice is filtering once by both tests. */
  lemma {:induction false} FilterFilter<A(!new)>(xs: seq<A>, p: A -> bool, q: A -> bool)
    ensures Filter(Filter(xs, p), q) == Filter(xs, x => p(x) && q(x))
  {
    if xs != [] {
      var init := xs[..|xs| - 1];
      FilterFilter(init, p, q);
      var fp := Filter(init, p);
      if p(xs[|xs| - 1]) {
        assert (fp + [xs[|xs| - 1]])[..|fp|] == fp;
      }
    }
  }

  /** An element the filter accepts is kept as many times as it occurs. */
  lemma {:induction false} FilterKeepsCount<A(!new)>(xs: seq<A>, p: A -> bool, x: A)
    requires p(x)
    ensures multiset(Filter(xs, p))[x] == multiset(xs)[x]
  {
    if xs != [] {
      var init := xs[..|xs| - 1];
      FilterKeepsCount(init, p, x);
      assert xs == init + [xs[|xs| - 1]];
    }
  }

  /** `[y for x in xs for y in f(x)]`: the images of the elements, one after
      the other. */
  function FlatMap<A, B>(xs: seq<A>, f: A -> seq<B>): seq<B> {
    if xs == [] then [] else FlatMap(xs[..|xs| - 1], f) + f(xs[|xs| - 1])
  }

  /** One more element adds its image at the end. */
  lemma FlatMapStep<A, B>(xs: seq<A>, i: nat, f: A -> seq<B>)
    requires i < |xs|
    ensures FlatMap(xs[..i + 1], f) == FlatMap(xs[..i], f) + f(xs[i])
  {
    assert xs[..i + 1][..i] == xs[..i];
  }

  /** `y` occurs exactly when it is in the image of some element. */
  lemma {:induction false} FlatMapMembers<A, B>(xs: seq<A>, f: A -> seq<B>, y: B)
    ensures y in FlatMap(xs, f) <==> exists i :: 0 <= i < |xs| && y in f(xs[i])
  {
    if xs != [] {
      var init := xs[..|xs| - 1];
      FlatMapMembers(init, f, y);
      if y in FlatMap(xs, f) && y !in f(xs[|xs| - 1]) {
        var i :| 0 <= i < |init| && y in f(init[i]);
        assert xs[i] == init[i];
      }
      if exists i :: 0 <= i < |xs| && y in f(xs[i]) {
        var i :| 0 <= i < |xs| && y in f(xs[i]);
        if i < |init| {
          assert init[i] == xs[i];
        }
      }
    }
  }

  /** `{f(x) for x in xs if p(x)}`: a set with at most one element per
      element of `xs`. */
  function ImageSet<A, B>(xs: seq<A>, p: A -> bool, f: A -> B): (r: set<B>)
    ensures |r| <= |xs|
    ensures forall y :: y in r ==> exists i :: 0 <= i < |xs| && p(xs[i]) && y == f(xs[i])
    ensures forall i :: 0 <= i < |xs| && p(xs[i]) ==> f(xs[i]) in r
  {
    if xs == [] then {}
    else
      var init := xs[..|xs| - 1];
      var x := xs[|xs| - 1];
      assert forall i :: 0 <= i < |init| ==> init[i] == xs[i];
      if p(x) then ImageSet(init, p, f) + {f(x)} else ImageSet(init, p, f)
  }

  /** `[f(x) for x in xs]`. */
  function Map<A, B>(xs: seq<A>, f: A -> B): (r: seq<B>)
    ensures |r| == |xs|
  {
    if xs == [] then [] else Map(xs[..|xs| - 1], f) + [f(xs[|xs| - 1])]
  }

  /** One more element adds its image at the end. */
  lemma MapStep<A, B>(xs: seq<A>, i: nat, f: A -> B)
    requires i < |xs|
    ensures Map(xs[..i + 1], f) == Map(xs[..i], f) + [f(xs[i])]
  {
    assert xs[..i + 1][..i] == xs[..i];
  }

  /** The image at each position is the image of the element there. */
  lemma {:induction false} MapAt<A, B>(xs: seq<A>, f: A -> B, i: nat)
    requires i < |xs|
    ensures Map(xs, f)[i] == f(xs[i])
  {
    var init := xs[..|xs| - 1];
    if i < |init| {
      MapAt(init, f, i);
      assert init[i] == xs[i];
    }
  }

  /** Concatenation is associative. */
  lemma AppendAssoc<A>(a: seq<A>, b: seq<A>, c: seq<A>)
    ensures (a + b) + c == a + (b + c)
  {
  }

  /** Extending a prefix of `xs` by one element, after a fixed start `a`. */
  lemma AppendNext<A>(a: seq<A>, xs: seq<A>, j: nat)
    requires j < |xs|
    ensures a + xs[..j + 1] == (a + xs[..j]) + [xs[j]]
  {
    assert xs[..j + 1] == xs[..j] + [xs[j]];
  }

  /** The empty and the full prefix of `xs`, after a fixed start `a`. */
  lemma AppendPrefixEnds<A>(a: seq<A>, xs: seq<A>)
    ensures a + xs[..0] == a
    ensures a + xs[..|xs|] == a + xs
  {
    assert xs[..0] == [] && xs[..|xs|] == xs;
  }

  /** `y` occurs exactly when it is the image of some element. */
  lemma MapMembers<A, B>(xs: seq<A>, f: A -> B, y: B)
    ensures y in Map(xs, f) <==> exists i :: 0 <= i < |xs| && y == f(xs[i])
  {
    if y in Map(xs, f) {
      var i :| 0 <= i < |xs| && Map(xs, f)[i] == y;
      MapAt(xs, f, i);
    }
    if exists i :: 0 <= i < |xs| && y == f(xs[i]) {
      var i :| 0 <= i < |xs| && y == f(xs[i]);
      MapAt(xs, f, i);
    }
  }

  /** Taking one occurrence of `x` from each of two sequences with the same
      elements leaves two sequences with the same elements. */
  lemma RemoveOccurrence<A>(init: seq<A>, x: A, ys: seq<A>, k: nat)
    requires k < |ys| && ys[k] == x
    requires multiset(init + [x]) == multiset(ys)
    ensures multiset(init) == multiset(ys[..k] + ys[k + 1..])
  {
    var rest := ys[..k] + ys[k + 1..];
    assert ys == ys[..k] + [x] + ys[k + 1..];
    assert multiset(init) + multiset{x} == multiset(rest) + multiset{x};
    forall y ensures multiset(init)[y] == multiset(rest)[y] {
      assert (multiset(init) + multiset{x})[y] == (multiset(rest) + multiset{x})[y];
    }
  }
}
