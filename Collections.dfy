/** Sequence helpers for Swift's `compactMap`. */
module Collections {
  import opened Wrappers

  /** `xs.compactMap(f)`: the values `f` produces, in order, skipping None. */
  function CompactMap<X, Y>(f: X -> Option<Y>, xs: seq<X>): (r: seq<Y>)
    ensures |r| <= |xs|
    decreases |xs|
  {
    if xs == [] then []
    else (match f(xs[0]) case Some(y) => [y] case None => []) + CompactMap(f, xs[1..])
  }

  /** `compactMap` distributes over concatenation. */
  lemma {:induction false} CompactMapConcat<X, Y>(f: X -> Option<Y>, a: seq<X>, b: seq<X>)
    ensures CompactMap(f, a + b) == CompactMap(f, a) + CompactMap(f, b)
    decreases |a|
  {
    if a == [] {
      assert a + b == b;
    } else {
      assert (a + b)[1..] == a[1..] + b;
      CompactMapConcat(f, a[1..], b);
    }
  }

  /** Appending one element adds its image, if any, at the end. */
  lemma CompactMapSnoc<X, Y>(f: X -> Option<Y>, xs: seq<X>, x: X)
    ensures CompactMap(f, xs + [x]) == CompactMap(f, xs) + (match f(x) case Some(y) => [y] case None => [])
  {
    CompactMapConcat(f, xs, [x]);
    assert CompactMap(f, [x]) == (match f(x) case Some(y) => [y] case None => []) + CompactMap(f, [x][1..]);
  }

  /** When nothing is skipped, `compactMap` keeps every position. */
  lemma {:induction false} CompactMapTotal<X, Y>(f: X -> Option<Y>, xs: seq<X>)
    requires forall i :: 0 <= i < |xs| ==> f(xs[i]).Some?
    ensures |CompactMap(f, xs)| == |xs|
    ensures forall i :: 0 <= i < |xs| ==> CompactMap(f, xs)[i] == f(xs[i]).value
    decreases |xs|
  {
    if xs != [] {
      CompactMapTotal(f, xs[1..]);
    }
  }
}
