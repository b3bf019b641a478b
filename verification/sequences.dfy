/** Mapping every element of a sequence to a block and concatenating the
    blocks in order: the shape of the loops that append to an output list
    (the edges of the detector, the steps of the step extractor). */
module Sequences {
  /** The blocks `f(xs[0]) + f(xs[1]) + ...`, in the order of `xs`. */
  function FlatMap<T, U>(f: T -> seq<U>, xs: seq<T>): seq<U> {
    if |xs| == 0 then [] else FlatMap(f, xs[..|xs| - 1]) + f(xs[|xs| - 1])
  }

  /** The blocks of consecutive parts follow one another: nothing is
      reordered, merged or dropped. */
  lemma {:induction false} FlatMapAppend<T, U>(f: T -> seq<U>, xs: seq<T>, ys: seq<T>)
    ensures FlatMap(f, xs + ys) == FlatMap(f, xs) + FlatMap(f, ys)
    decreases |ys|
  {
    if |ys| > 0 {
      var ys', last := ys[..|ys| - 1], ys[|ys| - 1];
      calc {
        FlatMap(f, xs + ys);
        { assert (xs + ys)[..|xs + ys| - 1] == xs + ys';
          assert (xs + ys)[|xs + ys| - 1] == last; }
        FlatMap(f, xs + ys') + f(last);
        { FlatMapAppend(f, xs, ys'); }
        FlatMap(f, xs) + FlatMap(f, ys') + f(last);
        FlatMap(f, xs) + (FlatMap(f, ys') + f(last));
        FlatMap(f, xs) + FlatMap(f, ys);
      }
    } else {
      assert xs + ys == xs;
    }
  }

  /** An element of the output belongs to the block of some input. */
  lemma {:induction false} FlatMapMembership<T, U>(f: T -> seq<U>, xs: seq<T>, u: U)
    ensures u in FlatMap(f, xs) <==> exists i :: 0 <= i < |xs| && u in f(xs[i])
  {
    if |xs| > 0 {
      var prefix := xs[..|xs| - 1];
      FlatMapMembership(f, prefix, u);
      if u in FlatMap(f, prefix) {
        var i :| 0 <= i < |prefix| && u in f(prefix[i]);
        assert xs[i] == prefix[i];
      }
      if exists i :: 0 <= i < |xs| && u in f(xs[i]) {
        var i :| 0 <= i < |xs| && u in f(xs[i]);
        if i < |prefix| {
          assert prefix[i] == xs[i];
        }
      }
    }
  }

  /** Blocks of at most `n` elements give at most `n` elements per input. */
  lemma {:induction false} FlatMapBound<T, U>(f: T -> seq<U>, xs: seq<T>, n: nat)
    requires forall i :: 0 <= i < |xs| ==> |f(xs[i])| <= n
    ensures |FlatMap(f, xs)| <= n * |xs|
  {
    if |xs| > 0 {
      var prefix := xs[..|xs| - 1];
      forall i | 0 <= i < |prefix| ensures |f(prefix[i])| <= n {
        assert prefix[i] == xs[i];
      }
      FlatMapBound(f, prefix, n);
    }
  }
}
