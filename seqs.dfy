/** Row selection: the boolean-mask filters `df[mask]` and `dropna`. */
module Seqs {

  /** The elements of `xs` satisfying `p`, in their original order. */
  function Filter<T>(xs: seq<T>, p: T -> bool): (ys: seq<T>)
    ensures |ys| <= |xs|
  {
    if |xs| == 0 then []
    else Filter(xs[..|xs| - 1], p) + (if p(xs[|xs| - 1]) then [xs[|xs| - 1]] else [])
  }

  /** The positions in `xs` of the elements `Filter` keeps. */
  function KeptIndices<T>(xs: seq<T>, p: T -> bool): seq<nat>
  {
    if |xs| == 0 then []
    else KeptIndices(xs[..|xs| - 1], p) + (if p(xs[|xs| - 1]) then [|xs| - 1] else [])
  }

  predicate StrictlyIncreasing(idx: seq<nat>)
  {
    forall k, l :: 0 <= k < l < |idx| ==> idx[k] < idx[l]
  }

  /**
   * `Filter` keeps exactly the elements satisfying `p`, each unchanged, in
   * their original relative order: its k-th element is `xs[idx[k]]` for a
   * strictly increasing `idx` that holds position i exactly when `p(xs[i])`.
   */
  lemma {:induction false} FilterKeeps<T>(xs: seq<T>, p: T -> bool)
    ensures var idx := KeptIndices(xs, p);
      && |idx| == |Filter(xs, p)|
      && StrictlyIncreasing(idx)
      && (forall k :: 0 <= k < |idx| ==> idx[k] < |xs| && Filter(xs, p)[k] == xs[idx[k]])
      && (forall i :: 0 <= i < |xs| ==> (i in idx <==> p(xs[i])))
  {
    if |xs| > 0 {
      var init := xs[..|xs| - 1];
      FilterKeeps(init, p);
      var idx0 := KeptIndices(init, p);
      assert forall i :: 0 <= i < |init| ==> init[i] == xs[i];
      assert forall k :: 0 <= k < |idx0| ==> idx0[k] < |xs| - 1;
    }
  }

  lemma {:induction false} FilterMembership<T>(xs: seq<T>, p: T -> bool, x: T)
    ensures x in Filter(xs, p) <==> x in xs && p(x)
  {
    if |xs| > 0 {
      FilterMembership(xs[..|xs| - 1], p, x);
      assert xs == xs[..|xs| - 1] + [xs[|xs| - 1]];
    }
  }

  /** When every element satisfies `p`, nothing is removed. */
  lemma {:induction false} FilterKeepsAll<T>(xs: seq<T>, p: T -> bool)
    requires forall i :: 0 <= i < |xs| ==> p(xs[i])
    ensures Filter(xs, p) == xs
  {
    if |xs| > 0 {
      FilterKeepsAll(xs[..|xs| - 1], p);
      assert xs == xs[..|xs| - 1] + [xs[|xs| - 1]];
    }
  }

  /** Filtering twice with the same mask is filtering once. */
  lemma FilterIdempotent<T>(xs: seq<T>, p: T -> bool)
    ensures Filter(Filter(xs, p), p) == Filter(xs, p)
  {
    var ys := Filter(xs, p);
    forall i | 0 <= i < |ys| ensures p(ys[i]) {
      FilterMembership(xs, p, ys[i]);
    }
    FilterKeepsAll(ys, p);
  }

  lemma {:induction false} FilterConcat<T>(xs: seq<T>, ys: seq<T>, p: T -> bool)
    ensures Filter(xs + ys, p) == Filter(xs, p) + Filter(ys, p)
  {
    if |ys| == 0 {
      assert xs + ys == xs;
    } else {
      var init := ys[..|ys| - 1];
      FilterConcat(xs, init, p);
      assert (xs + ys)[..|xs + ys| - 1] == xs + init;
    }
  }
}
