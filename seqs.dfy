/** A filter-and-map over a sequence, the shape of the loops in note.py
    that collect one result per matching line, with its basic laws. */
module Seqs {

  /** Concatenation regrouped. */
  lemma AppendAssoc<T>(a: seq<T>, b: seq<T>, c: seq<T>)
    ensures a + (b + c) == a + b + c
  {
  }

  /** `[f(x) for x in xs if keep(x)]`, built from the back as a loop that
      appends would build it. */
  function FilterMap<T, U>(xs: seq<T>, keep: T -> bool, f: T -> U): seq<U> {
    if xs == [] then []
    else
      var n := |xs| - 1;
      FilterMap(xs[..n], keep, f) + (if keep(xs[n]) then [f(xs[n])] else [])
  }

  /** The positions of the kept elements, in increasing order, all of them. */
  function KeptIndices<T>(xs: seq<T>, keep: T -> bool): (idx: seq<nat>)
    ensures forall m :: 0 <= m < |idx| ==> idx[m] < |xs| && keep(xs[idx[m]])
    ensures forall m, m' :: 0 <= m < m' < |idx| ==> idx[m] < idx[m']
    ensures forall i :: 0 <= i < |xs| && keep(xs[i]) ==> i in idx
  {
    if xs == [] then []
    else
      var n := |xs| - 1;
      KeptIndices(xs[..n], keep) + (if keep(xs[n]) then [n] else [])
  }

  /** The m-th result comes from the m-th kept element. */
  lemma {:induction false} FilterMapAt<T, U>(xs: seq<T>, keep: T -> bool, f: T -> U)
    ensures |FilterMap(xs, keep, f)| == |KeptIndices(xs, keep)|
    ensures forall m :: 0 <= m < |KeptIndices(xs, keep)| ==>
              FilterMap(xs, keep, f)[m] == f(xs[KeptIndices(xs, keep)[m]])
  {
    if xs != [] {
      var n := |xs| - 1;
      var pre := xs[..n];
      FilterMapAt(pre, keep, f);
      var ki := KeptIndices(pre, keep);
      assert FilterMap(xs, keep, f) == FilterMap(pre, keep, f) + (if keep(xs[n]) then [f(xs[n])] else []);
      assert KeptIndices(xs, keep) == ki + (if keep(xs[n]) then [n] else []);
      forall m | 0 <= m < |KeptIndices(xs, keep)|
        ensures FilterMap(xs, keep, f)[m] == f(xs[KeptIndices(xs, keep)[m]])
      {
        if m < |ki| {
          assert pre[ki[m]] == xs[ki[m]];
        }
      }
    }
  }

  /** Filtering a concatenation concatenates the results. */
  lemma {:induction false} FilterMapAppend<T, U>(a: seq<T>, b: seq<T>, keep: T -> bool, f: T -> U)
    ensures FilterMap(a + b, keep, f) == FilterMap(a, keep, f) + FilterMap(b, keep, f)
    decreases |b|
  {
    if b == [] {
      assert a + b == a;
    } else {
      var n := |b| - 1;
      assert (a + b)[..|a + b| - 1] == a + b[..n];
      FilterMapAppend(a, b[..n], keep, f);
    }
  }
}
