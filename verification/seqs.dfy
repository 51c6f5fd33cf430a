/** `Array.prototype.filter` over sequences and what it preserves. */
module Seqs {

  /** `idx` picks out `xs` from `ys`: positions in strictly increasing
      order, each holding the matching element of `xs`. */
  ghost predicate Embeds<T>(xs: seq<T>, ys: seq<T>, idx: seq<nat>)
  {
    && |idx| == |xs|
    && (forall i :: 0 <= i < |idx| ==> idx[i] < |ys| && xs[i] == ys[idx[i]])
    && (forall i, j :: 0 <= i < j < |idx| ==> idx[i] < idx[j])
  }

  /** `xs` is obtained from `ys` by deleting elements: nothing is added and
      the order of what remains is kept. */
  ghost predicate IsSubsequence<T>(xs: seq<T>, ys: seq<T>)
  {
    exists idx :: Embeds(xs, ys, idx)
  }

  /** `r` is exactly the elements of `xs` that satisfy `p`, in their order:
      it embeds into `xs` at positions that all pass, and every passing
      position of `xs` is one of them, so repeated elements are kept as
      often as they occur. */
  ghost predicate KeepsExactly<T>(r: seq<T>, xs: seq<T>, p: T -> bool)
  {
    exists idx :: SelectedPositions(r, xs, p, idx)
  }

  ghost predicate SelectedPositions<T>(r: seq<T>, xs: seq<T>, p: T -> bool, idx: seq<nat>)
  {
    && Embeds(r, xs, idx)
    && (forall i :: 0 <= i < |idx| ==> p(xs[idx[i]]))
    && (forall j :: 0 <= j < |xs| && p(xs[j]) ==> j in idx)
  }

  /** Keep the elements satisfying `p`, in their original order. */
  function Filter<T>(xs: seq<T>, p: T -> bool): (r: seq<T>)
    ensures |r| <= |xs|
    ensures forall i :: 0 <= i < |r| ==> r[i] in xs && p(r[i])
    ensures forall i :: 0 <= i < |xs| && p(xs[i]) ==> xs[i] in r
  {
    if xs == [] then []
    else (if p(xs[0]) then [xs[0]] else []) + Filter(xs[1..], p)
  }

  /** Every position moved one place to the right. */
  function Shift(idx: seq<nat>): (r: seq<nat>)
    ensures |r| == |idx|
    ensures forall i :: 0 <= i < |r| ==> r[i] == idx[i] + 1
    ensures forall k :: k in idx ==> k + 1 in r
  {
    seq(|idx|, i requires 0 <= i < |idx| => idx[i] + 1)
  }

  /** An embedding survives putting an element in front of the host, and
      extends to one that also matches that element. */
  lemma EmbedsCons<T>(x: T, xs: seq<T>, ys: seq<T>, idx: seq<nat>)
    requires Embeds(xs, ys, idx)
    ensures Embeds(xs, [x] + ys, Shift(idx))
    ensures Embeds([x] + xs, [x] + ys, [0] + Shift(idx))
  {
  }

  /** The positions `Filter` keeps, as a witness of order preservation. */
  lemma {:induction false} FilterEmbedding<T>(xs: seq<T>, p: T -> bool) returns (idx: seq<nat>)
    ensures SelectedPositions(Filter(xs, p), xs, p, idx)
  {
    if xs == [] {
      idx := [];
    } else {
      var tail := FilterEmbedding(xs[1..], p);
      var rest := Filter(xs[1..], p);
      EmbedsCons(xs[0], rest, xs[1..], tail);
      assert [xs[0]] + xs[1..] == xs;
      PassingPositionsCons(xs, p, tail);
      if p(xs[0]) {
        idx := [0] + Shift(tail);
        assert Filter(xs, p) == [xs[0]] + rest;
      } else {
        idx := Shift(tail);
        assert Filter(xs, p) == rest;
      }
    }
  }

  /** Positions found in the tail, moved right, together with position 0
      when it passes, are all the passing positions of the whole. */
  lemma PassingPositionsCons<T>(xs: seq<T>, p: T -> bool, tail: seq<nat>)
    requires xs != []
    requires forall i :: 0 <= i < |tail| ==> tail[i] < |xs| - 1 && p(xs[1..][tail[i]])
    requires forall j :: 0 <= j < |xs| - 1 && p(xs[1..][j]) ==> j in tail
    ensures forall i :: 0 <= i < |tail| ==> p(xs[Shift(tail)[i]])
    ensures forall j :: 0 < j < |xs| && p(xs[j]) ==> j in Shift(tail)
    ensures p(xs[0]) ==> forall j :: 0 <= j < |xs| && p(xs[j]) ==> j in [0] + Shift(tail)
    ensures !p(xs[0]) ==> forall j :: 0 <= j < |xs| && p(xs[j]) ==> j in Shift(tail)
  {
    forall j | 0 < j < |xs| && p(xs[j])
      ensures j in Shift(tail)
    {
      assert xs[1..][j - 1] == xs[j];
      assert j - 1 in tail;
    }
  }

  /** `Filter` keeps exactly the passing elements, repeats included. */
  lemma FilterKeepsExactly<T>(xs: seq<T>, p: T -> bool)
    ensures KeepsExactly(Filter(xs, p), xs, p)
  {
    var idx := FilterEmbedding(xs, p);
  }

  /** The result of `Filter` is a subsequence of its input. */
  lemma FilterIsSubsequence<T>(xs: seq<T>, p: T -> bool)
    ensures IsSubsequence(Filter(xs, p), xs)
  {
    var idx := FilterEmbedding(xs, p);
    assert Embeds(Filter(xs, p), xs, idx);
  }

  /** When every element passes, `Filter` returns its input. */
  lemma {:induction false} FilterKeepsAll<T>(xs: seq<T>, p: T -> bool)
    requires forall i :: 0 <= i < |xs| ==> p(xs[i])
    ensures Filter(xs, p) == xs
  {
    if xs != [] {
      FilterKeepsAll(xs[1..], p);
    }
  }

}
