/**
 * Order-preserving selection from a sequence: each element either yields one
 * output value or is dropped. Both the scraper's row loop and the filter's
 * relabelling loop have this shape.
 */
module Seqs {
  import opened Wrappers

  /** The values `f` yields, in the order of the elements that yield them. */
  function FilterMap<A, B>(f: A -> Option<B>, xs: seq<A>): seq<B>
  {
    if xs == [] then []
    else (if f(xs[0]).Some? then [f(xs[0]).value] else []) + FilterMap(f, xs[1..])
  }

  /** The indices of the elements that yield a value, in increasing order. */
  function Kept<A, B>(f: A -> Option<B>, xs: seq<A>): seq<nat>
    decreases |xs|
  {
    if xs == [] then []
    else
      var n := |xs| - 1;
      Kept(f, xs[..n]) + (if f(xs[n]).Some? then [n] else [])
  }

  /** Selecting from two stretches one after the other is selecting from their concatenation. */
  lemma {:induction false} FilterMapAppend<A, B>(f: A -> Option<B>, a: seq<A>, b: seq<A>)
    ensures FilterMap(f, a + b) == FilterMap(f, a) + FilterMap(f, b)
  {
    if a == [] {
      assert a + b == b;
    } else {
      assert (a + b)[0] == a[0] && (a + b)[1..] == a[1..] + b;
      FilterMapAppend(f, a[1..], b);
    }
  }

  /** One more element adds its value, if it yields one, at the end. */
  lemma FilterMapStep<A, B>(f: A -> Option<B>, xs: seq<A>, i: nat)
    requires i < |xs|
    ensures FilterMap(f, xs[..i + 1]) ==
      FilterMap(f, xs[..i]) + (if f(xs[i]).Some? then [f(xs[i]).value] else [])
  {
    assert xs[..i + 1] == xs[..i] + [xs[i]];
    FilterMapAppend(f, xs[..i], [xs[i]]);
    assert FilterMap(f, [xs[i]]) == (if f(xs[i]).Some? then [f(xs[i]).value] else []) + FilterMap(f, []);
  }

  /** An element that yields nothing is dropped, and the elements after it are still selected from. */
  lemma FilterMapSkip<A, B>(f: A -> Option<B>, xs: seq<A>, k: nat)
    requires k < |xs| && f(xs[k]).None?
    ensures FilterMap(f, xs) == FilterMap(f, xs[..k]) + FilterMap(f, xs[k + 1..])
  {
    assert xs == xs[..k] + ([xs[k]] + xs[k + 1..]);
    FilterMapAppend(f, xs[..k], [xs[k]] + xs[k + 1..]);
    assert ([xs[k]] + xs[k + 1..])[0] == xs[k];
    assert ([xs[k]] + xs[k + 1..])[1..] == xs[k + 1..];
  }

  /**
   * The selection, exactly: output value `j` is the value of the element at
   * `Kept(f, xs)[j]`; those indices increase, and an index is among them
   * exactly when its element yields a value.
   */
  lemma {:induction false} FilterMapKept<A, B>(f: A -> Option<B>, xs: seq<A>)
    ensures |Kept(f, xs)| == |FilterMap(f, xs)| <= |xs|
    ensures forall j :: 0 <= j < |Kept(f, xs)| ==>
      Kept(f, xs)[j] < |xs| && f(xs[Kept(f, xs)[j]]).Some? &&
      FilterMap(f, xs)[j] == f(xs[Kept(f, xs)[j]]).value
    ensures forall j, k :: 0 <= j < k < |Kept(f, xs)| ==> Kept(f, xs)[j] < Kept(f, xs)[k]
    ensures forall i :: 0 <= i < |xs| && f(xs[i]).Some? ==> i in Kept(f, xs)
    decreases |xs|
  {
    if xs != [] {
      var n := |xs| - 1;
      var init := xs[..n];
      FilterMapKept(f, init);
      FilterMapStep(f, xs, n);
      assert xs[..n + 1] == xs;
      forall i | 0 <= i < n ensures init[i] == xs[i] {
      }
    }
  }

  /** When every element yields a value there is one output value per element, in element order. */
  lemma {:induction false} FilterMapAll<A, B>(f: A -> Option<B>, xs: seq<A>)
    requires forall i :: 0 <= i < |xs| ==> f(xs[i]).Some?
    ensures |FilterMap(f, xs)| == |xs|
    ensures forall i :: 0 <= i < |xs| ==> FilterMap(f, xs)[i] == f(xs[i]).value
  {
    if xs != [] {
      FilterMapAll(f, xs[1..]);
    }
  }

  /** Concatenation is associative. */
  lemma AppendAssoc<T>(p: seq<T>, q: seq<T>, r: seq<T>)
    ensures p + (q + r) == p + q + r
  {
  }

  /** A non-empty slice is its first element followed by the rest. */
  lemma SliceCons<T>(s: seq<T>, p: nat, r: nat)
    requires p < r <= |s|
    ensures s[p..r] == [s[p]] + s[p + 1..r]
  {
  }
}
