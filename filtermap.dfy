/**
  Filter-map over a sequence, built from the last element backwards the way a loop
  appends to a slice: every element for which `f` yields a value contributes that value,
  in order, and the others contribute nothing.
 */
module FilterMaps {
  import opened Wrappers

  function FilterMap<A, B>(f: A -> Option<B>, xs: seq<A>): (r: seq<B>)
    ensures |r| <= |xs|
  {
    if xs == [] then [] else FilterMap(f, xs[..|xs| - 1]) + f(xs[|xs| - 1]).ToSeq()
  }

  /** Positions of the elements for which `f` yields a value, in increasing order. */
  function Kept<A, B>(f: A -> Option<B>, xs: seq<A>): (r: seq<nat>)
    ensures forall k :: 0 <= k < |r| ==> r[k] < |xs|
    ensures forall k, l :: 0 <= k < l < |r| ==> r[k] < r[l]
  {
    if xs == [] then [] else Kept(f, xs[..|xs| - 1]) + (if f(xs[|xs| - 1]).Some? then [|xs| - 1] else [])
  }

  /** Exactly the elements for which `f` yields a value are kept. */
  lemma {:induction false} KeptExactly<A, B>(f: A -> Option<B>, xs: seq<A>)
    ensures forall i :: 0 <= i < |xs| ==> (f(xs[i]).Some? <==> i in Kept(f, xs))
  {
    if xs != [] {
      var init := xs[..|xs| - 1];
      KeptExactly(f, init);
      assert forall i :: 0 <= i < |init| ==> xs[i] == init[i];
    }
  }

  /** The k-th value of the filter-map is what `f` yields for the k-th kept element. */
  lemma {:induction false} FilterMapKept<A, B>(f: A -> Option<B>, xs: seq<A>)
    ensures |FilterMap(f, xs)| == |Kept(f, xs)|
    ensures forall k :: 0 <= k < |FilterMap(f, xs)| ==> f(xs[Kept(f, xs)[k]]) == Some(FilterMap(f, xs)[k])
  {
    if xs != [] {
      var init := xs[..|xs| - 1];
      FilterMapKept(f, init);
      var pi, fi := Kept(f, init), FilterMap(f, init);
      var last := f(xs[|xs| - 1]);
      var p, r := Kept(f, xs), FilterMap(f, xs);
      assert p == pi + (if last.Some? then [|xs| - 1] else []);
      assert r == fi + last.ToSeq();
      forall k | 0 <= k < |r| ensures f(xs[p[k]]) == Some(r[k]) {
        if k < |fi| {
          assert p[k] == pi[k] && r[k] == fi[k];
          assert xs[pi[k]] == init[pi[k]];
        }
      }
    }
  }

  /** Filter-map distributes over concatenation. */
  lemma {:induction false} FilterMapAppend<A, B>(f: A -> Option<B>, xs: seq<A>, ys: seq<A>)
    ensures FilterMap(f, xs + ys) == FilterMap(f, xs) + FilterMap(f, ys)
    decreases |ys|
  {
    if ys == [] {
      assert xs + ys == xs;
    } else {
      var init := ys[..|ys| - 1];
      assert (xs + ys)[..|xs + ys| - 1] == xs + init;
      FilterMapAppend(f, xs, init);
    }
  }
}
