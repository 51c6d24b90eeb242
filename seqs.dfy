/** Generic sequence transforms shared by both scripts: the Python idioms
    `[f(x) for x in xs]` and `[x for x in xs if keep(x)]`, and the facts about
    them that the scripts rely on (order is kept, nothing is invented). */
module Seqs {

  /** `[f(x) for x in xs]`. */
  function Map<A, B>(f: A -> B, xs: seq<A>): (r: seq<B>)
    ensures |r| == |xs|
    ensures forall i :: 0 <= i < |xs| ==> r[i] == f(xs[i])
  {
    seq(|xs|, i requires 0 <= i < |xs| => f(xs[i]))
  }

  /** Taking one more element of a sequence appends that element. */
  lemma TakeSnoc<T>(xs: seq<T>, i: nat)
    requires i < |xs|
    ensures xs[..i + 1] == xs[..i] + [xs[i]]
  {
  }

  lemma MapSnoc<A, B>(f: A -> B, xs: seq<A>, x: A)
    ensures Map(f, xs + [x]) == Map(f, xs) + [f(x)]
  {
  }

  /** `[x for x in xs if keep(x)]`, built the way a loop that appends builds it. */
  function Filter<T>(xs: seq<T>, keep: T -> bool): (r: seq<T>)
    ensures |r| <= |xs|
    ensures forall y :: y in r ==> y in xs && keep(y)
    decreases |xs|
  {
    if xs == [] then []
    else
      var last := xs[|xs| - 1];
      Filter(xs[..|xs| - 1], keep) + (if keep(last) then [last] else [])
  }

  /** The positions of the elements Filter keeps, in ascending order. */
  function KeptIndices<T>(xs: seq<T>, keep: T -> bool): seq<nat>
    decreases |xs|
  {
    if xs == [] then []
    else KeptIndices(xs[..|xs| - 1], keep) + (if keep(xs[|xs| - 1]) then [|xs| - 1] else [])
  }

  /** An element of xs survives exactly when keep holds of it. */
  lemma {:induction false} FilterMembership<T>(xs: seq<T>, keep: T -> bool, y: T)
    ensures y in Filter(xs, keep) <==> y in xs && keep(y)
    decreases |xs|
  {
    if xs != [] {
      var init, last := xs[..|xs| - 1], xs[|xs| - 1];
      assert xs == init + [last];
      FilterMembership(init, keep, y);
    }
  }

  /** Filter keeps the kept elements in their original order: the k-th
      survivor is the element at the k-th kept position, the kept positions
      ascend, and a position is kept exactly when keep holds there. */
  lemma {:induction false} FilterOrder<T>(xs: seq<T>, keep: T -> bool)
    ensures var r, ix := Filter(xs, keep), KeptIndices(xs, keep);
      && |ix| == |r|
      && (forall k :: 0 <= k < |ix| ==> ix[k] < |xs| && r[k] == xs[ix[k]])
      && (forall k, l :: 0 <= k < l < |ix| ==> ix[k] < ix[l])
      && (forall j :: 0 <= j < |xs| ==> (keep(xs[j]) <==> j in ix))
  {
    KeptIndicesPick(xs, keep);
    KeptIndicesAscend(xs, keep);
    KeptIndicesMembership(xs, keep);
  }

  lemma {:induction false} KeptIndicesPick<T>(xs: seq<T>, keep: T -> bool)
    ensures var r, ix := Filter(xs, keep), KeptIndices(xs, keep);
      && |ix| == |r|
      && (forall k :: 0 <= k < |ix| ==> ix[k] < |xs| && r[k] == xs[ix[k]])
    decreases |xs|
  {
    if xs != [] {
      var n := |xs| - 1;
      var init := xs[..n];
      KeptIndicesPick(init, keep);
      var r0, ix0 := Filter(init, keep), KeptIndices(init, keep);
      var r, ix := Filter(xs, keep), KeptIndices(xs, keep);
      if keep(xs[n]) {
        assert r == r0 + [xs[n]] && ix == ix0 + [n];
        forall k | 0 <= k < |ix| ensures ix[k] < |xs| && r[k] == xs[ix[k]] {
          if k < |ix0| {
            assert r[k] == r0[k] && ix[k] == ix0[k] && init[ix0[k]] == xs[ix0[k]];
          }
        }
      } else {
        assert r == r0 && ix == ix0;
        forall k | 0 <= k < |ix| ensures ix[k] < |xs| && r[k] == xs[ix[k]] {
          assert init[ix0[k]] == xs[ix0[k]];
        }
      }
    }
  }

  lemma {:induction false} KeptIndicesBound<T>(xs: seq<T>, keep: T -> bool)
    ensures forall k :: 0 <= k < |KeptIndices(xs, keep)| ==> KeptIndices(xs, keep)[k] < |xs|
    decreases |xs|
  {
    if xs != [] {
      KeptIndicesBound(xs[..|xs| - 1], keep);
    }
  }

  lemma {:induction false} KeptIndicesAscend<T>(xs: seq<T>, keep: T -> bool)
    ensures forall k, l :: 0 <= k < l < |KeptIndices(xs, keep)| ==>
      KeptIndices(xs, keep)[k] < KeptIndices(xs, keep)[l]
    decreases |xs|
  {
    if xs != [] {
      var n := |xs| - 1;
      KeptIndicesAscend(xs[..n], keep);
      KeptIndicesBound(xs[..n], keep);
      var ix0 := KeptIndices(xs[..n], keep);
      var ix := KeptIndices(xs, keep);
      assert ix == ix0 + (if keep(xs[n]) then [n] else []);
      forall k, l | 0 <= k < l < |ix| ensures ix[k] < ix[l] {
        assert ix[k] == ix0[k];
        if l < |ix0| {
          assert ix[l] == ix0[l];
          assert ix0[k] < ix0[l];
        } else {
          assert ix[l] == n;
          assert ix0[k] < |xs[..n]|;
        }
      }
    }
  }

  lemma {:induction false} KeptIndicesMembership<T>(xs: seq<T>, keep: T -> bool)
    ensures forall j :: 0 <= j < |xs| ==> (keep(xs[j]) <==> j in KeptIndices(xs, keep))
    decreases |xs|
  {
    if xs != [] {
      var n := |xs| - 1;
      var init := xs[..n];
      KeptIndicesMembership(init, keep);
      KeptIndicesBound(init, keep);
      var ix0 := KeptIndices(init, keep);
      var ix := KeptIndices(xs, keep);
      assert ix == ix0 + (if keep(xs[n]) then [n] else []);
      forall j | 0 <= j < |xs|
        ensures keep(xs[j]) <==> j in ix
      {
        if j < n {
          assert xs[j] == init[j];
          assert keep(xs[j]) <==> j in ix0;
        }
      }
    }
  }

  lemma FilterSnoc<T>(xs: seq<T>, x: T, keep: T -> bool)
    ensures Filter(xs + [x], keep) == Filter(xs, keep) + (if keep(x) then [x] else [])
  {
  }

  /** Filtering distributes over concatenation. */
  lemma {:induction false} FilterAppend<T>(a: seq<T>, b: seq<T>, keep: T -> bool)
    ensures Filter(a + b, keep) == Filter(a, keep) + Filter(b, keep)
    decreases |b|
  {
    if b != [] {
      var n := |b| - 1;
      assert (a + b)[..|a + b| - 1] == a + b[..n];
      FilterAppend(a, b[..n], keep);
    } else {
      assert a + b == a;
    }
  }

  /** The concatenation of f(x) for x in xs, in order: what a loop builds
      that extends one list with f's result for every element. */
  function ConcatMap<A, B>(f: A -> seq<B>, xs: seq<A>): seq<B>
    decreases |xs|
  {
    if xs == [] then []
    else ConcatMap(f, xs[..|xs| - 1]) + f(xs[|xs| - 1])
  }

  /** The total length of f(x) over xs. */
  function TotalLength<A, B>(f: A -> seq<B>, xs: seq<A>): nat
    decreases |xs|
  {
    if xs == [] then 0
    else TotalLength(f, xs[..|xs| - 1]) + |f(xs[|xs| - 1])|
  }

  lemma ConcatMapSnoc<A, B>(f: A -> seq<B>, xs: seq<A>, x: A)
    ensures ConcatMap(f, xs + [x]) == ConcatMap(f, xs) + f(x)
  {
  }

  /** ConcatMap distributes over concatenation. */
  lemma {:induction false} ConcatMapAppend<A, B>(f: A -> seq<B>, a: seq<A>, b: seq<A>)
    ensures ConcatMap(f, a + b) == ConcatMap(f, a) + ConcatMap(f, b)
    decreases |b|
  {
    if b == [] {
      assert a + b == a;
    } else {
      var n := |b| - 1;
      assert a + b == (a + b[..n]) + [b[n]];
      assert b == b[..n] + [b[n]];
      ConcatMapSnoc(f, a + b[..n], b[n]);
      ConcatMapSnoc(f, b[..n], b[n]);
      ConcatMapAppend(f, a, b[..n]);
    }
  }

  /** The length of a ConcatMap is the sum of the lengths of its pieces. */
  lemma {:induction false} ConcatMapLength<A, B>(f: A -> seq<B>, xs: seq<A>)
    ensures |ConcatMap(f, xs)| == TotalLength(f, xs)
    decreases |xs|
  {
    if xs != [] {
      ConcatMapLength(f, xs[..|xs| - 1]);
    }
  }

  /** Everything in a ConcatMap comes from the piece of some element. */
  lemma {:induction false} ConcatMapMembership<A, B>(f: A -> seq<B>, xs: seq<A>, y: B)
    ensures y in ConcatMap(f, xs) <==> exists i :: 0 <= i < |xs| && y in f(xs[i])
    decreases |xs|
  {
    if xs != [] {
      var n := |xs| - 1;
      ConcatMapMembership(f, xs[..n], y);
      assert forall i :: 0 <= i < n ==> xs[..n][i] == xs[i];
    }
  }

  /** Appending one element to the input of a filter-then-map appends its
      image when it is kept. */
  lemma FilterMapSnoc<A, B>(f: A -> B, keep: A -> bool, xs: seq<A>, x: A)
    ensures Map(f, Filter(xs + [x], keep)) == Map(f, Filter(xs, keep)) + (if keep(x) then [f(x)] else [])
  {
  }

  /** A ConcatMap whose pieces hold at most one element is a filter-then-map. */
  lemma {:induction false} ConcatMapOfOptional<A, B>(g: A -> seq<B>, keep: A -> bool, f: A -> B, xs: seq<A>)
    requires forall x :: g(x) == (if keep(x) then [f(x)] else [])
    ensures ConcatMap(g, xs) == Map(f, Filter(xs, keep))
    decreases |xs|
  {
    if xs != [] {
      var n := |xs| - 1;
      assert xs == xs[..n] + [xs[n]];
      ConcatMapOfOptional(g, keep, f, xs[..n]);
      FilterMapSnoc(f, keep, xs[..n], xs[n]);
    }
  }

  /** Filtering a ConcatMap filters each piece. */
  lemma {:induction false} FilterConcatMap<A, B>(f: A -> seq<B>, keep: B -> bool, g: A -> seq<B>, xs: seq<A>)
    requires forall x :: g(x) == Filter(f(x), keep)
    ensures Filter(ConcatMap(f, xs), keep) == ConcatMap(g, xs)
    decreases |xs|
  {
    if xs != [] {
      var n := |xs| - 1;
      FilterConcatMap(f, keep, g, xs[..n]);
      FilterAppend(ConcatMap(f, xs[..n]), f(xs[n]), keep);
    }
  }
}
