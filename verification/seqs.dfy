/**
  Small facts about sequences, stated for any element type so that the
  lemmas that use them do not have to reason about the elements.
 */
module Seqs {
  import opened Wrappers

  /** A prefix one longer is the prefix with the next element added. */
  lemma TakeSnoc<T>(xs: seq<T>, j: nat)
    requires j < |xs|
    ensures xs[..j] + [xs[j]] == xs[..j + 1]
  {
  }

  /** A non-empty sequence is its front followed by its last element. */
  lemma InitLast<T>(xs: seq<T>)
    requires xs != []
    ensures xs[..|xs| - 1] + [xs[|xs| - 1]] == xs
  {
  }

  /** The front of `a + [x]` is `a`, and its last element is `x`. */
  lemma SnocParts<T>(a: seq<T>, x: T)
    ensures (a + [x])[..|a|] == a && (a + [x])[|a|] == x
  {
  }

  /** The first `s` elements of the first `s + 1` are the first `s`. */
  lemma TakePrefix<T>(xs: seq<T>, s: nat)
    requires s < |xs|
    ensures xs[..s + 1][..s] == xs[..s] && xs[..s + 1][s] == xs[s]
  {
  }

  /** Concatenation is associative. */
  lemma AppendAssoc<T>(a: seq<T>, b: seq<T>, c: seq<T>)
    ensures a + (b + c) == (a + b) + c
  {
  }

  /** The images under `f` of the elements of `xs` that pass `keep`, in order: `[f(x) for x in xs if keep(x)]`. */
  function MapFilter<T, U>(xs: seq<T>, keep: T -> bool, f: T -> U): seq<U> {
    if xs == [] then []
    else MapFilter(xs[..|xs| - 1], keep, f) + (if keep(xs[|xs| - 1]) then [f(xs[|xs| - 1])] else [])
  }

  /** One more element adds its image when it passes, and nothing otherwise. */
  lemma MapFilterStep<T, U>(xs: seq<T>, keep: T -> bool, f: T -> U, j: nat)
    requires j < |xs|
    ensures MapFilter(xs[..j + 1], keep, f) == MapFilter(xs[..j], keep, f) + (if keep(xs[j]) then [f(xs[j])] else [])
  {
    TakePrefix(xs, j);
  }

  /** A value is in the result exactly when it is the image of an element that passes. */
  lemma {:induction false} MapFilterMembership<T, U>(xs: seq<T>, keep: T -> bool, f: T -> U, y: U)
    ensures y in MapFilter(xs, keep, f) <==> exists j :: 0 <= j < |xs| && keep(xs[j]) && y == f(xs[j])
  {
    if xs != [] {
      var n := |xs| - 1;
      var init := xs[..n];
      var tail := if keep(xs[n]) then [f(xs[n])] else [];
      MapFilterMembership(init, keep, f, y);
      assert MapFilter(xs, keep, f) == MapFilter(init, keep, f) + tail;
      if y in MapFilter(init, keep, f) {
        var j :| 0 <= j < |init| && keep(init[j]) && y == f(init[j]);
        assert xs[j] == init[j];
      }
      if exists j :: 0 <= j < |xs| && keep(xs[j]) && y == f(xs[j]) {
        var j :| 0 <= j < |xs| && keep(xs[j]) && y == f(xs[j]);
        if j < n {
          assert init[j] == xs[j];
          assert y in MapFilter(init, keep, f);
        } else {
          assert tail == [y];
        }
      }
    }
  }

  /** The value the last element of `xs` that yields one yields under `f`, or `none` when no element does. */
  function LastSome<T, V>(xs: seq<T>, f: T -> Option<V>, none: V): V {
    if xs == [] then none
    else if f(xs[|xs| - 1]).Some? then f(xs[|xs| - 1]).value
    else LastSome(xs[..|xs| - 1], f, none)
  }

  /** `LastSome` is `none` when no element yields a value, and otherwise the value of the last one that does. */
  lemma {:induction false} LastSomeSpec<T, V>(xs: seq<T>, f: T -> Option<V>, none: V)
    ensures (forall i :: 0 <= i < |xs| ==> f(xs[i]).None?) ==> LastSome(xs, f, none) == none
    ensures forall i :: 0 <= i < |xs| && f(xs[i]).Some? && (forall j :: i < j < |xs| ==> f(xs[j]).None?) ==>
                        LastSome(xs, f, none) == f(xs[i]).value
  {
    if xs != [] {
      var n := |xs| - 1;
      var init := xs[..n];
      LastSomeSpec(init, f, none);
      forall i | 0 <= i < |xs| && f(xs[i]).Some? && (forall j :: i < j < |xs| ==> f(xs[j]).None?)
        ensures LastSome(xs, f, none) == f(xs[i]).value
      {
        if i < n {
          assert init[i] == xs[i];
          assert f(xs[n]).None?;
          forall j | i < j < |init| ensures f(init[j]).None? { assert init[j] == xs[j]; }
        }
      }
      if forall i :: 0 <= i < |xs| ==> f(xs[i]).None? {
        forall i | 0 <= i < |init| ensures f(init[i]).None? { assert init[i] == xs[i]; }
      }
    }
  }
}
