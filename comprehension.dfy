/** The list comprehensions of the pipeline: the element-wise map built by an
    appending loop (main.py:45-50), the filtered comprehension
    `[f(x) for x in xs if p(x)]` (main.py:82), and an independent account of which
    elements the filter keeps. */
module Comprehension {

  /** `[f(x) for x in xs]`, grown at the back one element at a time. */
  function Map<T, U>(xs: seq<T>, f: T -> U): (r: seq<U>)
    ensures |r| == |xs|
    decreases |xs|
  {
    if xs == [] then [] else Map(xs[..|xs| - 1], f) + [f(xs[|xs| - 1])]
  }

  /** Position k of the map is `f` of element k. */
  lemma {:induction false} MapAt<T, U>(xs: seq<T>, f: T -> U, k: nat)
    requires k < |xs|
    ensures Map(xs, f)[k] == f(xs[k])
    decreases |xs|
  {
    if k < |xs| - 1 {
      MapAt(xs[..|xs| - 1], f, k);
    }
  }

  /** Mapping a longer prefix appends one image. */
  lemma MapSnoc<T, U>(xs: seq<T>, i: nat, f: T -> U)
    requires i < |xs|
    ensures Map(xs[..i + 1], f) == Map(xs[..i], f) + [f(xs[i])]
  {
    assert xs[..i + 1][..i] == xs[..i];
  }

  /** `[f(x) for x in xs if p(x)]`. */
  function Keep<T, U>(xs: seq<T>, p: T -> bool, f: T -> U): (r: seq<U>)
    ensures |r| <= |xs|
    decreases |xs|
  {
    if xs == [] then []
    else (if p(xs[0]) then [f(xs[0])] else []) + Keep(xs[1..], p, f)
  }

  function Shift(s: seq<nat>): (r: seq<nat>)
    ensures |r| == |s| && forall k :: 0 <= k < |s| ==> r[k] == s[k] + 1
  {
    seq(|s|, k requires 0 <= k < |s| => s[k] + 1)
  }

  /** Every entry of `r` is a position of `xs` whose element satisfies `p`. */
  predicate AtSatisfying<T>(xs: seq<T>, p: T -> bool, r: seq<nat>)
  {
    forall k :: 0 <= k < |r| ==> r[k] < |xs| && p(xs[r[k]])
  }

  lemma ShiftAtSatisfying<T>(xs: seq<T>, p: T -> bool, s: seq<nat>)
    requires xs != [] && AtSatisfying(xs[1..], p, s)
    ensures AtSatisfying(xs, p, Shift(s))
  {
    forall k | 0 <= k < |s| ensures Shift(s)[k] < |xs| && p(xs[Shift(s)[k]]) {
      assert xs[1..][s[k]] == xs[Shift(s)[k]];
    }
  }

  lemma ConsAtSatisfying<T>(xs: seq<T>, p: T -> bool, s: seq<nat>)
    requires xs != [] && p(xs[0]) && AtSatisfying(xs, p, s)
    ensures AtSatisfying(xs, p, [0] + s)
  {
    var r := [0] + s;
    forall k | 0 <= k < |r| ensures r[k] < |xs| && p(xs[r[k]]) {
      if k > 0 { assert r[k] == s[k - 1]; }
    }
  }

  /** The positions of the elements that satisfy `p`, listed from the front. */
  function Positions<T>(xs: seq<T>, p: T -> bool): (r: seq<nat>)
    ensures AtSatisfying(xs, p, r)
    decreases |xs|
  {
    if xs == [] then []
    else
      var rest := Positions(xs[1..], p);
      ShiftAtSatisfying(xs, p, rest);
      if p(xs[0]) then
        ConsAtSatisfying(xs, p, Shift(rest));
        [0] + Shift(rest)
      else Shift(rest)
  }

  predicate Increasing(s: seq<nat>)
  {
    forall k1, k2 :: 0 <= k1 < k2 < |s| ==> s[k1] < s[k2]
  }

  lemma ShiftIncreasing(s: seq<nat>)
    requires Increasing(s)
    ensures Increasing(Shift(s)) && forall k :: 0 <= k < |s| ==> Shift(s)[k] > 0
  {
  }

  lemma ConsIncreasing(s: seq<nat>)
    requires Increasing(s) && forall k :: 0 <= k < |s| ==> s[k] > 0
    ensures Increasing([0] + s)
  {
    var r := [0] + s;
    forall k1, k2 | 0 <= k1 < k2 < |r| ensures r[k1] < r[k2] {
      assert r[k2] == s[k2 - 1];
      if k1 > 0 { assert r[k1] == s[k1 - 1]; }
    }
  }

  /** The positions are strictly increasing: each element is listed at most once, in
      the order of `xs`. */
  lemma {:induction false} PositionsIncreasing<T>(xs: seq<T>, p: T -> bool)
    ensures Increasing(Positions(xs, p))
    decreases |xs|
  {
    if xs != [] {
      var rest := Positions(xs[1..], p);
      PositionsIncreasing(xs[1..], p);
      ShiftIncreasing(rest);
      if p(xs[0]) {
        ConsIncreasing(Shift(rest));
      }
    }
  }

  /** No element that satisfies `p` is missed. */
  lemma {:induction false} PositionsComplete<T>(xs: seq<T>, p: T -> bool, j: nat)
    requires j < |xs| && p(xs[j])
    ensures j in Positions(xs, p)
    decreases |xs|
  {
    if j > 0 {
      var tail := xs[1..];
      assert tail[j - 1] == xs[j];
      PositionsComplete(tail, p, j - 1);
      var rest := Positions(tail, p);
      var k :| 0 <= k < |rest| && rest[k] == j - 1;
      var head: seq<nat> := if p(xs[0]) then [0] else [];
      assert Positions(xs, p) == head + Shift(rest);
      assert (head + Shift(rest))[|head| + k] == j;
    }
  }

  /** The selection step when the head is kept: the head's image comes first, then
      the images selected from the tail, at positions shifted by one. */
  lemma SelectsTaken<T, U>(xs: seq<T>, f: T -> U, t: seq<U>, rest: seq<nat>)
    requires xs != [] && |t| == |rest|
    requires forall k :: 0 <= k < |rest| ==> rest[k] < |xs| - 1 && t[k] == f(xs[1..][rest[k]])
    ensures forall k :: 0 <= k < |rest| + 1 ==> ([f(xs[0])] + t)[k] == f(xs[([0] + Shift(rest))[k]])
  {
    var r, idx := [f(xs[0])] + t, [0] + Shift(rest);
    forall k | 0 <= k < |rest| + 1 ensures r[k] == f(xs[idx[k]]) {
      if k > 0 {
        assert r[k] == t[k - 1] && idx[k] == rest[k - 1] + 1;
      }
    }
  }

  /** The selection step when the head is dropped: the images selected from the tail,
      at positions shifted by one. */
  lemma SelectsSkipped<T, U>(xs: seq<T>, f: T -> U, t: seq<U>, rest: seq<nat>)
    requires xs != [] && |t| == |rest|
    requires forall k :: 0 <= k < |rest| ==> rest[k] < |xs| - 1 && t[k] == f(xs[1..][rest[k]])
    ensures forall k :: 0 <= k < |rest| ==> t[k] == f(xs[Shift(rest)[k]])
  {
  }

  /** The comprehension holds one entry per kept position, in order, and that entry is
      `f` of the element there. */
  lemma {:induction false} KeepSelects<T, U>(xs: seq<T>, p: T -> bool, f: T -> U)
    ensures |Keep(xs, p, f)| == |Positions(xs, p)|
    ensures forall k :: 0 <= k < |Positions(xs, p)| ==>
              Keep(xs, p, f)[k] == f(xs[Positions(xs, p)[k]])
    decreases |xs|
  {
    if xs != [] {
      var tail := xs[1..];
      KeepSelects(tail, p, f);
      var t, rest := Keep(tail, p, f), Positions(tail, p);
      if p(xs[0]) {
        assert Positions(xs, p) == [0] + Shift(rest);
        assert Keep(xs, p, f) == [f(xs[0])] + t;
        SelectsTaken(xs, f, t, rest);
      } else {
        assert Positions(xs, p) == Shift(rest);
        assert Keep(xs, p, f) == t;
        SelectsSkipped(xs, f, t, rest);
      }
    }
  }

  /** When every element satisfies `p`, the comprehension is `f` applied to each. */
  lemma {:induction false} KeepAll<T, U>(xs: seq<T>, p: T -> bool, f: T -> U)
    requires forall k :: 0 <= k < |xs| ==> p(xs[k])
    ensures |Keep(xs, p, f)| == |xs|
    ensures forall k :: 0 <= k < |xs| ==> Keep(xs, p, f)[k] == f(xs[k])
    decreases |xs|
  {
    if xs != [] {
      var tail := xs[1..];
      assert forall k :: 0 <= k < |tail| ==> p(tail[k]) by {
        forall k | 0 <= k < |tail| ensures p(tail[k]) { assert tail[k] == xs[k + 1]; }
      }
      KeepAll(tail, p, f);
      var r, t := Keep(xs, p, f), Keep(tail, p, f);
      assert r == [f(xs[0])] + t;
      forall k | 1 <= k < |xs| ensures r[k] == f(xs[k]) {
        assert r[k] == t[k - 1];
        assert tail[k - 1] == xs[k];
      }
    }
  }

  /** A list whose every element is kept and maps to the matching entry of `ys` is
      turned into `ys` by the comprehension. */
  lemma KeepEquals<T, U>(xs: seq<T>, p: T -> bool, f: T -> U, ys: seq<U>)
    requires |xs| == |ys|
    requires forall k :: 0 <= k < |xs| ==> p(xs[k]) && f(xs[k]) == ys[k]
    ensures Keep(xs, p, f) == ys
  {
    KeepAll(xs, p, f);
  }
}
