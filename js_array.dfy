/**
 * The parts of JavaScript's `Array.prototype` that the sheet pipeline relies on:
 * `every`, `includes` and `filter`, each as the left-to-right walk the language defines.
 */
module JsArray {

  /** `xs.every(p)`: true exactly when `p` holds of every element; true on an empty array. */
  function Every<T>(xs: seq<T>, p: T -> bool): (r: bool)
    ensures r <==> forall i :: 0 <= i < |xs| ==> p(xs[i])
  {
    if xs == [] then true else p(xs[0]) && Every(xs[1..], p)
  }

  /** `xs.includes(x)` on values compared by SameValueZero, which for strings is equality. */
  function Includes<T(==)>(xs: seq<T>, x: T): (r: bool)
    ensures r <==> x in xs
  {
    if xs == [] then false else xs[0] == x || Includes(xs[1..], x)
  }

  /** `xs.filter(p)`: a new array of the elements for which `p` holds, in their order. */
  function Filter<T>(xs: seq<T>, p: T -> bool): seq<T>
  {
    if xs == [] then []
    else (if p(xs[0]) then [xs[0]] else []) + Filter(xs[1..], p)
  }

  /** `ys[k]` is the element of `xs` at position `idx[k]`, for every `k`. */
  ghost predicate Picks<T>(xs: seq<T>, ys: seq<T>, idx: seq<int>)
  {
    && |idx| == |ys|
    && (forall k :: 0 <= k < |idx| ==> 0 <= idx[k] < |xs| && ys[k] == xs[idx[k]])
  }

  /** The positions in `idx` strictly increase. */
  ghost predicate Increasing(idx: seq<int>)
  {
    forall k, l :: 0 <= k < l < |idx| ==> idx[k] < idx[l]
  }

  /** A position of `xs` is in `idx` exactly when `p` holds of the element there. */
  ghost predicate ListsExactly<T>(xs: seq<T>, p: T -> bool, idx: seq<int>)
  {
    forall i :: 0 <= i < |xs| ==> (p(xs[i]) <==> i in idx)
  }

  /**
   * `idx` lists, in increasing order, the positions of `xs` that `ys` is made of,
   * and a position is listed exactly when `p` holds of the element there.
   */
  ghost predicate IsSelection<T>(xs: seq<T>, ys: seq<T>, p: T -> bool, idx: seq<int>)
  {
    Picks(xs, ys, idx) && Increasing(idx) && ListsExactly(xs, p, idx)
  }

  /** The positions `idx` shifted one to the right. */
  function Shifted(idx: seq<int>): seq<int>
  {
    seq(|idx|, k requires 0 <= k < |idx| => idx[k] + 1)
  }

  /** The positions kept by one step of `Filter`: 0 when `xs[0]` is kept, then those kept in `xs[1..]`. */
  function StepPositions<T>(xs: seq<T>, p: T -> bool, rest: seq<int>): seq<int>
    requires xs != []
  {
    (if p(xs[0]) then [0] else []) + Shifted(rest)
  }

  lemma PicksStep<T>(xs: seq<T>, p: T -> bool, rest: seq<int>)
    requires xs != []
    requires Picks(xs[1..], Filter(xs[1..], p), rest)
    ensures Picks(xs, Filter(xs, p), StepPositions(xs, p, rest))
  {
    var tail := Filter(xs[1..], p);
    var shifted := Shifted(rest);
    if p(xs[0]) {
      var ys, idx := [xs[0]] + tail, [0] + shifted;
      assert Filter(xs, p) == ys && StepPositions(xs, p, rest) == idx;
      forall k | 0 < k < |idx|
        ensures 0 <= idx[k] < |xs| && ys[k] == xs[idx[k]]
      {
        assert idx[k] == shifted[k - 1] == rest[k - 1] + 1;
        assert ys[k] == tail[k - 1];
      }
    } else {
      assert Filter(xs, p) == tail && StepPositions(xs, p, rest) == shifted;
      forall k | 0 <= k < |shifted|
        ensures 0 <= shifted[k] < |xs| && tail[k] == xs[shifted[k]]
      {
        assert shifted[k] == rest[k] + 1;
      }
    }
  }

  lemma IncreasingStep<T>(xs: seq<T>, p: T -> bool, rest: seq<int>)
    requires xs != []
    requires forall k :: 0 <= k < |rest| ==> 0 <= rest[k]
    requires Increasing(rest)
    ensures Increasing(StepPositions(xs, p, rest))
  {
    var head := if p(xs[0]) then [0] else [];
    var idx := StepPositions(xs, p, rest);
    forall k, l | 0 <= k < l < |idx|
      ensures idx[k] < idx[l]
    {
      assert idx[l] == rest[l - |head|] + 1;
      if k >= |head| {
        assert idx[k] == rest[k - |head|] + 1;
      }
    }
  }

  lemma ListsExactlyStep<T>(xs: seq<T>, p: T -> bool, rest: seq<int>)
    requires xs != []
    requires ListsExactly(xs[1..], p, rest)
    requires forall k :: 0 <= k < |rest| ==> 0 <= rest[k]
    ensures ListsExactly(xs, p, StepPositions(xs, p, rest))
  {
    var head := if p(xs[0]) then [0] else [];
    var idx := StepPositions(xs, p, rest);
    forall i | 0 <= i < |xs|
      ensures p(xs[i]) <==> i in idx
    {
      if i > 0 {
        assert xs[i] == xs[1..][i - 1];
        if p(xs[i]) {
          var k :| 0 <= k < |rest| && rest[k] == i - 1;
          assert idx[|head| + k] == i;
        }
        if i in idx {
          var k :| 0 <= k < |idx| && idx[k] == i;
          assert k >= |head|;
          assert rest[k - |head|] == i - 1;
        }
      } else {
        if 0 in idx {
          var k :| 0 <= k < |idx| && idx[k] == 0;
          assert k < |head|;
        }
      }
    }
  }

  /** The positions `Filter` keeps, computed alongside it. */
  lemma {:induction false} FilterPositions<T>(xs: seq<T>, p: T -> bool) returns (idx: seq<int>)
    ensures IsSelection(xs, Filter(xs, p), p, idx)
  {
    if xs == [] {
      idx := [];
    } else {
      var rest := FilterPositions(xs[1..], p);
      PicksStep(xs, p, rest);
      IncreasingStep(xs, p, rest);
      ListsExactlyStep(xs, p, rest);
      idx := StepPositions(xs, p, rest);
    }
  }

  /**
   * `Filter(xs, p)` is the subsequence of `xs` made of exactly the elements that
   * satisfy `p`, with their relative order kept.
   */
  lemma FilterIsOrderedSelection<T>(xs: seq<T>, p: T -> bool)
    ensures exists idx :: IsSelection(xs, Filter(xs, p), p, idx)
  {
    var idx := FilterPositions(xs, p);
  }

  /** An element is in `Filter(xs, p)` exactly when it is in `xs` and satisfies `p`. */
  lemma {:induction false} FilterMembers<T>(xs: seq<T>, p: T -> bool, y: T)
    ensures y in Filter(xs, p) <==> y in xs && p(y)
  {
    if xs != [] {
      FilterMembers(xs[1..], p, y);
      assert xs == [xs[0]] + xs[1..];
    }
  }

  /** `filter` returns every element when `p` holds of all of them. */
  lemma {:induction false} FilterAll<T>(xs: seq<T>, p: T -> bool)
    requires forall i :: 0 <= i < |xs| ==> p(xs[i])
    ensures Filter(xs, p) == xs
  {
    if xs != [] {
      FilterAll(xs[1..], p);
    }
  }

  /** `filter` over a concatenation is the concatenation of the two filters. */
  lemma {:induction false} FilterConcat<T>(xs: seq<T>, ys: seq<T>, p: T -> bool)
    ensures Filter(xs + ys, p) == Filter(xs, p) + Filter(ys, p)
  {
    if xs != [] {
      assert (xs + ys)[0] == xs[0];
      assert (xs + ys)[1..] == xs[1..] + ys;
      FilterConcat(xs[1..], ys, p);
      var head := if p(xs[0]) then [xs[0]] else [];
      assert Filter(xs + ys, p) == head + Filter(xs[1..] + ys, p);
    } else {
      assert xs + ys == ys;
    }
  }
}
