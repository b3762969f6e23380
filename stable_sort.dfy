/**
 * `Array.prototype.sort(comparefn)` as the sheet list relies on it: a stable sort
 * driven by a comparator callback. It is an insertion sort, given first as a
 * function on sequences and then as a method that works in place on an array.
 */
module StableSort {
  import JsArray

  /**
   * Insert `x` after the sorted prefix `p`: walk leftwards past every element that the
   * comparator puts strictly after `x`, and stop at the first one that is not.
   */
  function Insert<T>(p: seq<T>, x: T, cmp: (T, T) -> int): seq<T>
  {
    if p == [] || cmp(p[|p| - 1], x) <= 0 then p + [x]
    else Insert(p[..|p| - 1], x, cmp) + [p[|p| - 1]]
  }

  /** Insertion sort: sort all but the last element, then insert the last. */
  function InsertionSort<T>(s: seq<T>, cmp: (T, T) -> int): seq<T>
  {
    if s == [] then [] else Insert(InsertionSort(s[..|s| - 1], cmp), s[|s| - 1], cmp)
  }

  /** No element is put by the comparator strictly after a later one. */
  ghost predicate Sorted<T>(s: seq<T>, cmp: (T, T) -> int)
  {
    forall i, j :: 0 <= i < j < |s| ==> cmp(s[i], s[j]) <= 0
  }

  /** Each neighbouring pair is already in order. */
  ghost predicate InOrder<T>(s: seq<T>, cmp: (T, T) -> int)
  {
    forall i :: 0 < i < |s| ==> cmp(s[i - 1], s[i]) <= 0
  }

  /**
   * The comparator is consistent on the elements of `u`: swapping its arguments
   * negates its result, and "comes no later than" (`cmp(x, y) <= 0`) is transitive.
   */
  ghost predicate Consistent<T>(u: seq<T>, cmp: (T, T) -> int)
  {
    && (forall x, y :: x in u && y in u ==> cmp(x, y) == -cmp(y, x))
    && (forall x, y, z :: x in u && y in u && z in u ==>
          (cmp(x, y) <= 0 && cmp(y, z) <= 0 ==> cmp(x, z) <= 0))
  }

  /** Elements that tie with `e`. */
  function TiesWith<T>(e: T, cmp: (T, T) -> int): T -> bool
  {
    (y: T) => cmp(y, e) == 0
  }

  /** The elements of `s` that tie with `e`, in the order `s` has them. */
  function TieClass<T>(s: seq<T>, e: T, cmp: (T, T) -> int): seq<T>
  {
    JsArray.Filter(s, TiesWith(e, cmp))
  }

  lemma {:induction false} InsertPermutes<T>(p: seq<T>, x: T, cmp: (T, T) -> int)
    ensures multiset(Insert(p, x, cmp)) == multiset(p) + multiset{x}
  {
    if p != [] && cmp(p[|p| - 1], x) > 0 {
      InsertPermutes(p[..|p| - 1], x, cmp);
      assert p == p[..|p| - 1] + [p[|p| - 1]];
    }
  }

  /** The sort only rearranges: the same elements, each as many times, so the same length. */
  lemma {:induction false} InsertionSortPermutes<T>(s: seq<T>, cmp: (T, T) -> int)
    ensures multiset(InsertionSort(s, cmp)) == multiset(s)
    ensures |InsertionSort(s, cmp)| == |s|
  {
    if s != [] {
      InsertionSortPermutes(s[..|s| - 1], cmp);
      InsertPermutes(InsertionSort(s[..|s| - 1], cmp), s[|s| - 1], cmp);
      assert s == s[..|s| - 1] + [s[|s| - 1]];
    }
    assert |multiset(InsertionSort(s, cmp))| == |multiset(s)|;
  }

  /** Everything the sort returns comes from its input, and the other way round. */
  lemma InsertionSortMembers<T>(s: seq<T>, cmp: (T, T) -> int, y: T)
    ensures y in InsertionSort(s, cmp) <==> y in s
  {
    InsertionSortPermutes(s, cmp);
    assert y in InsertionSort(s, cmp) <==> y in multiset(InsertionSort(s, cmp));
    assert y in s <==> y in multiset(s);
  }

  /** The sort keeps its output inside any collection its input lies in. */
  lemma InsertionSortWithin<T>(s: seq<T>, cmp: (T, T) -> int, u: seq<T>)
    requires forall y :: y in s ==> y in u
    ensures forall y :: y in InsertionSort(s, cmp) ==> y in u
  {
    forall y | y in InsertionSort(s, cmp)
      ensures y in u
    {
      InsertionSortMembers(s, cmp, y);
    }
  }

  /** Appending an element that no element of a sorted sequence is put after keeps it sorted. */
  lemma SortedAppend<T>(s: seq<T>, x: T, cmp: (T, T) -> int)
    requires Sorted(s, cmp)
    requires forall i :: 0 <= i < |s| ==> cmp(s[i], x) <= 0
    ensures Sorted(s + [x], cmp)
  {
    var t := s + [x];
    forall i, j | 0 <= i < j < |t|
      ensures cmp(t[i], t[j]) <= 0
    {
      if j < |s| {
        assert t[i] == s[i] && t[j] == s[j];
      } else {
        assert t[i] == s[i] && t[j] == x;
      }
    }
  }

  /** Every element of a sorted `p` comes no later than `x` once its last element does. */
  lemma AllNoLaterThan<T>(p: seq<T>, x: T, cmp: (T, T) -> int, u: seq<T>)
    requires p != [] && Sorted(p, cmp)
    requires Consistent(u, cmp)
    requires forall y :: y in p ==> y in u
    requires x in u
    requires cmp(p[|p| - 1], x) <= 0
    ensures forall i :: 0 <= i < |p| ==> cmp(p[i], x) <= 0
  {
    var last := p[|p| - 1];
    assert last in p;
    forall i | 0 <= i < |p| - 1
      ensures cmp(p[i], x) <= 0
    {
      assert p[i] in p;
    }
  }

  /** Every element of a rearrangement of `init` plus `x` comes no later than `last` when each of them does. */
  lemma PermutationNoLaterThan<T>(q: seq<T>, init: seq<T>, x: T, last: T, cmp: (T, T) -> int)
    requires multiset(q) == multiset(init) + multiset{x}
    requires forall k :: 0 <= k < |init| ==> cmp(init[k], last) <= 0
    requires cmp(x, last) <= 0
    ensures forall i :: 0 <= i < |q| ==> cmp(q[i], last) <= 0
  {
    forall i | 0 <= i < |q|
      ensures cmp(q[i], last) <= 0
    {
      assert q[i] in multiset(q);
      if q[i] != x {
        assert q[i] in multiset(init);
        var k :| 0 <= k < |init| && init[k] == q[i];
      }
    }
  }

  lemma {:induction false} InsertSorted<T>(p: seq<T>, x: T, cmp: (T, T) -> int, u: seq<T>)
    requires Sorted(p, cmp)
    requires Consistent(u, cmp)
    requires forall y :: y in p ==> y in u
    requires x in u
    ensures Sorted(Insert(p, x, cmp), cmp)
  {
    if p != [] {
      var n := |p| - 1;
      var last := p[n];
      var init := p[..n];
      if cmp(last, x) <= 0 {
        AllNoLaterThan(p, x, cmp, u);
        SortedAppend(p, x, cmp);
      } else {
        assert Sorted(init, cmp);
        assert forall y :: y in init ==> y in p;
        InsertSorted(init, x, cmp, u);
        InsertPermutes(init, x, cmp);
        assert last in p;
        assert cmp(x, last) <= 0;
        PermutationNoLaterThan(Insert(init, x, cmp), init, x, last, cmp);
        SortedAppend(Insert(init, x, cmp), last, cmp);
      }
    }
  }

  lemma {:induction false} InsertionSortSortedWithin<T>(s: seq<T>, cmp: (T, T) -> int, u: seq<T>)
    requires Consistent(u, cmp)
    requires forall y :: y in s ==> y in u
    ensures Sorted(InsertionSort(s, cmp), cmp)
  {
    if s != [] {
      var init := s[..|s| - 1];
      assert forall y :: y in init ==> y in s;
      InsertionSortSortedWithin(init, cmp, u);
      assert forall y :: y in init ==> y in u;
      InsertionSortWithin(init, cmp, u);
      InsertSorted(InsertionSort(init, cmp), s[|s| - 1], cmp, u);
    }
  }

  /** When the comparator is consistent on the input, the output is sorted. */
  lemma InsertionSortSorted<T>(s: seq<T>, cmp: (T, T) -> int)
    requires Consistent(s, cmp)
    ensures Sorted(InsertionSort(s, cmp), cmp)
  {
    InsertionSortSortedWithin(s, cmp, s);
  }

  /** Two elements that tie with `e` are never put one strictly after the other. */
  lemma TiesAgree<T>(x: T, y: T, e: T, cmp: (T, T) -> int, u: seq<T>)
    requires Consistent(u, cmp)
    requires x in u && y in u && e in u
    requires cmp(y, x) > 0
    ensures !(TiesWith(e, cmp)(x) && TiesWith(e, cmp)(y))
  {
  }

  /** Filtering a single element. */
  lemma FilterSingleton<T>(x: T, t: T -> bool)
    ensures JsArray.Filter([x], t) == if t(x) then [x] else []
  {
    assert [x][1..] == [];
  }

  /** When at most one of `x` and `last` is kept, moving `x` past `last` does not change what is kept. */
  lemma FilterMovePast<T>(q: seq<T>, init: seq<T>, x: T, last: T, t: T -> bool)
    requires JsArray.Filter(q, t) == JsArray.Filter(init, t) + JsArray.Filter([x], t)
    requires !(t(x) && t(last))
    ensures JsArray.Filter(q + [last], t) == JsArray.Filter(init + [last], t) + JsArray.Filter([x], t)
  {
    JsArray.FilterConcat(q, [last], t);
    JsArray.FilterConcat(init, [last], t);
    FilterSingleton(x, t);
    FilterSingleton(last, t);
  }

  lemma {:induction false} InsertKeepsTieOrder<T>(p: seq<T>, x: T, e: T, cmp: (T, T) -> int, u: seq<T>)
    requires Consistent(u, cmp)
    requires forall y :: y in p ==> y in u
    requires x in u && e in u
    ensures TieClass(Insert(p, x, cmp), e, cmp) == TieClass(p, e, cmp) + TieClass([x], e, cmp)
  {
    if p == [] || cmp(p[|p| - 1], x) <= 0 {
      JsArray.FilterConcat(p, [x], TiesWith(e, cmp));
    } else {
      var n := |p| - 1;
      var last := p[n];
      var init := p[..n];
      assert p == init + [last];
      assert forall y :: y in init ==> y in p;
      assert last in p;
      InsertKeepsTieOrder(init, x, e, cmp, u);
      TiesAgree(x, last, e, cmp, u);
      FilterMovePast(Insert(init, x, cmp), init, x, last, TiesWith(e, cmp));
    }
  }

  /**
   * The sort is stable: when the comparator is consistent, the elements that tie with
   * any given element keep their relative order.
   */
  lemma {:induction false} InsertionSortStableWithin<T>(s: seq<T>, e: T, cmp: (T, T) -> int, u: seq<T>)
    requires Consistent(u, cmp)
    requires forall y :: y in s ==> y in u
    requires e in u
    ensures TieClass(InsertionSort(s, cmp), e, cmp) == TieClass(s, e, cmp)
  {
    if s != [] {
      var init := s[..|s| - 1];
      var x := s[|s| - 1];
      assert s == init + [x];
      assert forall y :: y in init ==> y in s;
      InsertionSortStableWithin(init, e, cmp, u);
      assert forall y :: y in init ==> y in u;
      InsertionSortWithin(init, cmp, u);
      InsertKeepsTieOrder(InsertionSort(init, cmp), x, e, cmp, u);
      JsArray.FilterConcat(init, [x], TiesWith(e, cmp));
    }
  }

  /**
   * Stability: for a comparator consistent on the input, the elements of the input
   * that tie with any one of them come out in the order they went in.
   */
  lemma InsertionSortStable<T>(s: seq<T>, e: T, cmp: (T, T) -> int)
    requires Consistent(s, cmp)
    requires e in s
    ensures TieClass(InsertionSort(s, cmp), e, cmp) == TieClass(s, e, cmp)
  {
    InsertionSortStableWithin(s, e, cmp, s);
  }

  /** An input whose neighbours are already in order comes out unchanged. */
  lemma {:induction false} InsertionSortKeepsInOrder<T>(s: seq<T>, cmp: (T, T) -> int)
    requires InOrder(s, cmp)
    ensures InsertionSort(s, cmp) == s
  {
    if s != [] {
      var init := s[..|s| - 1];
      assert InOrder(init, cmp);
      InsertionSortKeepsInOrder(init, cmp);
      assert init == [] || cmp(init[|init| - 1], s[|s| - 1]) <= 0;
      assert s == init + [s[|s| - 1]];
    }
  }

  /**
   * `Insert` puts `x` right after the last element that the comparator does not put
   * strictly after it: at `j`, when every element from `j` on is put after `x` and the
   * one before `j` (if any) is not.
   */
  lemma {:induction false} InsertAt<T>(p: seq<T>, x: T, cmp: (T, T) -> int, j: nat)
    requires j <= |p|
    requires j == 0 || cmp(p[j - 1], x) <= 0
    requires forall k :: j <= k < |p| ==> cmp(p[k], x) > 0
    ensures Insert(p, x, cmp) == p[..j] + [x] + p[j..]
  {
    if j < |p| {
      var n := |p| - 1;
      var init := p[..n];
      assert cmp(p[n], x) > 0;
      assert forall k :: j <= k < |init| ==> init[k] == p[k];
      InsertAt(init, x, cmp, j);
      assert init[..j] == p[..j];
      assert init[j..] + [p[n]] == p[j..];
    } else {
      assert p[..j] == p && p[j..] == [];
    }
  }

  /** A sequence that holds `p[..j]`, then `x`, then the rest of `p` is `p[..j] + [x] + p[j..]`. */
  lemma Reassemble<T>(s: seq<T>, p: seq<T>, x: T, j: nat)
    requires j <= |p| && |s| == |p| + 1
    requires forall k :: 0 <= k < j ==> s[k] == p[k]
    requires s[j] == x
    requires forall k :: j < k < |s| ==> s[k] == p[k - 1]
    ensures s == p[..j] + [x] + p[j..]
  {
    var r := p[..j] + [x] + p[j..];
    forall k | 0 <= k < |s|
      ensures s[k] == r[k]
    {
      if k > j {
        assert r[k] == p[j..][k - j - 1];
      }
    }
  }

  /**
   * The shifting loop of one pass: every element of `a[..i]` that the comparator puts
   * strictly after `x`, from the right, moves one place right; `j` is the gap left.
   */
  method ShiftRight<T>(a: array<T>, i: nat, x: T, cmp: (T, T) -> int) returns (j: nat)
    requires i < a.Length
    modifies a
    ensures j <= i
    ensures forall k :: 0 <= k < j ==> a[k] == old(a[k])
    ensures forall k :: j < k <= i ==> a[k] == old(a[k - 1])
    ensures forall k :: i < k < a.Length ==> a[k] == old(a[k])
    ensures j == 0 || cmp(old(a[j - 1]), x) <= 0
    ensures forall k :: j <= k < i ==> cmp(old(a[k]), x) > 0
  {
    j := i;
    while j > 0 && cmp(a[j - 1], x) > 0
      invariant 0 <= j <= i
      invariant forall k :: 0 <= k < j ==> a[k] == old(a[k])
      invariant forall k :: j < k <= i ==> a[k] == old(a[k - 1])
      invariant forall k :: i < k < a.Length ==> a[k] == old(a[k])
      invariant forall k :: j <= k < i ==> cmp(old(a[k]), x) > 0
    {
      a[j] := a[j - 1];
      j := j - 1;
    }
  }

  /**
   * One pass of the array sort: `a[..i]` is sorted, and `a[i]` is shifted leftwards
   * past every element the comparator puts strictly after it.
   */
  method InsertInPlace<T>(a: array<T>, i: nat, cmp: (T, T) -> int)
    requires i < a.Length
    modifies a
    ensures a[..i + 1] == Insert(old(a[..i]), old(a[i]), cmp)
    ensures a[i + 1..] == old(a[i + 1..])
  {
    var x := a[i];
    ghost var p := a[..i];
    var j := ShiftRight(a, i, x, cmp);
    InsertAt(p, x, cmp, j);
    a[j] := x;
    Reassemble(a[..i + 1], p, x, j);
  }

  /**
   * `a.sort(cmp)`: insertion sort in place. After pass `i` the prefix `a[..i]` is the
   * sorted first `i` elements; the result is a permutation of the input, and sorted
   * when the comparator is consistent on it.
   */
  method SortInPlace<T>(a: array<T>, cmp: (T, T) -> int)
    modifies a
    ensures a[..] == InsertionSort(old(a[..]), cmp)
    ensures multiset(a[..]) == multiset(old(a[..]))
    ensures Consistent(old(a[..]), cmp) ==> Sorted(a[..], cmp)
  {
    ghost var input := a[..];
    var i := 0;
    while i < a.Length
      invariant 0 <= i <= a.Length
      invariant a[..i] == InsertionSort(input[..i], cmp)
      invariant a[i..] == input[i..]
    {
      assert input[..i + 1][..i] == input[..i];
      assert a[i] == input[i];
      InsertInPlace(a, i, cmp);
      i := i + 1;
    }
    assert input[..a.Length] == input;
    assert a[..] == a[..a.Length];
    InsertionSortPermutes(input, cmp);
    if Consistent(input, cmp) {
      InsertionSortSorted(input, cmp);
    }
  }
}
