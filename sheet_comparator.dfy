/**
 * The comparator handed to `sort`: a `reduce` over the sort entries in priority
 * order, where the first entry giving a non-zero result decides and a null or
 * undefined value on either side ties that entry.
 */
module SheetComparator {
  import opened Wrappers
  import opened Sheets
  import opened ValueOrder

  /** The reduce callback's result for one entry once the accumulator is still 0. */
  function KeyCompare(a: Sheet, b: Sheet, key: SortKey): (r: int)
    ensures -1 <= r <= 1
  {
    var aValue := ValueAt(a, key.descriptor);
    var bValue := ValueAt(b, key.descriptor);
    if aValue.None? || bValue.None? then 0
    else if Less(aValue.value, bValue.value) then (if key.direction == "asc" then -1 else 1)
    else if Less(bValue.value, aValue.value) then (if key.direction == "asc" then 1 else -1)
    else 0
  }

  /** The reduce callback `(acc, sort) => ...`. */
  function Step(a: Sheet, b: Sheet, acc: int, key: SortKey): int
  {
    if acc != 0 then acc else KeyCompare(a, b, key)
  }

  /** `sorts.reduce(callback, acc)`, folding from the first entry to the last. */
  function CompareFold(a: Sheet, b: Sheet, sorts: seq<SortKey>, acc: int): (r: int)
    ensures acc != 0 ==> r == acc
    ensures -1 <= acc <= 1 ==> -1 <= r <= 1
  {
    if sorts == [] then acc else CompareFold(a, b, sorts[1..], Step(a, b, acc, sorts[0]))
  }

  /** The comparator `(a, b) => sorts.reduce(callback, 0)`. */
  function Compare(a: Sheet, b: Sheet, sorts: seq<SortKey>): (r: int)
    ensures -1 <= r <= 1
  {
    CompareFold(a, b, sorts, 0)
  }

  /** Reference reading of the comparator: look at the entries in turn and stop at the first that is not a tie. */
  function FirstDecision(a: Sheet, b: Sheet, sorts: seq<SortKey>): int
  {
    if sorts == [] then 0
    else if KeyCompare(a, b, sorts[0]) != 0 then KeyCompare(a, b, sorts[0])
    else FirstDecision(a, b, sorts[1..])
  }

  /** Entry `k` is the first entry on which `a` and `b` do not tie. */
  predicate FirstNonTieAt(a: Sheet, b: Sheet, sorts: seq<SortKey>, k: int)
  {
    && 0 <= k < |sorts|
    && KeyCompare(a, b, sorts[k]) != 0
    && forall j :: 0 <= j < k ==> KeyCompare(a, b, sorts[j]) == 0
  }

  /** Both values of the entry are present and of one kind, so JavaScript orders them. */
  predicate KeyComparable(a: Sheet, b: Sheet, key: SortKey)
  {
    var aValue := ValueAt(a, key.descriptor);
    var bValue := ValueAt(b, key.descriptor);
    aValue.Some? && bValue.Some? && SameKind(aValue.value, bValue.value)
  }

  /** Every sort entry is comparable for `a` and `b`. */
  predicate Comparable(a: Sheet, b: Sheet, sorts: seq<SortKey>)
  {
    forall k :: 0 <= k < |sorts| ==> KeyComparable(a, b, sorts[k])
  }

  /**
   * One entry's result: 0 when either value is missing; otherwise -1 exactly when the
   * first sheet comes first in the entry's direction (ascending only for `"asc"`),
   * +1 exactly when it comes second, and 0 when neither value is less than the other.
   */
  lemma KeyCompareMeaning(a: Sheet, b: Sheet, key: SortKey)
    ensures var r := KeyCompare(a, b, key);
      var aValue := ValueAt(a, key.descriptor);
      var bValue := ValueAt(b, key.descriptor);
      && -1 <= r <= 1
      && (aValue.None? || bValue.None? ==> r == 0)
      && (aValue.Some? && bValue.Some? ==>
            var asc := key.direction == "asc";
            && (r == -1 <==> (asc && Less(aValue.value, bValue.value)) || (!asc && Less(bValue.value, aValue.value)))
            && (r == 1 <==> (asc && Less(bValue.value, aValue.value)) || (!asc && Less(aValue.value, bValue.value))))
  {
    var aValue := ValueAt(a, key.descriptor);
    var bValue := ValueAt(b, key.descriptor);
    if aValue.Some? && bValue.Some? {
      LessAsymmetric(aValue.value, bValue.value);
    }
  }

  /** On a comparable entry, the entry ties exactly when the two values are equal. */
  lemma KeyTieIffEqual(a: Sheet, b: Sheet, key: SortKey)
    requires KeyComparable(a, b, key)
    ensures KeyCompare(a, b, key) == 0 <==> ValueAt(a, key.descriptor) == ValueAt(b, key.descriptor)
  {
    var aValue := ValueAt(a, key.descriptor).value;
    var bValue := ValueAt(b, key.descriptor).value;
    LessAsymmetric(aValue, bValue);
    LessStrictTotalOrder(aValue, bValue, bValue);
  }

  lemma KeyCompareAntisymmetric(a: Sheet, b: Sheet, key: SortKey)
    ensures KeyCompare(a, b, key) == -KeyCompare(b, a, key)
  {
    var aValue := ValueAt(a, key.descriptor);
    var bValue := ValueAt(b, key.descriptor);
    if aValue.Some? && bValue.Some? {
      LessAsymmetric(aValue.value, bValue.value);
    }
  }

  lemma KeyCompareTransitive(a: Sheet, b: Sheet, c: Sheet, key: SortKey)
    requires KeyComparable(a, b, key) && KeyComparable(b, c, key)
    ensures KeyCompare(a, b, key) <= 0 && KeyCompare(b, c, key) <= 0 ==> KeyCompare(a, c, key) <= 0
    ensures KeyCompare(a, b, key) < 0 && KeyCompare(b, c, key) <= 0 ==> KeyCompare(a, c, key) < 0
  {
    var x := ValueAt(a, key.descriptor).value;
    var y := ValueAt(b, key.descriptor).value;
    var z := ValueAt(c, key.descriptor).value;
    LessStrictTotalOrder(x, y, z);
    LessStrictTotalOrder(z, y, x);
    LessAsymmetric(x, z);
    LessAsymmetric(x, y);
    LessAsymmetric(y, z);
  }

  /** The reduce, started from any accumulator, agrees with the reference reading. */
  lemma {:induction false} FoldIsFirstDecision(a: Sheet, b: Sheet, sorts: seq<SortKey>, acc: int)
    ensures CompareFold(a, b, sorts, acc) == if acc != 0 then acc else FirstDecision(a, b, sorts)
  {
    if sorts != [] {
      FoldIsFirstDecision(a, b, sorts[1..], Step(a, b, acc, sorts[0]));
    }
  }

  lemma {:induction false} FirstDecisionIsFirstNonTie(a: Sheet, b: Sheet, sorts: seq<SortKey>)
    ensures FirstDecision(a, b, sorts) == 0 <==> forall k :: 0 <= k < |sorts| ==> KeyCompare(a, b, sorts[k]) == 0
    ensures forall k :: FirstNonTieAt(a, b, sorts, k) ==> FirstDecision(a, b, sorts) == KeyCompare(a, b, sorts[k])
  {
    if sorts != [] {
      FirstDecisionIsFirstNonTie(a, b, sorts[1..]);
      forall k | FirstNonTieAt(a, b, sorts, k)
        ensures FirstDecision(a, b, sorts) == KeyCompare(a, b, sorts[k])
      {
        if k > 0 {
          assert FirstNonTieAt(a, b, sorts[1..], k - 1);
        }
      }
    }
  }

  /**
   * The comparator returns the result of the first entry that does not tie, and 0
   * exactly when every entry ties (in particular when there are no entries).
   */
  lemma CompareIsFirstNonTie(a: Sheet, b: Sheet, sorts: seq<SortKey>)
    ensures Compare(a, b, sorts) == 0 <==> forall k :: 0 <= k < |sorts| ==> KeyCompare(a, b, sorts[k]) == 0
    ensures forall k :: FirstNonTieAt(a, b, sorts, k) ==> Compare(a, b, sorts) == KeyCompare(a, b, sorts[k])
  {
    FoldIsFirstDecision(a, b, sorts, 0);
    FirstDecisionIsFirstNonTie(a, b, sorts);
  }

  lemma {:induction false} FirstDecisionAntisymmetric(a: Sheet, b: Sheet, sorts: seq<SortKey>)
    ensures FirstDecision(a, b, sorts) == -FirstDecision(b, a, sorts)
  {
    if sorts != [] {
      KeyCompareAntisymmetric(a, b, sorts[0]);
      FirstDecisionAntisymmetric(a, b, sorts[1..]);
    }
  }

  /** Swapping the two sheets negates the comparator's result; a sheet ties with itself. */
  lemma CompareAntisymmetric(a: Sheet, b: Sheet, sorts: seq<SortKey>)
    ensures Compare(a, b, sorts) == -Compare(b, a, sorts)
    ensures Compare(a, a, sorts) == 0
  {
    FoldIsFirstDecision(a, b, sorts, 0);
    FoldIsFirstDecision(b, a, sorts, 0);
    FoldIsFirstDecision(a, a, sorts, 0);
    FirstDecisionAntisymmetric(a, b, sorts);
    FirstDecisionAntisymmetric(a, a, sorts);
  }

  lemma {:induction false} FirstDecisionTransitive(a: Sheet, b: Sheet, c: Sheet, sorts: seq<SortKey>)
    requires Comparable(a, b, sorts) && Comparable(b, c, sorts)
    ensures FirstDecision(a, b, sorts) <= 0 && FirstDecision(b, c, sorts) <= 0 ==> FirstDecision(a, c, sorts) <= 0
  {
    if sorts != [] {
      var key := sorts[0];
      assert KeyComparable(a, b, key) && KeyComparable(b, c, key);
      KeyCompareTransitive(a, b, c, key);
      KeyTieIffEqual(a, b, key);
      KeyTieIffEqual(b, c, key);
      if KeyCompare(a, b, key) == 0 && KeyCompare(b, c, key) == 0 {
        assert KeyCompare(a, c, key) == 0;
        FirstDecisionTransitive(a, b, c, sorts[1..]);
      } else if KeyCompare(a, b, key) == 0 {
        assert KeyCompare(a, c, key) == KeyCompare(b, c, key);
      }
    }
  }

  /**
   * When every entry is present and of one kind for each pair, "comes no later than"
   * (`Compare(a, b) <= 0`) is transitive, so the comparator is consistent.
   */
  lemma CompareTransitive(a: Sheet, b: Sheet, c: Sheet, sorts: seq<SortKey>)
    requires Comparable(a, b, sorts) && Comparable(b, c, sorts)
    ensures Compare(a, b, sorts) <= 0 && Compare(b, c, sorts) <= 0 ==> Compare(a, c, sorts) <= 0
  {
    FoldIsFirstDecision(a, b, sorts, 0);
    FoldIsFirstDecision(b, c, sorts, 0);
    FoldIsFirstDecision(a, c, sorts, 0);
    FirstDecisionTransitive(a, b, c, sorts);
  }

  /** A missing value on the first entry ties it, whatever the direction, so the later entries decide. */
  lemma MissingValueTies(a: Sheet, b: Sheet, key: SortKey, rest: seq<SortKey>)
    requires ValueAt(a, key.descriptor).None? || ValueAt(b, key.descriptor).None?
    ensures Compare(a, b, [key] + rest) == Compare(a, b, rest)
  {
    assert ([key] + rest)[1..] == rest;
  }
}
