/**
 * The sheet list's derived view: the search provider's `results`, filtered when a
 * sort/filter form is present and then, only while the query is empty, sorted in
 * place by the form's sort entries.
 */
module SheetList {
  import opened Wrappers
  import opened Sheets
  import JsArray
  import SheetFilter
  import SheetComparator
  import StableSort

  /** The callback handed to `sort`: `(a, b) => sorts.reduce(...)`. */
  function Comparator(sorts: seq<SortKey>): (Sheet, Sheet) -> int
  {
    (a: Sheet, b: Sheet) => SheetComparator.Compare(a, b, sorts)
  }

  /** `filteredResults` as a value: what the list shows for these inputs. */
  function FilteredResults(results: seq<Sheet>, query: string, options: Option<SortFilterForm>): seq<Sheet>
  {
    match options
    case None => results
    case Some(form) =>
      var filtered := SheetFilter.FilterSheets(results, form.filters);
      if query == "" then StableSort.InsertionSort(filtered, Comparator(form.sorts)) else filtered
  }

  /**
   * The memoised computation. With no form the provider's array itself is returned;
   * otherwise `filter` builds a new array, and only that array is sorted in place.
   * The provider's array is never written.
   */
  method ComputeFilteredResults(results: array<Sheet>, query: string, options: Option<SortFilterForm>)
    returns (filteredResults: array<Sheet>)
    ensures options.None? ==> filteredResults == results
    ensures options.Some? ==> fresh(filteredResults)
    ensures results[..] == old(results[..])
    ensures filteredResults[..] == FilteredResults(results[..], query, options)
  {
    filteredResults := results;
    if options.Some? {
      var form := options.value;
      var filtered := SheetFilter.FilterSheets(results[..], form.filters);
      filteredResults := new Sheet[|filtered|](k requires 0 <= k < |filtered| => filtered[k]);
      assert filteredResults[..] == filtered;
      if query == "" {
        StableSort.SortInPlace(filteredResults, Comparator(form.sorts));
      }
    }
  }

  /** Every sort entry is present and of one kind for every pair of sheets in `u`. */
  ghost predicate AllComparable(u: seq<Sheet>, sorts: seq<SortKey>)
  {
    forall x, y :: x in u && y in u ==> SheetComparator.Comparable(x, y, sorts)
  }

  /**
   * The sheet comparator is consistent, in the sense the stable sort needs, on any
   * sheets whose sort fields are all present and, field by field, of one kind.
   */
  lemma ComparatorConsistent(u: seq<Sheet>, sorts: seq<SortKey>)
    requires AllComparable(u, sorts)
    ensures StableSort.Consistent(u, Comparator(sorts))
  {
    var cmp := Comparator(sorts);
    forall x, y | x in u && y in u
      ensures cmp(x, y) == -cmp(y, x)
    {
      SheetComparator.CompareAntisymmetric(x, y, sorts);
    }
    forall x, y, z | x in u && y in u && z in u
      ensures cmp(x, y) <= 0 && cmp(y, z) <= 0 ==> cmp(x, z) <= 0
    {
      SheetComparator.CompareTransitive(x, y, z, sorts);
    }
  }

  /** A shown sheet is a sheet of `results`, and one that passes the filters when a form is present. */
  lemma ShownSheets(results: seq<Sheet>, query: string, options: Option<SortFilterForm>, sheet: Sheet)
    ensures sheet in FilteredResults(results, query, options) <==>
      sheet in results && (options.Some? ==> SheetFilter.Passes(options.value.filters, sheet))
  {
    if options.Some? {
      var form := options.value;
      var filtered := SheetFilter.FilterSheets(results, form.filters);
      SheetFilter.FilterSheetsMembers(results, form.filters, sheet);
      StableSort.InsertionSortMembers(filtered, Comparator(form.sorts), sheet);
    }
  }

  /**
   * While a query is typed, the list shows the provider's results filtered, in the
   * provider's (relevance) order, whatever the sort entries say.
   */
  lemma QueryKeepsProviderOrder(results: seq<Sheet>, query: string, form: SortFilterForm, otherSorts: seq<SortKey>)
    requires query != ""
    ensures exists idx :: JsArray.IsSelection(results, FilteredResults(results, query, Some(form)),
      SheetFilter.FilterCallback(form.filters), idx)
    ensures FilteredResults(results, query, Some(form)) == FilteredResults(results, query, Some(SortFilterForm(form.filters, otherSorts)))
  {
    SheetFilter.FilterSheetsSelects(results, form.filters);
    assert FilteredResults(results, query, Some(form)) == SheetFilter.FilterSheets(results, form.filters);
  }

  /**
   * With an empty query the shown list is a rearrangement of the filtered list; it is
   * sorted and keeps tied sheets in the provider's order when every sort field is
   * present and of one kind.
   */
  lemma EmptyQuerySorts(results: seq<Sheet>, form: SortFilterForm, e: Sheet)
    ensures var filtered := SheetFilter.FilterSheets(results, form.filters);
      var shown := FilteredResults(results, "", Some(form));
      && multiset(shown) == multiset(filtered)
      && (AllComparable(filtered, form.sorts) ==> StableSort.Sorted(shown, Comparator(form.sorts)))
      && (AllComparable(filtered, form.sorts) && e in filtered ==>
            StableSort.TieClass(shown, e, Comparator(form.sorts)) == StableSort.TieClass(filtered, e, Comparator(form.sorts)))
  {
    var filtered := SheetFilter.FilterSheets(results, form.filters);
    var cmp := Comparator(form.sorts);
    StableSort.InsertionSortPermutes(filtered, cmp);
    if AllComparable(filtered, form.sorts) {
      ComparatorConsistent(filtered, form.sorts);
      StableSort.InsertionSortSorted(filtered, cmp);
      if e in filtered {
        StableSort.InsertionSortStable(filtered, e, cmp);
      }
    }
  }

  /**
   * With no sort entries, or when neighbouring filtered sheets already compare in
   * order (for instance when they all tie), the sort leaves the filtered order alone.
   */
  lemma InOrderIsKept(results: seq<Sheet>, form: SortFilterForm)
    requires form.sorts == [] || StableSort.InOrder(SheetFilter.FilterSheets(results, form.filters), Comparator(form.sorts))
    ensures FilteredResults(results, "", Some(form)) == SheetFilter.FilterSheets(results, form.filters)
  {
    StableSort.InsertionSortKeepsInOrder(SheetFilter.FilterSheets(results, form.filters), Comparator(form.sorts));
  }

  /**
   * A worked case: levels 10.0, 12.0 and 10.0, a level filter of exactly 10.0 and a
   * descending level sort keep the first and third sheets, which tie and so stay in
   * the provider's order.
   */
  lemma LevelFilterAndSortExample()
    ensures var s1 := Sheet(100, "A", ["x"], map[]);
      var s2 := Sheet(120, "B", ["y"], map[]);
      var s3 := Sheet(100, "A", ["x", "y"], map[]);
      var form := SortFilterForm(Filters(Some(LevelRange(100, 100)), None, []), [SortKey("internalLevelValue", "desc")]);
      FilteredResults([s1, s2, s3], "", Some(form)) == [s1, s3]
  {
    var s1 := Sheet(100, "A", ["x"], map[]);
    var s2 := Sheet(120, "B", ["y"], map[]);
    var s3 := Sheet(100, "A", ["x", "y"], map[]);
    var filters := Filters(Some(LevelRange(100, 100)), None, []);
    var sorts := [SortKey("internalLevelValue", "desc")];
    SheetFilter.PassesExactly(filters, s1);
    SheetFilter.PassesExactly(filters, s2);
    SheetFilter.PassesExactly(filters, s3);
    var rs := [s1, s2, s3];
    var keep := SheetFilter.FilterCallback(filters);
    assert keep(s1) && !keep(s2) && keep(s3);
    assert [s3][1..] == [] && [s2, s3][1..] == [s3] && rs[1..] == [s2, s3];
    assert JsArray.Filter([s3], keep) == [s3];
    assert JsArray.Filter([s2, s3], keep) == [s3];
    assert SheetFilter.FilterSheets(rs, filters) == [s1, s3];
    SheetComparator.CompareIsFirstNonTie(s1, s3, sorts);
    assert SheetComparator.KeyCompare(s1, s3, sorts[0]) == 0;
    assert StableSort.InOrder([s1, s3], Comparator(sorts));
    InOrderIsKept(rs, SortFilterForm(filters, sorts));
  }
}
