# Sheet list search–filter–sort pipeline

This project models, in Dafny, the derived view that the sheet list page of dxrating builds in
`apps/web/src/pages/SheetList.tsx`. The text search provider returns `results` for the current
query. The page then does the following:

- With no sort/filter form, it shows `results` unchanged. This is the same array object.
- With a form, it keeps the sheets that pass three optional constraints, in their original order.
  The constraints are combined with `chainEvery` and applied with `filter`:
  - an inclusive internal-level range;
  - a version list;
  - a list of required tags.
- While the query is empty, it also sorts that new array in place. The comparator is a `reduce`
  over the form's sort entries. The first entry that does not tie decides. A `null` or `undefined`
  value on either side ties that entry. Only the direction `"asc"` sorts ascending; any other
  value sorts descending.

Modules, one file each:

- `wrappers.dfy` (`Wrappers`): `Option`, standing for null/undefined versus a present value.
- `js_array.dfy` (`JsArray`): the `Array.prototype` methods the page relies on: `every`,
  `includes` and `filter`, with the subsequence property of `filter`.
- `sheets.dfy` (`Sheets`): the sheet record, field lookup by descriptor (`a[sort.descriptor]`),
  and the form's shape.
- `predicate_chain.dfy` (`PredicateChain`): `chainEvery`.
- `sheet_filter.dfy` (`SheetFilter`): the three constraints and the filter stage.
- `value_order.dfy` (`ValueOrder`): JavaScript's `<` on two numbers or two strings.
- `sheet_comparator.dfy` (`SheetComparator`): the `reduce` comparator and its laws.
- `stable_sort.dfy` (`StableSort`): `sort(comparefn)` as a stable insertion sort. It is given as a
  function on sequences and as an in-place method over an `array`. The sort is generic in the
  element type and takes the comparator as a callback.
- `sheet_list.dfy` (`SheetList`): the whole computation. `FilteredResults` gives it as a value.
  `ComputeFilteredResults` is the method over arrays. It returns the provider's own array when no
  form is present. Otherwise it returns a fresh array, which it also sorts in place when the query
  is empty.

Modelling choices made explicit:

- A sheet's `internalLevelValue` is an integer: the level times ten, for example 12.7 is 127.
  The range bounds use the same scale.
- Sortable fields are `Num(int)` or `Str(string)`. Looking up `"internalLevelValue"` or `"version"`
  reads those fields of the record. Any other descriptor reads the `fields` map, and a name missing
  from the map reads as null/undefined.
- `<` orders numbers by value and strings character by character, with a proper prefix first. A
  number and a string are unordered in both directions, as a non-numeric string becomes NaN.
- The form's `tags` list is always present, since the code reads `.length` on it unconditionally.
  `versions` and `internalLevelValue` may be absent.

Two consequences of the code that are easy to miss:

- **Empty version list.** The code tests the list for truthiness (`SheetList.tsx:51`). An empty
  array is truthy, so a present but empty list rejects every sheet
  (`SheetFilter.EmptyVersionListRejectsAll`).
- **Stability.** `Array.prototype.sort` must be stable under ECMA-262 (section 23.1.3.30 in the
  2023 edition), and the model proves stability for a consistent comparator.

## Model

| member | source | states |
|---|---|---|
| `Sheets.ValueAt` | apps/web/src/pages/SheetList.tsx:74-75 | `a[sort.descriptor]`: a number for `"internalLevelValue"`, a string for `"version"`, and otherwise the named field, with null/undefined when it is missing. This definition has no contract of its own; `SheetComparator.KeyCompareMeaning` and `SheetComparator.MissingValueTies` state what the comparator does with its result |
| `JsArray.Filter` | apps/web/src/pages/SheetList.tsx:40 | `Array.prototype.filter`, head first. This definition has no contract of its own; `JsArray.FilterIsOrderedSelection` and `JsArray.FilterMembers` characterise its result |
| `SheetFilter.LevelPredicate` | apps/web/src/pages/SheetList.tsx:42-49 | the level constraint. This definition has no contract of its own; `SheetFilter.PassesExactly` states it as `min <= level <= max` when a range is set and true otherwise |
| `SheetFilter.VersionPredicate` | apps/web/src/pages/SheetList.tsx:50-57 | the version constraint. This definition has no contract of its own; `SheetFilter.PassesExactly` states it as membership in the list when one is present, and `SheetFilter.EmptyVersionListRejectsAll` covers the empty list |
| `SheetFilter.TagsPredicate` | apps/web/src/pages/SheetList.tsx:58-65 | the tags constraint. This definition has no contract of its own; `SheetFilter.PassesExactly` states it as every required tag being among the sheet's tags |
| `SheetFilter.Passes` | apps/web/src/pages/SheetList.tsx:41-66 | `chainEvery` of the three constraints applied to one sheet. This definition has no contract of its own; `SheetFilter.PassesExactly` characterises it |
| `SheetFilter.FilterSheets` | apps/web/src/pages/SheetList.tsx:40-67 | the filter stage. This definition has no contract of its own; `SheetFilter.FilterSheetsSelects` and `SheetFilter.FilterSheetsMembers` characterise its result |
| `ValueOrder.StrLess` | apps/web/src/pages/SheetList.tsx:80-83 | string `<`: a proper prefix is less than the longer string. The `ValueOrder.StrLess*` lemmas prove that it is a strict total order |
| `ValueOrder.Less` | apps/web/src/pages/SheetList.tsx:80-83 | `<` is true only of two numbers or two strings. `ValueOrder.LessAsymmetric` and `ValueOrder.LessStrictTotalOrder` state its laws |
| `SheetComparator.KeyCompare` | apps/web/src/pages/SheetList.tsx:74-86 | one sort entry's result, always -1, 0 or 1. `SheetComparator.KeyCompareMeaning` says which value it takes in each case |
| `SheetComparator.Step` | apps/web/src/pages/SheetList.tsx:70-87 | one step of the `reduce` callback: it keeps a non-zero accumulator and otherwise compares by the entry. This definition has no contract of its own; `SheetComparator.FoldIsFirstDecision` states what the fold of these steps computes |
| `SheetComparator.CompareFold` | apps/web/src/pages/SheetList.tsx:70-87 | the `reduce` from a given accumulator. A non-zero accumulator is returned unchanged, and an accumulator in {-1, 0, 1} gives a result in {-1, 0, 1}. `SheetComparator.FoldIsFirstDecision` gives its value |
| `SheetComparator.Compare` | apps/web/src/pages/SheetList.tsx:69-87 | the comparator callback, always -1, 0 or 1. `SheetComparator.CompareIsFirstNonTie` gives its value, and `SheetComparator.CompareAntisymmetric` and `SheetComparator.CompareTransitive` give its laws |
| `StableSort.Insert` | apps/web/src/pages/SheetList.tsx:69 | inserting one element into the sorted prefix. This definition has no contract of its own; `StableSort.InsertAt` says where the element goes and `StableSort.InsertPermutes` that nothing is lost |
| `StableSort.InsertionSort` | apps/web/src/pages/SheetList.tsx:69 | `sort(comparefn)` as a function. This definition has no contract of its own; the `StableSort.InsertionSort*` lemmas state that it is a permutation, sorted and stable |
| `SheetList.Comparator` | apps/web/src/pages/SheetList.tsx:69-88 | the callback passed to `sort`. This definition has no contract of its own; `SheetList.ComparatorConsistent` states when it is consistent |
| `SheetList.FilteredResults` | apps/web/src/pages/SheetList.tsx:36-95 | `filteredResults` as a value. This definition has no contract of its own; `SheetList.ShownSheets`, `SheetList.QueryKeepsProviderOrder`, `SheetList.EmptyQuerySorts` and `SheetList.InOrderIsKept` characterise it |
| `JsArray.Every` | apps/web/src/pages/SheetList.tsx:21 | `every` is true exactly when the callback holds of every element, so it is true on an empty list |
| `JsArray.Includes` | apps/web/src/pages/SheetList.tsx:53 | `includes` is true exactly when the value is a member of the list |
| `JsArray.FilterIsOrderedSelection` | apps/web/src/pages/SheetList.tsx:40 | `filter`'s result is given by a strictly increasing list of positions of the input, and a position is listed exactly when the callback holds there. So the result is an order-preserving subsequence that keeps exactly the passing elements |
| `JsArray.FilterMembers` | apps/web/src/pages/SheetList.tsx:40 | an element is in `filter`'s result exactly when it is in the input and passes |
| `PredicateChain.ChainEvery` | apps/web/src/pages/SheetList.tsx:18-21 | `chainEvery(fns)(x)` is true exactly when every predicate holds of `x`, and it is true when `fns` is empty |
| `SheetFilter.PassesExactly` | apps/web/src/pages/SheetList.tsx:41-66 | a sheet passes exactly when three conditions all hold: (1) if a range is set, min ≤ level ≤ max, with both bounds included; (2) if a version list is present, the sheet's version is in it; (3) every required tag is among the sheet's tags |
| `SheetFilter.NoConstraintPassesAll` | apps/web/src/pages/SheetList.tsx:43-64 | with no range, no version list and no required tags, every sheet passes |
| `SheetFilter.EmptyVersionListRejectsAll` | apps/web/src/pages/SheetList.tsx:51-53 | a present but empty version list is truthy, so it rejects every sheet |
| `SheetFilter.FilterSheetsSelects` | apps/web/src/pages/SheetList.tsx:40-67 | the filter stage keeps, in relative order, exactly the sheets of `results` that pass all three constraints |
| `SheetFilter.FilterSheetsMembers` | apps/web/src/pages/SheetList.tsx:40-67 | a sheet is in the filtered list exactly when it is in `results` and passes |
| `SheetFilter.NoConstraintKeepsAll` | apps/web/src/pages/SheetList.tsx:40-67 | with no constraint set, the filtered list equals `results` |
| `ValueOrder.StrLessIrreflexive` | apps/web/src/pages/SheetList.tsx:80 | no string is less than itself |
| `ValueOrder.StrLessAsymmetric` | apps/web/src/pages/SheetList.tsx:80-83 | string `<` never holds in both directions |
| `ValueOrder.StrLessTransitive` | apps/web/src/pages/SheetList.tsx:80 | string `<` is transitive |
| `ValueOrder.StrLessTotal` | apps/web/src/pages/SheetList.tsx:80-83 | two distinct strings are ordered one way or the other |
| `ValueOrder.LessAsymmetric` | apps/web/src/pages/SheetList.tsx:80-83 | `a < b` and `a > b` never both hold, and neither holds of a value and itself |
| `ValueOrder.LessStrictTotalOrder` | apps/web/src/pages/SheetList.tsx:80-83 | on two numbers or two strings, `<` is transitive and total |
| `ValueOrder.MixedKindsUnordered` | apps/web/src/pages/SheetList.tsx:80-83 | a number and a string are neither less nor greater than each other |
| `SheetComparator.KeyCompareMeaning` | apps/web/src/pages/SheetList.tsx:74-86 | one entry's result is in {-1, 0, 1}. It is 0 if either value is null or undefined. With `"asc"` it is -1 exactly when a < b and +1 exactly when a > b; with any other direction these are reversed |
| `SheetComparator.KeyTieIffEqual` | apps/web/src/pages/SheetList.tsx:76-86 | on two present values of one kind, an entry ties exactly when the values are equal |
| `SheetComparator.KeyCompareAntisymmetric` | apps/web/src/pages/SheetList.tsx:74-86 | swapping the sheets negates one entry's result |
| `SheetComparator.KeyCompareTransitive` | apps/web/src/pages/SheetList.tsx:80-85 | on comparable values, one entry's "no later than" is transitive, and strictly so when the first step is strict |
| `SheetComparator.FoldIsFirstDecision` | apps/web/src/pages/SheetList.tsx:70-87 | the `reduce` started from any accumulator gives that accumulator if it is non-zero, and otherwise gives the first entry that does not tie |
| `SheetComparator.FirstDecisionIsFirstNonTie` | apps/web/src/pages/SheetList.tsx:70-87 | the short-circuit reading is 0 exactly when every entry ties, and otherwise equals the first entry that does not tie |
| `SheetComparator.CompareIsFirstNonTie` | apps/web/src/pages/SheetList.tsx:70-87 | the comparator returns the result of the first entry that does not tie. It returns 0 exactly when every entry ties, which includes an empty sort list |
| `SheetComparator.FirstDecisionAntisymmetric` | apps/web/src/pages/SheetList.tsx:70-87 | the short-circuit reading negates when the sheets are swapped |
| `SheetComparator.CompareAntisymmetric` | apps/web/src/pages/SheetList.tsx:69-87 | `cmp(a, b) == -cmp(b, a)` and `cmp(a, a) == 0` |
| `SheetComparator.FirstDecisionTransitive` | apps/web/src/pages/SheetList.tsx:70-87 | on comparable sheets, the short-circuit reading's "no later than" is transitive |
| `SheetComparator.CompareTransitive` | apps/web/src/pages/SheetList.tsx:69-87 | when every sort field is present and of one kind for each pair, `cmp(a,b) <= 0 && cmp(b,c) <= 0` implies `cmp(a,c) <= 0` |
| `SheetComparator.MissingValueTies` | apps/web/src/pages/SheetList.tsx:76-79 | a missing value on the first entry ties it, whatever the direction, so the remaining entries decide |
| `StableSort.InsertionSortPermutes` | apps/web/src/pages/SheetList.tsx:69 | the sort returns a permutation of its input (same multiset, same length) |
| `StableSort.InsertionSortMembers` | apps/web/src/pages/SheetList.tsx:69 | an element is in the sorted output exactly when it is in the input |
| `StableSort.InsertionSortSorted` | apps/web/src/pages/SheetList.tsx:69 | for a comparator consistent on the input, no element of the output comes strictly after a later one |
| `StableSort.InsertionSortStable` | apps/web/src/pages/SheetList.tsx:69 | for a consistent comparator, the elements tying with any given input element come out in their input order |
| `StableSort.InsertionSortKeepsInOrder` | apps/web/src/pages/SheetList.tsx:69 | insertion sort returns an input whose neighbours already compare in order unchanged. For a consistent comparator that input is sorted, so any stable sort keeps it. For an inconsistent comparator this is insertion sort's order only; ECMA-262 promises no particular order then |
| `StableSort.InsertAt` | apps/web/src/pages/SheetList.tsx:69 | inserting an element places it right after the last element the comparator does not put after it |
| `StableSort.ShiftRight` | apps/web/src/pages/SheetList.tsx:69 | one pass moves, from the right, every element of the sorted prefix that compares after the new element one place right. It leaves the rest of the array alone and reports the gap |
| `StableSort.InsertInPlace` | apps/web/src/pages/SheetList.tsx:69 | one pass turns the array prefix `a[..i+1]` into the insertion of `a[i]` into `a[..i]`, and nothing after it changes |
| `StableSort.SortInPlace` | apps/web/src/pages/SheetList.tsx:69-88 | the in-place sort leaves the array equal to the insertion sort of its old contents. The result is a permutation, and it is sorted when the comparator is consistent |
| `SheetList.ComputeFilteredResults` | apps/web/src/pages/SheetList.tsx:36-95 | with no form, the result is the provider's array itself. Otherwise it is a fresh array. The provider's array is never written. The contents are `FilteredResults` of the inputs |
| `SheetList.ComparatorConsistent` | apps/web/src/pages/SheetList.tsx:69-88 | when every sort field is present and of one kind for each pair of sheets, the comparator is consistent as section 23.1.3.30 of ECMA-262 (2023) requires: antisymmetric and transitive |
| `SheetList.ShownSheets` | apps/web/src/pages/SheetList.tsx:38-67 | a shown sheet is a sheet of `results`, and when a form is present it is exactly one that passes the filters |
| `SheetList.QueryKeepsProviderOrder` | apps/web/src/pages/SheetList.tsx:68 | with a non-empty query, the list is the filtered subsequence of `results` in the provider's order, and changing the sort entries does not change it |
| `SheetList.EmptyQuerySorts` | apps/web/src/pages/SheetList.tsx:68-88 | with an empty query, the list is a permutation of the filtered list. When all sort fields are present and of one kind, it is sorted, and tied sheets keep their filtered order |
| `SheetList.InOrderIsKept` | apps/web/src/pages/SheetList.tsx:68-88 | with no sort entries, or when neighbouring filtered sheets already compare in order, the model's list is the filtered order. With no sort entries every pair ties, so any stable sort agrees. With entries and missing values, neighbouring ties need not make the comparator consistent; the result is then insertion sort's order, not a promise of `Array.prototype.sort` |
| `SheetList.LevelFilterAndSortExample` | apps/web/src/pages/SheetList.tsx:36-95 | levels 10.0, 12.0 and 10.0 with range [10.0, 10.0] and a descending level sort give the first and third sheets, in that order |

## Left out

- Timing is not modelled: `performance.now()`, the `elapsed` result and its display with
  `toFixed(1)` (`SheetList.tsx:37, 93, 127`). These are clock readings used only as diagnostics.
- `skeletonWidths` (`SheetList.tsx:23-25`) is not modelled. It draws random floats for the loading
  placeholders.
- The search provider and the catalog loader (`useFilteredSheets`, `useSheets`) are not modelled.
  Their outputs are parameters: `results` is an arbitrary input array and `query` an arbitrary
  string.
- React is not modelled: `useState`, the `useMemo` dependency list, the `setQueryActive` context
  call, the OCR plugin call and all JSX rendering (`SheetList.tsx:28-34, 95, 97-170`). They are UI
  wiring.
- `apps/web/src/main.tsx` is not modelled. It builds the theme and the toaster and mounts the app;
  it contains no logic of the pipeline.
- JavaScript numbers are floats. The model uses integers, scaled by ten for levels, so NaN,
  infinities and rounding are not modelled.
- `ValueOrder.StrLess` compares Unicode scalar values. JavaScript compares UTF-16 code units. The
  two orders differ only for strings with characters outside the Basic Multilingual Plane.
- `ValueOrder.Less` does not model numeric-string coercion. For a number and a numeric string,
  JavaScript's `<` converts the string to a number, but the model treats the pair as unordered.
  Sort values that are not numbers or strings are not modelled either: booleans, arrays and
  objects, including the `tags` array used as a descriptor.
- The model sorts with one stable algorithm, insertion sort. Engines use other stable algorithms.
  The model does not prove that every stable sort gives the same result for a consistent
  comparator, so that claim is left out.
- `StableSort.InsertionSortStable`: stability is stated only for comparators that are consistent
  on the input. When null ties make the comparator inconsistent, ECMA-262 leaves the order to the
  implementation. For that case the model gives insertion sort's order. What
  `Array.prototype.sort` is promised to do there is only a permutation
  (`StableSort.InsertionSortPermutes`). `StableSort.InsertionSortKeepsInOrder` and
  `SheetList.InOrderIsKept` describe insertion sort's order and are not a guarantee of the
  engine's sort. For example, take one ascending entry on `d` and the sheets d=5, no d, d=3, no d.
  Every neighbouring pair ties, but a stable merge sort compares 3 with 5 and moves it first.
- `PredicateChain.ChainEvery` takes predicates that return a `bool`. In the source they may also
  return `undefined`, which `every` treats as false. The three predicates here always return a
  boolean, so this difference does not matter for the pipeline.
