/**
 * The data the sheet list works on: a flattened sheet and the sort/filter form
 * that the filter editor hands to the list.
 */
module Sheets {
  import opened Wrappers

  /**
   * A sortable scalar field as JavaScript's `<` sees it: a number or a string.
   * Numbers are integers here; a fractional level is stored scaled by ten.
   */
  datatype Value = Num(n: int) | Str(s: string)

  /**
   * A flattened sheet. `fields` holds the other sortable fields by name; a name
   * missing from it reads as `null`/`undefined`.
   */
  datatype Sheet = Sheet(
    internalLevelValue: int,
    version: string,
    tags: seq<string>,
    fields: map<string, Value>)

  /** `sheet[descriptor]`: the named field of a sheet, `None` when it is null or undefined. */
  function ValueAt(sheet: Sheet, descriptor: string): Option<Value>
  {
    if descriptor == "internalLevelValue" then Some(Num(sheet.internalLevelValue))
    else if descriptor == "version" then Some(Str(sheet.version))
    else if descriptor in sheet.fields then Some(sheet.fields[descriptor])
    else None
  }

  /** An inclusive range of internal levels. */
  datatype LevelRange = LevelRange(min: int, max: int)

  /** The filter half of the form; `None` is an absent (falsy) entry. */
  datatype Filters = Filters(
    internalLevelValue: Option<LevelRange>,
    versions: Option<seq<string>>,
    tags: seq<string>)

  /** One sort entry: a field name and a direction, where only `"asc"` means ascending. */
  datatype SortKey = SortKey(descriptor: string, direction: string)

  /** The whole sort/filter form; its `sorts` are in priority order. */
  datatype SortFilterForm = SortFilterForm(filters: Filters, sorts: seq<SortKey>)
}
