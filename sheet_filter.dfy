/** The filter stage: three optional constraints chained with `chainEvery` and applied with `filter`. */
module SheetFilter {
  import opened Wrappers
  import opened Sheets
  import JsArray
  import PredicateChain

  /** The level constraint: when a range is set, both of its bounds are admitted. */
  function LevelPredicate(filters: Filters): Sheet -> bool
  {
    (v: Sheet) =>
      match filters.internalLevelValue
      case Some(range) => v.internalLevelValue >= range.min && v.internalLevelValue <= range.max
      case None => true
  }

  /** The version constraint: any present list, even an empty one, is applied with `includes`. */
  function VersionPredicate(filters: Filters): Sheet -> bool
  {
    (v: Sheet) =>
      match filters.versions
      case Some(versions) => JsArray.Includes(versions, v.version)
      case None => true
  }

  /** The tag constraint: a non-empty list demands every listed tag; an empty one is ignored. */
  function TagsPredicate(filters: Filters): Sheet -> bool
  {
    (v: Sheet) =>
      if |filters.tags| > 0 then JsArray.Every(filters.tags, (tag: string) => JsArray.Includes(v.tags, tag))
      else true
  }

  /** The three constraints in the order the list chains them. */
  function Constraints(filters: Filters): seq<Sheet -> bool>
  {
    [LevelPredicate(filters), VersionPredicate(filters), TagsPredicate(filters)]
  }

  /** Whether one sheet survives the filter stage. */
  function Passes(filters: Filters, sheet: Sheet): bool
  {
    PredicateChain.ChainEvery(Constraints(filters), sheet)
  }

  /** The callback handed to `filter`: `(sheet) => chainEvery(...)(sheet)`. */
  function FilterCallback(filters: Filters): Sheet -> bool
  {
    (sheet: Sheet) => Passes(filters, sheet)
  }

  /** `results.filter(...)` with the chained constraints. */
  function FilterSheets(results: seq<Sheet>, filters: Filters): seq<Sheet>
  {
    JsArray.Filter(results, FilterCallback(filters))
  }

  /**
   * A sheet passes exactly when it is within the level range (bounds included) if one
   * is set, its version is listed if a version list is present, and it carries every
   * required tag.
   */
  lemma PassesExactly(filters: Filters, sheet: Sheet)
    ensures Passes(filters, sheet) <==>
      && (filters.internalLevelValue.Some? ==>
            filters.internalLevelValue.value.min <= sheet.internalLevelValue <= filters.internalLevelValue.value.max)
      && (filters.versions.Some? ==> sheet.version in filters.versions.value)
      && (forall tag :: tag in filters.tags ==> tag in sheet.tags)
  {
    var cs := Constraints(filters);
    assert cs[0](sheet) == LevelPredicate(filters)(sheet);
    assert cs[1](sheet) == VersionPredicate(filters)(sheet);
    assert cs[2](sheet) == TagsPredicate(filters)(sheet);
    if |filters.tags| > 0 {
      var every := JsArray.Every(filters.tags, (tag: string) => JsArray.Includes(sheet.tags, tag));
      assert every <==> forall i :: 0 <= i < |filters.tags| ==> filters.tags[i] in sheet.tags;
    }
  }

  /** With no constraint set, every sheet passes. */
  lemma NoConstraintPassesAll(sheet: Sheet)
    ensures Passes(Filters(None, None, []), sheet)
  {
    PassesExactly(Filters(None, None, []), sheet);
  }

  /**
   * A version list that is present but empty is still truthy, so it rejects every
   * sheet, whatever the other constraints say.
   */
  lemma EmptyVersionListRejectsAll(filters: Filters, sheet: Sheet)
    requires filters.versions == Some([])
    ensures !Passes(filters, sheet)
  {
    PassesExactly(filters, sheet);
  }

  /**
   * The filter stage keeps, in their original relative order, exactly the sheets of
   * `results` that pass.
   */
  lemma FilterSheetsSelects(results: seq<Sheet>, filters: Filters)
    ensures exists idx :: JsArray.IsSelection(results, FilterSheets(results, filters), FilterCallback(filters), idx)
  {
    JsArray.FilterIsOrderedSelection(results, FilterCallback(filters));
    assert FilterSheets(results, filters) == JsArray.Filter(results, FilterCallback(filters));
  }

  /** A sheet is in the filtered list exactly when it is in `results` and passes. */
  lemma FilterSheetsMembers(results: seq<Sheet>, filters: Filters, sheet: Sheet)
    ensures sheet in FilterSheets(results, filters) <==> sheet in results && Passes(filters, sheet)
  {
    JsArray.FilterMembers(results, FilterCallback(filters), sheet);
  }

  /** With no constraint set, the filter stage keeps `results` as they are. */
  lemma NoConstraintKeepsAll(results: seq<Sheet>)
    ensures FilterSheets(results, Filters(None, None, [])) == results
  {
    forall i | 0 <= i < |results|
      ensures Passes(Filters(None, None, []), results[i])
    {
      NoConstraintPassesAll(results[i]);
    }
    JsArray.FilterAll(results, FilterCallback(Filters(None, None, [])));
  }
}
