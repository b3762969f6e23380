/** `chainEvery`: the AND of a list of predicates over one argument. */
module PredicateChain {
  import JsArray

  /**
   * `chainEvery(...fns)(arg)`: `fns.every((fn) => fn(arg))`. True exactly when every
   * predicate holds of `arg`, so true when there are no predicates.
   */
  function ChainEvery<T>(fns: seq<T -> bool>, arg: T): (r: bool)
    ensures r <==> forall i :: 0 <= i < |fns| ==> fns[i](arg)
    ensures fns == [] ==> r
  {
    JsArray.Every(fns, (fn: T -> bool) => fn(arg))
  }
}
