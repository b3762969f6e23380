/**
 * JavaScript's `<` as the comparator applies it to two non-null field values:
 * numbers by magnitude, strings by their characters from the first one on, a
 * proper prefix before the longer string. A number and a string are never
 * ordered (the string coerces to NaN).
 */
module ValueOrder {
  import opened Sheets

  /** `s < t` on two strings. */
  function StrLess(s: string, t: string): (r: bool)
    ensures |s| < |t| && s == t[..|s|] ==> r
  {
    if s == [] then t != []
    else if t == [] then false
    else if s[0] != t[0] then s[0] < t[0]
    else StrLess(s[1..], t[1..])
  }

  /** `x < y` on two field values. */
  function Less(x: Value, y: Value): (r: bool)
    ensures r ==> SameKind(x, y)
  {
    match (x, y)
    case (Num(a), Num(b)) => a < b
    case (Str(a), Str(b)) => StrLess(a, b)
    case _ => false
  }

  /** Both values are numbers, or both are strings. */
  predicate SameKind(x: Value, y: Value)
  {
    x.Num? == y.Num?
  }

  lemma {:induction false} StrLessIrreflexive(s: string)
    ensures !StrLess(s, s)
  {
    if s != [] {
      StrLessIrreflexive(s[1..]);
    }
  }

  lemma {:induction false} StrLessAsymmetric(s: string, t: string)
    ensures !(StrLess(s, t) && StrLess(t, s))
  {
    if s != [] && t != [] && s[0] == t[0] {
      StrLessAsymmetric(s[1..], t[1..]);
    }
  }

  lemma {:induction false} StrLessTransitive(s: string, t: string, u: string)
    requires StrLess(s, t) && StrLess(t, u)
    ensures StrLess(s, u)
  {
    if s != [] && s[0] == t[0] && t[0] == u[0] {
      StrLessTransitive(s[1..], t[1..], u[1..]);
    }
  }

  lemma {:induction false} StrLessTotal(s: string, t: string)
    ensures s == t || StrLess(s, t) || StrLess(t, s)
  {
    if s != [] && t != [] && s[0] == t[0] {
      StrLessTotal(s[1..], t[1..]);
      assert s == [s[0]] + s[1..] && t == [t[0]] + t[1..];
    }
  }

  /** `<` never holds both ways and never of a value and itself. */
  lemma LessAsymmetric(x: Value, y: Value)
    ensures !(Less(x, y) && Less(y, x))
    ensures !Less(x, x)
  {
    if x.Str? && y.Str? {
      StrLessAsymmetric(x.s, y.s);
    }
    if x.Str? {
      StrLessIrreflexive(x.s);
    }
  }

  /** On values of one kind, `<` is a strict total order. */
  lemma LessStrictTotalOrder(x: Value, y: Value, z: Value)
    requires SameKind(x, y) && SameKind(y, z)
    ensures Less(x, y) && Less(y, z) ==> Less(x, z)
    ensures x == y || Less(x, y) || Less(y, x)
  {
    if x.Str? {
      if Less(x, y) && Less(y, z) {
        StrLessTransitive(x.s, y.s, z.s);
      }
      StrLessTotal(x.s, y.s);
    }
  }

  /** A number and a string are unordered both ways. */
  lemma MixedKindsUnordered(x: Value, y: Value)
    requires !SameKind(x, y)
    ensures !Less(x, y) && !Less(y, x)
  {
  }
}
