/**
 * The three comparison helpers of util.js.
 *
 * The JavaScript helpers compare plain numbers, and the heuristic engine also
 * calls `max`/`min` on its search window, whose ends start at -Infinity and
 * +Infinity.  Numbers are therefore modelled as integers extended with two
 * infinities (`ExtInt`); `clamp` is only ever applied to finite scores.
 */
module Util {

  /** A value that may be missing (JavaScript's `undefined`). */
  datatype Option<T> = None | Some(value: T)

  /** An integer or one of the two infinite sentinels. */
  datatype ExtInt = NegInf | Fin(n: int) | PosInf

  /** The order JavaScript's `<` gives on these values. */
  predicate Less(a: ExtInt, b: ExtInt)
  {
    match (a, b)
    case (NegInf, NegInf) => false
    case (NegInf, _) => true
    case (Fin(x), Fin(y)) => x < y
    case (Fin(_), PosInf) => true
    case (_, _) => false
  }

  predicate AtMost(a: ExtInt, b: ExtInt)
  {
    !Less(b, a)
  }

  lemma LessIsStrictTotal(a: ExtInt, b: ExtInt, c: ExtInt)
    ensures !Less(a, a)
    ensures Less(a, b) ==> !Less(b, a)
    ensures Less(a, b) || a == b || Less(b, a)
    ensures Less(a, b) && Less(b, c) ==> Less(a, c)
  {
  }

  /** `clamp(value, min, max)`: hi above the range, lo below it, else the value. */
  function Clamp(v: int, lo: int, hi: int): (r: int)
    ensures lo <= hi ==> lo <= r <= hi
    ensures lo <= v <= hi ==> r == v
    ensures v > hi ==> r == hi
    ensures v <= hi && v < lo ==> r == lo
  {
    if v > hi then hi else if v < lo then lo else v
  }

  /** `max(a, b)`: the larger of the two; `b` when they are equal. */
  function Max(a: ExtInt, b: ExtInt): (r: ExtInt)
    ensures AtMost(a, r) && AtMost(b, r)
    ensures r == a || r == b
    ensures a == b ==> r == b
    ensures Less(b, a) <==> r == a && r != b
  {
    if Less(b, a) then a else b
  }

  /** `min(a, b)`: the smaller of the two; `b` when they are equal. */
  function Min(a: ExtInt, b: ExtInt): (r: ExtInt)
    ensures AtMost(r, a) && AtMost(r, b)
    ensures r == a || r == b
    ensures a == b ==> r == b
    ensures Less(a, b) <==> r == a && r != b
  {
    if Less(a, b) then a else b
  }
}
