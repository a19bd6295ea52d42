/**
 * The JavaScript values the model reads: numbers with their special cases, and
 * the already-parsed contents of browser storage.
 */
module JsValues {

  /**
   * A JavaScript number. A finite value is either an integer or a value with a
   * fractional part, known here by its integer part (`Math.trunc`).
   */
  datatype Number = NaN | Infinity(positive: bool) | Int(n: int) | Fraction(trunc: int)

  /** A value of unknown type, as `JSON.parse` produces it. */
  datatype JsValue =
    | JsNull
    | JsBool(b: bool)
    | JsNumber(num: Number)
    | JsString(s: string)
    | JsArray(items: seq<JsValue>)
    | JsObject

  /** `Math.trunc`: drops the fractional part and leaves NaN and the infinities as they are. */
  function Trunc(v: Number): (r: Number)
    ensures !r.Fraction?
    ensures v.Int? ==> r == v
  {
    match v
    case Fraction(t) => Int(t)
    case _ => v
  }
}
