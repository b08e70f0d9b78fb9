/**
 * The JavaScript values the validators and query builders inspect.
 * Objects and arrays are not modelled; numbers are finite reals or NaN
 * (infinities and negative zero are not distinguished).
 */
module JsValues {

  datatype JsValue =
    | Undefined
    | Null
    | Bool(b: bool)
    | Num(x: real)
    | NaN
    | Str(s: string)

  /** The result of JavaScript's ToNumber conversion. */
  datatype Number = Finite(value: real) | NotANumber

  /** `!value` is true: exactly the six falsy values of JavaScript among those modelled. */
  function Falsy(v: JsValue): (f: bool)
    ensures f <==> v in {Undefined, Null, Bool(false), Num(0.0), NaN, Str("")}
  {
    match v
    case Undefined => true
    case Null => true
    case Bool(b) => !b
    case Num(x) => x == 0.0
    case NaN => true
    case Str(s) => |s| == 0
  }

  /** `typeof value === 'number'` (NaN is a number too). */
  predicate IsNumberType(v: JsValue)
  {
    v.Num? || v.NaN?
  }

  /**
   * ToNumber, as used by `isNaN(value)` and by `value > 0`. Parsing a
   * string is a runtime builtin and is passed in as `stringToNumber`.
   */
  function ToNumber(v: JsValue, stringToNumber: string -> Number): (n: Number)
    ensures v.Num? ==> n == Finite(v.x)
    ensures v.NaN? || v.Undefined? ==> n == NotANumber
    // null and false convert to zero, true to one
    ensures v == Null || v == Bool(false) ==> n == Finite(0.0)
    ensures v == Bool(true) ==> n == Finite(1.0)
    ensures v.Str? ==> n == stringToNumber(v.s)
  {
    match v
    case Undefined => NotANumber
    case Null => Finite(0.0)
    case Bool(b) => Finite(if b then 1.0 else 0.0)
    case Num(x) => Finite(x)
    case NaN => NotANumber
    case Str(s) => stringToNumber(s)
  }
}
