/**
 * `IsId`: an optional positive id. A value that is falsy and not of type
 * number counts as absent and is accepted; anything else must convert to a
 * number that is not NaN and is greater than zero.
 */
module IsId {
  import opened JsValues
  import opened Errors

  function Validate(value: JsValue, stringToNumber: string -> Number): (r: Verdict)
    // absent values: undefined, null, false and the empty string
    ensures value == Undefined || value == Null || value == Bool(false) || value == Str("") ==> r == Pass
    // numbers, zero included, must be strictly positive
    ensures value.Num? ==> (r == Pass <==> value.x > 0.0)
    ensures value == NaN ==> r != Pass
    ensures value == Bool(true) ==> r == Pass
    // other strings are judged by the number they convert to
    ensures value.Str? && value.s != "" ==>
      (r == Pass <==> stringToNumber(value.s).Finite? && stringToNumber(value.s).value > 0.0)
    // a rejection is reported under the registered name `isId`
    ensures r != Pass ==> r == Fail("isId", IdInvalid)
  {
    if Falsy(value) && !IsNumberType(value) then Pass
    else
      match ToNumber(value, stringToNumber)
      case Finite(x) => if x > 0.0 then Pass else Fail("isId", IdInvalid)
      case NotANumber => Fail("isId", IdInvalid)
  }
}
