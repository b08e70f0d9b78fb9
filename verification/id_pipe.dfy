/** `IdPipe`: the path-parameter check applied to `:id`. */
module IdPipe {
  import opened JsValues
  import opened Errors
  import IsId

  /** A pipe either passes its input on or throws. */
  datatype Transformed = Passed(value: JsValue) | Thrown(exception: HttpException)

  function Transform(value: JsValue): (r: Transformed)
    ensures r.Passed? <==> value.Num? && value.x >= 0.0
    ensures r.Passed? ==> r.value == value
    ensures r.Thrown? ==> r.exception == InvalidIdException && r.exception.status == 400
  {
    if !IsNumberType(value) || value.NaN? || (value.Num? && value.x < 0.0) then
      Thrown(InvalidIdException)
    else
      Passed(value)
  }

  /**
   * On numbers the pipe is weaker than `IsId`: whatever `IsId` accepts the
   * pipe passes, and the two disagree exactly at zero.
   */
  lemma PipeAdmitsZero(value: JsValue, stringToNumber: string -> Number)
    requires IsNumberType(value)
    ensures IsId.Validate(value, stringToNumber) == Pass ==> Transform(value).Passed?
    ensures Transform(value).Passed? && IsId.Validate(value, stringToNumber) != Pass
            <==> value == Num(0.0)
  {
  }
}
