/** Validation messages, validator verdicts and HTTP exceptions. */
module Errors {

  /** The message constants the validators report. */
  datatype Message =
    | PostErrorPassword   // PostErrorMessage.PASSWORD
    | PostMessagePassword // PostMessage.PASSWORD
    | IdInvalid           // CommonErrorMessage.ID_INVALID

  /**
   * The outcome of one custom validator: accepted, rejected under the
   * decorator's registered name with its message, or the validate function
   * itself threw.
   */
  datatype Verdict = Pass | Fail(constraint: string, message: Message) | Crash

  datatype HttpException = HttpException(status: int, message: string)

  const BadRequest := 400

  const InvalidIdException := HttpException(BadRequest, "잘못된 id 값입니다.")
}
