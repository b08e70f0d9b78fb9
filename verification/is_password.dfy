/** `src/common/validation/IsPassword.validation.ts`. */
module CommonIsPassword {
  import opened Wrappers
  import opened JsValues
  import opened Errors
  import opened PasswordRule

  /** Registered as `isPassword`; every failure reports PostErrorMessage.PASSWORD. */
  function Validate(option: Option<LengthOption>, value: JsValue): (r: Verdict)
    ensures option.None? ==> r == Crash
    ensures option.Some? ==>
      (r == Pass <==>
        && value.Str?
        && option.value.min <= |value.s| <= option.value.max
        && exists i :: 0 <= i < |value.s| && IsAsciiDigit(value.s[i]))
    ensures r.Fail? ==> r == Fail("isPassword", PostErrorPassword)
  {
    Check(option, value, "isPassword", PostErrorPassword)
  }
}

/** `src/validation/IsPassword.validation.ts`: a second decorator with the same rule. */
module IsPassword {
  import opened Wrappers
  import opened JsValues
  import opened Errors
  import opened PasswordRule
  import CommonIsPassword

  /** Registered as `isNumberContains`; every failure reports PostMessage.PASSWORD. */
  function Validate(option: Option<LengthOption>, value: JsValue): (r: Verdict)
    ensures option.None? ==> r == Crash
    ensures option.Some? ==>
      (r == Pass <==>
        && value.Str?
        && option.value.min <= |value.s| <= option.value.max
        && exists i :: 0 <= i < |value.s| && IsAsciiDigit(value.s[i]))
    ensures r.Fail? ==> r == Fail("isNumberContains", PostMessagePassword)
  {
    Check(option, value, "isNumberContains", PostMessagePassword)
  }

  /**
   * The two decorators accept and reject the same values; a rejection is
   * reported under a different registered name and message.
   */
  lemma CopiesAgree(option: Option<LengthOption>, value: JsValue)
    ensures Validate(option, value).Pass? <==> CommonIsPassword.Validate(option, value).Pass?
    ensures Validate(option, value).Fail? <==> CommonIsPassword.Validate(option, value).Fail?
    ensures Validate(option, value).Fail? ==>
      Validate(option, value).constraint != CommonIsPassword.Validate(option, value).constraint
      && Validate(option, value).message != CommonIsPassword.Validate(option, value).message
  {
  }
}
