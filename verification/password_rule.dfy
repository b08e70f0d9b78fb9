/**
 * The password rule shared by both `IsPassword` decorators: a string whose
 * length lies in the inclusive window [min, max] and which contains an
 * ASCII digit (the regular expression `\d` without the `u` flag).
 */
module PasswordRule {
  import opened Wrappers
  import opened JsValues
  import opened Errors

  datatype LengthOption = LengthOption(min: int, max: int)

  /** `new PasswordLengthOption()`. */
  const DefaultLengthOption := LengthOption(1, 150)

  predicate IsAsciiDigit(c: char)
  {
    '0' <= c <= '9'
  }

  /** `/\d/.test(s)`, scanning from the front. */
  function ContainsDigit(s: string): (found: bool)
    ensures found <==> exists i :: 0 <= i < |s| && IsAsciiDigit(s[i])
  {
    if |s| == 0 then false
    else if IsAsciiDigit(s[0]) then true
    else
      var rest := ContainsDigit(s[1..]);
      assert forall i :: 1 <= i < |s| ==> s[i] == s[1..][i - 1];
      rest
  }

  /**
   * The decorator's `validate(value)`; a failure is reported under the
   * registered `name` with `message`. With no option object the
   * destructuring of `undefined` throws.
   */
  function Check(option: Option<LengthOption>, value: JsValue, name: string, message: Message): (r: Verdict)
    ensures option.None? ==> r == Crash
    ensures option.Some? ==>
      (r == Pass <==>
        && value.Str?
        && option.value.min <= |value.s| <= option.value.max
        && exists i :: 0 <= i < |value.s| && '0' <= value.s[i] <= '9')
    ensures option.Some? && r != Pass ==> r == Fail(name, message)
  {
    match option
    case None => Crash
    case Some(LengthOption(min, max)) =>
      if value.Str? && |value.s| >= min && |value.s| <= max && ContainsDigit(value.s)
      then Pass
      else Fail(name, message)
  }

  /** A string with no digit is rejected whatever its length and bounds. */
  lemma NoDigitRejected(option: LengthOption, s: string, name: string, message: Message)
    requires forall i :: 0 <= i < |s| ==> !IsAsciiDigit(s[i])
    ensures Check(Some(option), Str(s), name, message) == Fail(name, message)
  {
  }

  /** Both default bounds are inclusive: lengths 1 and 150 pass, 0 and 151 fail. */
  lemma DefaultBoundsInclusive(name: string, message: Message)
    ensures Check(Some(DefaultLengthOption), Str("7"), name, message) == Pass
    ensures Check(Some(DefaultLengthOption), Str(""), name, message) == Fail(name, message)
    ensures Check(Some(DefaultLengthOption), Str(seq(150, _ => '7')), name, message) == Pass
    ensures Check(Some(DefaultLengthOption), Str(seq(151, _ => '7')), name, message) == Fail(name, message)
  {
    assert "7"[0] == '7';
    assert seq(150, _ => '7')[0] == '7';
  }
}
