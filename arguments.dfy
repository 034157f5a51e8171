/** Validation of the two command-line values: the ZIP code (`zip_code_type`,
    stores.py:210-213) and the search radius (the `--radius` option, stores.py:230-236). */
module Arguments {
  import opened Wrappers
  import Text

  const ZipCodeError := "ZIP code must be exactly 5 digits"

  /** The radii the store finder accepts, in miles. */
  const RadiusChoices: seq<int> := [15, 30, 50, 100, 300]

  const DefaultRadius := 15

  /** The argument type of `--zip`: the value itself when it is five digits, and an
      error otherwise. */
  function ZipCodeType(value: string): (r: Result<string, string>)
    ensures r.Success? <==> |value| == 5 && forall i :: 0 <= i < |value| ==> Text.IsDigit(value[i])
    ensures r.Success? ==> r.value == value
    ensures r.Failure? ==> r.error == ZipCodeError
  {
    if !Text.AllDigits(value) || |value| != 5 then Failure(ZipCodeError)
    else Success(value)
  }

  /** `--radius`: absent gives the default; a given value must be one of the choices.
      (The value arrives already converted by `type=int`.) */
  function RadiusArgument(given: Option<int>): (r: Result<int, string>)
    ensures given.None? ==> r == Success(DefaultRadius)
    ensures given.Some? ==> (r.Success? <==> given.value in RadiusChoices)
    ensures r.Success? ==> r.value in RadiusChoices
    ensures r.Success? && given.Some? ==> r.value == given.value
  {
    match given
    case None => Success(DefaultRadius)
    case Some(radius) =>
      if radius in RadiusChoices then Success(radius)
      else Failure("invalid choice")
  }
}
