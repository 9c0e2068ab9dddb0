/** The form submission handler (app.py:64-90) reduced to a pure function:
    which of the page's two slots is filled, and with what. Reading the form,
    rendering the template and the GET case are left out. */
module FormHandler {
  import opened Wrappers
  import opened Numerals
  import opened Encode
  import opened Decode
  import opened Inverse

  /** A successful conversion as shown on the page. */
  datatype Shown = Numeral(text: string) | Number(value: nat)

  /** The page's result and error slots. */
  datatype Page = Page(result: Option<Shown>, error: Option<Error>)

  /** Handles a submitted form. `input` is the text field after whitespace
      stripping, `convertType` the direction selector, and `parsed` the outcome
      of the platform's integer parsing of `input` (None when it rejects the
      text). Exactly one slot is filled. A valid integer is shown as its
      numeral, which decodes back to it; a valid numeral is shown as its value,
      which re-encodes to the upper-cased input. */
  function Submit(input: string, convertType: string, parsed: Option<int>): (p: Page)
    ensures p.result.None? <==> p.error.Some?
    ensures p.error == Some(EmptyInput) <==> input == ""
    ensures p.error == Some(InvalidConversionType) <==>
      input != "" && convertType != "to_roman" && convertType != "to_int"
    ensures p.error == Some(NotAnInteger) <==> input != "" && convertType == "to_roman" && parsed.None?
    ensures p.error == Some(OutOfRange) <==>
      input != "" && convertType == "to_roman" && parsed.Some? && !(1 <= parsed.value <= 3999)
    ensures p.result.Some? && p.result.value.Numeral? ==>
      convertType == "to_roman" && parsed.Some? && RomanToInt(p.result.value.text) == Success(parsed.value)
    ensures p.result.Some? && p.result.value.Number? ==>
      convertType == "to_int" && IntToRoman(p.result.value.value) == Success(Upper(input))
    ensures input != "" && convertType == "to_roman" && parsed.Some? && 1 <= parsed.value <= 3999 ==>
      p.error.None? && p.result == Some(Numeral(IntToRoman(parsed.value).value))
    ensures input != "" && convertType == "to_int" ==>
      (p.result.Some? <==> RomanToInt(input).Success?) &&
      (p.result.Some? ==> p.result == Some(Number(RomanToInt(input).value))) &&
      (p.error.Some? ==> p.error == Some(MalformedNumeral))
  {
    if input == "" then Page(None, Some(EmptyInput))
    else if convertType == "to_roman" then
      match parsed
      case None => Page(None, Some(NotAnInteger))
      case Some(n) =>
        match IntToRoman(n)
        case Success(text) => RoundTrip(n); Page(Some(Numeral(text)), None)
        case Failure(e) => Page(None, Some(e))
    else if convertType == "to_int" then
      match RomanToInt(input)
      case Success(v) => Page(Some(Number(v)), None)
      case Failure(e) => Page(None, Some(e))
    else Page(None, Some(InvalidConversionType))
  }
}
