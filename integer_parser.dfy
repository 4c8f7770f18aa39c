/** IntegerParser: command arguments read with Integer.parseInt. */
module IntegerParser {
  import opened Wrappers
  import opened JavaString
  import opened JavaInt

  /** convert: the parsed value, or the NumberFormatException parseInt throws. */
  function Convert(param: string): (r: Result<int>)
    ensures r.Ok? ==> IsInt(r.value) && |param| > 0
    ensures r.Err? ==> r.error == NumberFormat
  {
    match ParseInt(param)
    case Some(v) => Ok(v)
    case None => Err(NumberFormat)
  }

  /** canConvert: convert does not throw. */
  predicate CanConvert(param: string)
  {
    Convert(param).Ok?
  }

  /** complete: never any suggestions. */
  function Complete(arg: string): (r: seq<string>)
    ensures r == []
  {
    []
  }

  /** Accepted strings are exactly an optional sign and one or more digits whose value fits in an int. */
  lemma AcceptedForm(param: string)
    ensures CanConvert(param) <==>
      (|param| > 0 && AllDigits(param) && IsInt(DigitsValue(param)))
      || (|param| > 1 && (param[0] == '+' || param[0] == '-') && AllDigits(param[1..])
          && IsInt(if param[0] == '-' then -(DigitsValue(param[1..]) as int) else DigitsValue(param[1..])))
  {
    if |param| > 0 && (param[0] == '+' || param[0] == '-') {
      assert !IsDigit(param[0]);
    }
  }

  /** The empty string, a lone sign and a string with a space in it are rejected. */
  lemma Rejected(a: string, b: string)
    ensures !CanConvert("") && !CanConvert("+") && !CanConvert("-")
    ensures !CanConvert(a + " " + b)
  {
    var s := a + " " + b;
    assert s[|a|] == ' ';
    assert !IsDigit(s[|a|]);
    if |s| > 0 && (s[0] == '-' || s[0] == '+') {
      assert s[1..][|a| - 1] == ' ';
    }
  }

  /** Every int survives Integer.toString followed by convert. */
  lemma ConvertToString(n: int)
    requires IsInt(n)
    ensures Convert(IntToString(n)) == Ok(n)
  {
    ParseIntToString(n);
  }

  /** A numeral above Integer.MAX_VALUE is rejected rather than wrapped. */
  lemma Overflow(digits: string)
    requires |digits| > 0 && AllDigits(digits) && DigitsValue(digits) > INT_MAX
    ensures !CanConvert(digits) && !CanConvert("+" + digits)
  {
    assert ("+" + digits)[1..] == digits;
  }
}
