/** TimeParser: command arguments read as EnhancedTime durations. */
module TimeParser {
  import opened Wrappers
  import opened JavaString
  import opened Time

  /** The placeholder the parser suggests and always accepts. */
  const PLACEHOLDER: string := "XdXhXmXs"

  /** convert: new EnhancedTime(param), which throws when a number does not fit in an int. */
  function Convert(param: string): (r: Result<EnhancedTime>)
    ensures r.Ok? ==> r.value.input == param && Ok(r.value.millis) == ParsedMillis(param)
    ensures r.Err? ==> ParsedMillis(param).Err?
  {
    FromText(param)
  }

  /**
   * canConvert: the placeholder in any case, or a duration of at least one
   * second. The constructor is not guarded, so its exception escapes.
   */
  function CanConvert(param: string): (r: Result<bool>)
    ensures EqualsIgnoreCase(param, PLACEHOLDER) ==> r == Ok(true)
    ensures !EqualsIgnoreCase(param, PLACEHOLDER) ==>
      match ParsedMillis(param)
      case Ok(millis) => r == Ok(millis >= 1000)
      case Err(e) => r == Err(e)
  {
    if EqualsIgnoreCase(param, PLACEHOLDER) then Ok(true)
    else
      match Convert(param)
      case Ok(t) => Ok(t.millis >= 1000)
      case Err(e) => Err(e)
  }

  /** complete: always the placeholder alone. */
  function Complete(arg: string): (r: seq<string>)
    ensures r == [PLACEHOLDER]
  {
    [PLACEHOLDER]
  }

  /** A text without digits never sets a unit, so it parses to zero. */
  lemma {:induction false} NoDigitsRun(st: ScanState, s: string)
    requires st.temp == ""
    requires forall i :: 0 <= i < |s| ==> !IsDigit(s[i])
    ensures Run(st, s) == Ok(st)
    decreases |s|
  {
    if s != [] {
      assert Step(st, s[0]) == Ok(st);
      NoDigitsRun(st, s[1..]);
    }
  }

  /** The placeholder is accepted even though it stands for zero milliseconds. */
  lemma PlaceholderIsZero()
    ensures ParsedMillis(PLACEHOLDER) == Ok(0)
    ensures CanConvert(PLACEHOLDER) == Ok(true)
  {
    assert Run(Start, PLACEHOLDER) == Ok(Start) by {
      assert forall i :: 0 <= i < |PLACEHOLDER| ==> !IsDigit(PLACEHOLDER[i]);
      NoDigitsRun(Start, PLACEHOLDER);
    }
    assert Millis(Start.units) == 0 by { assert JavaInt.Wrap(0) == 0; }
  }

  /** Any other text without digits is rejected, being shorter than a second. */
  lemma NoDigitsRejected(param: string)
    requires forall i :: 0 <= i < |param| ==> !IsDigit(param[i])
    requires !EqualsIgnoreCase(param, PLACEHOLDER)
    ensures CanConvert(param) == Ok(false)
  {
    NoDigitsRun(Start, param);
  }
}
