/** EnumStringConverter: enum constants read and written by name. */
module EnumConverter {
  import opened Wrappers
  import opened JavaString
  import opened Collections

  /** At most this many completions are offered. */
  const COMPLETE_LIMIT: nat := 30

  /** asString: Enum.name(). */
  function AsString(constant: string): string
  {
    constant
  }

  /** fromString: Enum.valueOf on the upper-cased text, which throws IllegalArgumentException for no such constant. */
  function FromString(constants: seq<string>, s: string): (r: Result<string>)
    ensures r.Ok? <==> UpperCase(s) in constants
    ensures r.Ok? ==> r.value == UpperCase(s)
    ensures r.Err? ==> r.error == IllegalArgument
  {
    var name := UpperCase(s);
    if name in constants then Ok(name) else Err(IllegalArgument)
  }

  /** canConvert: fromString does not throw. */
  predicate CanConvert(constants: seq<string>, s: string)
  {
    FromString(constants, s).Ok?
  }

  /** complete: the names that start with the upper-cased argument, in declaration order, at most 30. */
  function Complete(constants: seq<string>, arg: string): (r: seq<string>)
    ensures |r| <= COMPLETE_LIMIT
    ensures var matches := Filter(constants, (c: string) => StartsWith(c, UpperCase(arg)));
      |r| == if |matches| < COMPLETE_LIMIT then |matches| else COMPLETE_LIMIT
    ensures forall i :: 0 <= i < |r| ==> r[i] in constants && StartsWith(r[i], UpperCase(arg))
    ensures r <= Filter(constants, (c: string) => StartsWith(c, UpperCase(arg)))
  {
    Take(Filter(constants, (c: string) => StartsWith(c, UpperCase(arg))), COMPLETE_LIMIT)
  }

  /** canConvert holds exactly when the upper-cased text names a constant. */
  lemma CanConvertIff(constants: seq<string>, s: string)
    ensures CanConvert(constants, s) <==> exists i :: 0 <= i < |constants| && constants[i] == UpperCase(s)
  {
  }

  /** A constant with an upper-case name survives asString followed by fromString. */
  lemma RoundTrip(constants: seq<string>, i: nat)
    requires i < |constants|
    requires forall k :: 0 <= k < |constants[i]| ==> !IsLower(constants[i][k])
    ensures FromString(constants, AsString(constants[i])) == Ok(constants[i])
  {
    UpperCaseOfUpper(constants[i]);
  }

  /** Lower-case input names the same constant as its upper-case form. */
  lemma CaseInsensitive(constants: seq<string>, s: string)
    ensures FromString(constants, s) == FromString(constants, UpperCase(s))
  {
    UpperCaseIdempotent(s);
  }

  /** With fewer than 30 matching names, all of them are offered. */
  lemma CompleteAllWhenFew(constants: seq<string>, arg: string, i: nat)
    requires i < |constants| && StartsWith(constants[i], UpperCase(arg))
    requires |Filter(constants, (c: string) => StartsWith(c, UpperCase(arg)))| <= COMPLETE_LIMIT
    ensures constants[i] in Complete(constants, arg)
  {
  }
}
