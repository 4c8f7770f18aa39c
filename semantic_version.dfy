/** SemanticVersion: MAJOR.MINOR[.PATCH] version numbers and their ordering. */
module Versions {
  import opened Wrappers
  import opened JavaString
  import opened JavaInt

  datatype SemanticVersion = SemanticVersion(major: int, minor: int, patch: int)

  /**
   * new SemanticVersion(String): split on '.', a missing patch reads as 0, and
   * any other part count or a part that is not an int is an IllegalArgumentException.
   */
  function Parse(version: string): (r: Result<SemanticVersion>)
    ensures var ps := Split(version, '.');
      r.Ok? <==> (|ps| == 2 || |ps| == 3) && forall i :: 0 <= i < |ps| ==> ParseInt(ps[i]).Some?
    ensures var ps := Split(version, '.');
      r.Ok? ==> (ParseInt(ps[0]) == Some(r.value.major) && ParseInt(ps[1]) == Some(r.value.minor)
                 && (if |ps| == 3 then ParseInt(ps[2]) == Some(r.value.patch) else r.value.patch == 0))
    ensures r.Err? ==> r.error == IllegalArgument
  {
    var split := Split(version, '.');
    var parts := if |split| == 2 then split + ["0"] else split;
    assert ParseInt("0") == Some(0);
    if |parts| != 3 then Err(IllegalArgument)
    else
      match (ParseInt(parts[0]), ParseInt(parts[1]), ParseInt(parts[2]))
      case (Some(major), Some(minor), Some(patch)) => Ok(SemanticVersion(major, minor, patch))
      case _ => Err(IllegalArgument)
  }

  /** isNewerThan(SemanticVersion): strict lexicographic order on (major, minor, patch). */
  predicate IsNewerThan(current: SemanticVersion, version: SemanticVersion)
    ensures IsNewerThan(current, version) <==>
      current.major > version.major
      || (current.major == version.major && current.minor > version.minor)
      || (current.major == version.major && current.minor == version.minor && current.patch > version.patch)
  {
    if version.major < current.major then true
    else if version.major > current.major then false
    else if version.minor < current.minor then true
    else if version.minor > current.minor then false
    else version.patch < current.patch
  }

  /** isNewerOrEqual(SemanticVersion): newer, or equal field by field. */
  predicate IsNewerOrEqual(current: SemanticVersion, version: SemanticVersion)
    ensures IsNewerOrEqual(current, version) <==> !IsNewerThan(version, current)
  {
    IsNewerThan(current, version) || current == version
  }

  /** isNewerThan(String): parse, then compare; the parse may throw. */
  function IsNewerThanText(current: SemanticVersion, version: string): (r: Result<bool>)
    ensures r.Ok? <==> Parse(version).Ok?
    ensures r.Ok? ==> r.value == IsNewerThan(current, Parse(version).value)
  {
    match Parse(version)
    case Err(e) => Err(e)
    case Ok(v) => Ok(IsNewerThan(current, v))
  }

  /** isNewerOrEqual(String): parse, then compare; the parse may throw. */
  function IsNewerOrEqualText(current: SemanticVersion, version: string): (r: Result<bool>)
    ensures r.Ok? <==> Parse(version).Ok?
    ensures r.Ok? ==> r.value == IsNewerOrEqual(current, Parse(version).value)
  {
    match Parse(version)
    case Err(e) => Err(e)
    case Ok(v) => Ok(IsNewerOrEqual(current, v))
  }

  /** Exactly one of a > b, b > a and a == b holds; in particular no version is newer than itself. */
  lemma Trichotomy(a: SemanticVersion, b: SemanticVersion)
    ensures !IsNewerThan(a, a)
    ensures IsNewerThan(a, b) || IsNewerThan(b, a) || a == b
    ensures !(IsNewerThan(a, b) && IsNewerThan(b, a))
    ensures a == b ==> !IsNewerThan(a, b)
  {
  }

  lemma Transitive(a: SemanticVersion, b: SemanticVersion, c: SemanticVersion)
    requires IsNewerThan(a, b) && IsNewerThan(b, c)
    ensures IsNewerThan(a, c)
  {
  }

  lemma IntToStringHasNoDot(n: int)
    ensures '.' !in IntToString(n) && IntToString(n) != ""
  {
    var s := NatToString(if n < 0 then -n else n);
    assert forall i :: 0 <= i < |s| ==> s[i] != '.';
    if n < 0 {
      assert forall i :: 0 <= i < |IntToString(n)| ==> IntToString(n)[i] == "-"[0] || IntToString(n)[i] == s[i - 1];
    }
  }

  /** "A.B" with two ints parses as A.B.0. */
  lemma TwoPartsHavePatchZero(a: int, b: int)
    requires IsInt(a) && IsInt(b)
    ensures Parse(IntToString(a) + "." + IntToString(b)) == Ok(SemanticVersion(a, b, 0))
  {
    var ps := [IntToString(a), IntToString(b)];
    IntToStringHasNoDot(a);
    IntToStringHasNoDot(b);
    assert Join(".", ps) == IntToString(a) + "." + IntToString(b);
    SplitJoin(ps, '.');
    ParseIntToString(a);
    ParseIntToString(b);
  }

  /** Writing a version's three numbers joined by '.' and parsing it gives the version back. */
  lemma ThreePartsRoundTrip(v: SemanticVersion)
    requires IsInt(v.major) && IsInt(v.minor) && IsInt(v.patch)
    ensures Parse(IntToString(v.major) + "." + IntToString(v.minor) + "." + IntToString(v.patch)) == Ok(v)
  {
    var ps := [IntToString(v.major), IntToString(v.minor), IntToString(v.patch)];
    IntToStringHasNoDot(v.major);
    IntToStringHasNoDot(v.minor);
    IntToStringHasNoDot(v.patch);
    assert Join(".", ps[1..]) == IntToString(v.minor) + "." + IntToString(v.patch);
    assert Join(".", ps) == IntToString(v.major) + "." + IntToString(v.minor) + "." + IntToString(v.patch);
    SplitJoin(ps, '.');
    ParseIntToString(v.major);
    ParseIntToString(v.minor);
    ParseIntToString(v.patch);
  }
}
