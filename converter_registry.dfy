/** StringConverterRegistry: the converter between text and objects for each class. */
module ConverterRegistry {
  import opened Wrappers
  import opened Classes
  import opened Values
  import Booleans
  import EnumConverter
  import opened JavaString

  /**
   * Which converter an instance is: BooleanStringConverter, an
   * EnumStringConverter over the given constants, or one from outside this
   * model, by class name.
   */
  datatype ConverterKind = BooleanKind | EnumKind(constants: seq<string>) | HostKind(name: string)

  /** A converter and the class its type argument names. */
  datatype StringConverter = StringConverter(kind: ConverterKind, target: JavaClass)

  /** The behaviour of the converters outside this model; the plugin and the sender are folded in. */
  datatype Host = Host(
    canConvert: (StringConverter, string) -> bool,
    fromString: (StringConverter, string) -> Result<Value>,
    complete: (StringConverter, string) -> seq<string>)

  function ConverterCanConvert(c: StringConverter, s: string, host: Host): bool
  {
    match c.kind
    case BooleanKind => Booleans.CanConvert(s)
    case EnumKind(constants) => EnumConverter.CanConvert(constants, s)
    case HostKind(_) => host.canConvert(c, s)
  }

  function ConverterFromString(c: StringConverter, s: string, host: Host): Result<Value>
  {
    match c.kind
    case BooleanKind => Ok(BoolValue(Booleans.FromString(s)))
    case EnumKind(constants) =>
      (match EnumConverter.FromString(constants, s)
       case Ok(name) => Ok(EnumValue(name))
       case Err(e) => Err(e))
    case HostKind(_) => host.fromString(c, s)
  }

  function ConverterComplete(c: StringConverter, s: string, host: Host): seq<string>
  {
    match c.kind
    case BooleanKind => Booleans.Complete(s)
    case EnumKind(constants) => EnumConverter.Complete(constants, s)
    case HostKind(_) => host.complete(c, s)
  }

  const BOOLEAN := Reference("java.lang.Boolean")

  /** The converters the constructor registers, in order. */
  const BUILTIN_CONVERTERS: seq<StringConverter> := [
    StringConverter(BooleanKind, BOOLEAN),
    StringConverter(HostKind("ByteStringConverter"), Reference("java.lang.Byte")),
    StringConverter(HostKind("DoubleStringConverter"), Reference("java.lang.Double")),
    StringConverter(HostKind("FloatStringConverter"), Reference("java.lang.Float")),
    StringConverter(HostKind("IntegerStringConverter"), INTEGER),
    StringConverter(HostKind("LongStringConverter"), Reference("java.lang.Long")),
    StringConverter(HostKind("ShortStringConverter"), Reference("java.lang.Short")),
    StringConverter(HostKind("StringConverter"), Reference("java.lang.String")),
    StringConverter(HostKind("OfflinePlayerStringConverter"), Reference("org.bukkit.OfflinePlayer")),
    StringConverter(HostKind("PlayerStringConverter"), Reference("org.bukkit.entity.Player")),
    StringConverter(HostKind("WorldStringConverter"), Reference("org.bukkit.World"))
  ]

  /** The (class, converter) pairs registerConverters registers: each converter under its own type argument. */
  function Entries(cs: seq<StringConverter>): (r: seq<(JavaClass, StringConverter)>)
    ensures |r| == |cs| && forall i :: 0 <= i < |cs| ==> r[i] == (cs[i].target, cs[i])
  {
    seq(|cs|, i requires 0 <= i < |cs| => (cs[i].target, cs[i]))
  }

  /** The converter the three lookups use: a new EnumStringConverter for an enum class, else the bound one. */
  function Effective(converters: map<JavaClass, StringConverter>, expected: JavaClass): (r: Option<StringConverter>)
    ensures expected.Enum? ==> r == Some(StringConverter(EnumKind(expected.constants), expected))
    ensures !expected.Enum? ==> (r.Some? <==> expected in converters)
    ensures !expected.Enum? && r.Some? ==> r.value == converters[expected]
  {
    if expected.Enum? then Some(StringConverter(EnumKind(expected.constants), expected))
    else if expected in converters then Some(converters[expected])
    else None
  }

  lemma EntriesSplit(cs: seq<StringConverter>, k: nat)
    requires k <= |cs|
    ensures Entries(cs[..k]) + Entries(cs[k..]) == Entries(cs)
  {
  }

  class StringConverterRegistry {
    var converters: map<JavaClass, StringConverter>

    constructor()
      ensures converters == RegisterAll(map[], Entries(BUILTIN_CONVERTERS))
    {
      converters := map[];
      new;
      RegisterConverters(BUILTIN_CONVERTERS[..8]);
      RegisterConverters(BUILTIN_CONVERTERS[8..]);
      RegisterAllAppend(map[], Entries(BUILTIN_CONVERTERS[..8]), Entries(BUILTIN_CONVERTERS[8..]));
      EntriesSplit(BUILTIN_CONVERTERS, 8);
    }

    /** registerConverter. */
    method RegisterConverter(c: JavaClass, converter: StringConverter)
      modifies this
      ensures converters == WithAlias(old(converters), c, converter)
    {
      converters := converters[c := converter];
      if !c.Primitive? {
        var primitive := GetPrimitive(c);
        if primitive.Some? {
          converters := converters[primitive.value := converter];
        }
      }
    }

    /** registerConverters(converters...). */
    method RegisterConverters(cs: seq<StringConverter>)
      modifies this
      ensures converters == RegisterAll(old(converters), Entries(cs))
    {
      var i := 0;
      while i < |cs|
        invariant 0 <= i <= |cs|
        invariant RegisterAll(converters, Entries(cs)[i..]) == RegisterAll(old(converters), Entries(cs))
      {
        assert Entries(cs)[i..][0] == (cs[i].target, cs[i]) && Entries(cs)[i..][1..] == Entries(cs)[i + 1..];
        RegisterConverter(cs[i].target, cs[i]);
        i := i + 1;
      }
    }

    /** getConverter: the bound converter, or None (null); enum classes get nothing here. */
    function GetConverter(c: JavaClass): (r: Option<StringConverter>)
      reads this
      ensures r.Some? <==> c in converters
      ensures r.Some? ==> r.value == converters[c]
    {
      if c in converters then Some(converters[c]) else None
    }

    /** canConvert: some converter applies (bound, or the enum one) and it accepts the text. */
    predicate CanConvert(s: string, expected: JavaClass, host: Host)
      reads this
    {
      var converter := Effective(converters, expected);
      converter.Some? && ConverterCanConvert(converter.value, s, host)
    }

    /** convert: IllegalArgumentException unless canConvert holds; then fromString. */
    function Convert(s: string, expected: JavaClass, host: Host): (r: Result<Value>)
      reads this
      ensures !CanConvert(s, expected, host) ==> r == Err(IllegalArgument)
      ensures CanConvert(s, expected, host) ==> r == ConverterFromString(Effective(converters, expected).value, s, host)
    {
      var converter := Effective(converters, expected);
      if converter.None? || !ConverterCanConvert(converter.value, s, host) then Err(IllegalArgument)
      else ConverterFromString(converter.value, s, host)
    }

    /** complete: IllegalArgumentException when no converter applies. */
    function Complete(s: string, expected: JavaClass, host: Host): (r: Result<seq<string>>)
      reads this
      ensures r.Err? <==> !expected.Enum? && expected !in converters
      ensures r.Err? ==> r.error == IllegalArgument
      ensures r.Ok? && !expected.Enum? ==> r.value == ConverterComplete(converters[expected], s, host)
      ensures r.Ok? ==> r.value == ConverterComplete(Effective(converters, expected).value, s, host)
    {
      match Effective(converters, expected)
      case None => Err(IllegalArgument)
      case Some(converter) => Ok(ConverterComplete(converter, s, host))
    }
  }

  /** For an enum class, canConvert means the upper-cased text names a constant, and convert returns that constant. */
  lemma EnumConversion(converters: map<JavaClass, StringConverter>, s: string, expected: JavaClass, host: Host)
    requires expected.Enum?
    ensures var c := Effective(converters, expected).value;
      ConverterCanConvert(c, s, host) <==> UpperCase(s) in expected.constants
    ensures UpperCase(s) in expected.constants ==>
      ConverterFromString(Effective(converters, expected).value, s, host) == Ok(EnumValue(UpperCase(s)))
  {
  }

  /** A fresh registry converts both Boolean and boolean with BooleanStringConverter. */
  lemma FreshBooleanConverter()
    ensures var m := RegisterAll(map[], Entries(BUILTIN_CONVERTERS));
      BOOLEAN in m && m[BOOLEAN].kind == BooleanKind
      && Primitive("boolean") in m && m[Primitive("boolean")].kind == BooleanKind
  {
    var es := Entries(BUILTIN_CONVERTERS);
    var m1 := WithAlias(map[], BOOLEAN, BUILTIN_CONVERTERS[0]);
    BooleanIsBoxedBoolean();
    assert m1[BOOLEAN] == BUILTIN_CONVERTERS[0] && m1[Primitive("boolean")] == BUILTIN_CONVERTERS[0];
    assert es[0] == (BOOLEAN, BUILTIN_CONVERTERS[0]);
    assert RegisterAll(map[], es) == RegisterAll(m1, es[1..]);
    LaterEntriesMissBoolean(es[1..]);
    RegisterAllKeeps(m1, es[1..], BOOLEAN);
    RegisterAllKeeps(m1, es[1..], Primitive("boolean"));
  }

  lemma BooleanIsBoxedBoolean()
    ensures GetPrimitive(BOOLEAN) == Some(Primitive("boolean"))
  {
    assert WRAPPERS[0] == ("java.lang.Boolean", "boolean");
  }

  lemma LaterEntriesMissBoolean(later: seq<(JavaClass, StringConverter)>)
    requires later == Entries(BUILTIN_CONVERTERS)[1..]
    ensures forall j :: 0 <= j < |later| ==>
      (later[j].0 != BOOLEAN && later[j].0 != Primitive("boolean")
       && GetPrimitive(later[j].0) != Some(BOOLEAN) && GetPrimitive(later[j].0) != Some(Primitive("boolean")))
  {
    var cs := BUILTIN_CONVERTERS[1..];
    LaterConvertersMissBoolean(cs);
    assert forall j :: 0 <= j < |later| ==> later[j].0 == cs[j].target;
  }

  lemma LaterConvertersMissBoolean(cs: seq<StringConverter>)
    requires cs == BUILTIN_CONVERTERS[1..]
    ensures forall j :: 0 <= j < |cs| ==>
      (cs[j].target != BOOLEAN && cs[j].target.Reference? && GetPrimitive(cs[j].target) != Some(Primitive("boolean")))
  {
    assert |cs| == 10;
    forall j | 0 <= j < |cs|
      ensures cs[j].target != BOOLEAN && cs[j].target.Reference?
    {
      assert cs[j].target.name != BOOLEAN.name by {
        assert |cs[j].target.name| != |BOOLEAN.name| || cs[j].target.name[10] != BOOLEAN.name[10];
      }
    }
    forall j | 0 <= j < |cs|
      ensures GetPrimitive(cs[j].target) != Some(Primitive("boolean"))
    {
      OnlyBooleanBoxesBoolean(cs[j].target);
    }
  }

  lemma OnlyBooleanBoxesBoolean(c: JavaClass)
    ensures GetPrimitive(c) == Some(Primitive("boolean")) ==> c == BOOLEAN
  {
    if GetPrimitive(c) == Some(Primitive("boolean")) {
      var i :| 0 <= i < |WRAPPERS| && WRAPPERS[i] == (c.name, "boolean");
      assert i == 0 by {
        assert WRAPPERS[1].1 != "boolean" && WRAPPERS[2].1 != "boolean" && WRAPPERS[3].1 != "boolean";
        assert WRAPPERS[4].1 != "boolean" && WRAPPERS[5].1 != "boolean" && WRAPPERS[6].1 != "boolean";
        assert WRAPPERS[7].1 != "boolean";
      }
    }
  }
}
