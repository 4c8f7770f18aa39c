/** CommandArgumentRegistry: the parser the command framework uses for each argument type. */
module ArgumentRegistry {
  import opened Wrappers
  import opened Classes
  import opened Values
  import Booleans
  import IntegerParser
  import TimeParser

  /** Which parser an instance is: the three modelled ones, or one from outside this model, by class name. */
  datatype ParserKind = BooleanKind | IntegerKind | TimeKind | HostKind(name: string)

  /** A parser and the class its type argument names (read by reflection in registerParsers). */
  datatype ArgumentParser = ArgumentParser(kind: ParserKind, target: JavaClass)

  /**
   * The behaviour of the parsers outside this model, and of the EnumParser
   * built for enum types (EnumParser is not part of this model); the sender
   * and the plugin are folded into these functions.
   */
  datatype Host = Host(
    canConvert: (ArgumentParser, string) -> bool,
    convert: (ArgumentParser, string) -> Result<Value>,
    complete: (ArgumentParser, string) -> seq<string>,
    enumCanConvert: (JavaClass, string) -> bool,
    enumConvert: (JavaClass, string) -> Result<Value>,
    enumComplete: (JavaClass, string) -> seq<string>)

  function ParserCanConvert(p: ArgumentParser, s: string, host: Host): Result<bool>
  {
    match p.kind
    case BooleanKind => Ok(Booleans.CanConvert(s))
    case IntegerKind => Ok(IntegerParser.CanConvert(s))
    case TimeKind => TimeParser.CanConvert(s)
    case HostKind(_) => Ok(host.canConvert(p, s))
  }

  function ParserConvert(p: ArgumentParser, s: string, host: Host): Result<Value>
  {
    match p.kind
    case BooleanKind => Ok(BoolValue(Booleans.FromString(s)))
    case IntegerKind =>
      (match IntegerParser.Convert(s)
       case Ok(v) => Ok(IntValue(v))
       case Err(e) => Err(e))
    case TimeKind =>
      (match TimeParser.Convert(s)
       case Ok(t) => Ok(TimeValue(t))
       case Err(e) => Err(e))
    case HostKind(_) => host.convert(p, s)
  }

  function ParserComplete(p: ArgumentParser, s: string, host: Host): seq<string>
  {
    match p.kind
    case BooleanKind => Booleans.Complete(s)
    case IntegerKind => IntegerParser.Complete(s)
    case TimeKind => TimeParser.Complete(s)
    case HostKind(_) => host.complete(p, s)
  }

  const BOOLEAN := Reference("java.lang.Boolean")
  const ENHANCED_TIME := Reference("dev.projectenhanced.enhancedspigot.util.time.EnhancedTime")

  /** The parsers the constructor registers, in order. */
  const BUILTIN_PARSERS: seq<ArgumentParser> := [
    ArgumentParser(BooleanKind, BOOLEAN),
    ArgumentParser(HostKind("ByteParser"), Reference("java.lang.Byte")),
    ArgumentParser(HostKind("DoubleParser"), Reference("java.lang.Double")),
    ArgumentParser(HostKind("FloatParser"), Reference("java.lang.Float")),
    ArgumentParser(IntegerKind, INTEGER),
    ArgumentParser(HostKind("LongParser"), Reference("java.lang.Long")),
    ArgumentParser(HostKind("ShortParser"), Reference("java.lang.Short")),
    ArgumentParser(HostKind("StringParser"), Reference("java.lang.String")),
    ArgumentParser(HostKind("OfflinePlayerParser"), Reference("org.bukkit.OfflinePlayer")),
    ArgumentParser(HostKind("PlayerParser"), Reference("org.bukkit.entity.Player")),
    ArgumentParser(HostKind("WorldParser"), Reference("org.bukkit.World")),
    ArgumentParser(TimeKind, ENHANCED_TIME)
  ]

  /** The (class, parser) pairs registerParsers registers: each parser under its own type argument. */
  function Entries(ps: seq<ArgumentParser>): (r: seq<(JavaClass, ArgumentParser)>)
    ensures |r| == |ps| && forall i :: 0 <= i < |ps| ==> r[i] == (ps[i].target, ps[i])
  {
    seq(|ps|, i requires 0 <= i < |ps| => (ps[i].target, ps[i]))
  }

  /** Registering a prefix and then the rest registers the entries of the whole list. */
  lemma EntriesSplit(ps: seq<ArgumentParser>, k: nat)
    requires k <= |ps|
    ensures Entries(ps[..k]) + Entries(ps[k..]) == Entries(ps)
  {
  }

  class CommandArgumentRegistry {
    var parsers: map<JavaClass, ArgumentParser>

    constructor()
      ensures parsers == RegisterAll(map[], Entries(BUILTIN_PARSERS))
    {
      parsers := map[];
      new;
      var head, tail := BUILTIN_PARSERS[..8], BUILTIN_PARSERS[8..];
      EntriesSplit(BUILTIN_PARSERS, 8);
      RegisterParsers(head);
      RegisterParsers(tail);
      RegisterAllAppend(map[], Entries(head), Entries(tail));
    }

    /** registerParser. */
    method RegisterParser(c: JavaClass, parser: ArgumentParser)
      modifies this
      ensures parsers == WithAlias(old(parsers), c, parser)
    {
      parsers := parsers[c := parser];
      if !c.Primitive? {
        var primitive := GetPrimitive(c);
        if primitive.Some? {
          parsers := parsers[primitive.value := parser];
        }
      }
    }

    /** registerParsers(parsers...). */
    method RegisterParsers(ps: seq<ArgumentParser>)
      modifies this
      ensures parsers == RegisterAll(old(parsers), Entries(ps))
    {
      var i := 0;
      while i < |ps|
        invariant 0 <= i <= |ps|
        invariant RegisterAll(parsers, Entries(ps)[i..]) == RegisterAll(old(parsers), Entries(ps))
      {
        assert Entries(ps)[i..][0] == (ps[i].target, ps[i]) && Entries(ps)[i..][1..] == Entries(ps)[i + 1..];
        RegisterParser(ps[i].target, ps[i]);
        i := i + 1;
      }
    }

    /** unregisterParser: removes that key alone. */
    method UnregisterParser(c: JavaClass)
      modifies this
      ensures parsers == old(parsers) - {c}
    {
      parsers := parsers - {c};
    }

    /** getParser: the bound parser, or None (null). */
    function GetParser(c: JavaClass): (r: Option<ArgumentParser>)
      reads this
      ensures r.Some? <==> c in parsers
      ensures r.Some? ==> r.value == parsers[c]
    {
      if c in parsers then Some(parsers[c]) else None
    }

    /** canConvert: enum types go to a fresh EnumParser; otherwise false without a parser. */
    function CanConvert(s: string, expected: JavaClass, host: Host): (r: Result<bool>)
      reads this
      ensures !expected.Enum? && expected !in parsers ==> r == Ok(false)
      ensures r.Err? ==> !expected.Enum? && expected in parsers && parsers[expected].kind == TimeKind
      ensures expected.Enum? ==> r == Ok(host.enumCanConvert(expected, s))
      ensures !expected.Enum? && expected in parsers ==> r == ParserCanConvert(parsers[expected], s, host)
    {
      if expected.Enum? then Ok(host.enumCanConvert(expected, s))
      else
        match GetParser(expected)
        case None => Ok(false)
        case Some(p) => ParserCanConvert(p, s, host)
    }

    /** convert: IllegalArgumentException for a non-enum type it cannot convert. */
    function Convert(s: string, expected: JavaClass, host: Host): (r: Result<Value>)
      reads this
      ensures !expected.Enum? && (expected !in parsers || CanConvert(s, expected, host) == Ok(false)) ==>
        r == Err(IllegalArgument)
      ensures !expected.Enum? && r.Ok? ==> CanConvert(s, expected, host) == Ok(true)
      ensures expected.Enum? ==> r == host.enumConvert(expected, s)
      ensures !expected.Enum? && expected in parsers && CanConvert(s, expected, host) == Ok(true) ==>
        r == ParserConvert(parsers[expected], s, host)
      ensures !expected.Enum? && CanConvert(s, expected, host).Err? ==> r == Err(CanConvert(s, expected, host).error)
    {
      if expected.Enum? then host.enumConvert(expected, s)
      else
        match CanConvert(s, expected, host)
        case Err(e) => Err(e)
        case Ok(ok) =>
          if !ok || GetParser(expected).None? then Err(IllegalArgument)
          else ParserConvert(GetParser(expected).value, s, host)
    }

    /** complete: IllegalArgumentException for a non-enum type without a parser. */
    function Complete(s: string, expected: JavaClass, host: Host): (r: Result<seq<string>>)
      reads this
      ensures r.Err? <==> !expected.Enum? && expected !in parsers
      ensures r.Err? ==> r.error == IllegalArgument
      ensures r.Ok? && !expected.Enum? ==> r.value == ParserComplete(parsers[expected], s, host)
    {
      if expected.Enum? then Ok(host.enumComplete(expected, s))
      else
        match GetParser(expected)
        case None => Err(IllegalArgument)
        case Some(p) => Ok(ParserComplete(p, s, host))
    }
  }

  /** A fresh registry parses Integer and int with IntegerParser. */
  lemma FreshIntegerParser()
    ensures var m := RegisterAll(map[], Entries(BUILTIN_PARSERS));
      INTEGER in m && m[INTEGER].kind == IntegerKind
      && Primitive("int") in m && m[Primitive("int")].kind == IntegerKind
  {
    var es := Entries(BUILTIN_PARSERS);
    var p := BUILTIN_PARSERS[4];
    assert es[4] == (INTEGER, p) && p.kind == IntegerKind;
    RegisterAllAt(map[], es, 4);
    var m5 := WithAlias(RegisterAll(map[], es[..4]), INTEGER, p);
    IntegerIsBoxedInt();
    assert m5[INTEGER] == p && m5[Primitive("int")] == p;
    LaterEntriesMissInteger(es[5..]);
    RegisterAllKeeps(m5, es[5..], INTEGER);
    RegisterAllKeeps(m5, es[5..], Primitive("int"));
  }

  lemma LaterEntriesMissInteger(later: seq<(JavaClass, ArgumentParser)>)
    requires later == Entries(BUILTIN_PARSERS)[5..]
    ensures forall j :: 0 <= j < |later| ==>
      (later[j].0 != INTEGER && later[j].0 != Primitive("int")
       && GetPrimitive(later[j].0) != Some(INTEGER) && GetPrimitive(later[j].0) != Some(Primitive("int")))
  {
    var ps := BUILTIN_PARSERS[5..];
    LaterParsersMissInteger(ps);
    assert forall j :: 0 <= j < |later| ==> later[j].0 == ps[j].target;
  }

  lemma LaterParsersMissInteger(ps: seq<ArgumentParser>)
    requires ps == BUILTIN_PARSERS[5..]
    ensures forall j :: 0 <= j < |ps| ==>
      (ps[j].target != INTEGER && ps[j].target.Reference? && GetPrimitive(ps[j].target) != Some(Primitive("int")))
  {
    assert |ps| == 7;
    forall j | 0 <= j < |ps|
      ensures ps[j].target != INTEGER && ps[j].target.Reference?
    {
      assert |ps[j].target.name| != |INTEGER.name|;
    }
    forall j | 0 <= j < |ps|
      ensures GetPrimitive(ps[j].target) != Some(Primitive("int"))
    {
      OnlyIntegerBoxesInt(ps[j].target);
    }
  }
}
