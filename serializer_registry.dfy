/** ConfigSerializerRegistry: which serializer EnhancedConfig uses for a class. */
module Serializers {
  import opened Wrappers
  import opened Classes

  /** A serializer instance, known by its class name. */
  datatype Serializer = Serializer(name: string)

  const WORLD_SERIALIZER := Serializer("WorldSerializer")
  const LOCATION_SERIALIZER := Serializer("LocationSerializer")
  const ITEM_STACK_SERIALIZER := Serializer("ItemStackSerializer")
  const TIME_SERIALIZER := Serializer("EnhancedTimeSerializer")
  const BIG_DECIMAL_SERIALIZER := Serializer("BigDecimalSerializer")
  /** CustomSerializers.ENUM, the fallback for enum classes. */
  const ENUM_SERIALIZER := Serializer("EnumSerializer")

  const WORLD := Reference("org.bukkit.World")
  const LOCATION := Reference("org.bukkit.Location")
  const ITEM_STACK := Reference("org.bukkit.inventory.ItemStack")
  const ENHANCED_TIME := Reference("dev.projectenhanced.enhancedspigot.util.time.EnhancedTime")
  const BIG_DECIMAL := Reference("java.math.BigDecimal")

  /** The bindings a fresh registry holds. */
  function Defaults(): (m: map<JavaClass, Serializer>)
    ensures m.Keys == {WORLD, LOCATION, ITEM_STACK, ENHANCED_TIME, BIG_DECIMAL}
    ensures forall c :: c in m ==> c.Reference? && m[c] != ENUM_SERIALIZER
  {
    map[WORLD := WORLD_SERIALIZER, LOCATION := LOCATION_SERIALIZER, ITEM_STACK := ITEM_STACK_SERIALIZER,
        ENHANCED_TIME := TIME_SERIALIZER, BIG_DECIMAL := BIG_DECIMAL_SERIALIZER]
  }

  /** getSerializer over a map of bindings: the exact binding, else ENUM for an enum class, else None. */
  function SerializerFor(serializers: map<JavaClass, Serializer>, c: JavaClass): (r: Option<Serializer>)
    ensures c in serializers ==> r == Some(serializers[c])
    ensures c !in serializers ==> (r.Some? <==> c.Enum?)
    ensures c !in serializers && r.Some? ==> r.value == ENUM_SERIALIZER
  {
    if c in serializers then Some(serializers[c])
    else if c.Enum? then Some(ENUM_SERIALIZER)
    else None
  }

  /** Registering a serializer under one class is a single map update. */
  lemma SingleUpdate(m: map<JavaClass, Serializer>, c: JavaClass, s: Serializer)
    ensures m + (map k | k in [c] :: s) == m[c := s]
  {
  }

  class ConfigSerializerRegistry {
    var serializers: map<JavaClass, Serializer>

    constructor()
      ensures serializers == Defaults()
    {
      serializers := map[];
      new;
      RegisterSerializer(WORLD_SERIALIZER, [WORLD]);
      SingleUpdate(map[], WORLD, WORLD_SERIALIZER);
      RegisterSerializer(LOCATION_SERIALIZER, [LOCATION]);
      SingleUpdate(map[WORLD := WORLD_SERIALIZER], LOCATION, LOCATION_SERIALIZER);
      RegisterSerializer(ITEM_STACK_SERIALIZER, [ITEM_STACK]);
      SingleUpdate(map[WORLD := WORLD_SERIALIZER, LOCATION := LOCATION_SERIALIZER], ITEM_STACK, ITEM_STACK_SERIALIZER);
      RegisterSerializer(TIME_SERIALIZER, [ENHANCED_TIME]);
      SingleUpdate(map[WORLD := WORLD_SERIALIZER, LOCATION := LOCATION_SERIALIZER, ITEM_STACK := ITEM_STACK_SERIALIZER],
                   ENHANCED_TIME, TIME_SERIALIZER);
      RegisterSerializer(BIG_DECIMAL_SERIALIZER, [BIG_DECIMAL]);
      SingleUpdate(map[WORLD := WORLD_SERIALIZER, LOCATION := LOCATION_SERIALIZER, ITEM_STACK := ITEM_STACK_SERIALIZER,
                       ENHANCED_TIME := TIME_SERIALIZER], BIG_DECIMAL, BIG_DECIMAL_SERIALIZER);
    }

    /** registerSerializer: binds the serializer under every listed class, in order. */
    method RegisterSerializer(serializer: Serializer, classes: seq<JavaClass>)
      modifies this
      ensures serializers == old(serializers) + map c | c in classes :: serializer
      ensures forall c :: c in classes ==> c in serializers && serializers[c] == serializer
      ensures forall c :: c !in classes ==> (c in serializers <==> c in old(serializers))
      ensures forall c :: c !in classes && c in old(serializers) ==> serializers[c] == old(serializers)[c]
    {
      var i := 0;
      while i < |classes|
        invariant 0 <= i <= |classes|
        invariant serializers == old(serializers) + map c | c in classes[..i] :: serializer
      {
        assert classes[..i + 1] == classes[..i] + [classes[i]];
        serializers := serializers[classes[i] := serializer];
        i := i + 1;
      }
      assert classes[..i] == classes;
    }

    /** getSerializer, on the current bindings. */
    function GetSerializer(c: JavaClass): Option<Serializer>
      reads this
    {
      SerializerFor(serializers, c)
    }
  }

  /** In a fresh registry every enum class gets ENUM and an unlisted ordinary class gets nothing. */
  lemma FreshLookups(name: string, constants: seq<string>, other: JavaClass)
    requires other.Reference? && other !in {WORLD, LOCATION, ITEM_STACK, ENHANCED_TIME, BIG_DECIMAL}
    ensures SerializerFor(Defaults(), Enum(name, constants)) == Some(ENUM_SERIALIZER)
    ensures SerializerFor(Defaults(), other) == None
    ensures SerializerFor(Defaults(), ENHANCED_TIME) == Some(TIME_SERIALIZER)
  {
  }

  /** An exact binding wins over the enum fallback, even for an enum class. */
  lemma ExactBindingBeatsEnum(serializers: map<JavaClass, Serializer>, c: JavaClass, s: Serializer)
    requires c.Enum?
    ensures SerializerFor(serializers[c := s], c) == Some(s)
  {
  }
}
