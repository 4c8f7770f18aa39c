/**
 * Java classes reduced to what the registries inspect: a name, whether the
 * class is primitive, and, for an enum, its constant names.
 */
module Classes {
  import opened Wrappers

  datatype JavaClass =
    | Reference(name: string)
    | Primitive(name: string)
    | Enum(name: string, constants: seq<string>)

  /** The wrapper classes and their primitive types, as both registries' `getPrimitive` lists them. */
  const WRAPPERS: seq<(string, string)> := [
    ("java.lang.Boolean", "boolean"), ("java.lang.Character", "char"),
    ("java.lang.Byte", "byte"), ("java.lang.Short", "short"),
    ("java.lang.Integer", "int"), ("java.lang.Long", "long"),
    ("java.lang.Float", "float"), ("java.lang.Double", "double")
  ]

  predicate IsWrapperName(name: string)
  {
    exists i :: 0 <= i < |WRAPPERS| && WRAPPERS[i].0 == name
  }

  /** The second component of the first pair whose first component is `key`. */
  function Lookup(table: seq<(string, string)>, key: string): (r: Option<string>)
    ensures r.Some? <==> exists i :: 0 <= i < |table| && table[i].0 == key
    ensures r.Some? ==> exists i :: 0 <= i < |table| && table[i] == (key, r.value)
  {
    if table == [] then None
    else if table[0].0 == key then Some(table[0].1)
    else
      var r := Lookup(table[1..], key);
      assert forall i :: 1 <= i < |table| ==> table[i] == table[1..][i - 1];
      r
  }

  /**
   * getPrimitive: the primitive type of a wrapper class. The wrapper classes
   * are final, so "assignable from" amounts to being that class.
   */
  function GetPrimitive(c: JavaClass): (r: Option<JavaClass>)
    ensures r.Some? <==> c.Reference? && IsWrapperName(c.name)
    ensures r.Some? ==> r.value.Primitive? && exists i :: 0 <= i < |WRAPPERS| && WRAPPERS[i] == (c.name, r.value.name)
  {
    if c.Reference? then
      match Lookup(WRAPPERS, c.name)
      case Some(p) => Some(Primitive(p))
      case None => None
    else None
  }

  /**
   * The bindings after registerParser or registerConverter: the class itself,
   * and, for a class that is not primitive but has a primitive counterpart,
   * that primitive as well, bound to the same object.
   */
  function WithAlias<P>(m: map<JavaClass, P>, c: JavaClass, p: P): (r: map<JavaClass, P>)
    ensures c in r && r[c] == p
    ensures GetPrimitive(c).Some? ==> GetPrimitive(c).value in r && r[GetPrimitive(c).value] == p
    ensures forall k :: k in r <==> k in m || k == c || GetPrimitive(c) == Some(k)
    ensures forall k :: k in m && k != c && GetPrimitive(c) != Some(k) ==> r[k] == m[k]
  {
    var bound := m[c := p];
    if !c.Primitive? then
      match GetPrimitive(c)
      case Some(primitive) => bound[primitive := p]
      case None => bound
    else bound
  }

  const INTEGER := Reference("java.lang.Integer")

  /** The wrapper class Integer maps to the primitive `int`. */
  lemma IntegerIsBoxedInt()
    ensures GetPrimitive(INTEGER) == Some(Primitive("int"))
  {
    assert WRAPPERS[0].0 != "java.lang.Integer";
    assert WRAPPERS[1].0 != "java.lang.Integer";
    assert WRAPPERS[2].0 != "java.lang.Integer";
    assert WRAPPERS[3].0 != "java.lang.Integer";
    assert WRAPPERS[4] == ("java.lang.Integer", "int");
  }

  /** Integer is the only class whose primitive counterpart is `int`. */
  lemma OnlyIntegerBoxesInt(c: JavaClass)
    ensures GetPrimitive(c) == Some(Primitive("int")) ==> c == INTEGER
  {
    if GetPrimitive(c) == Some(Primitive("int")) {
      var i :| 0 <= i < |WRAPPERS| && WRAPPERS[i] == (c.name, "int");
      // every other primitive name has a length other than 3
      assert |WRAPPERS[i].1| == 3;
      assert i == 4;
    }
  }

  /** Registering each (class, object) entry in turn, with WithAlias. */
  function RegisterAll<P>(m: map<JavaClass, P>, entries: seq<(JavaClass, P)>): map<JavaClass, P>
    decreases |entries|
  {
    if entries == [] then m else RegisterAll(WithAlias(m, entries[0].0, entries[0].1), entries[1..])
  }

  lemma {:induction false} RegisterAllAppend<P>(m: map<JavaClass, P>, a: seq<(JavaClass, P)>, b: seq<(JavaClass, P)>)
    ensures RegisterAll(m, a + b) == RegisterAll(RegisterAll(m, a), b)
    decreases |a|
  {
    if a == [] {
      assert a + b == b;
    } else {
      assert (a + b)[1..] == a[1..] + b;
      RegisterAllAppend(WithAlias(m, a[0].0, a[0].1), a[1..], b);
    }
  }

  /** Registering a list is registering what comes before entry k, then entry k, then the rest. */
  lemma RegisterAllAt<P>(m: map<JavaClass, P>, entries: seq<(JavaClass, P)>, k: nat)
    requires k < |entries|
    ensures RegisterAll(m, entries) == RegisterAll(WithAlias(RegisterAll(m, entries[..k]), entries[k].0, entries[k].1), entries[k + 1..])
  {
    var rest := entries[k..];
    assert entries[..k] + rest == entries;
    RegisterAllAppend(m, entries[..k], rest);
    assert rest[0] == entries[k] && rest[1..] == entries[k + 1..];
  }

  /** A key that no later entry names, directly or as its primitive, keeps its binding. */
  lemma {:induction false} RegisterAllKeeps<P>(m: map<JavaClass, P>, entries: seq<(JavaClass, P)>, k: JavaClass)
    requires k in m
    requires forall j :: 0 <= j < |entries| ==> entries[j].0 != k && GetPrimitive(entries[j].0) != Some(k)
    ensures k in RegisterAll(m, entries) && RegisterAll(m, entries)[k] == m[k]
    decreases |entries|
  {
    if entries != [] {
      RegisterAllKeeps(WithAlias(m, entries[0].0, entries[0].1), entries[1..], k);
    }
  }

  /** Registering a wrapper class also binds its primitive; removing the wrapper afterwards leaves that alias. */
  lemma AliasSurvivesRemoval<P>(m: map<JavaClass, P>, c: JavaClass, p: P)
    requires GetPrimitive(c).Some?
    ensures var after := WithAlias(m, c, p) - {c};
      c !in after && GetPrimitive(c).value in after && after[GetPrimitive(c).value] == p
  {
  }
}
