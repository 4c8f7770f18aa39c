/** DependencyProvider: a map from classes to the objects registered under them. */
module Dependencies {
  import opened Wrappers
  import opened Classes

  /**
   * A registered object: its identity, its runtime class, and whether it
   * implements IReloadable and IClosable.
   */
  datatype Dependency = Dependency(id: nat, runtimeClass: JavaClass, reloadable: bool, closable: bool)

  /** The keys among `keys` under which `m` holds `d`. */
  ghost function Bound(m: map<JavaClass, Dependency>, keys: set<JavaClass>, d: Dependency): set<JavaClass>
  {
    set c | c in keys && c in m && m[c] == d
  }

  /** How many of the chosen calls an unordered pass over the values of `m` makes on `d`. */
  ghost function Calls(m: map<JavaClass, Dependency>, keys: set<JavaClass>, d: Dependency, select: Dependency -> bool): nat
  {
    if select(d) then |Bound(m, keys, d)| else 0
  }

  lemma BoundStep(m: map<JavaClass, Dependency>, done: set<JavaClass>, k: JavaClass, d: Dependency)
    requires k in m && k !in done
    ensures |Bound(m, done + {k}, d)| == |Bound(m, done, d)| + (if m[k] == d then 1 else 0)
  {
    if m[k] == d {
      assert Bound(m, done + {k}, d) == Bound(m, done, d) + {k};
    } else {
      assert Bound(m, done + {k}, d) == Bound(m, done, d);
    }
  }

  class DependencyProvider {
    var dependencies: map<JavaClass, Dependency>

    constructor()
      ensures dependencies == map[]
    {
      dependencies := map[];
    }

    /** register(dependency, classes...): binds the object under every listed class, in order. */
    method Register(dependency: Dependency, classes: seq<JavaClass>) returns (r: Dependency)
      modifies this
      ensures r == dependency
      ensures dependencies == old(dependencies) + map c | c in classes :: dependency
      ensures forall c :: c in classes ==> c in dependencies && dependencies[c] == dependency
      ensures forall c :: c !in classes ==> (c in dependencies <==> c in old(dependencies))
      ensures forall c :: c !in classes && c in old(dependencies) ==> dependencies[c] == old(dependencies)[c]
    {
      var i := 0;
      while i < |classes|
        invariant 0 <= i <= |classes|
        invariant dependencies == old(dependencies) + map c | c in classes[..i] :: dependency
      {
        assert classes[..i + 1] == classes[..i] + [classes[i]];
        dependencies := dependencies[classes[i] := dependency];
        i := i + 1;
      }
      assert classes[..i] == classes;
      r := dependency;
    }

    /** register(dependency): binds the object under its own runtime class only. */
    method RegisterOwn(dependency: Dependency) returns (r: Dependency)
      modifies this
      ensures r == dependency
      ensures dependencies == old(dependencies)[dependency.runtimeClass := dependency]
    {
      r := Register(dependency, [dependency.runtimeClass]);
      assert dependencies == old(dependencies)[dependency.runtimeClass := dependency];
    }

    /** isRegistered: whether the class has a binding. */
    predicate IsRegistered(c: JavaClass)
      reads this
    {
      c in dependencies
    }

    /** provide: the bound object, or None (Java's null) for an unbound class. */
    function Provide(c: JavaClass): (r: Option<Dependency>)
      reads this
      ensures r.Some? <==> IsRegistered(c)
      ensures r.Some? ==> r.value == dependencies[c]
    {
      if c in dependencies then Some(dependencies[c]) else None
    }

    /**
     * One pass over `dependencies.values()`: the calls made on the values
     * that `select` picks, one per binding, in the map's iteration order.
     */
    method VisitValues(select: Dependency -> bool) returns (calls: seq<Dependency>)
      ensures forall d :: multiset(calls)[d] == Calls(dependencies, dependencies.Keys, d, select)
    {
      calls := [];
      var todo := dependencies.Keys;
      ghost var done: set<JavaClass> := {};
      while todo != {}
        invariant todo <= dependencies.Keys && done == dependencies.Keys - todo
        invariant forall d :: multiset(calls)[d] == Calls(dependencies, done, d, select)
        decreases |todo|
      {
        var k :| k in todo;
        var value := dependencies[k];
        ghost var prev := calls;
        if select(value) {
          calls := calls + [value];
        }
        forall d ensures multiset(calls)[d] == Calls(dependencies, done + {k}, d, select) {
          BoundStep(dependencies, done, k, d);
          assert multiset(calls)[d] == multiset(prev)[d] + (if select(value) && value == d then 1 else 0);
        }
        todo := todo - {k};
        done := done + {k};
      }
      assert done == dependencies.Keys;
    }

    /** reloadAll: reload() on every IReloadable value, once per class it is bound under. */
    method ReloadAll() returns (calls: seq<Dependency>)
      ensures forall d :: multiset(calls)[d] == if d.reloadable then |Bound(dependencies, dependencies.Keys, d)| else 0
    {
      calls := VisitValues((d: Dependency) => d.reloadable);
    }

    /** closeAll: close() on every IClosable value, once per class it is bound under. */
    method CloseAll() returns (calls: seq<Dependency>)
      ensures forall d :: multiset(calls)[d] == if d.closable then |Bound(dependencies, dependencies.Keys, d)| else 0
    {
      calls := VisitValues((d: Dependency) => d.closable);
    }
  }
}
