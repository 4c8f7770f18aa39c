/**
 * MigrationController: keeps the schema version of one tag in a table and,
 * on start, runs the registered migrations between the stored version and the
 * current one.
 */
module Migrations {
  import opened Wrappers
  import opened JavaInt

  /** The registered versions from lo to hi, in ascending order: the migrations start runs. */
  function Pending(registered: set<int>, lo: int, hi: int): (r: seq<int>)
    ensures forall i, j :: 0 <= i < j < |r| ==> r[i] < r[j]
    ensures forall i :: 0 <= i < |r| ==> lo <= r[i] <= hi && r[i] in registered
    ensures forall v :: v in registered && lo <= v <= hi ==> v in r
    decreases hi - lo
  {
    if lo > hi then [] else Pending(registered, lo, hi - 1) + (if hi in registered then [hi] else [])
  }

  /** The int that follows x: Integer.MAX_VALUE + 1 wraps to Integer.MIN_VALUE. */
  lemma NextVersion(x: int)
    requires IsInt(x)
    ensures Wrap(x + 1) == if x == INT_MAX then INT_MIN else x + 1
  {
  }

  /** With the stored version already current, nothing is pending. */
  lemma UpToDateRunsNothing(registered: set<int>, current: int)
    requires IsInt(current) && current < INT_MAX
    ensures Pending(registered, Wrap(current + 1), current) == []
  {
  }

  /** A stored version of Integer.MAX_VALUE wraps the first version to Integer.MIN_VALUE, so every registered version up to the current one runs. */
  lemma MaxStoredRunsEverything(registered: set<int>, current: int)
    requires IsInt(current)
    requires forall v :: v in registered ==> IsInt(v) && v <= current
    ensures multiset(Pending(registered, Wrap(INT_MAX + 1), current)) == multiset(registered)
  {
    var r := Pending(registered, Wrap(INT_MAX + 1), current);
    assert Wrap(INT_MAX + 1) == INT_MIN;
    forall v ensures multiset(r)[v] == multiset(registered)[v] {
      if v in registered {
        assert v in r;
        NoRepeats(r, v);
      } else {
        assert v !in r;
      }
    }
  }

  /** A strictly ascending sequence holds each of its values once. */
  lemma {:induction false} NoRepeats(r: seq<int>, v: int)
    requires forall i, j :: 0 <= i < j < |r| ==> r[i] < r[j]
    requires v in r
    ensures multiset(r)[v] == 1
    decreases |r|
  {
    assert r == [r[0]] + r[1..];
    if r[0] == v {
      assert forall i :: 1 <= i < |r| ==> r[i] > v;
      assert v !in r[1..];
    } else {
      NoRepeats(r[1..], v);
    }
  }

  class MigrationController {
    const tag: string
    const currentVersion: int
    /** The registered migrations, each version to an opaque migration id. */
    var migrations: map<int, nat>
    /** The MigrationEntity table: the stored version per tag. */
    var store: map<string, int>
    /** The versions whose migrations have run, in the order they ran. */
    var ran: seq<int>

    predicate Valid()
      reads this
    {
      IsInt(currentVersion) && tag in store && forall t :: t in store ==> IsInt(store[t])
    }

    /** The constructor registers nothing and records the current version for a tag the table does not know. */
    constructor(tag: string, currentVersion: int, table: map<string, int>)
      requires IsInt(currentVersion) && forall t :: t in table ==> IsInt(table[t])
      ensures Valid() && this.tag == tag && this.currentVersion == currentVersion
      ensures migrations == map[] && ran == []
      ensures store == if tag in table then table else table[tag := currentVersion]
    {
      this.tag := tag;
      this.currentVersion := currentVersion;
      migrations := map[];
      ran := [];
      store := table;
      new;
      CheckAndCreateInfo();
    }

    /** registerMigration: refuses a version above the current one, otherwise replaces the migration of that version. */
    method RegisterMigration(version: int, migration: nat) returns (status: Status)
      modifies this
      ensures store == old(store) && ran == old(ran)
      ensures version > currentVersion ==> status == Raised(IllegalArgument) && migrations == old(migrations)
      ensures version <= currentVersion ==> status == Completed && migrations == old(migrations)[version := migration]
    {
      if version > currentVersion {
        return Raised(IllegalArgument);
      }
      migrations := migrations[version := migration];
      status := Completed;
    }

    /** checkAndCreateInfo: a row for the tag is created, holding the current version, when there is none. */
    method CheckAndCreateInfo()
      requires IsInt(currentVersion) && forall t :: t in store ==> IsInt(store[t])
      modifies this
      ensures Valid() && migrations == old(migrations) && ran == old(ran)
      ensures store == if tag in old(store) then old(store) else old(store)[tag := currentVersion]
    {
      if tag in store {
        return;
      }
      store := store[tag := currentVersion];
    }

    /**
     * start: runs the registered migrations from the stored version plus one
     * (an int addition) up to the current version, then stores the current version.
     * The loop counter does not wrap here, so the loop also ends at
     * currentVersion == Integer.MAX_VALUE, where the source's never does
     * (AsWrittenStartNeverEnds).
     */
    method Start()
      requires Valid()
      modifies this
      ensures Valid() && migrations == old(migrations)
      ensures ran == old(ran) + Pending(migrations.Keys, Wrap(old(store)[tag] + 1), currentVersion)
      ensures store == old(store)[tag := currentVersion]
    {
      CheckAndCreateInfo();
      var dbVersion := store[tag];
      NextVersion(dbVersion);
      RunFrom(if dbVersion == INT_MAX then INT_MIN else dbVersion + 1);
      store := store[tag := currentVersion];
    }

    /** The loop of start: runs each registered version from first up to the current version, once each. */
    method RunFrom(first: int)
      requires IsInt(first) && IsInt(currentVersion)
      modifies this
      ensures store == old(store) && migrations == old(migrations)
      ensures ran == old(ran) + Pending(migrations.Keys, first, currentVersion)
    {
      var i := first;
      while i <= currentVersion
        invariant store == old(store) && migrations == old(migrations)
        invariant first <= i && (i <= currentVersion + 1 || i == first)
        invariant ran == old(ran) + Pending(migrations.Keys, first, i - 1)
        decreases currentVersion - i
      {
        assert Pending(migrations.Keys, first, i) == Pending(migrations.Keys, first, i - 1) + (if i in migrations.Keys then [i] else []);
        if i in migrations {
          ran := ran + [i];
        }
        // a counter that does not wrap: the last pass, at i == currentVersion, leaves i past it
        i := i + 1;
      }
    }
  }

  /**
   * The versions start's loop runs, as written with an int counter, in its
   * first `passes` passes from version i: a pass runs i when it is registered,
   * and `i++` wraps from Integer.MAX_VALUE to Integer.MIN_VALUE.
   */
  function AsWrittenRan(registered: set<int>, i: int, current: int, passes: nat): seq<int>
    requires IsInt(i)
    decreases passes
  {
    if passes == 0 || i > current then []
    else (if i in registered then [i] else []) + AsWrittenRan(registered, Increment(i), current, passes - 1)
  }

  /** At currentVersion == Integer.MAX_VALUE the guard always holds: a + b passes are a passes, then b more from where they left i. */
  lemma {:induction false} AsWrittenRanSplit(registered: set<int>, i: int, a: nat, b: nat)
    requires IsInt(i)
    ensures AsWrittenRan(registered, i, INT_MAX, a + b)
         == AsWrittenRan(registered, i, INT_MAX, a) + AsWrittenRan(registered, Increments(i, a), INT_MAX, b)
    decreases a
  {
    if a > 0 {
      AsWrittenRanSplit(registered, Increment(i), a - 1, b);
    }
  }

  /**
   * As written, start never ends when currentVersion is Integer.MAX_VALUE:
   * the guard `i <= currentVersion` always holds, and every 2^32 passes `i++`
   * brings i back to the first version, so the passes start over.
   */
  lemma AsWrittenStartNeverEnds(registered: set<int>, first: int, cycles: nat, n: nat)
    requires IsInt(first)
    ensures AsWrittenRan(registered, first, INT_MAX, cycles * TWO_32 + n)
         == AsWrittenRan(registered, first, INT_MAX, cycles * TWO_32) + AsWrittenRan(registered, first, INT_MAX, n)
  {
    IncrementsCycles(first, cycles);
    RepeatsAfterCycle(registered, first, cycles * TWO_32, n);
  }

  /** As written, at currentVersion == Integer.MAX_VALUE a registered first version runs again after each 2^32 passes. */
  lemma AsWrittenFirstRunsTwice(registered: set<int>, first: int, cycles: nat)
    requires IsInt(first) && first in registered && cycles >= 1
    ensures RunsTwice(AsWrittenRan(registered, first, INT_MAX, cycles * TWO_32 + 1), first)
  {
    IncrementsCycles(first, cycles);
    RunsAgainAfterCycle(registered, first, cycles * TWO_32);
  }

  /** The version runs first and again last, so at least twice. */
  predicate RunsTwice(r: seq<int>, v: int)
  {
    |r| >= 2 && r[0] == v && r[|r| - 1] == v
  }

  /** Once k increments bring the counter back to the first version, the passes after the k-th repeat the first ones. */
  lemma RepeatsAfterCycle(registered: set<int>, first: int, k: nat, n: nat)
    requires IsInt(first) && Increments(first, k) == first
    ensures AsWrittenRan(registered, first, INT_MAX, k + n)
         == AsWrittenRan(registered, first, INT_MAX, k) + AsWrittenRan(registered, first, INT_MAX, n)
  {
    AsWrittenRanSplit(registered, first, k, n);
  }

  /** A registered first version runs in the first pass, and again in the pass after the counter comes back to it. */
  lemma RunsAgainAfterCycle(registered: set<int>, first: int, k: nat)
    requires IsInt(first) && k >= 1 && Increments(first, k) == first && first in registered
    ensures RunsTwice(AsWrittenRan(registered, first, INT_MAX, k + 1), first)
  {
    RepeatsAfterCycle(registered, first, k, 1);
    var once := AsWrittenRan(registered, first, INT_MAX, k);
    assert once == [first] + AsWrittenRan(registered, Increment(first), INT_MAX, k - 1);
    assert AsWrittenRan(registered, first, INT_MAX, 1) == [first] + AsWrittenRan(registered, Increment(first), INT_MAX, 0);
  }

  /** A second start runs nothing: the first one stored the current version. */
  method StartTwice(m: MigrationController)
    requires m.Valid() && m.currentVersion < INT_MAX
    modifies m
    ensures m.ran == old(m.ran) + Pending(m.migrations.Keys, Wrap(old(m.store)[m.tag] + 1), m.currentVersion)
    ensures m.store == old(m.store)[m.tag := m.currentVersion]
  {
    m.Start();
    ghost var once := m.ran;
    m.Start();
    UpToDateRunsNothing(m.migrations.Keys, m.currentVersion);
    assert m.ran == once + [];
  }

  /** On a table without the tag, the first start after registering migrations runs none of them. */
  method FreshTableRunsNothing(tag: string, currentVersion: int, table: map<string, int>, versions: seq<int>)
    returns (m: MigrationController)
    requires IsInt(currentVersion) && currentVersion < INT_MAX
    requires tag !in table && forall t :: t in table ==> IsInt(table[t])
    ensures m.ran == [] && tag in m.store && m.store[tag] == currentVersion
    ensures forall v :: v in versions && v <= currentVersion ==> v in m.migrations
  {
    m := new MigrationController(tag, currentVersion, table);
    var k := 0;
    while k < |versions|
      invariant 0 <= k <= |versions|
      invariant m.Valid() && m.tag == tag && m.currentVersion == currentVersion && m.ran == [] && m.store[tag] == currentVersion
      invariant forall v :: v in versions[..k] && v <= currentVersion ==> v in m.migrations
    {
      var _ := m.RegisterMigration(versions[k], k);
      assert versions[..k + 1] == versions[..k] + [versions[k]];
      k := k + 1;
    }
    assert versions[..k] == versions;
    m.Start();
    UpToDateRunsNothing(m.migrations.Keys, currentVersion);
  }
}
