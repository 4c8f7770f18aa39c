/** PermissionUtil.getValueFromPermission: the highest value encoded in a player's permissions. */
module Permissions {
  import opened Wrappers
  import opened JavaString

  /** One effective permission of a player: its node and whether it is granted. */
  datatype PermissionInfo = PermissionInfo(permission: string, value: bool)

  /**
   * The values the loop considers, in order: the converted suffix of every
   * granted permission that starts with the prefix, leaving out the suffixes
   * the converter rejects (`None` stands for a thrown exception).
   */
  function Candidates<T>(perms: seq<PermissionInfo>, prefix: string, converter: string -> Option<T>): seq<T>
  {
    if perms == [] then []
    else
      var p := perms[0];
      var here :=
        if p.value && StartsWith(p.permission, prefix) then
          match converter(p.permission[|prefix|..])
          case Some(v) => [v]
          case None => []
        else [];
      here + Candidates(perms[1..], prefix, converter)
  }

  /** Keeps the running value and replaces it only by a strictly greater one. */
  function KeepGreatest<T>(result: T, values: seq<T>, compare: (T, T) -> int): T
  {
    if values == [] then result
    else KeepGreatest(if compare(values[0], result) > 0 then values[0] else result, values[1..], compare)
  }

  /** getValueFromPermission. */
  method GetValueFromPermission<T>(perms: seq<PermissionInfo>, prefix: string, def: T,
                                   converter: string -> Option<T>, compare: (T, T) -> int)
    returns (result: T)
    ensures result == KeepGreatest(def, Candidates(perms, prefix, converter), compare)
  {
    result := def;
    var i := 0;
    while i < |perms|
      invariant 0 <= i <= |perms|
      invariant KeepGreatest(result, Candidates(perms[i..], prefix, converter), compare)
             == KeepGreatest(def, Candidates(perms, prefix, converter), compare)
    {
      var info := perms[i];
      CandidatesStep(perms[i..], prefix, converter);
      assert perms[i..][0] == info && perms[i..][1..] == perms[i + 1..];
      i := i + 1;
      if !info.value {
        continue;
      }
      var permission := info.permission;
      if !StartsWith(permission, prefix) {
        continue;
      }
      var rawValue := permission[|prefix|..];
      var converted := converter(rawValue);
      if converted.None? {
        continue;
      }
      var value := converted.value;
      ghost var rest := Candidates(perms[i..], prefix, converter);
      assert ([value] + rest)[0] == value && ([value] + rest)[1..] == rest;
      if compare(value, result) > 0 {
        result := value;
      }
    }
  }

  lemma CandidatesStep<T>(perms: seq<PermissionInfo>, prefix: string, converter: string -> Option<T>)
    requires perms != []
    ensures var p := perms[0];
      Candidates(perms, prefix, converter) ==
        if p.value && StartsWith(p.permission, prefix) && converter(p.permission[|prefix|..]).Some? then
          [converter(p.permission[|prefix|..]).value] + Candidates(perms[1..], prefix, converter)
        else Candidates(perms[1..], prefix, converter)
  {
    var rest := Candidates(perms[1..], prefix, converter);
    assert [] + rest == rest;
  }

  /** With no converted candidate, the default comes back. */
  lemma NoCandidateGivesDefault<T>(perms: seq<PermissionInfo>, prefix: string, def: T,
                                   converter: string -> Option<T>, compare: (T, T) -> int)
    requires forall i :: 0 <= i < |perms| ==> !perms[i].value || !StartsWith(perms[i].permission, prefix)
    ensures KeepGreatest(def, Candidates(perms, prefix, converter), compare) == def
  {
    NoCandidates(perms, prefix, converter);
  }

  lemma {:induction false} NoCandidates<T>(perms: seq<PermissionInfo>, prefix: string, converter: string -> Option<T>)
    requires forall i :: 0 <= i < |perms| ==> !perms[i].value || !StartsWith(perms[i].permission, prefix)
    ensures Candidates(perms, prefix, converter) == []
  {
    if perms != [] {
      NoCandidates(perms[1..], prefix, converter);
    }
  }

  /** Permissions that are not granted, and suffixes the converter rejects, make no difference. */
  lemma IgnoredEntries<T>(perms: seq<PermissionInfo>, p: PermissionInfo, prefix: string, converter: string -> Option<T>)
    requires !p.value || !StartsWith(p.permission, prefix) || converter(p.permission[|prefix|..]).None?
    ensures Candidates([p] + perms, prefix, converter) == Candidates(perms, prefix, converter)
  {
    assert ([p] + perms)[1..] == perms;
  }

  /**
   * For a comparator whose "greater" relation is a strict order, the result
   * is the default or a candidate greater than it, and nothing considered is
   * greater than the result; in particular it is never below the default.
   */
  lemma {:induction false} ResultIsMaximum<T>(acc: T, values: seq<T>, compare: (T, T) -> int)
    requires forall a :: compare(a, a) <= 0
    requires forall a, b, c :: compare(a, b) > 0 && compare(b, c) > 0 ==> compare(a, c) > 0
    ensures var r := KeepGreatest(acc, values, compare);
      (r == acc || (r in values && compare(r, acc) > 0))
      && !(compare(acc, r) > 0)
      && forall i :: 0 <= i < |values| ==> !(compare(values[i], r) > 0)
    decreases |values|
  {
    if values != [] {
      var next := if compare(values[0], acc) > 0 then values[0] else acc;
      ResultIsMaximum(next, values[1..], compare);
      var r := KeepGreatest(acc, values, compare);
      assert r == KeepGreatest(next, values[1..], compare);
      assert forall i :: 1 <= i < |values| ==> values[i] == values[1..][i - 1];
    }
  }

  /** Ties keep the earlier value: when nothing beats the default strictly, the default is kept. */
  lemma {:induction false} TiesKeepDefault<T>(acc: T, values: seq<T>, compare: (T, T) -> int)
    requires forall i :: 0 <= i < |values| ==> compare(values[i], acc) <= 0
    ensures KeepGreatest(acc, values, compare) == acc
    decreases |values|
  {
    if values != [] {
      TiesKeepDefault(acc, values[1..], compare);
    }
  }
}
