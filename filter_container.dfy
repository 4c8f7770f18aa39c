/** FilterContainer.passFilters: OR and AND filters, and the message of the heaviest failure. */
module Filters {
  import opened Wrappers
  import Collections

  /** A filter instance: its identity and its weight. Whether it passes, and its message, are parameters. */
  datatype Filter = Filter(id: nat, weight: int)

  /** One step of the `lastNotPassed` update: a failing filter replaces it when none is recorded or it is strictly heavier. */
  function Pick(last: Option<Filter>, f: Filter): Option<Filter>
  {
    if last.None? || f.weight > last.value.weight then Some(f) else last
  }

  function PickAll(last: Option<Filter>, fs: seq<Filter>): Option<Filter>
    decreases |fs|
  {
    if fs == [] then last else PickAll(Pick(last, fs[0]), fs[1..])
  }

  /** Index of the first passing filter, or |fs| when none passes. */
  function FirstPass(fs: seq<Filter>, passes: Filter -> bool): (k: nat)
    ensures k <= |fs|
    ensures forall i :: 0 <= i < k ==> !passes(fs[i])
    ensures k < |fs| ==> passes(fs[k])
  {
    if fs == [] then 0
    else if passes(fs[0]) then 0
    else 1 + FirstPass(fs[1..], passes)
  }

  function Failing(passes: Filter -> bool): Filter -> bool
  {
    (f: Filter) => !passes(f)
  }

  /** The failing filters examined, in order: the OR filters before the first passing one, then the failing AND filters. */
  function Failures(orFilters: seq<Filter>, andFilters: seq<Filter>, passes: Filter -> bool): seq<Filter>
  {
    orFilters[..FirstPass(orFilters, passes)] + Collections.Filter(andFilters, Failing(passes))
  }

  /** (no OR filters, or one passes) and every AND filter passes. */
  predicate Passes(orFilters: seq<Filter>, andFilters: seq<Filter>, passes: Filter -> bool)
  {
    (orFilters == [] || FirstPass(orFilters, passes) < |orFilters|)
    && forall i :: 0 <= i < |andFilters| ==> passes(andFilters[i])
  }

  /** What passFilters returns: nothing on success, else the message of the heaviest examined failure. */
  function Outcome(orFilters: seq<Filter>, andFilters: seq<Filter>, passes: Filter -> bool,
                   message: Filter -> seq<string>): seq<string>
  {
    if Passes(orFilters, andFilters, passes) then []
    else
      match PickAll(None, Failures(orFilters, andFilters, passes))
      case Some(f) => message(f)
      case None => []
  }

  lemma {:induction false} PickAllSnoc(last: Option<Filter>, fs: seq<Filter>, f: Filter)
    ensures PickAll(last, fs + [f]) == Pick(PickAll(last, fs), f)
    decreases |fs|
  {
    if fs == [] {
      assert ([] + [f])[1..] == [];
    } else {
      assert (fs + [f])[1..] == fs[1..] + [f];
      PickAllSnoc(Pick(last, fs[0]), fs[1..], f);
    }
  }

  lemma FilterSnoc(s: seq<Filter>, x: Filter, p: Filter -> bool)
    ensures Collections.Filter(s + [x], p) == Collections.Filter(s, p) + (if p(x) then [x] else [])
  {
    Collections.FilterAppend(s, [x], p);
    assert Collections.Filter([x], p) == (if p(x) then [x] else []) + Collections.Filter([], p);
  }

  lemma NoFailure(s: seq<Filter>, passes: Filter -> bool)
    ensures (forall i :: 0 <= i < |s| ==> passes(s[i])) <==> Collections.Filter(s, Failing(passes)) == []
  {
    var r := Collections.Filter(s, Failing(passes));
    if r != [] {
      assert r[0] in s && !passes(r[0]);
    }
  }

  /**
   * passFilters. `evaluated` lists the filters whose predicate was run, in
   * order: the OR scan stops at the first passing OR filter.
   */
  method PassFilters(orFilters: seq<Filter>, andFilters: seq<Filter>, passes: Filter -> bool,
                     message: Filter -> seq<string>)
    returns (r: seq<string>, evaluated: seq<Filter>)
    ensures r == Outcome(orFilters, andFilters, passes, message)
    ensures var k := FirstPass(orFilters, passes);
      evaluated == (if k < |orFilters| then orFilters[..k + 1] else orFilters) + andFilters
  {
    var passOr, lastNotPassed, orEvaluated := ScanOr(orFilters, passes);
    var passAnd, last, andEvaluated := ScanAnd(andFilters, passes, orFilters[..FirstPass(orFilters, passes)], lastNotPassed);
    evaluated := orEvaluated + andEvaluated;
    NoFailure(andFilters, passes);
    if passOr && passAnd {
      r := [];
    } else {
      match last
      case Some(f) => r := message(f);
      case None => r := [];
    }
  }

  /** The OR loop of passFilters: stops at the first passing filter, recording each failing one. */
  method ScanOr(orFilters: seq<Filter>, passes: Filter -> bool)
    returns (passOr: bool, lastNotPassed: Option<Filter>, evaluated: seq<Filter>)
    ensures var k := FirstPass(orFilters, passes);
      && (passOr <==> orFilters == [] || k < |orFilters|)
      && lastNotPassed == PickAll(None, orFilters[..k])
      && evaluated == if k < |orFilters| then orFilters[..k + 1] else orFilters
  {
    passOr := true;
    lastNotPassed := None;
    evaluated := [];
    var i := 0;
    while i < |orFilters|
      invariant 0 <= i <= |orFilters|
      invariant forall j :: 0 <= j < i ==> !passes(orFilters[j])
      invariant passOr == (i == 0)
      invariant lastNotPassed == PickAll(None, orFilters[..i])
      invariant evaluated == orFilters[..i]
    {
      var filter := orFilters[i];
      evaluated := evaluated + [filter];
      assert orFilters[..i + 1] == orFilters[..i] + [filter];
      if passes(filter) {
        passOr := true;
        FirstPassAt(orFilters, passes, i);
        return;
      }
      passOr := false;
      PickAllSnoc(None, orFilters[..i], filter);
      if lastNotPassed.None? || filter.weight > lastNotPassed.value.weight {
        lastNotPassed := Some(filter);
      }
      i := i + 1;
    }
    FirstPassAt(orFilters, passes, i);
    assert orFilters[..i] == orFilters;
  }

  /** The AND loop of passFilters: every filter is run, each failing one may become the recorded one. */
  method ScanAnd(andFilters: seq<Filter>, passes: Filter -> bool, before: seq<Filter>, last0: Option<Filter>)
    returns (passAnd: bool, lastNotPassed: Option<Filter>, evaluated: seq<Filter>)
    requires last0 == PickAll(None, before)
    ensures passAnd <==> forall t :: 0 <= t < |andFilters| ==> passes(andFilters[t])
    ensures lastNotPassed == PickAll(None, before + Collections.Filter(andFilters, Failing(passes)))
    ensures evaluated == andFilters
  {
    passAnd := true;
    lastNotPassed := last0;
    evaluated := [];
    var failing := Failing(passes);
    var j := 0;
    assert andFilters[..0] == [] && before + [] == before;
    while j < |andFilters|
      invariant 0 <= j <= |andFilters|
      invariant passAnd <==> forall t :: 0 <= t < j ==> passes(andFilters[t])
      invariant lastNotPassed == PickAll(None, before + Collections.Filter(andFilters[..j], failing))
      invariant evaluated == andFilters[..j]
    {
      var filter := andFilters[j];
      assert andFilters[..j + 1] == andFilters[..j] + [filter];
      AndStep(before, andFilters[..j], filter, passes);
      evaluated := evaluated + [filter];
      if !passes(filter) {
        passAnd := false;
        if lastNotPassed.None? || filter.weight > lastNotPassed.value.weight {
          lastNotPassed := Some(filter);
        }
      }
      j := j + 1;
    }
    assert andFilters[..j] == andFilters;
  }

  /** One AND filter more: a failing one is offered to Pick, a passing one changes nothing. */
  lemma AndStep(before: seq<Filter>, prefix: seq<Filter>, f: Filter, passes: Filter -> bool)
    ensures PickAll(None, before + Collections.Filter(prefix + [f], Failing(passes)))
      == if passes(f) then PickAll(None, before + Collections.Filter(prefix, Failing(passes)))
         else Pick(PickAll(None, before + Collections.Filter(prefix, Failing(passes))), f)
  {
    var failing := Failing(passes);
    FilterSnoc(prefix, f, failing);
    if !passes(f) {
      assert before + Collections.Filter(prefix + [f], failing) == (before + Collections.Filter(prefix, failing)) + [f];
      PickAllSnoc(None, before + Collections.Filter(prefix, failing), f);
    } else {
      assert before + Collections.Filter(prefix + [f], failing) == before + Collections.Filter(prefix, failing);
    }
  }

  lemma FirstPassAt(fs: seq<Filter>, passes: Filter -> bool, i: nat)
    requires i <= |fs|
    requires forall j :: 0 <= j < i ==> !passes(fs[j])
    requires i < |fs| ==> passes(fs[i])
    ensures FirstPass(fs, passes) == i
  {
  }

  /**
   * After any prefix, the kept filter is the first of maximal weight: it
   * occurs, no filter is heavier, and every earlier one is strictly lighter.
   */
  lemma {:induction false} PickAllIsHeaviest(fs: seq<Filter>)
    requires fs != []
    ensures PickAll(None, fs).Some?
    ensures var h := PickAll(None, fs).value;
      (exists k :: 0 <= k < |fs| && fs[k] == h && forall j :: 0 <= j < k ==> fs[j].weight < h.weight)
      && (forall j :: 0 <= j < |fs| ==> fs[j].weight <= h.weight)
    decreases |fs|
  {
    var init := fs[..|fs| - 1];
    var f := fs[|fs| - 1];
    assert fs == init + [f];
    PickAllSnoc(None, init, f);
    if init == [] {
      assert PickAll(None, fs) == Some(f);
      assert fs[0] == f;
    } else {
      PickAllIsHeaviest(init);
      var h := PickAll(None, init).value;
      var k :| 0 <= k < |init| && init[k] == h && (forall j :: 0 <= j < k ==> init[j].weight < h.weight)
        && forall j :: 0 <= j < |init| ==> init[j].weight <= h.weight;
      if f.weight > h.weight {
        assert forall j :: 0 <= j < |fs| - 1 ==> fs[j].weight < f.weight;
      } else {
        assert fs[k] == h;
      }
    }
  }

  /** Failure always has a recorded filter, so the message lookup never meets null. */
  lemma FailureHasCulprit(orFilters: seq<Filter>, andFilters: seq<Filter>, passes: Filter -> bool)
    requires !Passes(orFilters, andFilters, passes)
    ensures Failures(orFilters, andFilters, passes) != []
    ensures PickAll(None, Failures(orFilters, andFilters, passes)).Some?
  {
    NoFailure(andFilters, passes);
    var k := FirstPass(orFilters, passes);
    if orFilters != [] && k == |orFilters| {
      assert orFilters[..k] == orFilters;
    }
    PickAllIsHeaviest(Failures(orFilters, andFilters, passes));
  }

  /** passFilters returns nothing exactly when the filters pass, given that every failure message is non-empty. */
  lemma EmptyIffPasses(orFilters: seq<Filter>, andFilters: seq<Filter>, passes: Filter -> bool,
                       message: Filter -> seq<string>)
    requires forall f :: message(f) != []
    ensures Outcome(orFilters, andFilters, passes, message) == [] <==> Passes(orFilters, andFilters, passes)
  {
    if !Passes(orFilters, andFilters, passes) {
      FailureHasCulprit(orFilters, andFilters, passes);
    }
  }

  /** An OR filter that failed before a later one passed can still supply the message, when an AND filter fails. */
  lemma EarlierOrFailureCounts(a: Filter, b: Filter, c: Filter, passes: Filter -> bool)
    requires !passes(a) && passes(b) && !passes(c) && a.weight > c.weight
    ensures Failures([a, b], [c], passes) == [a, c]
    ensures PickAll(None, Failures([a, b], [c], passes)) == Some(a)
  {
    assert FirstPass([a, b], passes) == 1;
    assert [a, b][..1] == [a];
    assert Collections.Filter([c], Failing(passes)) == [c];
    assert [a, c][1..] == [c] && [c][1..] == [];
    assert PickAll(None, [a, c]) == PickAll(Some(a), [c]) == PickAll(Some(a), []);
  }
}
