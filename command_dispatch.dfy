/**
 * EnhancedCommand.execute: the choice of the variant that runs for the
 * words typed after the command, and what happens when none does.
 */
module CommandDispatch {
  import opened Wrappers
  import opened JavaString
  import opened CommandModel

  /** One entry of the subCommands map, in insertion order: the key path's text and segments, and its variants. */
  datatype Entry = Entry(pathStr: string, path: seq<string>, variants: seq<CommandInfo>)

  /** The values execute hands to filters and to the invoked method. */
  datatype Value =
    | Sender                                   // the command sender
    | Converted(arg: CommandArg, word: string) // the parser's value for `word`
    | Joined(text: string)                     // the endless argument's words joined by spaces

  /**
   * What execute asks of the server and of the parsers: whether the sender is
   * a player, which permission nodes it holds, whether a custom parser or the
   * argument registry accepts a word (or throws, as TimeParser does for a number
   * beyond an int), and whether a filter accepts a value.
   */
  datatype Host = Host(
    isPlayer: bool,
    holds: string -> bool,
    customCanConvert: (nat, string) -> Result<bool>,
    canConvert: (ParamType, string) -> Result<bool>,
    passes: (nat, Value) -> bool)

  /** A filter failure remembered for the final message: the filters that failed and the value they saw. */
  datatype Failure = Failure(filters: Option<FilterSet>, obj: Value)

  /**
   * The end of execute: the method ran, no permission, a filter message, the
   * only-player message, the help, or an exception a canConvert threw, which
   * execute does not catch.
   */
  datatype Outcome =
    | Invoked(info: CommandInfo, finalArgs: seq<Value>)
    | NoPermission
    | FilterMessages(failure: Failure)
    | OnlyPlayer
    | Help
    | Thrown(error: Exception)

  /** The value execute returns for each outcome, or the exception that escapes it. */
  function Returns(o: Outcome): (r: Result<bool>)
    ensures r.Err? <==> o.Thrown?
    ensures r.Err? ==> r.error == o.error
    ensures r.Ok? ==> (r.value <==> o.Invoked? || o.Help?)
  {
    match o
    case Invoked(_, _) => Ok(true)
    case Help => Ok(true)
    case Thrown(e) => Err(e)
    case _ => Ok(false)
  }

  /** The flags execute carries across variants: `found`, and the last filter failure (notPassArg, notPassObj). */
  datatype State = State(found: bool, failed: Option<Failure>)

  /** A variant together with the words after its path. */
  datatype Candidate = Candidate(info: CommandInfo, fixed: seq<string>)

  datatype Step = Continue(state: State) | Stop(outcome: Outcome)

  /** The path's segments equal the first words, ignoring case. */
  predicate PrefixMatches(path: seq<string>, args: seq<string>)
  {
    |path| <= |args| && forall i :: 0 <= i < |path| ==> EqualsIgnoreCase(args[i], path[i])
  }

  /** The keys whose path is a prefix of the words, in the map's order. */
  function Possible(entries: seq<Entry>, args: seq<string>): (r: seq<Entry>)
    ensures forall i :: 0 <= i < |r| ==> r[i] in entries && PrefixMatches(r[i].path, args)
    ensures forall e :: e in entries && PrefixMatches(e.path, args) ==> e in r
  {
    if entries == [] then []
    else
      var last := entries[|entries| - 1];
      Possible(entries[..|entries| - 1], args) + (if PrefixMatches(last.path, args) then [last] else [])
  }

  predicate AllFit(paths: seq<Entry>, args: seq<string>)
  {
    forall i :: 0 <= i < |paths| ==> |paths[i].path| <= |args|
  }

  function VariantCandidates(variants: seq<CommandInfo>, fixed: seq<string>): (r: seq<Candidate>)
    ensures |r| == |variants| && forall i :: 0 <= i < |r| ==> r[i] == Candidate(variants[i], fixed)
  {
    seq(|variants|, i requires 0 <= i < |variants| => Candidate(variants[i], fixed))
  }

  /** The variants in the order execute tries them: path by path, each path's variants in order. */
  function Candidates(paths: seq<Entry>, args: seq<string>): seq<Candidate>
    requires AllFit(paths, args)
  {
    if paths == [] then []
    else VariantCandidates(paths[0].variants, args[|paths[0].path|..]) + Candidates(paths[1..], args)
  }

  /** Arity: exactly one word per argument, or at least one per argument for an endless variant. */
  predicate ArityOk(info: CommandInfo, words: nat)
  {
    if info.endless then |info.args| <= words else |info.args| == words
  }

  /** The arguments the type check looks at: all but the endless last one. */
  function Checked(info: CommandInfo): (n: nat)
    ensures n <= |info.args|
  {
    if info.endless && |info.args| > 0 then |info.args| - 1 else |info.args|
  }

  /** A custom parser decides if the argument has one, otherwise the argument registry; either may throw. */
  function CanConvertArg(host: Host, arg: CommandArg, word: string): Result<bool>
  {
    if arg.customParser.Some? then host.customCanConvert(arg.customParser.value, word) else host.canConvert(arg.clazz, word)
  }

  /** The argument's word converts: canConvert returned true. */
  predicate Converts(host: Host, arg: CommandArg, word: string)
  {
    CanConvertArg(host, arg, word) == Ok(true)
  }

  /** The first checked argument from `from` on whose canConvert does not return true, or Checked(info) when none. */
  function FirstUnconvertible(info: CommandInfo, fixed: seq<string>, host: Host, from: nat): (k: nat)
    requires ArityOk(info, |fixed|) && from <= Checked(info)
    ensures from <= k <= Checked(info)
    ensures forall j :: from <= j < k ==> Converts(host, info.args[j], fixed[j])
    ensures k < Checked(info) ==> !Converts(host, info.args[k], fixed[k])
    decreases Checked(info) - from
  {
    if from == Checked(info) then from
    else if !Converts(host, info.args[from], fixed[from]) then from
    else FirstUnconvertible(info, fixed, host, from + 1)
  }

  /**
   * The type check's loop: true when every checked word converts, false at the
   * first one that does not, and the exception of the first canConvert that throws.
   */
  function TypeCheck(info: CommandInfo, fixed: seq<string>, host: Host): (r: Result<bool>)
    requires ArityOk(info, |fixed|)
    ensures r == Ok(true) <==> forall i :: 0 <= i < Checked(info) ==> Converts(host, info.args[i], fixed[i])
    ensures r.Err? ==> exists k :: (0 <= k < Checked(info) && CanConvertArg(host, info.args[k], fixed[k]) == Err(r.error)
      && forall j :: 0 <= j < k ==> Converts(host, info.args[j], fixed[j]))
    ensures r == Ok(false) ==> exists k :: (0 <= k < Checked(info) && CanConvertArg(host, info.args[k], fixed[k]) == Ok(false)
      && forall j :: 0 <= j < k ==> Converts(host, info.args[j], fixed[j]))
  {
    var k := FirstUnconvertible(info, fixed, host, 0);
    if k == Checked(info) then Ok(true)
    else
      var c := CanConvertArg(host, info.args[k], fixed[k]);
      if c.Err? then Err(c.error)
      else
        assert c.Ok? && !c.value;
        Ok(false)
  }

  predicate TypesOk(info: CommandInfo, fixed: seq<string>, host: Host)
    requires ArityOk(info, |fixed|)
  {
    forall i :: 0 <= i < Checked(info) ==> Converts(host, info.args[i], fixed[i])
  }

  /** hasPermission: the sender holds one of the nodes, or the variant needs none. */
  function HasPermission(permissions: seq<string>, holds: string -> bool): (b: bool)
    ensures b <==> permissions == [] || exists i :: 0 <= i < |permissions| && holds(permissions[i])
  {
    permissions == [] || HoldsAny(permissions, holds)
  }

  /** The loop of hasPermission: some node, tried in order, is held. */
  function HoldsAny(permissions: seq<string>, holds: string -> bool): (b: bool)
    ensures b <==> exists i :: 0 <= i < |permissions| && holds(permissions[i])
  {
    if permissions == [] then false
    else holds(permissions[0]) || (assert forall i :: 0 < i < |permissions| ==> permissions[i] == permissions[1..][i - 1];
                                   HoldsAny(permissions[1..], holds))
  }

  /** The value bound to argument `i`: the joined remaining words for the endless last argument, a parsed word otherwise. */
  function ArgValue(info: CommandInfo, fixed: seq<string>, i: nat): Value
    requires ArityOk(info, |fixed|) && i < |info.args|
  {
    if info.endless && i == |info.args| - 1 then Joined(Join(" ", fixed[i..]))
    else Converted(info.args[i], fixed[i])
  }

  /** finalArgs: the sender first, then one value per argument. */
  function FinalArgs(info: CommandInfo, fixed: seq<string>): (r: seq<Value>)
    requires ArityOk(info, |fixed|)
    ensures |r| == |info.args| + 1 && r[0] == Sender
    ensures forall i :: 0 <= i < |info.args| ==> r[i + 1] == ArgValue(info, fixed, i)
  {
    [Sender] + seq(|info.args|, i requires 0 <= i < |info.args| => ArgValue(info, fixed, i))
  }

  /** passFilters: no filters pass; otherwise some OR filter (when there are any) and every AND filter accept the value. */
  predicate PassFilters(filters: Option<FilterSet>, obj: Value, host: Host)
  {
    filters.None? ||
    ((filters.value.orFilters == [] || exists i :: 0 <= i < |filters.value.orFilters| && host.passes(filters.value.orFilters[i], obj))
     && forall i :: 0 <= i < |filters.value.andFilters| ==> host.passes(filters.value.andFilters[i], obj))
  }

  /** The first argument whose filters reject its value, or the number of arguments when none does. */
  function FirstFailingArg(info: CommandInfo, finalArgs: seq<Value>, host: Host, from: nat): (k: nat)
    requires |finalArgs| == |info.args| + 1 && from <= |info.args|
    ensures from <= k <= |info.args|
    ensures forall j :: from <= j < k ==> PassFilters(info.args[j].filters, finalArgs[j + 1], host)
    ensures k < |info.args| ==> !PassFilters(info.args[k].filters, finalArgs[k + 1], host)
    decreases |info.args| - from
  {
    if from == |info.args| then from
    else if !PassFilters(info.args[from].filters, finalArgs[from + 1], host) then from
    else FirstFailingArg(info, finalArgs, host, from + 1)
  }

  /** Execute's treatment of one variant, given the flags so far. */
  function StepOf(c: Candidate, host: Host, st: State): Step
  {
    if !ArityOk(c.info, |c.fixed|) then Continue(st)
    else if TypeCheck(c.info, c.fixed, host).Err? then Stop(Thrown(TypeCheck(c.info, c.fixed, host).error))
    else if !TypesOk(c.info, c.fixed, host) then Continue(st)
    else if c.info.playerRequired && !host.isPlayer then Continue(st.(found := true))
    else if !HasPermission(c.info.permissions, host.holds) then Stop(NoPermission)
    else
      var finalArgs := FinalArgs(c.info, c.fixed);
      if !PassFilters(c.info.sourceFilters, Sender, host) then
        Continue(State(true, Some(Failure(c.info.sourceFilters, Sender))))
      else
        var k := FirstFailingArg(c.info, finalArgs, host, 0);
        if k < |c.info.args| then Continue(State(true, Some(Failure(c.info.args[k].filters, finalArgs[k + 1]))))
        else Stop(Invoked(c.info, finalArgs))
  }

  /** After the last variant: a filter message for the last failure, the only-player message, or the help. */
  function Finish(st: State): Outcome
  {
    if !st.found then Help
    else if st.failed.Some? then FilterMessages(st.failed.value)
    else OnlyPlayer
  }

  function Run(cs: seq<Candidate>, host: Host, st: State): Outcome
  {
    if cs == [] then Finish(st)
    else
      var step := StepOf(cs[0], host, st);
      if step.Stop? then step.outcome else Run(cs[1..], host, step.state)
  }

  /** execute(sender, label, args) as a value. */
  function Dispatch(entries: seq<Entry>, args: seq<string>, host: Host): Outcome
  {
    var paths := Possible(entries, args);
    assert AllFit(paths, args);
    Run(Candidates(paths, args), host, State(false, None))
  }

  //
  // The properties of the choice
  //

  /** A variant the loop acts on: right arity and every checked word convertible. */
  predicate WellTyped(c: Candidate, host: Host)
  {
    ArityOk(c.info, |c.fixed|) && TypesOk(c.info, c.fixed, host)
  }

  /** A variant whose type check throws, which ends execute with that exception. */
  predicate Throws(c: Candidate, host: Host)
  {
    ArityOk(c.info, |c.fixed|) && TypeCheck(c.info, c.fixed, host).Err?
  }

  /** A variant that ends execute: it runs, it is denied, or its type check throws. */
  predicate Decides(c: Candidate, host: Host)
  {
    Eligible(c, host) || Denies(c, host) || Throws(c, host)
  }

  /** A variant that ends execute with no permission. */
  predicate Denies(c: Candidate, host: Host)
  {
    WellTyped(c, host) && (!c.info.playerRequired || host.isPlayer) && !HasPermission(c.info.permissions, host.holds)
  }

  /** A variant that runs: well typed, allowed for the sender, permitted, all filters pass. */
  predicate Eligible(c: Candidate, host: Host)
  {
    WellTyped(c, host) && (!c.info.playerRequired || host.isPlayer) && HasPermission(c.info.permissions, host.holds)
    && PassFilters(c.info.sourceFilters, Sender, host)
    && FirstFailingArg(c.info, FinalArgs(c.info, c.fixed), host, 0) == |c.info.args|
  }

  /** The last filter failure among the variants, if any (later failures replace earlier ones). */
  function LastFailure(cs: seq<Candidate>, host: Host, before: Option<Failure>): Option<Failure>
  {
    if cs == [] then before
    else
      var st := StepOf(cs[0], host, State(true, before));
      LastFailure(cs[1..], host, if st.Continue? then st.state.failed else before)
  }

  /** The variant at index k decides execute: it runs, denies or throws, and no earlier variant does any of these. */
  predicate FirstDecision(cs: seq<Candidate>, host: Host, k: nat)
  {
    k < |cs| && Decides(cs[k], host) && forall j :: 0 <= j < k ==> !Decides(cs[j], host)
  }

  lemma StepUndecided(c: Candidate, host: Host, st: State)
    requires !Decides(c, host)
    ensures StepOf(c, host, st).Continue?
    ensures StepOf(c, host, st).state.found == (st.found || WellTyped(c, host))
    ensures StepOf(c, host, st) == StepOf(c, host, State(true, st.failed))
      || (!WellTyped(c, host) && StepOf(c, host, st) == Continue(st))
  {
  }

  /**
   * The first deciding variant fixes the outcome: it runs with its final
   * arguments, execute reports no permission, or the exception its type check
   * threw escapes.
   */
  lemma {:induction false} RunDecided(cs: seq<Candidate>, host: Host, st: State, k: nat)
    requires FirstDecision(cs, host, k)
    ensures Run(cs, host, st) ==
      if Eligible(cs[k], host) then Invoked(cs[k].info, FinalArgs(cs[k].info, cs[k].fixed))
      else if Denies(cs[k], host) then NoPermission
      else Thrown(TypeCheck(cs[k].info, cs[k].fixed, host).error)
    decreases k
  {
    if k == 0 {
    } else {
      StepUndecided(cs[0], host, st);
      var next := StepOf(cs[0], host, st).state;
      assert FirstDecision(cs[1..], host, k - 1) by {
        forall j | 0 <= j < k - 1 ensures !Decides(cs[1..][j], host) {
          assert cs[1..][j] == cs[j + 1];
        }
      }
      RunDecided(cs[1..], host, next, k - 1);
    }
  }

  /**
   * With no deciding variant, execute shows the help exactly when no variant
   * was well typed (and none was before); otherwise the last filter failure's
   * message, or the only-player message when no filter failed.
   */
  lemma {:induction false} RunUndecided(cs: seq<Candidate>, host: Host, st: State)
    requires forall j :: 0 <= j < |cs| ==> !Decides(cs[j], host)
    ensures var found := st.found || exists j :: 0 <= j < |cs| && WellTyped(cs[j], host);
      Run(cs, host, st) == Finish(State(found, LastFailure(cs, host, st.failed)))
    decreases |cs|
  {
    if cs != [] {
      StepUndecided(cs[0], host, st);
      var next := StepOf(cs[0], host, st).state;
      assert forall j :: 0 <= j < |cs[1..]| ==> cs[1..][j] == cs[j + 1];
      RunUndecided(cs[1..], host, next);
      var found := st.found || exists j :: 0 <= j < |cs| && WellTyped(cs[j], host);
      var found' := next.found || exists j :: 0 <= j < |cs[1..]| && WellTyped(cs[1..][j], host);
      assert found == found' by {
        if exists j :: 0 <= j < |cs| && WellTyped(cs[j], host) {
          var j :| 0 <= j < |cs| && WellTyped(cs[j], host);
          if j > 0 {
            assert WellTyped(cs[1..][j - 1], host);
          }
        }
      }
      if WellTyped(cs[0], host) {
        assert next.failed == LastFailureStep(cs[0], host, st.failed);
      }
      LastFailureUntyped(cs, host, st);
    }
  }

  function LastFailureStep(c: Candidate, host: Host, before: Option<Failure>): Option<Failure>
  {
    var s := StepOf(c, host, State(true, before));
    if s.Continue? then s.state.failed else before
  }

  lemma LastFailureUntyped(cs: seq<Candidate>, host: Host, st: State)
    requires cs != [] && !Decides(cs[0], host)
    ensures var s := StepOf(cs[0], host, st);
      LastFailure(cs, host, st.failed) == LastFailure(cs[1..], host, s.state.failed)
  {
    StepUndecided(cs[0], host, st);
  }

  /** No variant of the list is well typed for its words. */
  predicate NoneWellTyped(cs: seq<Candidate>, host: Host)
  {
    forall j :: 0 <= j < |cs| ==> !WellTyped(cs[j], host)
  }

  /** execute shows the help exactly when no variant of a matching path is well typed for the words. */
  lemma HelpIffNothingFits(entries: seq<Entry>, args: seq<string>, host: Host)
    requires var paths := Possible(entries, args);
      AllFit(paths, args) && forall j :: 0 <= j < |Candidates(paths, args)| ==> !Decides(Candidates(paths, args)[j], host)
    ensures Dispatch(entries, args, host) == Help <==> NoneWellTyped(Candidates(Possible(entries, args), args), host)
  {
    var cs := Candidates(Possible(entries, args), args);
    assert Dispatch(entries, args, host) == Run(cs, host, State(false, None));
    RunHelpIff(cs, host);
  }

  /** With no variant deciding, the loop ends in help exactly when none of them was well typed. */
  lemma RunHelpIff(cs: seq<Candidate>, host: Host)
    requires forall j :: 0 <= j < |cs| ==> !Decides(cs[j], host)
    ensures Run(cs, host, State(false, None)) == Help <==> NoneWellTyped(cs, host)
  {
    var none := State(false, None);
    var last := LastFailure(cs, host, None);
    RunUndecided(cs, host, none);
    if exists j :: 0 <= j < |cs| && WellTyped(cs[j], host) {
      assert Run(cs, host, none) == Finish(State(true, last));
    } else {
      assert Run(cs, host, none) == Finish(State(false, last));
    }
  }

  /** Every variant execute tries belongs to a key whose path matches the first words, and sees the words after that path. */
  lemma {:induction false} CandidatesMatch(paths: seq<Entry>, args: seq<string>)
    requires AllFit(paths, args)
    ensures forall j :: 0 <= j < |Candidates(paths, args)| ==>
      exists e :: e in paths && Candidates(paths, args)[j].info in e.variants && Candidates(paths, args)[j].fixed == args[|e.path|..]
  {
    if paths != [] {
      var e := paths[0];
      var first := VariantCandidates(e.variants, args[|e.path|..]);
      assert AllFit(paths[1..], args) by {
        forall i | 0 <= i < |paths[1..]| ensures |paths[1..][i].path| <= |args| {
          assert paths[1..][i] == paths[i + 1];
        }
      }
      CandidatesMatch(paths[1..], args);
      var cs := Candidates(paths, args);
      var more := Candidates(paths[1..], args);
      assert cs == first + more;
      forall j | 0 <= j < |cs|
        ensures exists e :: e in paths && cs[j].info in e.variants && cs[j].fixed == args[|e.path|..]
      {
        if j < |first| {
          assert cs[j] == first[j];
          assert cs[j].info == e.variants[j] && cs[j].fixed == args[|e.path|..];
          assert e in paths;
        } else {
          assert cs[j] == more[j - |first|];
          assert 0 <= j - |first| < |more|;
          var e' :| e' in paths[1..] && more[j - |first|].info in e'.variants && more[j - |first|].fixed == args[|e'.path|..];
          assert e' in paths;
        }
      }
      assert cs == Candidates(paths, args);
    } else {
      assert Candidates(paths, args) == [];
    }
  }

  /** The words "add 3" dispatch to the one-argument variant "add" when it type-checks, is permitted and has no filters. */
  lemma AddExample(info: CommandInfo, host: Host)
    requires info.path == ["add"] && !info.endless && |info.args| == 1 && info.args[0].filters.None?
    requires info.sourceFilters.None? && !info.playerRequired && info.permissions == []
    requires Converts(host, info.args[0], "3")
    ensures Dispatch([Entry("add", ["add"], [info])], ["ADD", "3"], host)
         == Invoked(info, [Sender, Converted(info.args[0], "3")])
  {
    var e := Entry("add", ["add"], [info]);
    var args := ["ADD", "3"];
    assert EqualsIgnoreCase(args[0], "add");
    assert PrefixMatches(e.path, args);
    assert [e][..0] == [];
    assert Possible([e], args) == [e];
    assert args[1..] == ["3"];
    assert [e][1..] == [];
    assert Candidates([e][1..], args) == [];
    var cs := Candidates([e], args);
    assert cs == VariantCandidates([info], ["3"]) + [];
    assert cs == [Candidate(info, ["3"])];
    var c := cs[0];
    assert FinalArgs(info, ["3"]) == [Sender, Converted(info.args[0], "3")];
    assert Eligible(c, host);
    assert FirstDecision(cs, host, 0);
    RunDecided(cs, host, State(false, None), 0);
  }

  /** When canConvert throws on the word of "add <word>", execute ends with that exception, whatever the permissions and filters. */
  lemma ThrowEscapes(info: CommandInfo, host: Host, word: string, e: Exception)
    requires info.path == ["add"] && !info.endless && |info.args| == 1
    requires CanConvertArg(host, info.args[0], word) == Err(e)
    ensures Dispatch([Entry("add", ["add"], [info])], ["ADD", word], host) == Thrown(e)
  {
    var entry := Entry("add", ["add"], [info]);
    var args := ["ADD", word];
    assert EqualsIgnoreCase(args[0], "add");
    assert PrefixMatches(entry.path, args);
    assert [entry][..0] == [];
    assert Possible([entry], args) == [entry];
    assert args[1..] == [word];
    assert [entry][1..] == [];
    assert Candidates([entry][1..], args) == [];
    var cs := Candidates([entry], args);
    assert cs == VariantCandidates([info], [word]) + [];
    assert cs == [Candidate(info, [word])];
    assert FirstUnconvertible(info, [word], host, 0) == 0;
    assert TypeCheck(info, [word], host) == Err(e);
    assert Throws(cs[0], host) && !Eligible(cs[0], host) && !Denies(cs[0], host);
    assert FirstDecision(cs, host, 0);
    RunDecided(cs, host, State(false, None), 0);
  }

  //
  // execute, step by step
  //

  /** The first loop of execute: the keys whose segments match the first words ignoring case, in order. */
  method PossiblePaths(entries: seq<Entry>, args: seq<string>) returns (possiblePaths: seq<Entry>)
    ensures possiblePaths == Possible(entries, args)
  {
    possiblePaths := [];
    var n := 0;
    while n < |entries|
      invariant 0 <= n <= |entries|
      invariant possiblePaths == Possible(entries[..n], args)
    {
      var pathArr := entries[n].path;
      var matches := |args| >= |pathArr|;
      var i := 0;
      while matches && i < |pathArr|
        invariant 0 <= i <= |pathArr|
        invariant matches ==> |pathArr| <= |args| && forall t :: 0 <= t < i ==> EqualsIgnoreCase(args[t], pathArr[t])
        invariant !matches ==> !PrefixMatches(pathArr, args)
      {
        if !EqualsIgnoreCase(args[i], pathArr[i]) {
          matches := false;
        }
        i := i + 1;
      }
      assert entries[..n + 1][..n] == entries[..n];
      if matches {
        possiblePaths := possiblePaths + [entries[n]];
      }
      n := n + 1;
    }
    assert entries[..|entries|] == entries;
  }

  /** The type check: every argument but an endless last one must convert; an exception of canConvert escapes. */
  method CorrectTypes(info: CommandInfo, fixedArgs: seq<string>, host: Host) returns (correctTypes: Result<bool>)
    requires ArityOk(info, |fixedArgs|)
    ensures correctTypes == TypeCheck(info, fixedArgs, host)
  {
    var i := 0;
    while i < |info.args|
      invariant 0 <= i <= Checked(info)
      invariant FirstUnconvertible(info, fixedArgs, host, 0) == FirstUnconvertible(info, fixedArgs, host, i)
    {
      if info.endless && |info.args| == i + 1 {
        break;
      }
      var arg := info.args[i];
      var canConvert: Result<bool>;
      if arg.customParser.Some? {
        canConvert := host.customCanConvert(arg.customParser.value, fixedArgs[i]);
      } else {
        canConvert := host.canConvert(arg.clazz, fixedArgs[i]);
      }
      if canConvert.Err? {
        return Err(canConvert.error);
      }
      if !canConvert.value {
        return Ok(false);
      }
      i := i + 1;
    }
    return Ok(true);
  }

  /** The finalArgs array: the sender, then each argument's value, the endless one joining the remaining words. */
  method BuildFinalArgs(info: CommandInfo, fixedArgs: seq<string>) returns (finalArgs: array<Value>)
    requires ArityOk(info, |fixedArgs|)
    ensures fresh(finalArgs) && finalArgs[..] == FinalArgs(info, fixedArgs)
  {
    finalArgs := new Value[|info.args| + 1];
    finalArgs[0] := Sender;
    var i := 1;
    while i < finalArgs.Length
      invariant 1 <= i <= finalArgs.Length
      invariant finalArgs[0] == Sender
      invariant forall t :: 1 <= t < i ==> finalArgs[t] == ArgValue(info, fixedArgs, t - 1)
    {
      var j := i - 1;
      if info.endless && finalArgs.Length == i + 1 {
        var longStr: seq<string> := [];
        var k := j;
        while k < |fixedArgs|
          invariant j <= k <= |fixedArgs|
          invariant longStr == fixedArgs[j..k]
        {
          longStr := longStr + [fixedArgs[k]];
          k := k + 1;
        }
        assert fixedArgs[j..|fixedArgs|] == fixedArgs[j..];
        finalArgs[i] := Joined(Join(" ", longStr));
        i := i + 1;
        break;
      }
      finalArgs[i] := Converted(info.args[j], fixedArgs[j]);
      i := i + 1;
    }
    assert i == finalArgs.Length;
  }

  /** passFilters: the OR loop stops at the first pass, the AND loop at the first failure. */
  method CheckFilters(filters: Option<FilterSet>, obj: Value, host: Host) returns (pass: bool)
    ensures pass == PassFilters(filters, obj, host)
  {
    if filters.None? {
      return true;
    }
    var orFilters := filters.value.orFilters;
    var andFilters := filters.value.andFilters;
    var passOr := true;
    var passAnd := true;
    var i := 0;
    while i < |orFilters|
      invariant 0 <= i <= |orFilters|
      invariant forall t :: 0 <= t < i ==> !host.passes(orFilters[t], obj)
      invariant passOr <==> i == 0
    {
      if host.passes(orFilters[i], obj) {
        passOr := true;
        break;
      }
      passOr := false;
      i := i + 1;
    }
    var j := 0;
    while j < |andFilters|
      invariant 0 <= j <= |andFilters|
      invariant passAnd && forall t :: 0 <= t < j ==> host.passes(andFilters[t], obj)
    {
      if !host.passes(andFilters[j], obj) {
        passAnd := false;
        break;
      }
      j := j + 1;
    }
    pass := passOr && passAnd;
  }

  /** The argument-filter loop: the index of the first argument whose value its filters reject. */
  method FirstRejected(info: CommandInfo, finalArgs: array<Value>, host: Host) returns (k: nat)
    requires finalArgs.Length == |info.args| + 1
    ensures k == FirstFailingArg(info, finalArgs[..], host, 0)
  {
    var j := 1;
    while j < finalArgs.Length
      invariant 1 <= j <= finalArgs.Length
      invariant forall t :: 1 <= t < j ==> PassFilters(info.args[t - 1].filters, finalArgs[t], host)
      invariant FirstFailingArg(info, finalArgs[..], host, 0) == FirstFailingArg(info, finalArgs[..], host, j - 1)
    {
      var arg := info.args[j - 1];
      var passArgsFilters := CheckFilters(arg.filters, finalArgs[j], host);
      if !passArgsFilters {
        return j - 1;
      }
      j := j + 1;
    }
    return j - 1;
  }

  /** The body of execute's inner loop for one variant. */
  method TryVariant(info: CommandInfo, fixedArgs: seq<string>, host: Host, st: State) returns (step: Step)
    ensures step == StepOf(Candidate(info, fixedArgs), host, st)
  {
    if !info.endless && |info.args| != |fixedArgs| {
      return Continue(st);
    }
    if info.endless && |info.args| > |fixedArgs| {
      return Continue(st);
    }
    var correctTypes := CorrectTypes(info, fixedArgs, host);
    if correctTypes.Err? {
      return Stop(Thrown(correctTypes.error));
    }
    if !correctTypes.value {
      return Continue(st);
    }
    if info.playerRequired && !host.isPlayer {
      return Continue(st.(found := true));
    }
    if !HasPermission(info.permissions, host.holds) {
      return Stop(NoPermission);
    }
    var finalArgs := BuildFinalArgs(info, fixedArgs);
    var passSourceFilters := CheckFilters(info.sourceFilters, Sender, host);
    if !passSourceFilters {
      return Continue(State(true, Some(Failure(info.sourceFilters, Sender))));
    }
    var k := FirstRejected(info, finalArgs, host);
    if k < |info.args| {
      return Continue(State(true, Some(Failure(info.args[k].filters, finalArgs[k + 1]))));
    }
    return Stop(Invoked(info, finalArgs[..]));
  }

  lemma RunCons(c: Candidate, rest: seq<Candidate>, host: Host, st: State)
    ensures var step := StepOf(c, host, st);
      Run([c] + rest, host, st) == if step.Stop? then step.outcome else Run(rest, host, step.state)
  {
    assert ([c] + rest)[0] == c && ([c] + rest)[1..] == rest;
  }

  lemma CandidatesCons(paths: seq<Entry>, args: seq<string>, i: nat)
    requires AllFit(paths, args) && i < |paths|
    ensures AllFit(paths[i + 1..], args) && AllFit(paths[i..], args)
    ensures Candidates(paths[i..], args)
         == VariantCandidates(paths[i].variants, args[|paths[i].path|..]) + Candidates(paths[i + 1..], args)
  {
    assert paths[i..][0] == paths[i] && paths[i..][1..] == paths[i + 1..];
    assert AllFit(paths[i..], args) by {
      forall t | 0 <= t < |paths[i..]| ensures |paths[i..][t].path| <= |args| {
        assert paths[i..][t] == paths[i + t];
      }
    }
  }

  lemma VariantsCons(variants: seq<CommandInfo>, fixed: seq<string>, j: nat, rest: seq<Candidate>)
    requires j < |variants|
    ensures VariantCandidates(variants[j..], fixed) + rest
         == [Candidate(variants[j], fixed)] + (VariantCandidates(variants[j + 1..], fixed) + rest)
  {
    var a := VariantCandidates(variants[j..], fixed);
    var b := VariantCandidates(variants[j + 1..], fixed);
    assert a == [Candidate(variants[j], fixed)] + b;
  }

  /** execute: try every variant of every matching path in order, then report. */
  method Execute(entries: seq<Entry>, args: seq<string>, host: Host) returns (outcome: Outcome)
    ensures outcome == Dispatch(entries, args, host)
  {
    var possiblePaths := PossiblePaths(entries, args);
    assert AllFit(possiblePaths, args);
    var found := false;
    var failed: Option<Failure> := None;
    var i := 0;
    assert possiblePaths[0..] == possiblePaths;
    while i < |possiblePaths|
      invariant 0 <= i <= |possiblePaths|
      invariant AllFit(possiblePaths[i..], args)
      invariant Dispatch(entries, args, host) == Run(Candidates(possiblePaths[i..], args), host, State(found, failed))
    {
      var path := possiblePaths[i];
      var fixedArgs := args[|path.path|..];
      CandidatesCons(possiblePaths, args, i);
      var rest := Candidates(possiblePaths[i + 1..], args);
      var j := 0;
      assert path.variants[0..] == path.variants;
      while j < |path.variants|
        invariant 0 <= j <= |path.variants|
        invariant Dispatch(entries, args, host)
               == Run(VariantCandidates(path.variants[j..], fixedArgs) + rest, host, State(found, failed))
      {
        VariantsCons(path.variants, fixedArgs, j, rest);
        RunCons(Candidate(path.variants[j], fixedArgs), VariantCandidates(path.variants[j + 1..], fixedArgs) + rest,
                host, State(found, failed));
        var step := TryVariant(path.variants[j], fixedArgs, host, State(found, failed));
        if step.Stop? {
          return step.outcome;
        }
        found, failed := step.state.found, step.state.failed;
        j := j + 1;
      }
      assert VariantCandidates(path.variants[j..], fixedArgs) == [];
      assert VariantCandidates(path.variants[j..], fixedArgs) + rest == rest;
      i := i + 1;
    }
    assert Candidates(possiblePaths[i..], args) == [];
    if found {
      if failed.Some? {
        return FilterMessages(failed.value);
      }
      return OnlyPlayer;
    }
    return Help;
  }
}
