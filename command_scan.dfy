/**
 * The declaration side of EnhancedCommand: the command name taken from the
 * class name, the permission nodes of each subcommand, and the variant a
 * command method declares.
 */
module CommandScan {
  import opened Wrappers
  import opened JavaString
  import opened CommandPaths
  import opened CommandModel

  /** The command name: the simple class name lower-cased, then one replace pass removing "command". */
  function CommandName(simpleName: string): (r: string)
    ensures |r| <= |simpleName|
    ensures !Contains(LowerCase(simpleName), "command") ==> r == LowerCase(simpleName)
  {
    RemoveShortens(LowerCase(simpleName), "command");
    Replace(LowerCase(simpleName), "command", "")
  }

  lemma RemoveShortens(s: string, t: string)
    requires |t| > 0
    ensures |Replace(s, t, "")| <= |s|
    ensures !Contains(s, t) ==> Replace(s, t, "") == s
  {
    ReplaceLength(s, t, "");
    if !Contains(s, t) {
      ReplaceAbsent(s, t, "");
    }
  }

  /** A class named <p>Command, with no 'c' in p, is the command p lower-cased. */
  lemma SuffixRemoved(p: string, simpleName: string)
    requires forall i :: 0 <= i < |p| ==> ToLower(p[i]) != 'c'
    requires simpleName == p + "Command"
    ensures CommandName(simpleName) == LowerCase(p)
  {
    SuffixRemovedOn(p, "Command");
  }

  lemma SuffixRemovedOn(p: string, suffix: string)
    requires forall i :: 0 <= i < |p| ==> ToLower(p[i]) != 'c'
    requires LowerCase(suffix) == "command"
    ensures Replace(LowerCase(p + suffix), "command", "") == LowerCase(p)
  {
    var lp := LowerCase(p);
    LowerCaseAppend(p, suffix);
    var l := LowerCase(p + suffix);
    var word := "command";
    assert 'c' !in lp;
    assert l == lp + word + "";
    IndexOfAfter(lp, word, "");
    assert l[..|lp|] == lp && l[|lp| + 7..] == "";
  }

  lemma FirstOccurrence(s: string, t: string, i: nat)
    requires |t| > 0 && OccursAt(s, t, i)
    requires forall j :: 0 <= j < i ==> !OccursAt(s, t, j)
    ensures IndexOf(s, t) == Some(i)
  {
  }

  lemma Mismatch(s: string, t: string, j: nat, k: nat)
    requires k < |t| && j + k < |s| && s[j + k] != t[k]
    ensures !OccursAt(s, t, j)
  {
    if j + |t| <= |s| {
      assert s[j..j + |t|][k] == s[j + k];
    }
  }

  /** The pass removes each occurrence once, so "command" can be left behind by the text around an occurrence. */
  lemma SinglePassLeavesCommand(simpleName: string)
    requires simpleName == "CommCommandAnd"
    ensures CommandName(simpleName) == "command"
  {
    SinglePassOn(LowerCase(simpleName));
  }

  lemma SinglePassOn(l: string)
    requires l == "commcommandand"
    ensures Replace(l, "command", "") == "command"
  {
    assert l[4..11] == "command";
    Mismatch(l, "command", 0, 4);
    Mismatch(l, "command", 1, 0);
    Mismatch(l, "command", 2, 0);
    Mismatch(l, "command", 3, 0);
    FirstOccurrence(l, "command", 4);
    var rest := l[11..];
    assert rest == "and";
    assert !Contains(rest, "command");
    ReplaceAbsent(rest, "command", "");
    assert l[..4] == "comm";
    assert "comm" + "" + "and" == "command";
  }

  /**
   * "command." + group + "." + cmd + "." + tail, with ".." replaced by "."
   * in one pass, as every generated node is.
   */
  function Node(groupPath: string, cmdName: string, tail: string): string
  {
    Replace("command." + groupPath + "." + cmdName + "." + tail, "..", ".")
  }

  /** The state of a fresh CommandPath after adding its first `k` segments. */
  function PrefixState(segs: seq<string>, k: nat): (string, seq<string>)
    requires k <= |segs|
  {
    if k == 0 then ("", []) else
      var (s, p) := PrefixState(segs, k - 1);
      AddedState(s, p, segs[k - 1])
  }

  /** The ".*" node of the first `k` prefixes of the segments. */
  function Wildcards(groupPath: string, cmdName: string, segs: seq<string>, k: nat): (r: seq<string>)
    requires k <= |segs|
    ensures |r| == k
  {
    if k == 0 then []
    else Wildcards(groupPath, cmdName, segs, k - 1) + [Node(groupPath, cmdName, Join(".", PrefixState(segs, k).1) + ".*")]
  }

  /** How many wildcard prefixes a subcommand gets: all of its path for a main command, all but the last segment otherwise. */
  function PrefixCount(segs: seq<string>, mainCommand: bool): (m: nat)
    ensures m <= |segs|
  {
    if mainCommand then |segs| else if |segs| == 0 then 0 else |segs| - 1
  }

  function OptionList(o: Option<string>): (r: seq<string>)
    ensures |r| == (if o.Some? then 1 else 0)
  {
    if o.Some? then [o.value] else []
  }

  function SpecificNode(groupPath: string, cmdName: string, segs: seq<string>, name: string, mainCommand: bool): string
  {
    if mainCommand then Node(groupPath, cmdName, Join(".", segs) + "." + name)
    else Node(groupPath, cmdName, Join(".", segs))
  }

  /**
   * The nodes after the prefix wildcards: the command wildcard (the text
   * "command.<group>.<cmd>.*"), the group wildcard when there is a group,
   * "command.*", then the class and the method custom permissions.
   */
  function TailNodes(groupPath: string, cmdName: string, customGlobal: Option<string>, custom: Option<string>): seq<string>
  {
    [Node(groupPath, cmdName, "*")]
    + (if groupPath != "" then [Replace("command." + groupPath + ".*", "..", ".")] else [])
    + ["command.*"]
    + OptionList(customGlobal) + OptionList(custom)
  }

  /** The permission list scanClass builds for a subcommand whose path segments are `segs`. */
  function PermissionNodes(groupPath: string, cmdName: string, segs: seq<string>, name: string, mainCommand: bool,
                           withoutPermission: bool, globalWithoutPermission: bool,
                           customGlobal: Option<string>, custom: Option<string>): seq<string>
  {
    if withoutPermission || globalWithoutPermission then []
    else
      [SpecificNode(groupPath, cmdName, segs, name, mainCommand)]
      + Wildcards(groupPath, cmdName, segs, PrefixCount(segs, mainCommand))
      + TailNodes(groupPath, cmdName, customGlobal, custom)
  }

  /** The permission part of scanClass. */
  method DerivePermissions(groupPath: string, cmdName: string, newPath: CommandPath, name: string, mainCommand: bool,
                           withoutPermission: bool, globalWithoutPermission: bool,
                           customGlobal: Option<string>, custom: Option<string>) returns (permissions: seq<string>)
    ensures permissions == PermissionNodes(groupPath, cmdName, newPath.path, name, mainCommand,
                                           withoutPermission, globalWithoutPermission, customGlobal, custom)
  {
    permissions := [];
    if !withoutPermission && !globalWithoutPermission {
      var permissionStr := newPath.PermissionStr();
      var specific := if mainCommand then Node(groupPath, cmdName, permissionStr + "." + name)
                      else Node(groupPath, cmdName, permissionStr);
      assert specific == SpecificNode(groupPath, cmdName, newPath.path, name, mainCommand);
      permissions := [specific];
      var maxLength := |newPath.path|;
      if !mainCommand {
        maxLength := maxLength - 1;
      }
      var wildcards := PrefixWildcards(groupPath, cmdName, newPath, maxLength);
      permissions := permissions + wildcards;
      var tail := FixedTail(groupPath, cmdName, customGlobal, custom);
      assert wildcards == Wildcards(groupPath, cmdName, newPath.path, PrefixCount(newPath.path, mainCommand));
      permissions := permissions + tail;
    }
  }

  /** The nodes scanClass adds after the wildcard loop. */
  method FixedTail(groupPath: string, cmdName: string, customGlobal: Option<string>, custom: Option<string>) returns (tail: seq<string>)
    ensures tail == TailNodes(groupPath, cmdName, customGlobal, custom)
  {
    tail := [Node(groupPath, cmdName, "*")];
    if groupPath != "" {
      tail := tail + [Replace("command." + groupPath + ".*", "..", ".")];
    }
    tail := tail + ["command.*"];
    if customGlobal.Some? {
      tail := tail + [customGlobal.value];
    }
    if custom.Some? {
      tail := tail + [custom.value];
    }
  }

  /** The loop of scanClass adding one segment at a time to a fresh CommandPath and emitting its ".*" node. */
  method PrefixWildcards(groupPath: string, cmdName: string, newPath: CommandPath, maxLength: int) returns (wildcards: seq<string>)
    requires maxLength == |newPath.path| || maxLength == |newPath.path| - 1
    ensures wildcards == Wildcards(groupPath, cmdName, newPath.path, if maxLength < 0 then 0 else maxLength)
  {
    wildcards := [];
    var permissionsPath := new CommandPath.Empty();
    var i := 0;
    while i < maxLength
      invariant 0 <= i <= |newPath.path| && (maxLength >= 0 ==> i <= maxLength)
      invariant (permissionsPath.pathStr, permissionsPath.path) == PrefixState(newPath.path, i)
      invariant wildcards == Wildcards(groupPath, cmdName, newPath.path, i)
    {
      permissionsPath.Add(newPath.path[i]);
      wildcards := wildcards + [Node(groupPath, cmdName, permissionsPath.PermissionStr() + ".*")];
      i := i + 1;
    }
  }

  /** The list is empty exactly when the method or its class carries @WithoutPermission. */
  lemma PermissionsEmptyIff(groupPath: string, cmdName: string, segs: seq<string>, name: string, mainCommand: bool,
                            withoutPermission: bool, globalWithoutPermission: bool,
                            customGlobal: Option<string>, custom: Option<string>)
    ensures PermissionNodes(groupPath, cmdName, segs, name, mainCommand, withoutPermission, globalWithoutPermission, customGlobal, custom) == []
        <==> withoutPermission || globalWithoutPermission
  {
  }

  /**
   * Without @WithoutPermission the specific node comes first, "command.*" is
   * always granted, the custom permissions come last, and the list has one
   * node per counted prefix plus the fixed ones.
   */
  lemma PermissionsLayout(groupPath: string, cmdName: string, segs: seq<string>, name: string, mainCommand: bool,
                          customGlobal: Option<string>, custom: Option<string>)
    ensures var r := PermissionNodes(groupPath, cmdName, segs, name, mainCommand, false, false, customGlobal, custom);
      var c := 3 + PrefixCount(segs, mainCommand) + (if groupPath != "" then 1 else 0);
      && |r| == c + |OptionList(customGlobal)| + |OptionList(custom)|
      && r[0] == SpecificNode(groupPath, cmdName, segs, name, mainCommand)
      && r[c - 1] == "command.*"
      && r[c..] == OptionList(customGlobal) + OptionList(custom)
  {
    var m := PrefixCount(segs, mainCommand);
    var g := if groupPath != "" then 1 else 0;
    var t := TailNodes(groupPath, cmdName, customGlobal, custom);
    TailLayout(groupPath, cmdName, customGlobal, custom);
    var w := Wildcards(groupPath, cmdName, segs, m);
    assert |w| == m;
    ConcatLayout(SpecificNode(groupPath, cmdName, segs, name, mainCommand), w, t, g, OptionList(customGlobal) + OptionList(custom));
  }

  lemma ConcatLayout(first: string, w: seq<string>, t: seq<string>, g: nat, customs: seq<string>)
    requires |t| == g + 2 + |customs| && t[g + 1] == "command.*" && t[g + 2..] == customs
    ensures var r := [first] + w + t;
      && |r| == 3 + |w| + g + |customs|
      && r[0] == first
      && r[3 + |w| + g - 1] == "command.*"
      && r[3 + |w| + g..] == customs
  {
    var r := [first] + w + t;
    assert r[1 + |w| + g + 1] == t[g + 1];
    assert r[1 + |w| + g + 2..] == t[g + 2..];
  }

  lemma TailLayout(groupPath: string, cmdName: string, customGlobal: Option<string>, custom: Option<string>)
    ensures var t := TailNodes(groupPath, cmdName, customGlobal, custom);
      var g := if groupPath != "" then 1 else 0;
      && |t| == g + 2 + |OptionList(customGlobal)| + |OptionList(custom)|
      && t[g + 1] == "command.*"
      && t[g + 2..] == OptionList(customGlobal) + OptionList(custom)
  {
    var g := if groupPath != "" then 1 else 0;
    var customs := OptionList(customGlobal) + OptionList(custom);
    var fixed := [Node(groupPath, cmdName, "*")]
      + (if groupPath != "" then [Replace("command." + groupPath + ".*", "..", ".")] else []) + ["command.*"];
    assert TailNodes(groupPath, cmdName, customGlobal, custom) == fixed + customs;
    assert |fixed| == g + 2 && fixed[g + 1] == "command.*";
  }

  /** Adding canonical segments one at a time to an empty path yields exactly those segments. */
  lemma {:induction false} PrefixStateCanonical(segs: seq<string>, k: nat)
    requires k <= |segs| && Canonical(segs)
    ensures PrefixState(segs, k) == (Join(" ", segs[..k]), segs[..k])
  {
    if k > 0 {
      var prev, e := segs[..k - 1], segs[k - 1];
      assert prev + [e] == segs[..k];
      PrefixStateCanonical(segs, k - 1);
      assert PrefixState(segs, k) == AddedState(Join(" ", prev), prev, e);
      assert Canonical(prev) by {
        forall i | 0 <= i < |prev| ensures prev[i] != "" && ' ' !in prev[i] {
          assert prev[i] == segs[i];
        }
      }
      assert e != "" && ' ' !in e;
      AddAppends(Join(" ", prev), prev, e);
    } else {
      assert segs[..0] == [];
    }
  }

  /** On a canonical path the i-th wildcard is the dotted prefix of i + 1 segments followed by ".*". */
  lemma {:induction false} WildcardsCanonical(groupPath: string, cmdName: string, segs: seq<string>, k: nat)
    requires k <= |segs| && Canonical(segs)
    ensures forall i :: 0 <= i < k ==>
      Wildcards(groupPath, cmdName, segs, k)[i] == Node(groupPath, cmdName, Join(".", segs[..i + 1]) + ".*")
  {
    if k > 0 {
      WildcardsCanonical(groupPath, cmdName, segs, k - 1);
      PrefixStateCanonical(segs, k);
    }
  }

  /** A plain subcommand "give" of the command "eco" outside any group has three nodes. */
  lemma GiveExample()
    ensures PermissionNodes("", "eco", ["give"], "give", false, false, false, None, None)
         == ["command.eco.give", "command.eco.*", "command.*"]
  {
    assert PrefixCount(["give"], false) == 0;
    assert Wildcards("", "eco", ["give"], 0) == [];
    assert Join(".", ["give"]) == "give";
    NodeCollapses("eco", "give");
    assert "command." + "eco" + "." + "give" == "command.eco.give";
    NodeCollapses("eco", "*");
    assert "command." + "eco" + "." + "*" == "command.eco.*";
    assert TailNodes("", "eco", None, None) == [Node("", "eco", "*")] + ["command.*"];
  }

  lemma NodeCollapses(cmd: string, tail: string)
    requires '.' !in cmd && '.' !in tail && |tail| > 0
    ensures Node("", cmd, tail) == "command." + cmd + "." + tail
  {
    var raw := "command." + "" + "." + cmd + "." + tail;
    assert raw == "command" + ".." + (cmd + "." + tail);
    AbsentChar("command", '.');
    IndexOfAfter("command", "..", cmd + "." + tail);
    assert raw[..7] == "command";
    assert raw[7 + 2..] == cmd + "." + tail;
    NoDoubleDot(cmd, tail);
    ReplaceAbsent(cmd + "." + tail, "..", ".");
  }

  lemma NoDoubleDot(a: string, b: string)
    requires '.' !in a && '.' !in b && |b| > 0
    ensures !Contains(a + "." + b, "..")
  {
    var s := a + "." + b;
    forall j | 0 <= j <= |s| ensures !OccursAt(s, "..", j) {
      if j + 2 <= |s| {
        assert s[j..j + 2][0] == s[j] && s[j..j + 2][1] == s[j + 1];
        if j < |a| {
          assert s[j] == a[j];
        } else if j == |a| {
          assert s[j + 1] == b[0];
        } else {
          assert s[j] == b[j - |a| - 1];
        }
      }
    }
  }

  /** Parameter as the scan sees it: name, class, whether it carries @LongString, its @Filter and its @Parser. */
  datatype Param = Param(name: string, clazz: ParamType, longString: bool, filters: Option<FilterSet>, customParser: Option<nat>)

  /** A declared method with the annotations the scan reads; `params` includes the source parameter first. */
  datatype MethodDecl = MethodDecl(
    name: string,
    synthetic: bool,
    ignored: bool,
    mainCommand: bool,
    withoutPermission: bool,
    customPermission: Option<string>,
    hidden: bool,
    params: seq<Param>)

  /** Whether the last parameter makes the variant endless: a String carrying @LongString, after at least one argument. */
  predicate IsEndless(params: seq<Param>)
  {
    |params| >= 2 && params[|params| - 1].clazz == StringType && params[|params| - 1].longString
  }

  /** The arguments, one per parameter after the source, the endless one renamed to "[name]". */
  function ArgsOf(params: seq<Param>): (args: seq<CommandArg>)
    requires |params| >= 1
    ensures |args| == |params| - 1
    ensures forall i :: 0 <= i < |args| ==>
      args[i].clazz == params[i + 1].clazz && args[i].filters == params[i + 1].filters
      && args[i].customParser == params[i + 1].customParser
    ensures forall i :: 0 <= i < |args| ==>
      args[i].name == if IsEndless(params) && i == |args| - 1 then "[" + params[i + 1].name + "]" else params[i + 1].name
  {
    var plain := seq(|params| - 1, i requires 0 <= i < |params| - 1 =>
      CommandArg(params[i + 1].clazz, params[i + 1].customParser, params[i + 1].filters, params[i + 1].name));
    if IsEndless(params) then
      plain[|plain| - 1 := plain[|plain| - 1].(name := "[" + params[|params| - 1].name + "]")]
    else plain
  }

  /** Whether scanClass turns the method into a variant: not synthetic, not @Ignore, with a Player or CommandSender source. */
  predicate IsCommandMethod(m: MethodDecl)
  {
    !m.synthetic && !m.ignored && |m.params| >= 1
    && (m.params[0].clazz == PlayerType || m.params[0].clazz == SenderType)
  }

  /**
   * The variant scanClass records for method `m` of a class whose path is
   * (classPathStr, classPath), or None when the method is skipped.
   */
  function Declare(m: MethodDecl, classPathStr: string, classPath: seq<string>, groupPath: string, cmdName: string,
                   customGlobal: Option<string>, globalWithoutPermission: bool): (r: Option<CommandInfo>)
    ensures r.Some? <==> IsCommandMethod(m)
    ensures r.Some? ==> (r.value.playerRequired <==> m.params[0].clazz == PlayerType)
    ensures r.Some? ==> r.value.endless == IsEndless(m.params) && r.value.args == ArgsOf(m.params)
    ensures r.Some? ==> r.value.sourceFilters == m.params[0].filters && r.value.hidden == m.hidden
    ensures r.Some? ==> (r.value.pathStr, r.value.path) == AddedState(classPathStr, classPath, if m.mainCommand then "" else LowerCase(m.name))
    ensures r.Some? ==>
      r.value.permissions == PermissionNodes(groupPath, cmdName, r.value.path, LowerCase(m.name), m.mainCommand,
                                             m.withoutPermission, globalWithoutPermission, customGlobal, m.customPermission)
  {
    if !IsCommandMethod(m) then None
    else
      var name := LowerCase(m.name);
      var (s, p) := AddedState(classPathStr, classPath, if m.mainCommand then "" else name);
      Some(CommandInfo(s, p,
        PermissionNodes(groupPath, cmdName, p, name, m.mainCommand, m.withoutPermission, globalWithoutPermission, customGlobal, m.customPermission),
        m.params[0].clazz == PlayerType, m.params[0].filters, ArgsOf(m.params), IsEndless(m.params), m.hidden))
  }

  /** A main command keeps its class's path, since adding "" changes nothing. */
  lemma MainKeepsClassPath(m: MethodDecl, classPathStr: string, classPath: seq<string>, groupPath: string, cmdName: string,
                           customGlobal: Option<string>, globalWithoutPermission: bool)
    requires IsCommandMethod(m) && m.mainCommand
    ensures var r := Declare(m, classPathStr, classPath, groupPath, cmdName, customGlobal, globalWithoutPermission);
      r.value.pathStr == classPathStr && r.value.path == classPath
  {
    assert Replace("", " ", "") == "";
  }

  /** A nested class's path is its outer path plus its lower-cased simple name. */
  function NestedPath(outerStr: string, outer: seq<string>, simpleName: string): (string, seq<string>)
  {
    AddedState(outerStr, outer, LowerCase(simpleName))
  }
}
