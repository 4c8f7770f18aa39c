/**
 * The data EnhancedCommand keeps per subcommand variant (CommandInfo and
 * CommandArg), and the usage string it prints for a variant.
 */
module CommandModel {
  import opened Wrappers
  import opened JavaString

  /** Parameter types the scan distinguishes; every other class is an opaque type id. */
  datatype ParamType = PlayerType | SenderType | StringType | OtherType(id: nat)

  /** A @Filter annotation: the ids of its OR filters and of its AND filters. */
  datatype FilterSet = FilterSet(orFilters: seq<nat>, andFilters: seq<nat>)

  /** CommandArg: the argument's class, its optional custom parser, its optional filters, its name. */
  datatype CommandArg = CommandArg(clazz: ParamType, customParser: Option<nat>, filters: Option<FilterSet>, name: string)

  /** CommandInfo without the reflective method handle and the description. */
  datatype CommandInfo = CommandInfo(
    pathStr: string,
    path: seq<string>,
    permissions: seq<string>,
    playerRequired: bool,
    sourceFilters: Option<FilterSet>,
    args: seq<CommandArg>,
    endless: bool,
    hidden: bool)

  /** The " <name>" pieces getCommandStr appends, one per argument, in order. */
  function ArgsUsage(args: seq<CommandArg>): string
  {
    if args == [] then "" else ArgsUsage(args[..|args| - 1]) + " <" + args[|args| - 1].name + ">"
  }

  function Bracketed(args: seq<CommandArg>): (r: seq<string>)
    ensures |r| == |args| && forall i :: 0 <= i < |args| ==> r[i] == "<" + args[i].name + ">"
  {
    if args == [] then [] else Bracketed(args[..|args| - 1]) + ["<" + args[|args| - 1].name + ">"]
  }

  /** getCommandStr: "/" and the command name, the path text when the path has segments, then " <name>" per argument. */
  function CommandStr(cmdName: string, info: CommandInfo): string
  {
    "/" + cmdName + (if |info.path| > 0 then " " + info.pathStr else "") + ArgsUsage(info.args)
  }

  lemma {:induction false} JoinAppend(a: seq<string>, b: seq<string>)
    requires |a| >= 1 && |b| >= 1
    ensures Join(" ", a + b) == Join(" ", a) + " " + Join(" ", b)
    decreases |b|
  {
    if |b| == 1 {
      assert b == [b[0]];
      JoinSnoc(" ", a, b[0]);
    } else {
      var b' := b[..|b| - 1];
      assert a + b == (a + b') + [b[|b| - 1]];
      JoinAppend(a, b');
      JoinSnoc(" ", a + b', b[|b| - 1]);
      assert b == b' + [b[|b| - 1]];
      JoinSnoc(" ", b', b[|b| - 1]);
    }
  }

  lemma {:induction false} ArgsUsageJoin(args: seq<CommandArg>)
    ensures ArgsUsage(args) == if args == [] then "" else " " + Join(" ", Bracketed(args))
    decreases |args|
  {
    if |args| > 1 {
      var init := args[..|args| - 1];
      ArgsUsageJoin(init);
      assert Bracketed(args) == Bracketed(init) + ["<" + args[|args| - 1].name + ">"];
      JoinSnoc(" ", Bracketed(init), "<" + args[|args| - 1].name + ">");
    } else if |args| == 1 {
      assert args[..0] == [];
    }
  }

  /**
   * For a path whose text is its segments joined by spaces, the usage string
   * is the words "/cmd", the segments and "<name>" per argument, joined by single spaces.
   */
  lemma CommandStrWords(cmdName: string, info: CommandInfo)
    requires info.pathStr == Join(" ", info.path)
    ensures CommandStr(cmdName, info) == Join(" ", ["/" + cmdName] + info.path + Bracketed(info.args))
  {
    ArgsUsageJoin(info.args);
    var head := ["/" + cmdName];
    if |info.path| > 0 {
      JoinAppend(head, info.path);
      if info.args != [] {
        JoinAppend(head + info.path, Bracketed(info.args));
      } else {
        assert head + info.path + Bracketed(info.args) == head + info.path;
      }
    } else {
      assert head + info.path == head;
      if info.args != [] {
        JoinAppend(head, Bracketed(info.args));
      } else {
        assert head + info.path + Bracketed(info.args) == head;
      }
    }
  }
}
