/** CommandController: the plugin tag and the group path of a command class. */
module CommandControl {
  import opened JavaString

  /** pluginTag: the plugin name lower-cased, with '-' replaced by '_'. */
  function PluginTag(pluginName: string): (tag: string)
    ensures |tag| == |pluginName|
    ensures forall i :: 0 <= i < |tag| ==> tag[i] == if ToLower(pluginName[i]) == '-' then '_' else ToLower(pluginName[i])
  {
    ReplaceChar(LowerCase(pluginName), '-', '_');
    Replace(LowerCase(pluginName), "-", "_")
  }

  /** The tag has no '-' and no upper-case letter. */
  lemma TagIsSnakeLower(pluginName: string)
    ensures var tag := PluginTag(pluginName);
      '-' !in tag && forall i :: 0 <= i < |tag| ==> !IsUpper(tag[i])
  {
  }

  /** The text the StringBuilder holds: each piece followed by '.'. */
  function Dotted(pieces: seq<string>): string
  {
    if pieces == [] then "" else Dotted(pieces[..|pieces| - 1]) + pieces[|pieces| - 1] + "."
  }

  /**
   * The group path of a class whose dotted name has segments `segs`, for a
   * package of `k` segments: the segments after the package and before the
   * simple name, joined by dots.
   */
  function GroupPathOf(segs: seq<string>, k: nat): string
  {
    if k < |segs| - 1 then Join(".", segs[k..|segs| - 1]) else ""
  }

  /** The group-path computation of registerCommands for a class name and the commands package. */
  method GroupPath(className: string, commandsPackage: string) returns (groupPath: string)
    ensures groupPath == GroupPathOf(Split(className, '.'), |Split(commandsPackage, '.')|)
  {
    var segs := Split(className, '.');
    var k := |Split(commandsPackage, '.')|;
    groupPath := BuildGroupPath(segs, k);
  }

  /** The loop appending each segment and a '.', then the deletion of the trailing '.'. */
  method BuildGroupPath(segs: seq<string>, k: nat) returns (groupPath: string)
    ensures groupPath == GroupPathOf(segs, k)
  {
    var finalPath := "";
    var i := k;
    while i < |segs| - 1
      invariant i == k || k < i <= |segs| - 1
      invariant finalPath == if i == k then "" else Dotted(segs[k..i])
    {
      assert segs[k..i + 1][..i - k] == segs[k..i];
      assert i == k ==> segs[k..i + 1] == [segs[i]];
      finalPath := finalPath + segs[i] + ".";
      i := i + 1;
    }
    if |finalPath| > 0 {
      finalPath := finalPath[..|finalPath| - 1];
    }
    groupPath := finalPath;
    if k < |segs| - 1 {
      DottedJoin(segs[k..|segs| - 1]);
    }
  }

  lemma {:induction false} DottedJoin(pieces: seq<string>)
    requires pieces != []
    ensures Dotted(pieces) == Join(".", pieces) + "."
    decreases |pieces|
  {
    var init := pieces[..|pieces| - 1];
    if init == [] {
      assert pieces == [pieces[0]];
    } else {
      DottedJoin(init);
      assert pieces == init + [pieces[|pieces| - 1]];
      JoinSnoc(".", init, pieces[|pieces| - 1]);
    }
  }

  predicate SimpleSegments(segs: seq<string>)
  {
    forall i :: 0 <= i < |segs| ==> segs[i] != "" && '.' !in segs[i]
  }

  /** A class <package>.<group...>.<Simple> gets the group segments joined by dots. */
  lemma GroupPathOfClass(pkg: seq<string>, group: seq<string>, simple: string)
    requires |pkg| >= 1 && SimpleSegments(pkg) && SimpleSegments(group) && SimpleSegments([simple])
    ensures var segs := Split(Join(".", pkg + group + [simple]), '.');
      GroupPathOf(segs, |Split(Join(".", pkg), '.')|) == Join(".", group)
  {
    var all := pkg + group + [simple];
    assert SimpleSegments(all);
    SplitJoin(all, '.');
    SplitJoin(pkg, '.');
    assert all[|pkg|..|all| - 1] == group;
    if group == [] {
      assert Join(".", group) == "";
    }
  }

  /** A class directly in the commands package has no group. */
  lemma DirectClassHasNoGroup(pkg: seq<string>, simple: string)
    requires |pkg| >= 1 && SimpleSegments(pkg) && SimpleSegments([simple])
    ensures GroupPathOf(Split(Join(".", pkg + [simple]), '.'), |Split(Join(".", pkg), '.')|) == ""
  {
    GroupPathOfClass(pkg, [], simple);
    assert pkg + [] + [simple] == pkg + [simple];
  }

  /** The group path never ends with '.' when the class name's segments are non-empty. */
  lemma NoTrailingDot(segs: seq<string>, k: nat)
    requires SimpleSegments(segs)
    ensures var g := GroupPathOf(segs, k); g == "" || g[|g| - 1] != '.'
  {
    if k < |segs| - 1 {
      var pieces := segs[k..|segs| - 1];
      JoinEnds(pieces);
    }
  }

  lemma {:induction false} JoinEnds(pieces: seq<string>)
    requires pieces != [] && pieces[|pieces| - 1] != ""
    ensures var j := Join(".", pieces); |j| > 0 && j[|j| - 1] == pieces[|pieces| - 1][|pieces[|pieces| - 1]| - 1]
    decreases |pieces|
  {
    if |pieces| > 1 {
      JoinEnds(pieces[1..]);
    }
  }
}
