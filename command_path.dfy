/** CommandPath: the words leading to a subcommand, as one string and as its space-separated segments. */
module CommandPaths {
  import opened Wrappers
  import opened JavaString

  /** The new (pathStr, path) once `add(element)` has run on (pathStr, path). */
  function AddedState(pathStr: string, path: seq<string>, element: string): (string, seq<string>)
  {
    if Replace(element, " ", "") == "" then (pathStr, path)
    else
      var s := pathStr + (if pathStr == "" then "" else " ") + element;
      (s, Split(s, ' '))
  }

  /** Segments as the subcommand scan produces them: none empty, none holding a space. */
  predicate Canonical(path: seq<string>)
  {
    forall i :: 0 <= i < |path| ==> path[i] != "" && ' ' !in path[i]
  }

  class CommandPath {
    var pathStr: string
    var path: seq<string>

    /** new CommandPath(): the empty path. */
    constructor Empty()
      ensures pathStr == "" && path == []
    {
      pathStr := "";
      path := [];
    }

    /** new CommandPath(String[] path): the segments joined by spaces. */
    constructor FromSegments(segments: seq<string>)
      ensures path == segments && pathStr == Join(" ", segments)
    {
      path := segments;
      pathStr := Join(" ", segments);
    }

    /** new CommandPath(String pathStr): the text split on spaces. */
    constructor FromString(s: string)
      ensures pathStr == s && path == Split(s, ' ')
    {
      pathStr := s;
      path := Split(s, ' ');
    }

    /** add: appends a non-blank element after a space, then re-splits the whole text. */
    method Add(element: string)
      modifies this
      ensures (pathStr, path) == AddedState(old(pathStr), old(path), element)
    {
      if Replace(element, " ", "") == "" {
        return;
      }
      pathStr := pathStr + (if pathStr == "" then "" else " ") + element;
      path := Split(pathStr, ' ');
    }

    /** getPermissionStr: the segments joined by dots. */
    function PermissionStr(): (r: string)
      reads this
      ensures Canonical(path) && |path| >= 1 ==> Split(r, '.') == path || exists i :: 0 <= i < |path| && '.' in path[i]
    {
      DotsSplit(path);
      Join(".", path)
    }

    /** equals: only the text of the paths is compared. */
    predicate Equals(other: CommandPath)
      reads this, other
    {
      pathStr == other.pathStr
    }

    /** clone: a shallow copy, a fresh object with the same two fields. */
    method Clone() returns (c: CommandPath)
      ensures fresh(c) && c.pathStr == pathStr && c.path == path
    {
      c := new CommandPath.FromSegments(path);
      c.pathStr := pathStr;
    }
  }

  /** add on a clone changes only the clone: the fields are reassigned on the clone itself. */
  method AddToClone(p: CommandPath, element: string) returns (c: CommandPath)
    ensures fresh(c) && (c.pathStr, c.path) == AddedState(p.pathStr, p.path, element)
    ensures unchanged(p)
  {
    c := p.Clone();
    c.Add(element);
  }

  /** Equality looks only at the text: one segment "a b" equals the two segments "a", "b". */
  method EqualityIgnoresSegments() returns (a: CommandPath, b: CommandPath)
    ensures a.Equals(b) && b.Equals(a) && a.path != b.path
  {
    a := new CommandPath.FromSegments(["a b"]);
    b := new CommandPath.FromString("a b");
    assert Join(" ", ["a", "b"]) == "a b";
    assert forall i :: 0 <= i < |["a", "b"]| ==> ' ' !in ["a", "b"][i];
    SplitJoin(["a", "b"], ' ');
    assert b.path == ["a", "b"];
  }

  lemma DotsSplit(path: seq<string>)
    ensures Canonical(path) && |path| >= 1 ==> Split(Join(".", path), '.') == path || exists i :: 0 <= i < |path| && '.' in path[i]
  {
    if Canonical(path) && |path| >= 1 && forall i :: 0 <= i < |path| ==> '.' !in path[i] {
      SplitJoin(path, '.');
    }
  }

  /** add on a canonical path with a non-blank word without spaces appends that word as one more segment. */
  lemma AddAppends(pathStr: string, path: seq<string>, element: string)
    requires Canonical(path) && pathStr == Join(" ", path)
    requires element != "" && ' ' !in element
    ensures var (s, p) := AddedState(pathStr, path, element);
      p == path + [element] && s == Join(" ", p) && Canonical(p)
  {
    AbsentChar(element, ' ');
    ReplaceAbsent(element, " ", "");
    var p := path + [element];
    assert Canonical(p);
    var s := pathStr + (if pathStr == "" then "" else " ") + element;
    if path == [] {
      assert pathStr == "" && p == [element];
      assert s == Join(" ", p);
    } else {
      JoinSnoc(" ", path, element);
      EmptyJoinHasEmptyPiece(path);
      assert s == Join(" ", p);
    }
    assert forall i :: 0 <= i < |p| ==> ' ' !in p[i];
    SplitJoin(p, ' ');
    assert Split(s, ' ') == p;
  }

  lemma EmptyJoinHasEmptyPiece(path: seq<string>)
    requires |path| >= 1 && path[0] != ""
    ensures Join(" ", path) != ""
  {
    if |path| > 1 {
      assert Join(" ", path) == path[0] + " " + Join(" ", path[1..]);
    }
  }

  /** add of an element made only of spaces (or empty) changes nothing. */
  lemma AddBlankIsNoOp(pathStr: string, path: seq<string>, element: string)
    requires forall i :: 0 <= i < |element| ==> element[i] == ' '
    ensures AddedState(pathStr, path, element) == (pathStr, path)
  {
    BlankRemoved(element);
  }

  lemma {:induction false} BlankRemoved(s: string)
    requires forall i :: 0 <= i < |s| ==> s[i] == ' '
    ensures Replace(s, " ", "") == ""
    decreases |s|
  {
    if s != [] {
      assert OccursAt(s, " ", 0) by { assert s[0..1] == [s[0]]; }
      assert IndexOf(s, " ") == Some(0);
      BlankRemoved(s[1..]);
    }
  }

  /** The text constructor splits on spaces, so the empty text has one empty segment. */
  lemma EmptyTextHasOneSegment()
    ensures Split("", ' ') == [""]
  {
  }
}
