/** MenuAction.parse: the action a configured click string selects, as an identifier. */
module MenuActions {
  import opened Wrappers
  import opened JavaString

  /** The consumers parse can return: the three built-in menu actions, a custom entry (by key), or the no-op. */
  datatype Action = PreviousPage | NextPage | CloseInventory | Custom(key: string) | NoOp

  predicate IsBuiltin(a: Action)
  {
    a == PreviousPage || a == NextPage || a == CloseInventory
  }

  /** The first space-separated word of the data, in brackets. */
  function Token(data: string): (t: string)
    ensures |t| >= 2 && t[0] == '[' && t[|t| - 1] == ']'
  {
    "[" + SplitOnce(data, " ")[0] + "]"
  }

  /**
   * The first custom key, in the map's iteration order `keys`, equal to the
   * token ignoring case.
   */
  function FirstCustom(token: string, keys: seq<string>): (r: Option<string>)
    ensures r.Some? ==> r.value in keys && EqualsIgnoreCase(token, r.value)
    ensures r.None? <==> forall i :: 0 <= i < |keys| ==> !EqualsIgnoreCase(token, keys[i])
    ensures r.Some? ==> exists i :: (0 <= i < |keys| && keys[i] == r.value
      && forall j :: 0 <= j < i ==> !EqualsIgnoreCase(token, keys[j]))
  {
    if keys == [] then None
    else if EqualsIgnoreCase(token, keys[0]) then Some(keys[0])
    else FirstCustom(token, keys[1..])
  }

  function CustomOrNoOp(token: string, keys: seq<string>): Action
  {
    match FirstCustom(token, keys)
    case Some(k) => Custom(k)
    case None => NoOp
  }

  /**
   * parse(data, custom) as written: the bracketed token is compared with the
   * unbracketed labels "menu-previous", "menu-next" and "menu-close".
   */
  function ParseAsWritten(data: string, keys: seq<string>): (r: Action)
    ensures !IsBuiltin(r)
    ensures r.Custom? ==> r.key in keys && EqualsIgnoreCase(Token(data), r.key)
    ensures r == NoOp <==> forall i :: 0 <= i < |keys| ==> !EqualsIgnoreCase(Token(data), keys[i])
  {
    var action := Token(data);
    if action == "menu-previous" then PreviousPage
    else if action == "menu-next" then NextPage
    else if action == "menu-close" then CloseInventory
    else CustomOrNoOp(action, keys)
  }

  /** parse(data): parse with an empty custom map. */
  function ParseDefaultAsWritten(data: string): (r: Action)
    ensures r == NoOp
  {
    ParseAsWritten(data, [])
  }

  /** parse(data, custom) with the labels bracketed like the token, so the built-in actions can be chosen. */
  function Parse(data: string, keys: seq<string>): (r: Action)
    ensures SplitOnce(data, " ")[0] == "menu-previous" ==> r == PreviousPage
    ensures SplitOnce(data, " ")[0] == "menu-next" ==> r == NextPage
    ensures SplitOnce(data, " ")[0] == "menu-close" ==> r == CloseInventory
    ensures IsBuiltin(r) ==> SplitOnce(data, " ")[0] in ["menu-previous", "menu-next", "menu-close"]
    ensures r.Custom? ==> r.key in keys && EqualsIgnoreCase(Token(data), r.key)
    ensures r == NoOp ==> forall i :: 0 <= i < |keys| ==> !EqualsIgnoreCase(Token(data), keys[i])
  {
    var action := Token(data);
    BracketsDetermineWord(SplitOnce(data, " ")[0]);
    if action == "[menu-previous]" then PreviousPage
    else if action == "[menu-next]" then NextPage
    else if action == "[menu-close]" then CloseInventory
    else CustomOrNoOp(action, keys)
  }

  /** parse(data) with the corrected labels. */
  function ParseDefault(data: string): (r: Action)
    ensures r != NoOp <==> SplitOnce(data, " ")[0] in ["menu-previous", "menu-next", "menu-close"]
  {
    Parse(data, [])
  }

  lemma BracketsDetermineWord(w: string)
    ensures "[" + w + "]" == "[menu-previous]" <==> w == "menu-previous"
    ensures "[" + w + "]" == "[menu-next]" <==> w == "menu-next"
    ensures "[" + w + "]" == "[menu-close]" <==> w == "menu-close"
  {
    var t := "[" + w + "]";
    assert t[1..|t| - 1] == w;
    assert "[menu-previous]"[1..14] == "menu-previous";
    assert "[menu-next]"[1..10] == "menu-next";
    assert "[menu-close]"[1..11] == "menu-close";
  }

  /** The data "menu-next" selects no built-in action as written, while the corrected parse pages forward. */
  lemma NextUnreachableAsWritten()
    ensures ParseAsWritten("menu-next", []) == NoOp
    ensures Parse("menu-next", []) == NextPage
  {
    AbsentChar("menu-next", ' ');
  }

  /** Only the first word of the data matters. */
  lemma FirstWordOnly(word: string, rest: string, keys: seq<string>)
    requires ' ' !in word
    ensures Parse(word + " " + rest, keys) == Parse(word, keys)
    ensures ParseAsWritten(word + " " + rest, keys) == ParseAsWritten(word, keys)
  {
    IndexOfAfter(word, " ", rest);
    AbsentChar(word, ' ');
    var d := word + " " + rest;
    assert d[..|word|] == word;
  }
}
