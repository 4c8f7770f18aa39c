/** ConditionUtil.passCondition: an expression check with a string-equality fallback. */
module Conditions {
  import opened Wrappers
  import opened JavaString

  /** checkStringsEquality: "a===b" compares exactly, "a==b" ignoring case, anything else is false. */
  function CheckStringsEquality(condition: string): bool
  {
    if Contains(condition, "===") then
      var elements := SplitOnce(condition, "===");
      elements[0] == elements[1]
    else if Contains(condition, "==") then
      var elements := SplitOnce(condition, "==");
      EqualsIgnoreCase(elements[0], elements[1])
    else false
  }

  /**
   * passCondition: spaces are removed, then the expression evaluator decides;
   * `evaluate` returns `None` where the evaluator throws, and only then is the
   * string fallback used.
   */
  function PassCondition(condition: string, evaluate: string -> Option<bool>): bool
  {
    var stripped := Replace(condition, " ", "");
    match evaluate(stripped)
    case Some(check) => check
    case None => CheckStringsEquality(stripped)
  }

  /** Spaces never matter: the evaluator and the fallback only ever see the text without them. */
  lemma SpacesAreIgnored(condition: string, evaluate: string -> Option<bool>)
    ensures PassCondition(condition, evaluate) == PassCondition(Replace(condition, " ", ""), evaluate)
  {
    var stripped := Replace(condition, " ", "");
    RemovedCharIsGone(condition, ' ');
    AbsentChar(stripped, ' ');
    ReplaceAbsent(stripped, " ", "");
  }

  /** The fallback is used only when the evaluator throws. */
  lemma EvaluatorFirst(condition: string, evaluate: string -> Option<bool>)
    ensures evaluate(Replace(condition, " ", "")).Some? ==>
      PassCondition(condition, evaluate) == evaluate(Replace(condition, " ", "")).value
    ensures evaluate(Replace(condition, " ", "")).None? ==>
      PassCondition(condition, evaluate) == CheckStringsEquality(Replace(condition, " ", ""))
  {
  }

  /** With "===" present, the text before its first occurrence is compared exactly with the rest. */
  lemma TripleEqualsIsExact(a: string, b: string)
    requires '=' !in a
    ensures CheckStringsEquality(a + "===" + b) == (a == b)
  {
    IndexOfAfter(a, "===", b);
    var s := a + "===" + b;
    assert s[|a| + 3..] == b;
    assert s[..|a|] == a;
  }

  /** "a==b" with no other '=' compares the sides ignoring case. */
  lemma DoubleEqualsIgnoresCase(a: string, b: string)
    requires '=' !in a && '=' !in b
    ensures CheckStringsEquality(a + "==" + b) == EqualsIgnoreCase(a, b)
  {
    var s := a + "==" + b;
    IndexOfAfter(a, "==", b);
    assert s[|a| + 2..] == b;
    assert s[..|a|] == a;
    forall j | 0 <= j && j + 3 <= |s| ensures !OccursAt(s, "===", j) {
      var w := s[j..j + 3];
      if j < |a| {
        assert w[0] == s[j] == a[j];
      } else if j == |a| {
        assert w[2] == s[j + 2] == b[0];
      } else if j == |a| + 1 {
        assert w[1] == s[j + 1] == b[0];
      } else {
        assert w[0] == s[j] == b[j - |a| - 2];
      }
    }
  }

  /** Without "==" the fallback is false. */
  lemma NoOperatorIsFalse(condition: string)
    requires !Contains(condition, "==")
    ensures !CheckStringsEquality(condition)
  {
    TripleHasDouble(condition);
  }

  /** Every "===" holds a "==". */
  lemma TripleHasDouble(s: string)
    ensures Contains(s, "===") ==> Contains(s, "==")
  {
    if Contains(s, "===") {
      var i := IndexOf(s, "===").value;
      assert s[i..i + 3][..2] == s[i..i + 2] == "==";
      assert OccursAt(s, "==", i);
    }
  }
}
