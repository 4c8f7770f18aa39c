/**
 * The java.lang.String operations the modelled code relies on, over ASCII:
 * case mapping, literal search, replace, split and join.
 */
module JavaString {
  import opened Wrappers

  predicate IsUpper(c: char) { 'A' <= c <= 'Z' }
  predicate IsLower(c: char) { 'a' <= c <= 'z' }
  predicate IsDigit(c: char) { '0' <= c <= '9' }

  function ToLower(c: char): (d: char)
    ensures !IsUpper(d)
    ensures IsUpper(c) ==> IsLower(d)
    ensures !IsUpper(c) ==> d == c
  {
    if IsUpper(c) then (c as int + 32) as char else c
  }

  function ToUpper(c: char): (d: char)
    ensures !IsLower(d)
    ensures IsLower(c) ==> IsUpper(d)
    ensures !IsLower(c) ==> d == c
  {
    if IsLower(c) then (c as int - 32) as char else c
  }

  /** String.toLowerCase restricted to ASCII letters. */
  function LowerCase(s: string): (r: string)
    ensures |r| == |s|
    ensures forall i :: 0 <= i < |s| ==> r[i] == ToLower(s[i])
  {
    seq(|s|, i requires 0 <= i < |s| => ToLower(s[i]))
  }

  /** Lower-casing works character by character, so it distributes over concatenation. */
  lemma LowerCaseAppend(a: string, b: string)
    ensures LowerCase(a + b) == LowerCase(a) + LowerCase(b)
  {
    assert forall i :: 0 <= i < |a + b| ==> (a + b)[i] == if i < |a| then a[i] else b[i - |a|];
  }

  /** Lower-casing leaves a string without upper-case letters unchanged. */
  lemma LowerCaseOfLower(s: string)
    requires forall i :: 0 <= i < |s| ==> !IsUpper(s[i])
    ensures LowerCase(s) == s
  {
  }

  /** String.toUpperCase restricted to ASCII letters. */
  function UpperCase(s: string): (r: string)
    ensures |r| == |s|
    ensures forall i :: 0 <= i < |s| ==> r[i] == ToUpper(s[i])
  {
    seq(|s|, i requires 0 <= i < |s| => ToUpper(s[i]))
  }

  /** Upper-casing leaves a string without lower-case letters unchanged. */
  lemma UpperCaseOfUpper(s: string)
    requires forall i :: 0 <= i < |s| ==> !IsLower(s[i])
    ensures UpperCase(s) == s
  {
  }

  lemma UpperCaseIdempotent(s: string)
    ensures UpperCase(UpperCase(s)) == UpperCase(s)
  {
    UpperCaseOfUpper(UpperCase(s));
  }

  /** String.equalsIgnoreCase restricted to ASCII letters. */
  predicate EqualsIgnoreCase(a: string, b: string)
  {
    LowerCase(a) == LowerCase(b)
  }

  predicate StartsWith(s: string, prefix: string)
  {
    |prefix| <= |s| && s[..|prefix|] == prefix
  }

  /** `t` occurs in `s` starting at index `i`. */
  predicate OccursAt(s: string, t: string, i: nat)
  {
    i + |t| <= |s| && s[i..i + |t|] == t
  }

  /** The first occurrence of `t` in `s` at or after `k` (String.indexOf). */
  function IndexFrom(s: string, t: string, k: nat): (r: Option<nat>)
    requires k <= |s|
    ensures r.Some? ==> k <= r.value && OccursAt(s, t, r.value)
    ensures r.Some? ==> forall j :: k <= j < r.value ==> !OccursAt(s, t, j)
    ensures r.None? ==> forall j :: k <= j <= |s| ==> !OccursAt(s, t, j)
    decreases |s| - k
  {
    if OccursAt(s, t, k) then Some(k)
    else if k == |s| then None
    else IndexFrom(s, t, k + 1)
  }

  function IndexOf(s: string, t: string): Option<nat>
  {
    IndexFrom(s, t, 0)
  }

  predicate Contains(s: string, t: string)
  {
    IndexOf(s, t).Some?
  }

  lemma AbsentChar(s: string, c: char)
    requires c !in s
    ensures !Contains(s, [c])
  {
    forall j | 0 <= j <= |s| ensures !OccursAt(s, [c], j) {
      if j + 1 <= |s| {
        assert s[j..j + 1][0] == s[j];
      }
    }
  }

  /** `t` first occurs right after `a` when the first character of `t` does not occur in `a`. */
  lemma IndexOfAfter(a: string, t: string, b: string)
    requires |t| > 0 && t[0] !in a
    ensures IndexOf(a + t + b, t) == Some(|a|)
  {
    var s := a + t + b;
    assert s[|a|..|a| + |t|] == t;
    assert OccursAt(s, t, |a|);
    forall j | 0 <= j < |a| ensures !OccursAt(s, t, j) {
      assert s[j] == a[j] != t[0];
      if j + |t| <= |s| {
        assert s[j..j + |t|][0] == s[j];
      }
    }
    var r := IndexFrom(s, t, 0);
    assert r.Some?;
    assert r.value >= |a|;
  }

  /**
   * s.split(t, 2) for a literal separator: the text before the first
   * occurrence of `t` and everything after it, or `[s]` when `t` does not occur.
   */
  function SplitOnce(s: string, t: string): (r: seq<string>)
    requires |t| > 0
    ensures |r| == 1 <==> !Contains(s, t)
    ensures |r| == 1 ==> r[0] == s
    ensures |r| != 1 ==> |r| == 2 && s == r[0] + t + r[1]
    ensures |r| != 1 ==> forall j :: 0 <= j < |r[0]| ==> !OccursAt(s, t, j)
  {
    match IndexOf(s, t)
    case None => [s]
    case Some(i) =>
      assert s == s[..i] + s[i..i + |t|] + s[i + |t|..];
      [s[..i], s[i + |t|..]]
  }

  /** s.replace(t, r): one left-to-right pass over non-overlapping occurrences. */
  function Replace(s: string, t: string, r: string): string
    requires |t| > 0
    decreases |s|
  {
    match IndexOf(s, t)
    case None => s
    case Some(i) => s[..i] + r + Replace(s[i + |t|..], t, r)
  }

  /** The first match found: the text before it, then the replacement, then the rest replaced. */
  lemma ReplaceStep(s: string, t: string, r: string)
    requires |t| > 0 && IndexOf(s, t).Some?
    ensures var i := IndexOf(s, t).value;
      i + |t| <= |s| && |Replace(s, t, r)| == i + |r| + |Replace(s[i + |t|..], t, r)|
  {
  }

  /** A replacement no longer than the target never lengthens the text. */
  lemma {:induction false} ReplaceLength(s: string, t: string, r: string)
    requires |t| > 0 && |r| <= |t|
    ensures |Replace(s, t, r)| <= |s|
    decreases |s|
  {
    if IndexOf(s, t).Some? {
      var i := IndexOf(s, t).value;
      var rest := s[i + |t|..];
      ReplaceStep(s, t, r);
      ReplaceLength(rest, t, r);
      var whole, tail := |Replace(s, t, r)|, |Replace(rest, t, r)|;
      assert whole == i + |r| + tail && tail <= |rest| && i + |rest| + |t| == |s|;
    } else {
      assert Replace(s, t, r) == s;
    }
  }

  lemma {:induction false} ReplaceAbsent(s: string, t: string, r: string)
    requires |t| > 0 && !Contains(s, t)
    ensures Replace(s, t, r) == s
  {
  }

  /** After s.replace(" ", "") no character `c` is left. */
  lemma {:induction false} RemovedCharIsGone(s: string, c: char)
    ensures c !in Replace(s, [c], "")
    decreases |s|
  {
    match IndexOf(s, [c])
    case None =>
      forall j | 0 <= j < |s| ensures s[j] != c {
        assert !OccursAt(s, [c], j);
        assert s[j..j + 1] == [s[j]];
      }
    case Some(i) =>
      forall j | 0 <= j < i ensures s[j] != c {
        assert !OccursAt(s, [c], j);
        assert s[j..j + 1] == [s[j]];
      }
      RemovedCharIsGone(s[i + 1..], c);
  }

  /** s.replace(c, d) for single characters: every `c` becomes `d`, every other character stays. */
  lemma {:induction false} ReplaceChar(s: string, c: char, d: char)
    ensures |Replace(s, [c], [d])| == |s|
    ensures forall j :: 0 <= j < |s| ==> Replace(s, [c], [d])[j] == if s[j] == c then d else s[j]
    decreases |s|
  {
    match IndexOf(s, [c])
    case None =>
      forall j | 0 <= j < |s| ensures s[j] != c {
        assert !OccursAt(s, [c], j);
        assert s[j..j + 1] == [s[j]];
      }
    case Some(i) =>
      forall j | 0 <= j < i ensures s[j] != c {
        assert !OccursAt(s, [c], j);
        assert s[j..j + 1] == [s[j]];
      }
      assert s[i..i + 1] == [c];
      ReplaceChar(s[i + 1..], c, d);
      var r := Replace(s, [c], [d]);
      assert r == s[..i] + [d] + Replace(s[i + 1..], [c], [d]);
      forall j | 0 <= j < |s| ensures r[j] == if s[j] == c then d else s[j] {
        if j > i {
          assert r[j] == Replace(s[i + 1..], [c], [d])[j - i - 1];
          assert s[i + 1..][j - i - 1] == s[j];
        }
      }
  }

  function FirstIndexOf(s: string, c: char): (i: nat)
    requires c in s
    ensures i < |s| && s[i] == c
    ensures forall j :: 0 <= j < i ==> s[j] != c
  {
    if s[0] == c then 0 else 1 + FirstIndexOf(s[1..], c)
  }

  /** The pieces of `s` between the occurrences of `c`, keeping empty pieces. */
  function SplitAll(s: string, c: char): (r: seq<string>)
    ensures |r| >= 1
    ensures forall i :: 0 <= i < |r| ==> c !in r[i]
    decreases |s|
  {
    if c !in s then [s]
    else
      var i := FirstIndexOf(s, c);
      [s[..i]] + SplitAll(s[i + 1..], c)
  }

  function DropTrailingEmpty(ps: seq<string>): (r: seq<string>)
    ensures r <= ps
    ensures |r| > 0 ==> r[|r| - 1] != ""
    ensures forall i :: |r| <= i < |ps| ==> ps[i] == ""
  {
    if |ps| > 0 && ps[|ps| - 1] == "" then DropTrailingEmpty(ps[..|ps| - 1]) else ps
  }

  /**
   * s.split(c) with a one-character separator and no limit: `[s]` when `c`
   * does not occur, and otherwise the pieces without their trailing empty ones.
   */
  function Split(s: string, c: char): seq<string>
  {
    if c !in s then [s] else DropTrailingEmpty(SplitAll(s, c))
  }

  /** String.join(sep, ps). */
  function Join(sep: string, ps: seq<string>): string
  {
    if |ps| == 0 then "" else if |ps| == 1 then ps[0] else ps[0] + sep + Join(sep, ps[1..])
  }

  lemma {:induction false} JoinSnoc(sep: string, ps: seq<string>, p: string)
    requires |ps| >= 1
    ensures Join(sep, ps + [p]) == Join(sep, ps) + sep + p
  {
    if |ps| > 1 {
      assert (ps + [p])[1..] == ps[1..] + [p];
      JoinSnoc(sep, ps[1..], p);
    }
  }

  lemma FirstIndexOfJoin(a: string, c: char, b: string)
    requires c !in a
    ensures c in a + [c] + b && FirstIndexOf(a + [c] + b, c) == |a|
  {
    var s := a + [c] + b;
    assert s[|a|] == c;
    assert forall k :: 0 <= k < |a| ==> s[k] == a[k];
  }

  /** Splitting a join on a separator that occurs in no piece gives the pieces back. */
  lemma {:induction false} SplitAllJoin(ps: seq<string>, c: char)
    requires |ps| >= 1
    requires forall i :: 0 <= i < |ps| ==> c !in ps[i]
    ensures SplitAll(Join([c], ps), c) == ps
  {
    if |ps| > 1 {
      var s := Join([c], ps);
      var rest := Join([c], ps[1..]);
      assert s == ps[0] + [c] + rest;
      FirstIndexOfJoin(ps[0], c, rest);
      var i := |ps[0]|;
      assert s[..i] == ps[0];
      assert s[i + 1..] == rest;
      calc {
        SplitAll(s, c);
        [s[..i]] + SplitAll(s[i + 1..], c);
        [ps[0]] + SplitAll(rest, c);
        { SplitAllJoin(ps[1..], c); }
        [ps[0]] + ps[1..];
        ps;
      }
    }
  }

  /**
   * String.split undoes String.join when no piece contains the separator and
   * the last piece is not empty.
   */
  lemma SplitJoin(ps: seq<string>, c: char)
    requires |ps| >= 1 && ps[|ps| - 1] != ""
    requires forall i :: 0 <= i < |ps| ==> c !in ps[i]
    ensures Split(Join([c], ps), c) == ps
  {
    SplitAllJoin(ps, c);
    if |ps| > 1 {
      assert Join([c], ps) == ps[0] + [c] + Join([c], ps[1..]);
      assert Join([c], ps)[|ps[0]|] == c;
    }
  }
}
