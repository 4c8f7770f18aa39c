/** TextCase: camelCase to kebab-case and snake_case. */
module TextCase {
  import opened JavaString

  /** Length of the longest prefix of `s` made of upper-case letters. */
  function UpperRun(s: string): (n: nat)
    ensures n <= |s|
    ensures forall i :: 0 <= i < n ==> IsUpper(s[i])
    ensures n < |s| ==> !IsUpper(s[n])
  {
    if s != [] && IsUpper(s[0]) then 1 + UpperRun(s[1..]) else 0
  }

  /**
   * s.replaceAll("([a-z])([A-Z]+)", "$1" + sep + "$2"): each match is a lower-case
   * letter followed by the longest run of upper-case letters, and the scan
   * resumes after the run.
   */
  function Separate(s: string, sep: char): string
    decreases |s|
  {
    if |s| >= 2 && IsLower(s[0]) && IsUpper(s[1]) then
      var n := UpperRun(s[1..]);
      [s[0], sep] + s[1..1 + n] + Separate(s[1 + n..], sep)
    else if s == [] then []
    else [s[0]] + Separate(s[1..], sep)
  }

  /** camelToKebabCase. */
  function CamelToKebabCase(s: string): string
  {
    LowerCase(Separate(s, '-'))
  }

  /** camelToSnakeCase. */
  function CamelToSnakeCase(s: string): string
  {
    LowerCase(Separate(s, '_'))
  }

  /** Reference definition: `sep` goes right after every lower-case letter that an upper-case letter follows. */
  function InsertSeparators(s: string, sep: char): string
    decreases |s|
  {
    if |s| < 2 then s
    else [s[0]] + (if IsLower(s[0]) && IsUpper(s[1]) then [sep] else []) + InsertSeparators(s[1..], sep)
  }

  lemma {:induction false} InsertAcrossUpperRun(t: string, n: nat, sep: char)
    requires n <= |t|
    requires forall i :: 0 <= i < n ==> IsUpper(t[i])
    ensures InsertSeparators(t, sep) == t[..n] + InsertSeparators(t[n..], sep)
  {
    if n > 0 {
      InsertAcrossUpperRun(t[1..], n - 1, sep);
      InsertAtUpper(t, sep);
      assert t[1..][..n - 1] == t[1..n];
      assert t[1..][n - 1..] == t[n..];
      assert t[..n] == [t[0]] + t[1..n];
    }
  }

  /** An upper-case letter is never followed by a separator. */
  lemma InsertAtUpper(t: string, sep: char)
    requires |t| >= 1 && IsUpper(t[0])
    ensures InsertSeparators(t, sep) == [t[0]] + InsertSeparators(t[1..], sep)
  {
    if |t| == 1 {
      assert t[1..] == [];
    }
  }

  /** The regex scan inserts exactly the separators of the reference definition. */
  lemma {:induction false} SeparateIsInsert(s: string, sep: char)
    ensures Separate(s, sep) == InsertSeparators(s, sep)
    decreases |s|
  {
    if |s| >= 2 && IsLower(s[0]) && IsUpper(s[1]) {
      var t := s[1..];
      SeparateIsInsert(t[UpperRun(t)..], sep);
      MatchStep(s, sep);
    } else if s != [] {
      SeparateIsInsert(s[1..], sep);
      PlainStep(s, sep);
    }
  }

  /** A match: the lower-case letter, the separator and the upper-case run, then the scan resumes. */
  lemma MatchStep(s: string, sep: char)
    requires |s| >= 2 && IsLower(s[0]) && IsUpper(s[1])
    requires Separate(s[1..][UpperRun(s[1..])..], sep) == InsertSeparators(s[1..][UpperRun(s[1..])..], sep)
    ensures Separate(s, sep) == InsertSeparators(s, sep)
  {
    var t := s[1..];
    var n := UpperRun(t);
    SeparateAtMatch(s, sep);
    InsertAtMatch(s, sep);
    InsertAcrossUpperRun(t, n, sep);
  }

  lemma SeparateAtMatch(s: string, sep: char)
    requires |s| >= 2 && IsLower(s[0]) && IsUpper(s[1])
    ensures Separate(s, sep) == [s[0], sep] + (s[1..][..UpperRun(s[1..])] + Separate(s[1..][UpperRun(s[1..])..], sep))
  {
    var t := s[1..];
    var n := UpperRun(t);
    var run := t[..n];
    var rest := Separate(t[n..], sep);
    assert Separate(s, sep) == [s[0], sep] + run + rest by {
      assert s[1..1 + n] == run && s[1 + n..] == t[n..];
    }
  }

  lemma InsertAtMatch(s: string, sep: char)
    requires |s| >= 2 && IsLower(s[0]) && IsUpper(s[1])
    ensures InsertSeparators(s, sep) == [s[0], sep] + InsertSeparators(s[1..], sep)
  {
  }

  /** No match at the first character: it is copied and the scan moves on. */
  lemma PlainStep(s: string, sep: char)
    requires s != [] && !(|s| >= 2 && IsLower(s[0]) && IsUpper(s[1]))
    requires Separate(s[1..], sep) == InsertSeparators(s[1..], sep)
    ensures Separate(s, sep) == InsertSeparators(s, sep)
  {
    assert Separate(s, sep) == [s[0]] + Separate(s[1..], sep);
    if |s| >= 2 {
      assert InsertSeparators(s, sep) == [s[0]] + InsertSeparators(s[1..], sep);
    } else {
      assert s[1..] == [];
    }
  }

  /** The kebab result has no upper-case letter. */
  lemma KebabHasNoUpper(s: string)
    ensures forall i :: 0 <= i < |CamelToKebabCase(s)| ==> !IsUpper(CamelToKebabCase(s)[i])
  {
  }

  lemma {:induction false} NoUpperNoSeparator(s: string, sep: char)
    requires forall i :: 0 <= i < |s| ==> !IsUpper(s[i])
    ensures InsertSeparators(s, sep) == s
    decreases |s|
  {
    if |s| >= 2 {
      NoUpperNoSeparator(s[1..], sep);
    }
  }

  /** A string without upper-case letters is returned unchanged, so the conversion is idempotent. */
  lemma KebabIdempotent(s: string)
    ensures (forall i :: 0 <= i < |s| ==> !IsUpper(s[i])) ==> CamelToKebabCase(s) == s
    ensures CamelToKebabCase(CamelToKebabCase(s)) == CamelToKebabCase(s)
  {
    var k := CamelToKebabCase(s);
    SeparateIsInsert(k, '-');
    NoUpperNoSeparator(k, '-');
    LowerCaseOfLower(k);
    if forall i :: 0 <= i < |s| ==> !IsUpper(s[i]) {
      SeparateIsInsert(s, '-');
      NoUpperNoSeparator(s, '-');
      LowerCaseOfLower(s);
    }
  }

  /** Every occurrence of `a` in `s` turned into `b`. */
  function Substitute(s: string, a: char, b: char): (r: string)
    ensures |r| == |s|
    ensures forall i :: 0 <= i < |s| ==> r[i] == if s[i] == a then b else s[i]
  {
    if s == [] then [] else [if s[0] == a then b else s[0]] + Substitute(s[1..], a, b)
  }

  lemma {:induction false} InsertSubstitute(s: string)
    requires '-' !in s
    ensures InsertSeparators(s, '_') == Substitute(InsertSeparators(s, '-'), '-', '_')
    decreases |s|
  {
    if |s| >= 2 {
      InsertSubstitute(s[1..]);
      var rest := InsertSeparators(s[1..], '-');
      var mid: string := if IsLower(s[0]) && IsUpper(s[1]) then ['-'] else [];
      assert InsertSeparators(s, '-') == [s[0]] + mid + rest;
      assert Substitute([s[0]] + mid + rest, '-', '_')
        == Substitute([s[0]], '-', '_') + Substitute(mid, '-', '_') + Substitute(rest, '-', '_');
    } else {
      assert Substitute(s, '-', '_') == s;
    }
  }

  /** With no '-' in the input, snake case is kebab case with '_' for '-'. */
  lemma SnakeIsKebabWithUnderscore(s: string)
    requires '-' !in s
    ensures CamelToSnakeCase(s) == Substitute(CamelToKebabCase(s), '-', '_')
  {
    SeparateIsInsert(s, '-');
    SeparateIsInsert(s, '_');
    InsertSubstitute(s);
  }

  /** "useSSL": one separator before the whole upper-case run. */
  lemma UpperRunGetsOneSeparator()
    ensures CamelToKebabCase("useSSL") == "use-ssl"
  {
    SeparateIsInsert("useSSL", '-');
    UseSSLSeparated();
    UseSSLLowered();
  }

  lemma UseSSLSeparated()
    ensures InsertSeparators("useSSL", '-') == "use-SSL"
  {
    InsertAcrossUpperRun("SSL", 3, '-');
    assert "SSL"[3..] == [];
    InsertAtMatch("eSSL", '-');
    assert "eSSL"[1..] == "SSL" && "seSSL"[1..] == "eSSL" && "useSSL"[1..] == "seSSL";
  }

  lemma UseSSLLowered()
    ensures LowerCase("use-SSL") == "use-ssl"
  {
    var r := LowerCase("use-SSL");
    forall i | 0 <= i < 7 ensures r[i] == "use-ssl"[i] {
    }
  }

  /** "a1B": a capital after a non-lower-case character gets no separator. */
  lemma CapitalAfterDigit()
    ensures CamelToKebabCase("a1B") == "a1b"
  {
    SeparateIsInsert("a1B", '-');
    assert InsertSeparators("a1B", '-') == "a1B" by {
      assert InsertSeparators("1B", '-') == "1B";
    }
  }
}
