/**
 * BooleanParser (commands) and BooleanStringConverter (commons): the two
 * classes implement the same reading of "true"/"yes"/"false"/"no".
 */
module Booleans {
  import opened JavaString
  import opened Collections

  /** The completion candidates, in the order the stream lists them. */
  const WORDS: seq<string> := ["true", "yes", "false", "no"]

  /** convert / fromString: "true" or "yes", ignoring case. */
  predicate FromString(s: string)
  {
    EqualsIgnoreCase(s, "true") || EqualsIgnoreCase(s, "yes")
  }

  /** canConvert: one of the four words, ignoring case (a model string is never null). */
  predicate CanConvert(s: string)
  {
    FromString(s) || EqualsIgnoreCase(s, "false") || EqualsIgnoreCase(s, "no")
  }

  /** asString: Boolean.toString. */
  function AsString(b: bool): string
  {
    if b then "true" else "false"
  }

  /** complete: the words that start with `arg`, compared case-sensitively. */
  function Complete(arg: string): (r: seq<string>)
    ensures forall i :: 0 <= i < |r| ==> r[i] in WORDS && StartsWith(r[i], arg)
    ensures forall i :: 0 <= i < |WORDS| ==> (WORDS[i] in r <==> StartsWith(WORDS[i], arg))
    ensures r == Offered("true", arg) + Offered("yes", arg) + Offered("false", arg) + Offered("no", arg)
  {
    CompleteInOrder(arg);
    Filter(WORDS, Completes(arg))
  }

  /** The stream's filter `s -> s.startsWith(arg)`. */
  function Completes(arg: string): string -> bool
  {
    (w: string) => StartsWith(w, arg)
  }

  /** The one-word list [w] when w starts with the argument, and nothing otherwise. */
  function Offered(w: string, arg: string): seq<string>
  {
    if StartsWith(w, arg) then [w] else []
  }

  /** The filter keeps the four words in their order, each at most once. */
  lemma CompleteInOrder(arg: string)
    ensures Filter(WORDS, Completes(arg))
         == Offered("true", arg) + Offered("yes", arg) + Offered("false", arg) + Offered("no", arg)
  {
    var p := Completes(arg);
    var t, y, f, n := "true", "yes", "false", "no";
    assert WORDS == (([t] + [y]) + [f]) + [n];
    FilterAppend(([t] + [y]) + [f], [n], p);
    FilterAppend([t] + [y], [f], p);
    FilterAppend([t], [y], p);
    FilterOne(t, p);
    FilterOne(y, p);
    FilterOne(f, p);
    FilterOne(n, p);
  }

  /** The four words are already lower case, so a string is accepted iff its lower-casing is one of them. */
  lemma AcceptedWords(s: string)
    ensures CanConvert(s) <==> LowerCase(s) in WORDS
    ensures FromString(s) <==> LowerCase(s) in WORDS[..2]
  {
    LowerWords();
  }

  lemma LowerWords()
    ensures LowerCase("true") == "true" && LowerCase("yes") == "yes"
    ensures LowerCase("false") == "false" && LowerCase("no") == "no"
  {
    LowerCaseOfLower("true");
    LowerCaseOfLower("yes");
    LowerCaseOfLower("false");
    LowerCaseOfLower("no");
  }

  /** A string that converts but not to true reads "false" or "no", ignoring case. */
  lemma AcceptedButFalse(s: string)
    requires CanConvert(s) && !FromString(s)
    ensures LowerCase(s) == "false" || LowerCase(s) == "no"
  {
    LowerWords();
  }

  /** fromString(asString(b)) == b, and asString(b) is always accepted. */
  lemma RoundTrip(b: bool)
    ensures FromString(AsString(b)) == b
    ensures CanConvert(AsString(b))
  {
    LowerWords();
  }

  /** complete("") offers all four words. */
  lemma CompleteEmpty()
    ensures Complete("") == WORDS
  {
    var t, y, f, n := "true", "yes", "false", "no";
    EmptyOffers(t);
    EmptyOffers(y);
    EmptyOffers(f);
    EmptyOffers(n);
    assert WORDS == [t] + [y] + [f] + [n];
  }

  /** Every word starts with the empty argument. */
  lemma EmptyOffers(w: string)
    ensures Offered(w, "") == [w]
  {
    assert w[..0] == "";
  }
}
