/**
 * EnhancedTime: a duration in milliseconds, parsed from "XdXhXmXs" text and
 * rendered through "<key:extra>" templates.
 */
module Time {
  import opened Wrappers
  import opened JavaString
  import opened JavaInt

  /** The template of the `text` field (Configuration.FORMAT) and its empty replacement. */
  const FORMAT: string := "<days:d ><hours:h ><minutes:m ><seconds:s>"
  const EMPTY_REPLACER: string := "now"
  /** The template the millisecond constructor renders its `input` with. */
  const INPUT_FORMAT: string := "<days:d><hours:h><minutes:m><seconds:s>"

  datatype EnhancedTime = EnhancedTime(millis: int, text: string, input: string)

  datatype Units = Units(days: int, hours: int, minutes: int, seconds: int)

  predicate IsUnit(c: char) { c == 'd' || c == 'h' || c == 'm' || c == 's' }

  function SetUnit(u: Units, c: char, v: int): Units
  {
    if c == 'd' then u.(days := v)
    else if c == 'h' then u.(hours := v)
    else if c == 'm' then u.(minutes := v)
    else if c == 's' then u.(seconds := v)
    else u
  }

  /** The pending digits and the unit values while toMillis scans its input. */
  datatype ScanState = ScanState(temp: string, units: Units)

  const Start: ScanState := ScanState("", Units(0, 0, 0, 0))

  /**
   * One character of the scan: a digit is appended to the pending digits; any
   * other character is ignored while nothing is pending, and otherwise, if it
   * is a unit letter, sets that unit to the pending number, and in every case
   * clears the pending digits.
   */
  function Step(st: ScanState, c: char): Result<ScanState>
  {
    if IsDigit(c) then Ok(st.(temp := st.temp + [c]))
    else if st.temp == "" then Ok(st)
    else if IsUnit(c) then
      match ParseInt(st.temp)
      case None => Err(NumberFormat)
      case Some(v) => Ok(ScanState("", SetUnit(st.units, c, v)))
    else Ok(st.(temp := ""))
  }

  function Run(st: ScanState, s: string): Result<ScanState>
    decreases |s|
  {
    if s == [] then Ok(st)
    else
      match Step(st, s[0])
      case Err(e) => Err(e)
      case Ok(next) => Run(next, s[1..])
  }

  /** The total in seconds, computed in int as the source does, then widened and scaled. */
  function Millis(u: Units): int
  {
    1000 * Wrap(((u.days * 24 + u.hours) * 60 + u.minutes) * 60 + u.seconds)
  }

  /** What toMillis returns for `time`, or the exception it throws. */
  function ParsedMillis(time: string): Result<int>
  {
    match Run(Start, time)
    case Err(e) => Err(e)
    case Ok(st) => Ok(Millis(st.units))
  }

  /** EnhancedTime.toMillis. */
  method ToMillis(time: string) returns (r: Result<int>)
    ensures r == ParsedMillis(time)
  {
    var temp := "";
    var days, hours, minutes, seconds := 0, 0, 0, 0;
    var i := 0;
    while i < |time|
      invariant 0 <= i <= |time|
      invariant Run(ScanState(temp, Units(days, hours, minutes, seconds)), time[i..]) == Run(Start, time)
    {
      var s := time[i];
      assert time[i..][0] == s && time[i..][1..] == time[i + 1..];
      if IsDigit(s) {
        temp := temp + [s];
      } else if temp != "" {
        if IsUnit(s) {
          var v := ParseInt(temp);
          if v.None? {
            return Err(NumberFormat);
          }
          if s == 'd' {
            days := v.value;
          } else if s == 'h' {
            hours := v.value;
          } else if s == 'm' {
            minutes := v.value;
          } else {
            seconds := v.value;
          }
        }
        temp := "";
      }
      i := i + 1;
    }
    TotalSeconds(days, hours, minutes, seconds);
    hours := Wrap(hours + Wrap(days * 24));
    minutes := Wrap(minutes + Wrap(hours * 60));
    seconds := Wrap(seconds + Wrap(minutes * 60));
    r := Ok(seconds * 1000);
  }

  /** The three int additions of toMillis, each wrapping, end where the unwrapped total wraps to. */
  lemma TotalSeconds(d: int, h: int, m: int, sec: int)
    ensures var hours := Wrap(h + Wrap(d * 24));
      var minutes := Wrap(m + Wrap(hours * 60));
      Wrap(sec + Wrap(minutes * 60)) == Wrap(((d * 24 + h) * 60 + m) * 60 + sec)
  {
    var hs := h + d * 24;
    var ms := m + hs * 60;
    var hours := Wrap(h + Wrap(d * 24));
    assert hours == Wrap(hs) by {
      WrapAdd(h, d * 24);
    }
    var minutes := Wrap(m + Wrap(hours * 60));
    assert minutes == Wrap(ms) by {
      WrapMul(hs, 60);
      WrapAdd(m, hs * 60);
    }
    assert Wrap(sec + Wrap(minutes * 60)) == Wrap(sec + ms * 60) by {
      WrapMul(ms, 60);
      WrapAdd(sec, ms * 60);
    }
    assert sec + ms * 60 == ((d * 24 + h) * 60 + m) * 60 + sec;
  }

  /** Digits only extend the pending numeral. */
  lemma {:induction false} DigitsAccumulate(st: ScanState, digits: string, rest: string)
    requires AllDigits(digits)
    ensures Run(st, digits + rest) == Run(st.(temp := st.temp + digits), rest)
    decreases |digits|
  {
    if digits == [] {
      assert digits + rest == rest;
      assert st.temp + digits == st.temp;
    } else {
      assert (digits + rest)[0] == digits[0];
      assert (digits + rest)[1..] == digits[1..] + rest;
      DigitsAccumulate(st.(temp := st.temp + [digits[0]]), digits[1..], rest);
      assert st.temp + [digits[0]] + digits[1..] == st.temp + digits;
    }
  }

  /** A number written before a unit letter sets that unit, as long as it fits in an int. */
  lemma UnitAfterNumber(st: ScanState, n: nat, c: char, rest: string)
    requires st.temp == "" && IsUnit(c)
    ensures n <= INT_MAX ==>
      Run(st, NatToString(n) + [c] + rest) == Run(ScanState("", SetUnit(st.units, c, n)), rest)
    ensures n > INT_MAX ==> Run(st, NatToString(n) + [c] + rest) == Err(NumberFormat)
  {
    var digits := NatToString(n);
    DigitsAccumulate(st, digits, [c] + rest);
    assert digits + [c] + rest == digits + ([c] + rest);
    var st' := st.(temp := st.temp + digits);
    assert st'.temp == digits;
    NatToStringValue(n);
    assert ([c] + rest)[1..] == rest;
    if n <= INT_MAX {
      assert ParseInt(digits) == Some(n) by {
        assert digits[0] != '-' && digits[0] != '+';
      }
    } else {
      assert digits[0] != '-' && digits[0] != '+';
      assert ParseInt(digits) == None;
    }
  }

  /** A unit letter (or any non-digit) with no pending digits is skipped. */
  lemma BareCharIgnored(st: ScanState, c: char, rest: string)
    requires st.temp == "" && !IsDigit(c)
    ensures Run(st, [c] + rest) == Run(st, rest)
  {
    assert ([c] + rest)[1..] == rest;
  }

  /** A character that is neither a digit nor a unit letter discards the pending digits. */
  lemma OtherCharDiscards(st: ScanState, c: char, rest: string)
    requires st.temp != "" && !IsDigit(c) && !IsUnit(c)
    ensures Run(st, [c] + rest) == Run(st.(temp := ""), rest)
  {
    assert ([c] + rest)[1..] == rest;
  }

  /** Writing the same unit twice keeps the last value. */
  lemma RepeatedUnitKeepsLast(a: nat, b: nat, c: char)
    requires a <= INT_MAX && b <= INT_MAX && IsUnit(c)
    ensures Run(Start, NatToString(a) + [c] + NatToString(b) + [c]) == Ok(ScanState("", SetUnit(Start.units, c, b)))
  {
    var second := NatToString(b) + [c];
    assert NatToString(a) + [c] + NatToString(b) + [c] == NatToString(a) + [c] + second;
    UnitAfterNumber(Start, a, c, second);
    var st := ScanState("", SetUnit(Start.units, c, a));
    UnitAfterNumber(st, b, c, []);
    assert second + [] == second;
    assert SetUnit(st.units, c, b) == SetUnit(Start.units, c, b);
  }

  /** "XdXhXmXs" text with the four numbers written out. */
  function Canonical(d: nat, h: nat, m: nat, s: nat): string
  {
    NatToString(d) + "d" + NatToString(h) + "h" + NatToString(m) + "m" + NatToString(s) + "s"
  }

  /**
   * Parsing "XdXhXmXs" gives 1000 * (((d * 24 + h) * 60 + m) * 60 + s),
   * computed with int wrap-around, and exactly that when the total fits.
   */
  lemma ScanCanonical(d: nat, h: nat, m: nat, s: nat)
    requires d <= INT_MAX && h <= INT_MAX && m <= INT_MAX && s <= INT_MAX
    ensures Run(Start, Canonical(d, h, m, s)) == Ok(ScanState("", Units(d, h, m, s)))
  {
    var ps := NatToString(s) + ['s'];
    var pm := NatToString(m) + ['m'] + ps;
    var ph := NatToString(h) + ['h'] + pm;
    var pd := NatToString(d) + ['d'] + ph;
    assert Canonical(d, h, m, s) == pd;
    UnitAfterNumber(Start, d, 'd', ph);
    UnitAfterNumber(ScanState("", Units(d, 0, 0, 0)), h, 'h', pm);
    UnitAfterNumber(ScanState("", Units(d, h, 0, 0)), m, 'm', ps);
    UnitAfterNumber(ScanState("", Units(d, h, m, 0)), s, 's', []);
    assert NatToString(s) + ['s'] + [] == ps;
  }

  lemma ParsedCanonical(d: nat, h: nat, m: nat, s: nat)
    requires d <= INT_MAX && h <= INT_MAX && m <= INT_MAX && s <= INT_MAX
    ensures ParsedMillis(Canonical(d, h, m, s)) == Ok(1000 * Wrap(((d * 24 + h) * 60 + m) * 60 + s))
    ensures ((d * 24 + h) * 60 + m) * 60 + s <= INT_MAX ==>
      ParsedMillis(Canonical(d, h, m, s)) == Ok(1000 * (((d * 24 + h) * 60 + m) * 60 + s))
  {
    ScanCanonical(d, h, m, s);
    var t := ((d * 24 + h) * 60 + m) * 60 + s;
    assert ParsedMillis(Canonical(d, h, m, s)) == Ok(1000 * Wrap(t));
    if t <= INT_MAX {
      assert 0 <= t && Wrap(t) == t;
    }
  }

  /**
   * The decomposition at the start of `as`: whole seconds narrowed to int,
   * then floor division into days, hours, minutes and seconds.
   */
  function Decompose(millis: int): (u: Units)
    ensures 0 <= u.hours < 24 && 0 <= u.minutes < 60 && 0 <= u.seconds < 60
    ensures u.days * 86400 + u.hours * 3600 + u.minutes * 60 + u.seconds == Wrap(millis / 1000)
    ensures 0 <= millis && millis / 1000 <= INT_MAX ==>
      0 <= u.days && u.days * 86400 + u.hours * 3600 + u.minutes * 60 + u.seconds == millis / 1000
  {
    var total := Wrap(millis / 1000);
    var minutes := total / 60;
    var seconds := total - minutes * 60;
    var hours := minutes / 60;
    var m := minutes - hours * 60;
    var days := hours / 24;
    var h := hours - days * 24;
    assert total == ((days * 24 + h) * 60 + m) * 60 + seconds;
    Units(days, h, m, seconds)
  }

  const Keys: seq<string> := ["days", "hours", "minutes", "seconds"]

  function UnitValue(u: Units, key: string): int
  {
    if key == "days" then u.days
    else if key == "hours" then u.hours
    else if key == "minutes" then u.minutes
    else u.seconds
  }

  /** A "<key:extra>" token at the start of a template, with the length it spans. */
  datatype Token = Token(key: string, extra: string, length: nat)

  function Opening(key: string): string { "<" + key + ":" }

  /** The text a token of `key` with `extra` is written as. */
  function TokenText(key: string, extra: string): string { Opening(key) + extra + ">" }

  /** A match of "<key:([^>]+)>" at the start of `f`. */
  function TokenFor(f: string, key: string): (r: Option<Token>)
    ensures r.Some? ==> 0 < r.value.length <= |f| && r.value.key == key
  {
    var open := Opening(key);
    if !StartsWith(f, open) then None
    else
      var rest := f[|open|..];
      if '>' !in rest then None
      else
        var i := FirstIndexOf(rest, '>');
        if i == 0 then None else Some(Token(key, rest[..i], |open| + i + 1))
  }

  function TokenAt(f: string): (r: Option<Token>)
    ensures r.Some? ==> 0 < r.value.length <= |f| && r.value.key in Keys
  {
    var d := TokenFor(f, "days");
    if d.Some? then d
    else
      var h := TokenFor(f, "hours");
      if h.Some? then h
      else
        var m := TokenFor(f, "minutes");
        if m.Some? then m else TokenFor(f, "seconds")
  }

  /** What a token becomes: the value followed by its extra text, or nothing when the value is not positive. */
  function Piece(value: int, extra: string): string
  {
    if value <= 0 then "" else IntToString(value) + extra
  }

  /** The template with every "<key:extra>" token replaced, scanning left to right. */
  function Rewrite(f: string, u: Units): string
    decreases |f|
  {
    if f == [] then []
    else
      match TokenAt(f)
      case Some(t) => Piece(UnitValue(u, t.key), t.extra) + Rewrite(f[t.length..], u)
      case None => [f[0]] + Rewrite(f[1..], u)
  }

  /** EnhancedTime.as. */
  function As(millis: int, format: string, emptyReplace: string): string
  {
    var output := Rewrite(format, Decompose(millis));
    if output == "" then emptyReplace else output
  }

  /** new EnhancedTime(long millis). */
  function FromMillis(millis: int): EnhancedTime
  {
    EnhancedTime(millis, As(millis, FORMAT, EMPTY_REPLACER), As(millis, INPUT_FORMAT, ""))
  }

  /** new EnhancedTime(String text), or the NumberFormatException it throws. */
  function FromText(text: string): (r: Result<EnhancedTime>)
    ensures r.Err? <==> ParsedMillis(text).Err?
    ensures r.Err? ==> r.error == ParsedMillis(text).error
    ensures r.Ok? ==> r.value.millis == ParsedMillis(text).value && r.value.input == text
    ensures r.Ok? ==> r.value.text == FromMillis(r.value.millis).text && Equals(r.value, FromMillis(r.value.millis))
  {
    match ParsedMillis(text)
    case Err(e) => Err(e)
    case Ok(millis) => Ok(EnhancedTime(millis, As(millis, FORMAT, EMPTY_REPLACER), text))
  }

  /** EnhancedTime.getTicks: 20 ticks per whole second, the division truncating toward zero. */
  function GetTicks(t: EnhancedTime): (ticks: int)
    ensures ticks % 20 == 0
    ensures t.millis >= 0 ==> 0 <= ticks && ticks / 20 * 1000 <= t.millis < (ticks / 20 + 1) * 1000
    ensures t.millis < 0 ==> ticks <= 0 && (ticks / 20 - 1) * 1000 < t.millis <= ticks / 20 * 1000
  {
    TruncDiv(t.millis, 1000) * 20
  }

  /** Long.hashCode: the two 32-bit halves of the two's-complement value, xor-ed. */
  function LongHash(v: int): int
  {
    var b := (v % 0x1_0000_0000_0000_0000) as bv64;
    Wrap(((b ^ (b >> 32)) & 0xFFFF_FFFF) as int)
  }

  /** EnhancedTime.hashCode, Objects.hash(millis). */
  function HashCode(t: EnhancedTime): int
  {
    Wrap(31 + LongHash(t.millis))
  }

  /** EnhancedTime.equals: by millis only. */
  predicate Equals(a: EnhancedTime, b: EnhancedTime)
  {
    a.millis == b.millis
  }

  /** equals and hashCode agree: times that are equal hash equally, whatever their texts. */
  lemma EqualsHashEqually(a: EnhancedTime, b: EnhancedTime)
    requires Equals(a, b)
    ensures HashCode(a) == HashCode(b)
  {
    var h := LongHash(a.millis);
    assert LongHash(b.millis) == h;
    assert HashCode(a) == Wrap(31 + h) == HashCode(b);
  }

  lemma TokenForText(key: string, extra: string, rest: string)
    requires |extra| > 0 && '>' !in extra
    ensures TokenFor(TokenText(key, extra) + rest, key) == Some(Token(key, extra, |TokenText(key, extra)|))
  {
    var f := TokenText(key, extra) + rest;
    var open := Opening(key);
    var after := extra + ['>'] + rest;
    assert f == open + after;
    assert f[..|open|] == open && f[|open|..] == after;
    FirstIndexOfJoin(extra, '>', rest);
    assert after[..|extra|] == extra;
    assert |TokenText(key, extra)| == |open| + |extra| + 1;
    assert StartsWith(f, open) && '>' in f[|open|..] && FirstIndexOf(f[|open|..], '>') == |extra|;
  }

  lemma OtherKeyNoToken(f: string, key: string, other: string)
    requires key in Keys && other in Keys && key != other && StartsWith(f, Opening(key))
    ensures TokenFor(f, other) == None
  {
    assert f[1] == Opening(key)[1] == key[0];
    assert Opening(other)[1] == other[0] != key[0];
  }

  /** A well-formed token is replaced by its piece and the scan goes on after it. */
  lemma RewriteToken(key: string, extra: string, rest: string, u: Units)
    requires key in Keys && |extra| > 0 && '>' !in extra
    ensures Rewrite(TokenText(key, extra) + rest, u) == Piece(UnitValue(u, key), extra) + Rewrite(rest, u)
  {
    var f := TokenText(key, extra) + rest;
    TokenForText(key, extra, rest);
    assert StartsWith(f, Opening(key)) by {
      assert f[..|Opening(key)|] == Opening(key);
    }
    var t := Token(key, extra, |TokenText(key, extra)|);
    TokenAtIs(f, key, t);
    assert f[t.length..] == rest;
  }

  /** When the token of `key` matches and `f` opens with that key, TokenAt finds that token. */
  lemma TokenAtIs(f: string, key: string, t: Token)
    requires key in Keys && TokenFor(f, key) == Some(t) && StartsWith(f, Opening(key))
    ensures TokenAt(f) == Some(t)
  {
    if key != "days" {
      OtherKeyNoToken(f, key, "days");
      if key != "hours" {
        OtherKeyNoToken(f, key, "hours");
        if key != "minutes" {
          OtherKeyNoToken(f, key, "minutes");
        }
      }
    }
  }

  /** A template made of the four tokens in order renders as the four pieces in order. */
  lemma RewriteFourTokens(u: Units, ed: string, eh: string, em: string, es: string)
    requires |ed| > 0 && |eh| > 0 && |em| > 0 && |es| > 0
    requires '>' !in ed && '>' !in eh && '>' !in em && '>' !in es
    ensures Rewrite(TokenText("days", ed) + TokenText("hours", eh) + TokenText("minutes", em) + TokenText("seconds", es), u)
      == Piece(u.days, ed) + Piece(u.hours, eh) + Piece(u.minutes, em) + Piece(u.seconds, es)
  {
    var ts := TokenText("seconds", es);
    var tm := TokenText("minutes", em) + ts;
    var th := TokenText("hours", eh) + tm;
    var td := TokenText("days", ed) + th;
    var ps := Piece(u.seconds, es);
    var pm := Piece(u.minutes, em) + ps;
    var ph := Piece(u.hours, eh) + pm;
    assert Rewrite(ts, u) == ps by {
      RewriteToken("seconds", es, [], u);
      assert ts + [] == ts && UnitValue(u, "seconds") == u.seconds;
    }
    assert Rewrite(tm, u) == pm by {
      RewriteToken("minutes", em, ts, u);
      assert UnitValue(u, "minutes") == u.minutes;
    }
    assert Rewrite(th, u) == ph by {
      RewriteToken("hours", eh, tm, u);
      assert UnitValue(u, "hours") == u.hours;
    }
    assert Rewrite(td, u) == Piece(u.days, ed) + ph by {
      RewriteToken("days", ed, th, u);
      assert UnitValue(u, "days") == u.days;
    }
    Regroup(TokenText("days", ed), TokenText("hours", eh), TokenText("minutes", em), ts);
    Regroup(Piece(u.days, ed), Piece(u.hours, eh), Piece(u.minutes, em), ps);
  }

  lemma Regroup(a: string, b: string, c: string, d: string)
    ensures a + b + c + d == a + (b + (c + d))
  {
  }

  lemma FormatTokens()
    ensures FORMAT == TokenText("days", "d ") + TokenText("hours", "h ") + TokenText("minutes", "m ") + TokenText("seconds", "s")
  {
  }

  /** The `text` field: each non-zero unit followed by its letter and a space, or "now". */
  lemma TextRendering(millis: int)
    ensures var u := Decompose(millis);
      var out := Piece(u.days, "d ") + Piece(u.hours, "h ") + Piece(u.minutes, "m ") + Piece(u.seconds, "s");
      FromMillis(millis).text == if out == "" then EMPTY_REPLACER else out
  {
    var u := Decompose(millis);
    FormatTokens();
    RewriteFourTokens(u, "d ", "h ", "m ", "s");
    assert Rewrite(FORMAT, u) == Piece(u.days, "d ") + Piece(u.hours, "h ") + Piece(u.minutes, "m ") + Piece(u.seconds, "s");
  }

  /** Less than one second renders as "now". */
  lemma SubSecondIsNow(millis: int)
    requires 0 <= millis < 1000
    ensures FromMillis(millis).text == "now"
  {
    TextRendering(millis);
    var u := Decompose(millis);
    assert u == Units(0, 0, 0, 0);
  }

  /** An absent or zero unit piece leaves the scan where it was. */
  lemma ScanPiece(st: ScanState, v: nat, c: char, rest: string)
    requires st.temp == "" && IsUnit(c) && v <= INT_MAX
    requires SetUnit(st.units, c, 0) == st.units
    ensures Run(st, Piece(v, [c]) + rest) == Run(ScanState("", SetUnit(st.units, c, v)), rest)
  {
    if v == 0 {
      assert Piece(v, [c]) + rest == rest;
    } else {
      UnitAfterNumber(st, v, c, rest);
      assert Piece(v, [c]) + rest == NatToString(v) + [c] + rest;
    }
  }

  lemma InputFormatTokens()
    ensures INPUT_FORMAT == TokenText("days", "d") + TokenText("hours", "h") + TokenText("minutes", "m") + TokenText("seconds", "s")
  {
  }

  /** Parsing the rendered pieces of non-negative units gives those units back. */
  lemma ScanPieces(u: Units)
    requires 0 <= u.days <= INT_MAX && 0 <= u.hours <= INT_MAX && 0 <= u.minutes <= INT_MAX && 0 <= u.seconds <= INT_MAX
    ensures Run(Start, Piece(u.days, "d") + Piece(u.hours, "h") + Piece(u.minutes, "m") + Piece(u.seconds, "s"))
      == Ok(ScanState("", u))
  {
    var ps := Piece(u.seconds, "s");
    var pm := Piece(u.minutes, "m") + ps;
    var ph := Piece(u.hours, "h") + pm;
    Regroup(Piece(u.days, "d"), Piece(u.hours, "h"), Piece(u.minutes, "m"), ps);
    ScanPiece(Start, u.days, 'd', ph);
    ScanPiece(ScanState("", Units(u.days, 0, 0, 0)), u.hours, 'h', pm);
    ScanPiece(ScanState("", Units(u.days, u.hours, 0, 0)), u.minutes, 'm', ps);
    ScanPiece(ScanState("", Units(u.days, u.hours, u.minutes, 0)), u.seconds, 's', []);
    assert ps + [] == ps;
  }

  lemma InputRendering(millis: int)
    ensures var u := Decompose(millis);
      As(millis, INPUT_FORMAT, "") == Piece(u.days, "d") + Piece(u.hours, "h") + Piece(u.minutes, "m") + Piece(u.seconds, "s")
  {
    InputFormatTokens();
    RewriteFourTokens(Decompose(millis), "d", "h", "m", "s");
  }

  lemma MillisOfDecompose(millis: int)
    requires 0 <= millis && millis / 1000 <= INT_MAX
    ensures Millis(Decompose(millis)) == millis / 1000 * 1000
  {
    var u := Decompose(millis);
    var total := ((u.days * 24 + u.hours) * 60 + u.minutes) * 60 + u.seconds;
    assert total == u.days * 86400 + u.hours * 3600 + u.minutes * 60 + u.seconds;
    assert total == millis / 1000;
  }

  /**
   * Re-parsing the `input` of new EnhancedTime(millis) gives millis rounded
   * down to a whole second, as long as the whole seconds fit in an int.
   */
  lemma InputRoundTrip(millis: int)
    requires 0 <= millis && millis / 1000 <= INT_MAX
    ensures ParsedMillis(FromMillis(millis).input) == Ok(millis / 1000 * 1000)
  {
    var u := Decompose(millis);
    InputRendering(millis);
    assert u.days <= u.days * 86400 <= INT_MAX;
    ScanPieces(u);
    MillisOfDecompose(millis);
  }

  /** The int total wraps around: from 24856 to 49710 days, a day count parses to a negative duration. */
  lemma DaysWrapAround(d: nat)
    requires 24856 <= d <= 49710
    ensures ParsedMillis(Canonical(d, 0, 0, 0)) == Ok(1000 * (d * 86400 - TWO_32))
    ensures 1000 * (d * 86400 - TWO_32) < 0
  {
    ParsedCanonical(d, 0, 0, 0);
    var x := ((d * 24 + 0) * 60 + 0) * 60 + 0;
    assert x == d * 86400;
    assert (x - INT_MIN) % TWO_32 == x - INT_MIN - TWO_32;
  }
}
