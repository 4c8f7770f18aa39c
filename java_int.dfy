/** Java's 32-bit int: range, wrap-around, Integer.parseInt and Integer.toString. */
module JavaInt {
  import opened Wrappers
  import opened JavaString

  const INT_MIN: int := -0x8000_0000
  const INT_MAX: int := 0x7FFF_FFFF
  const TWO_32: int := 0x1_0000_0000

  predicate IsInt(x: int) { INT_MIN <= x <= INT_MAX }

  /** The int a Java int operation (or an (int) cast from long) produces for the exact value `x`. */
  function Wrap(x: int): (r: int)
    ensures IsInt(r)
    ensures (x - r) % TWO_32 == 0
    ensures IsInt(x) ==> r == x
  {
    (x - INT_MIN) % TWO_32 + INT_MIN
  }

  /** Wrapping an intermediate sum does not change the wrapped end result. */
  lemma WrapAdd(a: int, b: int)
    ensures Wrap(a + Wrap(b)) == Wrap(a + b)
  {
    var q := (b - Wrap(b)) / TWO_32;
    assert b - Wrap(b) == q * TWO_32;
    WrapShift(a + b, q);
  }

  /** Wrapping an intermediate factor does not change the wrapped product. */
  lemma WrapMul(b: int, k: int)
    ensures Wrap(Wrap(b) * k) == Wrap(b * k)
  {
    var q := (b - Wrap(b)) / TWO_32;
    assert b - Wrap(b) == q * TWO_32;
    assert Wrap(b) * k == b * k - (q * k) * TWO_32;
    WrapShift(b * k, q * k);
  }

  lemma WrapShift(x: int, m: int)
    ensures Wrap(x - m * TWO_32) == Wrap(x)
  {
    var d := x - INT_MIN;
    assert (d - m * TWO_32) % TWO_32 == d % TWO_32;
  }

  /** `i++` on an int: Integer.MAX_VALUE goes to Integer.MIN_VALUE. */
  function Increment(i: int): (r: int)
    requires IsInt(i)
    ensures IsInt(r)
  {
    if i == INT_MAX then INT_MIN else i + 1
  }

  /** The value of an int variable after `n` executions of `i++`. */
  function Increments(i: int, n: nat): (r: int)
    requires IsInt(i)
    ensures IsInt(r)
    decreases n
  {
    if n == 0 then i else Increments(Increment(i), n - 1)
  }

  /** The n-th increment applies to the value after n - 1. */
  lemma {:induction false} IncrementsLast(i: int, n: nat)
    requires IsInt(i) && n >= 1
    ensures Increments(i, n) == Increment(Increments(i, n - 1))
    decreases n
  {
    if n > 1 {
      IncrementsLast(Increment(i), n - 1);
    }
  }

  /** Incrementing a wrapped value is wrapping the next value. */
  lemma IncrementOfWrap(x: int)
    ensures Increment(Wrap(x)) == Wrap(x + 1)
  {
    WrapAdd(1, x);
    if Wrap(x) == INT_MAX {
      assert Wrap(INT_MAX + 1) == INT_MIN;
    }
  }

  /** `n` increments add `n` and wrap once. */
  lemma {:induction false} IncrementsWrap(i: int, n: nat)
    requires IsInt(i)
    ensures Increments(i, n) == Wrap(i + n)
    decreases n
  {
    if n > 0 {
      IncrementsLast(i, n);
      IncrementsWrap(i, n - 1);
      IncrementOfWrap(i + n - 1);
    }
  }

  /** Every whole number of 2^32 increments brings an int back to where it started. */
  lemma IncrementsCycles(i: int, cycles: nat)
    requires IsInt(i)
    ensures Increments(i, cycles * TWO_32) == i
  {
    IncrementsWrap(i, cycles * TWO_32);
    WrapShift(i + cycles * TWO_32, cycles);
  }

  function DigitValue(c: char): int requires IsDigit(c) { c as int - '0' as int }

  predicate AllDigits(s: string) { forall i :: 0 <= i < |s| ==> IsDigit(s[i]) }

  /** The value of a decimal numeral, most significant digit first. */
  function DigitsValue(s: string): nat
    requires AllDigits(s)
  {
    if s == [] then 0 else DigitsValue(s[..|s| - 1]) * 10 + DigitValue(s[|s| - 1])
  }

  /**
   * Integer.parseInt over ASCII digits: an optional single '+' or '-', one or
   * more digits and a value inside the int range; `None` for a
   * NumberFormatException.
   */
  function ParseInt(s: string): Option<int>
  {
    if |s| > 0 && (s[0] == '-' || s[0] == '+') then
      var digits := s[1..];
      if |digits| > 0 && AllDigits(digits) then
        var v: int := if s[0] == '-' then -(DigitsValue(digits) as int) else DigitsValue(digits);
        if IsInt(v) then Some(v) else None
      else None
    else if |s| > 0 && AllDigits(s) && IsInt(DigitsValue(s)) then Some(DigitsValue(s))
    else None
  }

  function DigitChar(d: int): (c: char)
    requires 0 <= d < 10
    ensures IsDigit(c) && DigitValue(c) == d
  {
    ('0' as int + d) as char
  }

  /** The decimal numeral of a natural number, without leading zeros. */
  function NatToString(n: nat): (s: string)
    ensures |s| > 0 && AllDigits(s)
  {
    if n < 10 then [DigitChar(n)] else NatToString(n / 10) + [DigitChar(n % 10)]
  }

  /** Integer.toString. */
  function IntToString(n: int): string
  {
    if n < 0 then "-" + NatToString(-n) else NatToString(n)
  }

  lemma {:induction false} NatToStringValue(n: nat)
    ensures DigitsValue(NatToString(n)) == n
  {
    var s := NatToString(n);
    if n >= 10 {
      assert s[..|s| - 1] == NatToString(n / 10);
      NatToStringValue(n / 10);
    }
  }

  /** Integer.parseInt(Integer.toString(n)) == n. */
  lemma ParseIntToString(n: int)
    requires IsInt(n)
    ensures ParseInt(IntToString(n)) == Some(n)
  {
    var s := IntToString(n);
    if n < 0 {
      var d := NatToString(-n);
      assert s[0] == '-' && s[1..] == d;
      NatToStringValue(-n);
      assert ParseInt(s) == Some(-(DigitsValue(d) as int));
    } else {
      assert IsDigit(s[0]);
      NatToStringValue(n);
    }
  }

  /** Java's `/` on long or int: the quotient truncated toward zero. */
  function TruncDiv(a: int, b: int): (q: int)
    requires b > 0
    ensures a >= 0 ==> q == a / b
    ensures a < 0 ==> q == -((-a) / b)
  {
    if a >= 0 then a / b else -((-a) / b)
  }
}
