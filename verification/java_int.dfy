/** Java `int` arithmetic and the decimal conversions the helpers use:
    `Integer.parseInt` and the decimal rendering of a non-negative `int`. */
module JavaInt {
  import opened Wrappers

  const IntMin: int := -0x8000_0000
  const IntMax: int := 0x7FFF_FFFF

  predicate IsInt32(x: int) {
    IntMin <= x <= IntMax
  }

  /** The two's-complement wrap-around of Java `int` addition, subtraction and negation:
      the result of adding or subtracting two `int`s (or negating one) lies at most one
      period of 2^32 outside the range, and is moved back into it by that period. */
  function Wrap32(x: int): (r: int)
    ensures IsInt32(r)
    ensures IsInt32(x) ==> r == x
    ensures IntMax < x <= IntMax + 0x1_0000_0000 ==> r == x - 0x1_0000_0000
    ensures IntMin - 0x1_0000_0000 <= x < IntMin ==> r == x + 0x1_0000_0000
    decreases if x > IntMax then x - IntMax else if x < IntMin then IntMin - x else 0
  {
    if x > IntMax then Wrap32(x - 0x1_0000_0000)
    else if x < IntMin then Wrap32(x + 0x1_0000_0000)
    else x
  }

  predicate IsDigit(c: char) {
    '0' <= c <= '9'
  }

  predicate AllDigits(s: string) {
    forall i | 0 <= i < |s| :: IsDigit(s[i])
  }

  /** The value of a run of decimal digits, most significant first. */
  function DigitsValue(s: string): nat
    requires AllDigits(s)
  {
    if |s| == 0 then 0
    else DigitsValue(s[..|s| - 1]) * 10 + (s[|s| - 1] as int - '0' as int)
  }

  /** `Integer.parseInt(s)`: an optional sign followed by at least one ASCII digit,
      whose value fits in an `int`; anything else is a `NumberFormatException` (`None`). */
  function ParseInt(s: string): (r: Option<int>)
    ensures r.Some? ==> IsInt32(r.value)
    ensures r.Some? ==> |s| > 0 && (AllDigits(s) || (AllDigits(s[1..]) && |s| > 1 && s[0] in "+-"))
    ensures AllDigits(s) && |s| > 0 ==> r == (if DigitsValue(s) <= IntMax then Some(DigitsValue(s)) else None)
    ensures |s| > 1 && s[0] in "+-" && AllDigits(s[1..]) ==>
              var v: int := if s[0] == '-' then 0 - DigitsValue(s[1..]) as int else DigitsValue(s[1..]);
              r == (if IsInt32(v) then Some(v) else None)
  {
    if |s| == 0 then None
    else if s[0] == '-' || s[0] == '+' then
      var digits := s[1..];
      if |digits| == 0 || !AllDigits(digits) then None
      else
        var v: int := if s[0] == '-' then 0 - DigitsValue(digits) as int else DigitsValue(digits);
        if IsInt32(v) then Some(v) else None
    else if AllDigits(s) && DigitsValue(s) <= IntMax then Some(DigitsValue(s))
    else None
  }

  function DigitChar(d: nat): (c: char)
    requires d < 10
    ensures IsDigit(c)
  {
    ('0' as int + d) as char
  }

  /** The decimal rendering of a natural number, as `String.valueOf` writes a
      non-negative `int`: digits only, no leading zero. */
  function Show(n: nat): (r: string)
    ensures |r| >= 1 && AllDigits(r)
    ensures |r| > 1 ==> r[0] != '0'
  {
    if n < 10 then [DigitChar(n)] else Show(n / 10) + [DigitChar(n % 10)]
  }

  /** Reading back the digits `Show` writes gives the number again. */
  lemma {:induction false} DigitsValueShow(n: nat)
    ensures DigitsValue(Show(n)) == n
  {
    if n >= 10 {
      DigitsValueShow(n / 10);
      var s := Show(n);
      assert s[..|s| - 1] == Show(n / 10);
    }
  }

  /** Round trip: `Integer.parseInt(String.valueOf(n))` is `n` for every non-negative `int`. */
  lemma ParseShow(n: nat)
    requires n <= IntMax
    ensures ParseInt(Show(n)) == Some(n)
  {
    DigitsValueShow(n);
  }

  /** Round trip for negative numbers: `Integer.parseInt("-" + String.valueOf(n))` is
      `-n` down to the smallest `int`, whose magnitude is one more than `IntMax`; one
      step further the value no longer fits. */
  lemma ParseNegativeShow(n: nat)
    ensures n <= IntMax + 1 ==> ParseInt("-" + Show(n)) == Some(-(n as int))
    ensures n > IntMax + 1 ==> ParseInt("-" + Show(n)) == None
  {
    DigitsValueShow(n);
    assert ("-" + Show(n))[1..] == Show(n);
  }

  /** Leading zeros do not change the parsed value. */
  lemma {:induction false} DigitsValueLeadingZero(s: string)
    requires AllDigits(s)
    ensures AllDigits("0" + s) && DigitsValue("0" + s) == DigitsValue(s)
    decreases |s|
  {
    var z := "0" + s;
    if |s| > 0 {
      assert z[..|z| - 1] == "0" + s[..|s| - 1];
      DigitsValueLeadingZero(s[..|s| - 1]);
    }
  }
}
