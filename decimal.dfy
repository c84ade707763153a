/** The text a template literal gives a safe integer, a number whose
    magnitude is at most 2^53 - 1 and which JavaScript therefore holds
    exactly: an optional minus sign followed by its decimal digits, with no
    leading zero. This is what `limit` and `offset` interpolate into their
    fragments. */
module Decimal {

  /** The integers a JavaScript number represents exactly
      (`Number.MIN_SAFE_INTEGER` to `Number.MAX_SAFE_INTEGER`); their text
      is their exact decimal numeral. */
  type SafeInteger = n: int | -0x1F_FFFF_FFFF_FFFF <= n <= 0x1F_FFFF_FFFF_FFFF

  predicate IsDigit(ch: char)
  {
    '0' <= ch <= '9'
  }

  predicate AllDigits(s: string)
  {
    forall i :: 0 <= i < |s| ==> IsDigit(s[i])
  }

  function DigitChar(d: nat): char
    requires d < 10
  {
    ('0' as int + d) as char
  }

  function DigitValue(ch: char): nat
    requires IsDigit(ch)
  {
    ch as int - '0' as int
  }

  /** The decimal digits of `n`, most significant first. */
  function Digits(n: nat): string
    decreases n
  {
    if n < 10 then [DigitChar(n)] else Digits(n / 10) + [DigitChar(n % 10)]
  }

  /** The text of the number `n`: a canonical numeral, so it never holds a
      `?` placeholder. */
  function Render(n: SafeInteger): (r: string)
    ensures IsNumeral(r) && '?' !in r
  {
    var m := if n < 0 then -n else n;
    DigitsRoundTrip(m);
    var d := Digits(m);
    assert forall i :: 0 <= i < |d| ==> d[i] != '?';
    if n < 0 then (assert ("-" + d)[1..] == d; "-" + d) else d
  }

  /** The number a string of digits denotes. */
  function ValueOf(s: string): nat
    requires AllDigits(s)
  {
    if s == [] then 0 else 10 * ValueOf(s[..|s| - 1]) + DigitValue(s[|s| - 1])
  }

  /** The unsigned part of a possibly signed numeral. */
  function Magnitude(s: string): string
  {
    if |s| > 0 && s[0] == '-' then s[1..] else s
  }

  /** A canonical decimal numeral: an optional minus sign, then at least one
      digit, no leading zero unless the number is zero, and no minus sign
      before zero. */
  predicate IsNumeral(s: string)
  {
    var m := Magnitude(s);
    |m| > 0 && AllDigits(m) && (m[0] == '0' ==> |m| == 1) && (s[0] == '-' ==> m != "0")
  }

  /** The integer a numeral denotes. */
  function Parse(s: string): int
    requires IsNumeral(s)
  {
    if s[0] == '-' then 0 - ValueOf(s[1..]) as int else ValueOf(s)
  }

  /** Digits(n) is a string of digits without a leading zero that denotes n. */
  lemma {:induction false} DigitsRoundTrip(n: nat)
    ensures |Digits(n)| > 0 && AllDigits(Digits(n))
    ensures ValueOf(Digits(n)) == n
    ensures Digits(n)[0] == '0' ==> n == 0
    decreases n
  {
    if n >= 10 {
      var d := Digits(n);
      DigitsRoundTrip(n / 10);
      assert d == Digits(n / 10) + [DigitChar(n % 10)];
      assert d[..|d| - 1] == Digits(n / 10);
      assert d[0] == Digits(n / 10)[0];
    }
  }

  /** Rendering a number gives a canonical numeral, parsing that numeral gives
      the number back, and the text never holds a `?` placeholder. */
  lemma RenderRoundTrip(n: SafeInteger)
    ensures IsNumeral(Render(n))
    ensures Parse(Render(n)) == n
    ensures '?' !in Render(n)
  {
    var m := if n < 0 then -n else n;
    DigitsRoundTrip(m);
    if n < 0 {
      assert Render(n)[1..] == Digits(m);
    }
  }
}
