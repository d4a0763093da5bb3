/** Decimal numerals: the `u64` parser behind `str::parse::<u64>()` and the
    rendering of `format!("{}", n)`. */
module Decimal {
  import opened Util

  /** The largest `u64`. */
  const U64_MAX: nat := 0xFFFF_FFFF_FFFF_FFFF

  predicate IsDigit(c: char) {
    '0' <= c <= '9'
  }

  predicate AllDigits(s: string) {
    forall i :: 0 <= i < |s| ==> IsDigit(s[i])
  }

  function DigitValue(c: char): (d: nat)
    requires IsDigit(c)
    ensures d < 10
  {
    c as int - '0' as int
  }

  function Digit(d: nat): (c: char)
    requires d < 10
    ensures IsDigit(c) && DigitValue(c) == d
  {
    ('0' as int + d) as char
  }

  /** The number a string of decimal digits denotes, most significant first. */
  function Value(s: string): nat
    requires AllDigits(s)
    decreases |s|
  {
    if s == [] then 0 else Value(s[..|s| - 1]) * 10 + DigitValue(s[|s| - 1])
  }

  /** `format!("{}", n)`: the shortest decimal numeral of `n`. */
  function ToDecimal(n: nat): (r: string)
    ensures |r| > 0 && AllDigits(r) && Value(r) == n
    ensures r[0] == '0' ==> |r| == 1 && n == 0
    ensures '-' !in r
  {
    if n < 10 then [Digit(n)]
    else
      var r := ToDecimal(n / 10) + [Digit(n % 10)];
      assert r[..|r| - 1] == ToDecimal(n / 10);
      r
  }

  /** `s.parse::<u64>()`: an optional `+`, then one or more ASCII digits whose
      value fits in 64 bits; anything else (the empty string, a lone `+`, a
      `-` sign, any other character, an overflowing value) fails. */
  function ParseU64(s: string): (r: Option<nat>)
    ensures r.Some? ==> r.value <= U64_MAX
    ensures r.Some? ==> |s| > 0 && (IsDigit(s[0]) || s[0] == '+')
    ensures r.Some? ==> forall i :: 0 < i < |s| ==> IsDigit(s[i])
    ensures |s| > 0 && AllDigits(s) && Value(s) <= U64_MAX ==> r == Some(Value(s))
  {
    var digits := if |s| > 0 && s[0] == '+' then s[1..] else s;
    if |digits| == 0 || !AllDigits(digits) then None
    else if Value(digits) > U64_MAX then None
    else Some(Value(digits))
  }

  /** The parse in full: a result is the value of the digits after an
      optional `+`; those digits give their value when it fits in 64 bits
      and nothing when it does not. */
  lemma ParseU64Exact(s: string)
    ensures ParseU64(s).Some? ==>
      var d := if s[0] == '+' then s[1..] else s;
      d != [] && AllDigits(d) && ParseU64(s).value == Value(d)
    ensures |s| > 1 && s[0] == '+' && AllDigits(s[1..]) && Value(s[1..]) <= U64_MAX ==> ParseU64(s) == Some(Value(s[1..]))
    ensures |s| > 0 && AllDigits(s) && Value(s) > U64_MAX ==> ParseU64(s).None?
    ensures |s| > 1 && s[0] == '+' && AllDigits(s[1..]) && Value(s[1..]) > U64_MAX ==> ParseU64(s).None?
  {
  }

  /** Rendering a `u64` and parsing it back gives the same number. */
  lemma ParseToDecimal(n: nat)
    requires n <= U64_MAX
    ensures ParseU64(ToDecimal(n)) == Some(n)
  {
  }

  /** Distinct numbers render as distinct numerals. */
  lemma ToDecimalInjective(m: nat, n: nat)
    requires ToDecimal(m) == ToDecimal(n)
    ensures m == n
  {
  }
}
