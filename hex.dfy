/** Single hexadecimal digits: `char::to_digit(16)` and `char::from_digit(n, 16)`. */
module Hex {
  import opened Wrappers

  /** `c.to_digit(16)`: the value of a hexadecimal digit, upper or lower case. */
  function DigitValue(c: char): (d: Option<nat>)
    ensures d.Some? ==> d.value < 16
    // every hexadecimal digit lies in the key range '0'..='f'
    ensures d.Some? ==> '0' <= c <= 'f'
    ensures d.Some? <==> ('0' <= c <= '9' || 'a' <= c <= 'f' || 'A' <= c <= 'F')
  {
    if '0' <= c <= '9' then Some(c as int - '0' as int)
    else if 'a' <= c <= 'f' then Some(c as int - 'a' as int + 10)
    else if 'A' <= c <= 'F' then Some(c as int - 'A' as int + 10)
    else None
  }

  /** `char::from_digit(n, 16).unwrap()`: the lower-case digit for `n`; the unwrap panics for n >= 16. */
  function HexChar(n: nat): (c: char)
    requires n < 16
    ensures DigitValue(c) == Some(n)
    ensures !('A' <= c <= 'F')
  {
    if n < 10 then (n + '0' as int) as char else (n - 10 + 'a' as int) as char
  }

  /** Distinct values get distinct digits. */
  lemma HexCharInjective(m: nat, n: nat)
    requires m < 16 && n < 16 && m != n
    ensures HexChar(m) != HexChar(n)
  {
    assert DigitValue(HexChar(m)) != DigitValue(HexChar(n));
  }

  /** An upper-case digit has the value of its lower-case twin. */
  lemma UpperCaseDigit(c: char)
    requires 'A' <= c <= 'F'
    ensures DigitValue(c) == DigitValue((c as int + 32) as char)
    ensures DigitValue(c).Some?
  {
  }
}
