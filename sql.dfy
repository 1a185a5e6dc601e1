/**
 * The pieces of SQL semantics that the warehouse statements rely on:
 * nullable column values, COALESCE, SUBSTR and the decimal rendering of
 * integers used by CAST(... AS VARCHAR).
 */
module Sql {

  /** A nullable column value: None is SQL NULL. */
  datatype Option<+T> = None | Some(value: T)

  /** COALESCE(x, default). */
  function Coalesce<T>(x: Option<T>, default: T): T
  {
    if x.Some? then x.value else default
  }

  /** SUBSTR(s, 1, n): the first n characters of s, or all of s when it is shorter. */
  function Prefix(s: string, n: nat): (r: string)
    ensures |r| == if |s| <= n then |s| else n
    ensures r == s[..|r|]
  {
    if |s| <= n then s else s[..n]
  }

  predicate IsDigit(c: char)
  {
    '0' <= c <= '9'
  }

  /** The character of a decimal digit. */
  function Digit(d: nat): (c: char)
    requires d < 10
    ensures IsDigit(c)
  {
    ('0' as int + d) as char
  }

  lemma DigitInjective(a: nat, b: nat)
    requires a < 10 && b < 10 && Digit(a) == Digit(b)
    ensures a == b
  {
  }

  /** The number a string of decimal digits denotes, most significant digit first. */
  function DigitsValue(s: string): nat
    requires forall i :: 0 <= i < |s| ==> IsDigit(s[i])
  {
    if s == [] then 0
    else
      assert IsDigit(s[|s| - 1]);
      DigitsValue(s[..|s| - 1]) * 10 + (s[|s| - 1] as int - '0' as int)
  }

  /** CAST(n AS VARCHAR): the decimal digits of n, without leading zeros. */
  function DecimalString(n: nat): (r: string)
    ensures 1 <= |r|
    ensures forall i :: 0 <= i < |r| ==> IsDigit(r[i])
    ensures DigitsValue(r) == n
    ensures r[0] == '0' <==> n == 0
    ensures n < 10 <==> |r| == 1
    decreases n
  {
    if n < 10 then [Digit(n)]
    else
      var front := DecimalString(n / 10);
      var r := front + [Digit(n % 10)];
      assert r[..|r| - 1] == front;
      r
  }
}
