/** The two pieces of Ruby string behaviour the object decorator relies on. */
module RubyText {

  /** Where the inclusive range 0..n ends in a string of length len:
      a negative end counts back from the end of the string, as Ruby does. */
  function RangeEnd(n: int, len: nat): int {
    if n < 0 then len + n else n
  }

  /** How many characters Ruby's s[0..n] keeps of a string of length len: the
      indices 0 to RangeEnd(n, len) inclusive, as far as they exist. */
  function TakeCount(n: int, len: nat): (k: nat)
    ensures k <= len
  {
    var stop := RangeEnd(n, len) + 1;
    if stop < 0 then 0 else if stop > len then len else stop
  }

  /** Ruby's s[0..n]. The start 0 is always in range, so the result is never nil. */
  function Take(s: string, n: int): (r: string)
    ensures r <= s
    ensures |r| == TakeCount(n, |s|)
  {
    if n >= 0 then
      (if n + 1 <= |s| then s[..n + 1] else s)
    else
      (if |s| + n + 1 >= 0 then s[..|s| + n + 1] else [])
  }

  /** A string of at most n + 1 characters comes back whole. */
  lemma TakeWhole(s: string, n: int)
    requires |s| <= n + 1
    ensures Take(s, n) == s
  {
  }

  predicate IsDigit(c: char) {
    '0' <= c <= '9'
  }

  function DigitValue(c: char): (d: nat)
    requires IsDigit(c)
    ensures d < 10
  {
    c as int - '0' as int
  }

  function DigitChar(d: nat): (c: char)
    requires d < 10
    ensures IsDigit(c) && DigitValue(c) == d
  {
    ('0' as int + d) as char
  }

  /** Ruby's Integer#to_s for a non-negative integer: its decimal digits. */
  function NatToString(n: nat): (s: string)
    ensures |s| >= 1
    ensures forall i :: 0 <= i < |s| ==> IsDigit(s[i])
    ensures s[0] == '0' ==> n == 0
  {
    if n < 10 then [DigitChar(n)] else NatToString(n / 10) + [DigitChar(n % 10)]
  }

  /** The number a string of decimal digits denotes. */
  function DecimalValue(s: string): nat
    requires forall i :: 0 <= i < |s| ==> IsDigit(s[i])
  {
    if s == [] then 0 else DecimalValue(s[..|s| - 1]) * 10 + DigitValue(s[|s| - 1])
  }

  /** Reading the digits back gives the number that was written: the count in a
      summary row is exact. */
  lemma {:induction false} DecimalRoundTrip(n: nat)
    ensures DecimalValue(NatToString(n)) == n
  {
    if n >= 10 {
      var s := NatToString(n);
      assert s[..|s| - 1] == NatToString(n / 10);
      DecimalRoundTrip(n / 10);
    }
  }
}
