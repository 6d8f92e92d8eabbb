/**
 * Decimal numerals: `std::to_string` for the status code and the
 * Content-Length value, and C's `atoi` for the port argument.
 */
module Decimal {
  import opened Chars

  function DigitChar(d: nat): (c: char)
    requires d < 10
    ensures IsDigit(c)
  {
    (48 + d) as char
  }

  function DigitValue(c: char): (d: nat)
    requires IsDigit(c)
    ensures d < 10 && DigitChar(d) == c
  {
    c as int - 48
  }

  predicate AllDigits(s: seq<char>)
  {
    forall i :: 0 <= i < |s| ==> IsDigit(s[i])
  }

  /** `std::to_string` of a non-negative value: the shortest numeral, with
      no sign and no leading zero. */
  function NatToString(n: nat): (s: seq<char>)
    ensures 0 < |s| && AllDigits(s)
    ensures s[0] == '0' ==> n == 0 && |s| == 1
    decreases n
  {
    if n < 10 then [DigitChar(n)] else NatToString(n / 10) + [DigitChar(n % 10)]
  }

  /** `std::to_string` of an `int`: a minus sign before the numeral of a
      negative value. */
  function IntToString(i: int): (s: seq<char>)
    ensures 0 < |s|
    ensures '\r' !in s && '\n' !in s
  {
    if i < 0 then "-" + NatToString(-i) else NatToString(i)
  }

  /** The value of a numeral, most significant digit first. */
  function DigitsValue(s: seq<char>): nat
    requires AllDigits(s)
    decreases |s|
  {
    if s == [] then 0 else DigitsValue(s[..|s| - 1]) * 10 + DigitValue(s[|s| - 1])
  }

  /** Reading back a numeral that `NatToString` wrote gives the number. */
  lemma {:induction false} NumeralRoundTrip(n: nat)
    ensures DigitsValue(NatToString(n)) == n
  {
    if n >= 10 {
      var s := NatToString(n);
      assert s[..|s| - 1] == NatToString(n / 10);
      NumeralRoundTrip(n / 10);
    }
  }

  /** The first index at or after `i` that does not hold a digit. */
  function DigitsEnd(s: seq<char>, i: nat): (j: nat)
    requires i <= |s|
    ensures i <= j <= |s| && AllDigits(s[i..j])
    ensures j < |s| ==> !IsDigit(s[j])
    decreases |s| - i
  {
    if i < |s| && IsDigit(s[i]) then DigitsEnd(s, i + 1) else i
  }

  /**
   * C's `atoi`: skip leading white space, accept one optional sign, then
   * read the longest run of digits; a string without digits gives 0.
   */
  function Atoi(s: seq<char>): int
  {
    var i := SkipSpaces(s, 0);
    var negative := i < |s| && s[i] == '-';
    var j := if i < |s| && (s[i] == '-' || s[i] == '+') then i + 1 else i;
    var magnitude: int := DigitsValue(s[j..DigitsEnd(s, j)]);
    if negative then -magnitude else magnitude
  }

  /** `atoi` reads back a numeral written by `to_string`, whatever
      non-digit text follows it. */
  lemma AtoiOfNumeral(n: nat, rest: seq<char>)
    requires rest == [] || !IsDigit(rest[0])
    ensures Atoi(NatToString(n) + rest) == n
  {
    var s := NatToString(n) + rest;
    var m := |NatToString(n)|;
    assert SkipSpaces(s, 0) == 0;
    assert forall i :: 0 <= i < m ==> s[i] == NatToString(n)[i];
    assert DigitsEnd(s, 0) == m by {
      if m < |s| {
        assert s[m] == rest[0];
      }
    }
    assert s[0..m] == NatToString(n);
    NumeralRoundTrip(n);
  }
}
