/** Decimal numerals as the printf family writes them and as atoi reads them back. */
module Decimal {

  predicate IsDigit(c: char) { '0' <= c <= '9' }

  function DigitChar(d: nat): (c: char)
    requires d < 10
    ensures IsDigit(c) && DigitValue(c) == d
  {
    (d + 48) as char
  }

  function DigitValue(c: char): (d: nat)
    requires IsDigit(c)
    ensures d < 10
  {
    c as int - 48
  }

  /** The numeral written for %d, %ld, %u and %zu. */
  function Dec(n: nat): (s: string)
    ensures s != [] && forall i :: 0 <= i < |s| ==> IsDigit(s[i])
  {
    if n < 10 then [DigitChar(n)] else Dec(n / 10) + [DigitChar(n % 10)]
  }

  /** The digit loop of atoi: it stops at the first byte that is not a digit. */
  function AtoiFrom(s: string, acc: nat): nat
  {
    if s == [] || !IsDigit(s[0]) then acc
    else AtoiFrom(s[1..], 10 * acc + DigitValue(s[0]))
  }

  predicate IsSpace(c: char) { c == ' ' || ('\t' <= c <= '\r') }

  /** atoi: blanks, an optional sign, then digits. */
  function Atoi(s: string): int
  {
    if s == [] then 0
    else if IsSpace(s[0]) then Atoi(s[1..])
    else if s[0] == '-' then -(AtoiFrom(s[1..], 0) as int)
    else if s[0] == '+' then AtoiFrom(s[1..], 0)
    else AtoiFrom(s, 0)
  }

  /** Reading a numeral shifts the accumulator past all of its digits. */
  lemma {:induction false} AtoiFromDec(n: nat, rest: string)
    ensures AtoiFrom(Dec(n) + rest, 0) == AtoiFrom(rest, n)
  {
    if n < 10 {
      assert ([DigitChar(n)] + rest)[1..] == rest;
    } else {
      var tail := [DigitChar(n % 10)] + rest;
      assert Dec(n) + rest == Dec(n / 10) + tail;
      AtoiFromDec(n / 10, tail);
      assert tail[1..] == rest;
    }
  }

  /** atoi undoes the printer. */
  lemma AtoiDec(n: nat)
    ensures Atoi(Dec(n)) == n
  {
    AtoiFromDec(n, "");
    assert Dec(n) + "" == Dec(n);
    assert IsDigit(Dec(n)[0]);
  }

  function Pow10(d: nat): nat { if d == 0 then 1 else 10 * Pow10(d - 1) }

  lemma {:induction false} DecBound(n: nat, d: nat)
    requires d > 0 && n < Pow10(d)
    ensures |Dec(n)| <= d
  {
    if n >= 10 { DecBound(n / 10, d - 1); }
  }

  /** A numeral that is cut short reads as a smaller number. */
  lemma {:induction false} DecPrefix(n: nat, j: nat)
    requires j <= |Dec(n)|
    ensures 0 <= Atoi(Dec(n)[..j]) <= n
  {
    if j == |Dec(n)| {
      AtoiDec(n);
      assert Dec(n)[..j] == Dec(n);
    } else if j > 0 {
      assert Dec(n)[..j] == Dec(n / 10)[..j];
      DecPrefix(n / 10, j);
    }
  }
}
