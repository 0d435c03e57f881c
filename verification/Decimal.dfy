/** Natural numbers in decimal, as `format!` prints them and `parse` reads them back. */
module Decimal {

  predicate IsDigit(c: char) {
    '0' <= c <= '9'
  }

  predicate AllDigits(s: string) {
    forall i :: 0 <= i < |s| ==> IsDigit(s[i])
  }

  function DigitChar(d: nat): (c: char)
    requires d < 10
    ensures IsDigit(c) && DigitValue(c) == d
  {
    '0' + d as char
  }

  function DigitValue(c: char): nat
    requires IsDigit(c)
  {
    c as int - '0' as int
  }

  function Show(n: nat): (s: string)
    ensures s != [] && AllDigits(s)
  {
    if n < 10 then [DigitChar(n)] else Show(n / 10) + [DigitChar(n % 10)]
  }

  function Value(s: string): nat
    requires AllDigits(s)
  {
    if s == [] then 0 else Value(s[..|s| - 1]) * 10 + DigitValue(s[|s| - 1])
  }

  lemma {:induction false} ValueOfShow(n: nat)
    ensures Value(Show(n)) == n
  {
    if n >= 10 {
      ValueOfShow(n / 10);
      assert Show(n)[..|Show(n)| - 1] == Show(n / 10);
    } else {
      assert Show(n)[..0] == [];
    }
  }

  lemma {:induction false} PrintedDecimal()
    ensures Show(0) == "0" && Show(7) == "7" && Show(4096) == "4096" && Show(10385) == "10385"
  {
    assert Show(40) == "40" && Show(409) == "409";
    assert Show(10) == "10" && Show(103) == "103" && Show(1038) == "1038";
  }

  lemma ShowInjective(m: nat, n: nat)
    requires Show(m) == Show(n)
    ensures m == n
  {
    ValueOfShow(m);
    ValueOfShow(n);
  }

  /** The number of leading digits. */
  function DigitSpan(s: string): (n: nat)
    ensures n <= |s| && forall i :: 0 <= i < n ==> IsDigit(s[i])
    ensures n < |s| ==> !IsDigit(s[n])
  {
    if s == [] || !IsDigit(s[0]) then 0 else 1 + DigitSpan(s[1..])
  }

  lemma SpanOfShow(n: nat, rest: string)
    requires rest == [] || !IsDigit(rest[0])
    ensures DigitSpan(Show(n) + rest) == |Show(n)|
  {
    var t, m := Show(n) + rest, |Show(n)|;
    assert forall i :: 0 <= i < m ==> t[i] == Show(n)[i];
    assert m < |t| ==> t[m] == rest[0];
  }
}
