/** Texts put together with a bar, as most of the hashed formats are. */
module Texts {
  import opened Hashing

  function PairText(left: string, right: string): string {
    left + "|" + right
  }

  lemma SplitAt(a: string, b: string, c: string, d: string)
    requires |a| == |c| && PairText(a, b) == PairText(c, d)
    ensures a == c && b == d
  {
    assert a == PairText(a, b)[..|a|] && c == PairText(c, d)[..|c|];
    assert b == PairText(a, b)[|a| + 1..] && d == PairText(c, d)[|c| + 1..];
  }

  /** The first separator splits a text in one way. */
  lemma FirstSeparator(sep: char, a: string, b: string, c: string, d: string)
    requires sep !in a && sep !in c && a + [sep] + b == c + [sep] + d
    ensures a == c && b == d
  {
    var t := a + [sep] + b;
    assert t[|a|] == sep && t[|c|] == sep;
    assert forall i :: 0 <= i < |a| ==> t[i] == a[i];
    assert forall i :: 0 <= i < |c| ==> t[i] == c[i];
    assert |a| == |c|;
    assert a == t[..|a|] && c == t[..|c|] && b == t[|a| + 1..] && d == t[|c| + 1..];
  }

  lemma FirstBar(a: string, b: string, c: string, d: string)
    requires '|' !in a && '|' !in c && PairText(a, b) == PairText(c, d)
    ensures a == c && b == d
  {
    FirstSeparator('|', a, b, c, d);
  }

  lemma SplitEnd(a: string, b: string, c: string, d: string)
    requires |b| == |d| && PairText(a, b) == PairText(c, d)
    ensures a == c && b == d
  {
    assert |a| == |c|;
    SplitAt(a, b, c, d);
  }

  lemma DigestHasNoBar(d: string)
    requires IsDigest(d)
    ensures '|' !in d
  {
    assert !IsHexDigit('|');
  }
}
