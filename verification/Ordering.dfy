/** The order of `BTreeMap<String, _>`: texts compare character by character, and a map is
    iterated in ascending key order. */
module Ordering {

  predicate Less(a: string, b: string) {
    b != [] && (a == [] || a[0] < b[0] || (a[0] == b[0] && Less(a[1..], b[1..])))
  }

  /** At position `n` the texts part: `a` ends there, or has the smaller character. */
  predicate ComesFirstAt(a: string, b: string, n: nat) {
    n <= |a| && n < |b| && a[..n] == b[..n] && (n == |a| || a[n] < b[n])
  }

  ghost predicate Before(a: string, b: string) {
    exists n: nat :: ComesFirstAt(a, b, n)
  }

  lemma SameStart(a: string, b: string, n: nat)
    requires ComesFirstAt(a, b, n)
    ensures n == 0 || (a != [] && b != [] && a[0] == b[0])
  {
    if n > 0 { assert a[0] == a[..n][0] && b[0] == b[..n][0]; }
  }

  /** A text comes before another exactly if it is a proper beginning of it, or has the smaller
      character where they first differ. */
  lemma {:induction false} LessMeaning(a: string, b: string)
    ensures Less(a, b) <==> Before(a, b)
  {
    if b != [] && a != [] && a[0] == b[0] {
      LessMeaning(a[1..], b[1..]);
      if Less(a, b) {
        var n: nat :| ComesFirstAt(a[1..], b[1..], n);
        assert a[..n + 1] == [a[0]] + a[1..][..n] && b[..n + 1] == [b[0]] + b[1..][..n];
        assert ComesFirstAt(a, b, n + 1);
      }
      if n: nat :| ComesFirstAt(a, b, n) {
        assert a[1..][..n - 1] == a[..n][1..] && b[1..][..n - 1] == b[..n][1..];
        assert ComesFirstAt(a[1..], b[1..], n - 1);
      }
    } else {
      if Less(a, b) { assert ComesFirstAt(a, b, 0); }
      if n: nat :| ComesFirstAt(a, b, n) {
        SameStart(a, b, n);
      }
    }
  }

  lemma {:induction false} LessIrreflexive(a: string)
    ensures !Less(a, a)
  {
    if a != [] {
      LessIrreflexive(a[1..]);
    }
  }

  lemma {:induction false} LessTransitive(a: string, b: string, c: string)
    requires Less(a, b) && Less(b, c)
    ensures Less(a, c)
  {
    if a != [] && a[0] == b[0] == c[0] {
      LessTransitive(a[1..], b[1..], c[1..]);
    }
  }

  lemma {:induction false} LessTotal(a: string, b: string)
    ensures a == b || Less(a, b) || Less(b, a)
  {
    if a != [] && b != [] && a[0] == b[0] {
      LessTotal(a[1..], b[1..]);
      assert a == [a[0]] + a[1..] && b == [b[0]] + b[1..];
    }
  }

  lemma LessAsymmetric(a: string, b: string)
    requires Less(a, b)
    ensures !Less(b, a)
  {
    if Less(b, a) {
      LessTransitive(a, b, a);
      LessIrreflexive(a);
    }
  }

  ghost predicate IsLeast(k: string, s: set<string>) {
    k in s && forall j :: j in s && j != k ==> Less(k, j)
  }

  lemma {:induction false} LeastExists(s: set<string>)
    requires s != {}
    ensures exists k :: IsLeast(k, s)
  {
    var x :| x in s;
    var rest := s - {x};
    if rest == {} {
      assert s == {x};
      assert IsLeast(x, s);
    } else {
      LeastExists(rest);
      var m :| IsLeast(m, rest);
      LessTotal(x, m);
      if Less(x, m) {
        forall j | j in s && j != x
          ensures Less(x, j)
        {
          if j != m { LessTransitive(x, m, j); }
        }
        assert IsLeast(x, s);
      } else {
        assert IsLeast(m, s);
      }
    }
  }

  /** The least key of a non-empty set. */
  function Least(s: set<string>): (k: string)
    requires s != {}
    ensures k in s && forall j :: j in s && j != k ==> Less(k, j)
  {
    LeastExists(s);
    assert forall a, b :: a in s && b in s && Less(a, b) ==> !Less(b, a) by {
      forall a, b | a in s && b in s && Less(a, b) ensures !Less(b, a) { LessAsymmetric(a, b); }
    }
    assert exists k :: k in s && forall j :: j in s && j != k ==> Less(k, j) by {
      var k :| IsLeast(k, s);
    }
    var k :| k in s && forall j :: j in s && j != k ==> Less(k, j);
    k
  }

  predicate Ascending(keys: seq<string>) {
    forall i, j :: 0 <= i < j < |keys| ==> Less(keys[i], keys[j])
  }

  lemma AscendingDistinct(keys: seq<string>, i: nat, j: nat)
    requires Ascending(keys) && i < |keys| && j < |keys| && i != j
    ensures keys[i] != keys[j]
  {
    LessIrreflexive(keys[i]);
  }

  /** The iteration order of a map with these keys. */
  function SortedKeys(s: set<string>): (keys: seq<string>)
    ensures Ascending(keys)
    ensures |keys| == |s|
    ensures forall k :: k in keys <==> k in s
  {
    if s == {} then [] else
      var k := Least(s);
      var rest := SortedKeys(s - {k});
      assert forall i :: 0 <= i < |rest| ==> rest[i] in rest;
      [k] + rest
  }
}
