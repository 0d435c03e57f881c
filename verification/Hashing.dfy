/** SHA-256 as the crates use it: an uninterpreted function from text to a lower-case
    hexadecimal digest.  Injectivity is never assumed.  A theorem that holds only while no
    two texts collide names the finite set of texts that were actually hashed. */
module Hashing {

  /** The digest of the empty text. */
  const EMPTY_DIGEST :=
    "e3b0c44298fc1c14" + "9afbf4c8996fb924" + "27ae41e4649b934c" + "a495991b7852b855"

  predicate IsHexDigit(c: char) {
    '0' <= c <= '9' || 'a' <= c <= 'f'
  }

  predicate IsHex(s: string) {
    forall c :: c in s ==> IsHexDigit(c)
  }

  predicate IsDigest(d: string) {
    |d| == 64 && IsHex(d)
  }

  ghost predicate IsSha256(f: string -> string) {
    f("") == EMPTY_DIGEST && forall s :: IsDigest(f(s))
  }

  /** Shows that the type below is inhabited; used for nothing else. */
  function SomeDigest(s: string): (d: string)
    ensures IsDigest(d) && d == EMPTY_DIGEST
  {
    assert IsHex("e3b0c44298fc1c14") && IsHex("9afbf4c8996fb924");
    assert IsHex("27ae41e4649b934c") && IsHex("a495991b7852b855");
    EMPTY_DIGEST
  }

  type HashFunction = f: string -> string | IsSha256(f) witness SomeDigest

  /** Any function with the output format of SHA-256; nothing else is known about it. */
  const hashFunction: HashFunction

  function Sha(s: string): (d: string)
    ensures IsDigest(d)
    ensures s == "" ==> d == EMPTY_DIGEST
  {
    hashFunction(s)
  }

  function Zeros(n: nat): (s: string)
    ensures |s| == n && forall c :: c in s ==> c == '0'
  {
    if n == 0 then "" else Zeros(n - 1) + "0"
  }

  /** The hash that stands before the first record, block or audit event. */
  const GENESIS_PREV: string := Zeros(64)

  predicate CollidesIn(texts: set<string>, a: string, b: string) {
    a in texts && b in texts && a != b && Sha(a) == Sha(b)
  }

  /** Two distinct texts of `texts` have the same digest. */
  ghost predicate CollisionIn(texts: set<string>) {
    exists a, b :: CollidesIn(texts, a, b)
  }

  lemma SameDigestSameText(a: string, b: string, texts: set<string>)
    requires a in texts && b in texts && Sha(a) == Sha(b)
    requires !CollisionIn(texts)
    ensures a == b
  {
    assert !CollidesIn(texts, a, b);
  }

  lemma NoCollisionInSubset(small: set<string>, large: set<string>)
    requires small <= large
    ensures CollisionIn(small) ==> CollisionIn(large)
  {
    if CollisionIn(small) {
      var a, b :| CollidesIn(small, a, b);
      assert CollidesIn(large, a, b);
    }
  }
}
