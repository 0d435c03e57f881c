/** Versions and requirements of kai-os/pkg/src/version.rs: printing, parsing, order, matching. */
module Versions {
  import opened Results
  import opened Texts
  import opened Decimal

  const TWO_TO_THE_64 := 0x1_0000_0000_0000_0000

  type u64 = n: nat | n < TWO_TO_THE_64

  datatype Version = Version(major: u64, minor: u64, patch: u64)

  datatype VersionReq = Exact(version: Version) | Caret(version: Version)

  datatype ParseError = ParseError(message: string)

  // ---------- order and matching ----------

  /** The derived order: major, then minor, then patch. */
  predicate Older(a: Version, b: Version) {
    || a.major < b.major
    || (a.major == b.major && a.minor < b.minor)
    || (a.major == b.major && a.minor == b.minor && a.patch < b.patch)
  }

  predicate Matches(req: VersionReq, v: Version) {
    match req
    case Exact(e) => e == v
    case Caret(c) => v.major == c.major && !Older(v, c)
  }

  /** A version as one number in base 2^64. */
  function Rank(v: Version): nat {
    (v.major * TWO_TO_THE_64 + v.minor) * TWO_TO_THE_64 + v.patch
  }

  lemma DigitOrder(a: nat, b: u64, c: nat, d: u64)
    ensures a * TWO_TO_THE_64 + b < c * TWO_TO_THE_64 + d <==> a < c || (a == c && b < d)
    ensures a * TWO_TO_THE_64 + b == c * TWO_TO_THE_64 + d <==> a == c && b == d
  {
  }

  /** The order is numeric precedence (item 11 of SemVer 2.0.0), not the order of the texts:
      it is the order of one number, so it is total, and equal ranks are equal versions. */
  lemma {:induction false} OrderIsNumeric(a: Version, b: Version)
    ensures Older(a, b) <==> Rank(a) < Rank(b)
    ensures a == b <==> Rank(a) == Rank(b)
  {
    DigitOrder(a.major, a.minor, b.major, b.minor);
    DigitOrder(a.major * TWO_TO_THE_64 + a.minor, a.patch, b.major * TWO_TO_THE_64 + b.minor, b.patch);
  }

  /** A caret admits the versions from the given one up to, but not including, the next major. */
  lemma {:induction false} CaretIsInterval(c: Version, v: Version)
    ensures Matches(Caret(c), v) <==>
            Rank(c) <= Rank(v) < (c.major + 1) * TWO_TO_THE_64 * TWO_TO_THE_64
  {
    OrderIsNumeric(v, c);
    DigitOrder(v.major, v.minor, c.major + 1, 0);
    DigitOrder(v.major * TWO_TO_THE_64 + v.minor, v.patch, (c.major + 1) * TWO_TO_THE_64, 0);
  }

  ghost predicate IsHighest(v: Version, s: set<Version>) {
    v in s && forall w :: w in s && w != v ==> Older(w, v)
  }

  lemma {:induction false} HighestExists(s: set<Version>)
    requires s != {}
    ensures exists v :: IsHighest(v, s)
  {
    var x :| x in s;
    var rest := s - {x};
    if rest == {} {
      assert s == {x};
      assert IsHighest(x, s);
    } else {
      HighestExists(rest);
      var m :| IsHighest(m, rest);
      if Older(m, x) {
        forall w | w in s && w != x
          ensures Older(w, x)
        {
          if w != m { assert Older(w, m); }
        }
        assert IsHighest(x, s);
      } else {
        assert IsHighest(m, s);
      }
    }
  }

  /** The greatest version of a set, the first one of a descending scan. */
  function Highest(s: set<Version>): (r: Option<Version>)
    ensures r.None? <==> s == {}
    ensures r.Some? ==> r.value in s && forall w :: w in s && w != r.value ==> Older(w, r.value)
  {
    if s == {} then None else
      HighestExists(s);
      assert exists v :: v in s && forall w :: w in s && w != v ==> Older(w, v) by {
        var v :| IsHighest(v, s);
      }
      var v :| v in s && forall w :: w in s && w != v ==> Older(w, v);
      Some(v)
  }

  // ---------- printing ----------

  function ShowVersion(v: Version): string {
    Show(v.major) + "." + (Show(v.minor) + "." + Show(v.patch))
  }

  function ShowReq(r: VersionReq): string {
    match r
    case Exact(v) => ShowVersion(v)
    case Caret(v) => "^" + ShowVersion(v)
  }

  // ---------- parsing ----------

  /** `str::parse::<u64>`: an optional plus sign, then at least one digit, without overflow. */
  function ParseU64(s: string): Option<u64> {
    var digits := if s != "" && s[0] == '+' then s[1..] else s;
    if digits != "" && AllDigits(digits) && Value(digits) < TWO_TO_THE_64
    then Some(Value(digits)) else None
  }

  function DotAt(s: string): (n: nat)
    ensures n <= |s| && forall i :: 0 <= i < n ==> s[i] != '.'
    ensures n < |s| ==> s[n] == '.'
  {
    if s == "" || s[0] == '.' then 0 else 1 + DotAt(s[1..])
  }

  /** `split('.')`: always at least one part. */
  function SplitDots(s: string): (parts: seq<string>)
    ensures parts != []
    decreases |s|
  {
    var n := DotAt(s);
    if n == |s| then [s] else [s[..n]] + SplitDots(s[n + 1..])
  }

  function WrongParts(s: string): ParseError {
    ParseError("'" + s + "' erwartet major.minor.patch")
  }

  function NotANumber(part: string): ParseError {
    ParseError("'" + part + "' ist keine Zahl")
  }

  function ParseVersion(s: string): Result<Version, ParseError> {
    var parts := SplitDots(s);
    if |parts| != 3 then Err(WrongParts(s))
    else match ParseU64(parts[0])
      case None => Err(NotANumber(parts[0]))
      case Some(major) =>
        match ParseU64(parts[1])
        case None => Err(NotANumber(parts[1]))
        case Some(minor) =>
          match ParseU64(parts[2])
          case None => Err(NotANumber(parts[2]))
          case Some(patch) => Ok(Version(major, minor, patch))
  }

  function ParseReq(s: string): Result<VersionReq, ParseError> {
    if s != "" && s[0] == '^' then
      match ParseVersion(s[1..])
      case Ok(v) => Ok(Caret(v))
      case Err(e) => Err(e)
    else
      match ParseVersion(s)
      case Ok(v) => Ok(Exact(v))
      case Err(e) => Err(e)
  }

  /** The loop over the three parts, filling `nums` until a part is not a number. */
  method VersionFromStr(s: string) returns (r: Result<Version, ParseError>)
    ensures r == ParseVersion(s)
  {
    hide ParseU64, SplitDots, WrongParts, NotANumber;
    var parts := SplitDots(s);
    if |parts| != 3 { return Err(WrongParts(s)); }
    var nums: array<u64> := new u64[3](_ => 0);
    for i := 0 to |parts|
      invariant forall k :: 0 <= k < i ==> ParseU64(parts[k]) == Some(nums[k])
    {
      match ParseU64(parts[i]) {
        case None =>
          assert forall k :: 0 <= k < i ==> ParseU64(parts[k]).Some?;
          return Err(NotANumber(parts[i]));
        case Some(n) => nums[i] := n;
      }
    }
    return Ok(Version(nums[0], nums[1], nums[2]));
  }

  // ---------- which texts are accepted ----------

  /** A numeral: an optional plus sign and at least one digit; leading zeros do not matter. */
  ghost predicate IsNumeral(s: string, n: u64) {
    exists digits :: (s == digits || s == "+" + digits) && digits != "" && AllDigits(digits) && Value(digits) == n
  }

  ghost predicate IsVersionText(s: string, v: Version) {
    exists a, b, c :: s == a + "." + (b + "." + c) && IsNumeral(a, v.major) && IsNumeral(b, v.minor) && IsNumeral(c, v.patch)
  }

  lemma ParseU64Accepts(s: string, n: u64)
    ensures ParseU64(s) == Some(n) <==> IsNumeral(s, n)
  {
    if IsNumeral(s, n) {
      var digits :| (s == digits || s == "+" + digits) && digits != "" && AllDigits(digits) && Value(digits) == n;
      if s == digits {
        assert s[0] != '+';
      } else {
        assert s[1..] == digits;
      }
    }
    if ParseU64(s) == Some(n) && s[0] == '+' {
      assert s == "+" + s[1..];
    }
  }

  lemma NumeralHasNoDot(s: string, n: u64)
    requires IsNumeral(s, n)
    ensures '.' !in s
  {
  }

  lemma SplitFirst(a: string, rest: string)
    requires '.' !in a
    ensures SplitDots(a + "." + rest) == [a] + SplitDots(rest)
  {
    var t := a + "." + rest;
    assert t[|a|] == '.';
    assert forall i :: 0 <= i < |a| ==> t[i] == a[i];
    assert DotAt(t) == |a|;
    assert t[..|a|] == a && t[|a| + 1..] == rest;
  }

  lemma SplitLast(a: string)
    requires '.' !in a
    ensures SplitDots(a) == [a]
  {
    assert DotAt(a) == |a|;
  }

  lemma SplitThree(a: string, b: string, c: string)
    requires '.' !in a && '.' !in b && '.' !in c
    ensures SplitDots(a + "." + (b + "." + c)) == [a, b, c]
  {
    SplitFirst(a, b + "." + c);
    SplitFirst(b, c);
    SplitLast(c);
  }

  lemma {:induction false} SplitRejoins(s: string)
    ensures var parts := SplitDots(s);
            if |parts| == 1 then s == parts[0]
            else |parts[0]| < |s| && s == parts[0] + "." + s[|parts[0]| + 1..] && SplitDots(s[|parts[0]| + 1..]) == parts[1..]
  {
    var n := DotAt(s);
    if n < |s| { assert s == s[..n] + "." + s[n + 1..]; }
  }

  /** Exactly the texts of three numerals with dots between them are accepted, with the value
      of the numerals. */
  lemma {:induction false} AcceptedVersions(s: string, v: Version)
    ensures ParseVersion(s) == Ok(v) <==> IsVersionText(s, v)
  {
    var parts := SplitDots(s);
    if IsVersionText(s, v) {
      var a, b, c :| s == a + "." + (b + "." + c) && IsNumeral(a, v.major) && IsNumeral(b, v.minor) && IsNumeral(c, v.patch);
      NumeralHasNoDot(a, v.major);
      NumeralHasNoDot(b, v.minor);
      NumeralHasNoDot(c, v.patch);
      SplitThree(a, b, c);
      ParseU64Accepts(a, v.major);
      ParseU64Accepts(b, v.minor);
      ParseU64Accepts(c, v.patch);
    }
    if ParseVersion(s) == Ok(v) {
      RejoinThree(s);
      ParseU64Accepts(parts[0], v.major);
      ParseU64Accepts(parts[1], v.minor);
      ParseU64Accepts(parts[2], v.patch);
    }
  }

  lemma RejoinThree(s: string)
    requires |SplitDots(s)| == 3
    ensures var parts := SplitDots(s); s == parts[0] + "." + (parts[1] + "." + parts[2])
  {
    hide SplitDots;
    var parts := SplitDots(s);
    SplitRejoins(s);
    var rest := s[|parts[0]| + 1..];
    SplitRejoins(rest);
    SplitRejoins(rest[|parts[1]| + 1..]);
  }

  /** Why a text is refused: it has not exactly two dots; or the first of its three parts that is
      no numeral, which is named. */
  lemma {:induction false} RefusedVersions(s: string)
    ensures ParseVersion(s) == Err(ParseError("'" + s + "' erwartet major.minor.patch")) || DotsIn(s) == 2
    ensures DotsIn(s) == 2 ==>
            var parts := SplitDots(s);
            && |parts| == 3 && s == parts[0] + "." + (parts[1] + "." + parts[2])
            && forall k :: 0 <= k < 3 && !IsSomeNumeral(parts[k]) && (forall j :: 0 <= j < k ==> IsSomeNumeral(parts[j])) ==>
                 ParseVersion(s) == Err(ParseError("'" + parts[k] + "' ist keine Zahl"))
  {
    hide ParseU64, IsSomeNumeral, SplitDots;
    PartsOf(s);
    if DotsIn(s) == 2 {
      var parts := SplitDots(s);
      RejoinThree(s);
      forall k | 0 <= k < 3
        ensures IsSomeNumeral(parts[k]) <==> ParseU64(parts[k]).Some?
      {
        NumeralIffParsed(parts[k]);
      }
    }
  }

  ghost predicate IsSomeNumeral(s: string) {
    exists n: u64 :: IsNumeral(s, n)
  }

  lemma NumeralIffParsed(s: string)
    ensures IsSomeNumeral(s) <==> ParseU64(s).Some?
  {
    hide IsNumeral;
    if n: u64 :| IsNumeral(s, n) { ParseU64Accepts(s, n); }
    if ParseU64(s).Some? { ParseU64Accepts(s, ParseU64(s).value); }
  }

  function DotsIn(s: string): nat {
    if s == "" then 0 else (if s[0] == '.' then 1 else 0) + DotsIn(s[1..])
  }

  lemma {:induction false} DotsBehind(s: string, n: nat)
    requires n <= |s| && forall i :: 0 <= i < n ==> s[i] != '.'
    ensures DotsIn(s) == DotsIn(s[n..])
  {
    if n > 0 {
      DotsBehind(s[1..], n - 1);
      assert s[1..][n - 1..] == s[n..];
    }
  }

  lemma {:induction false} PartsOf(s: string)
    ensures |SplitDots(s)| == DotsIn(s) + 1
    decreases |s|
  {
    var n := DotAt(s);
    DotsBehind(s, n);
    if n < |s| {
      PartsOf(s[n + 1..]);
      assert s[n..][1..] == s[n + 1..];
    }
  }

  // ---------- round trips ----------

  lemma ShownIsNumeral(n: u64)
    ensures IsNumeral(Show(n), n)
  {
    ValueOfShow(n);
  }

  lemma {:induction false} VersionRoundTrip(v: Version)
    ensures ParseVersion(ShowVersion(v)) == Ok(v)
    ensures ShowVersion(v)[0] != '^'
  {
    ShownIsNumeral(v.major);
    ShownIsNumeral(v.minor);
    ShownIsNumeral(v.patch);
    AcceptedVersions(ShowVersion(v), v);
    assert ShowVersion(v)[0] == Show(v.major)[0];
  }

  /** Printing and parsing a requirement gives it back; and whatever text was accepted, plus
      signs and leading zeros included, its value survives print and parse. */
  lemma {:induction false} ReqRoundTrip(r: VersionReq)
    ensures ParseReq(ShowReq(r)) == Ok(r)
  {
    VersionRoundTrip(r.version);
    assert ("^" + ShowVersion(r.version))[1..] == ShowVersion(r.version);
  }

  /** Which requirement texts are accepted: a caret stands for caret matching and is stripped
      once. */
  lemma {:induction false} AcceptedReqs(s: string, r: VersionReq)
    ensures ParseReq(s) == Ok(r) <==>
      match r
      case Exact(v) => IsVersionText(s, v)
      case Caret(v) => s != "" && s[0] == '^' && IsVersionText(s[1..], v)
  {
    AcceptedVersions(s, r.version);
    if s != "" { AcceptedVersions(s[1..], r.version); }
    if IsVersionText(s, r.version) { VersionTextHasNoCaret(s, r.version); }
  }

  /** A requirement is refused with the error of the version text behind its caret, or of the
      whole text if it does not start with one. */
  lemma {:induction false} RefusedReqs(s: string)
    ensures (s == "" || s[0] != '^') && ParseVersion(s).Err? ==> ParseReq(s) == Err(ParseVersion(s).error)
    ensures ParseVersion(s).Err? ==> ParseReq("^" + s) == Err(ParseVersion(s).error)
  {
    hide ParseVersion;
    assert ("^" + s)[1..] == s;
  }

  lemma VersionTextHasNoCaret(s: string, v: Version)
    requires IsVersionText(s, v)
    ensures s != "" && s[0] != '^'
  {
    var a, b, c :| s == a + "." + (b + "." + c) && IsNumeral(a, v.major) && IsNumeral(b, v.minor) && IsNumeral(c, v.patch);
    CaretIsNoNumeral(a, v.major);
    assert s[0] == a[0];
  }

  lemma CaretIsNoNumeral(a: string, n: u64)
    requires IsNumeral(a, n)
    ensures a != "" && a[0] != '^'
  {
  }
}
