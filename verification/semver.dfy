/** The two version comparisons the alert correlator relies on: a strict
    semantic-version ordering (MAJOR.MINOR.PATCH precedence as in section 11
    of Semantic Versioning 2.0.0) and the numeric prefix `parseFloat` reads. */
module Semver {
  import opened Types

  datatype Version = Version(major: nat, minor: nat, patch: nat)

  /** Longest version string the semver parser accepts. */
  const MaxLength: nat := 256

  /** Largest numeric identifier the semver parser accepts (2^53 - 1). */
  const MaxSafeInteger: nat := 9007199254740991

  predicate IsDigit(c: char)
  {
    '0' <= c <= '9'
  }

  predicate AllDigits(s: string)
  {
    forall i :: 0 <= i < |s| ==> IsDigit(s[i])
  }

  function DigitsValue(s: string): nat
    requires AllDigits(s)
  {
    if |s| == 0 then 0 else 10 * DigitsValue(s[..|s| - 1]) + (s[|s| - 1] as int - '0' as int)
  }

  /** A numeric identifier: `0`, or a non-empty digit string without a leading zero. */
  function ParseNumeric(s: string): Option<nat>
  {
    if |s| > 0 && AllDigits(s) && (|s| == 1 || s[0] != '0') && DigitsValue(s) <= MaxSafeInteger
    then Some(DigitsValue(s))
    else None
  }

  /** Splits at every '.', keeping empty pieces. */
  function SplitDots(s: string): (parts: seq<string>)
    ensures |parts| >= 1
  {
    if |s| == 0 then [""]
    else if s[0] == '.' then [""] + SplitDots(s[1..])
    else
      var rest := SplitDots(s[1..]);
      [[s[0]] + rest[0]] + rest[1..]
  }

  /** Strict parsing of `[v]MAJOR.MINOR.PATCH`; None where `semver.valid` yields null. */
  function Parse(s: string): Option<Version>
  {
    if |s| > MaxLength then None
    else
      var body := if |s| > 0 && s[0] == 'v' then s[1..] else s;
      var parts := SplitDots(body);
      if |parts| != 3 then None
      else
        match (ParseNumeric(parts[0]), ParseNumeric(parts[1]), ParseNumeric(parts[2]))
        case (Some(a), Some(b), Some(c)) => Some(Version(a, b, c))
        case _ => None
  }

  predicate Valid(s: string)
  {
    Parse(s).Some?
  }

  /** Precedence: compare major, then minor, then patch numerically. */
  predicate Less(a: Version, b: Version)
  {
    a.major < b.major
    || (a.major == b.major && (a.minor < b.minor || (a.minor == b.minor && a.patch < b.patch)))
  }

  /** `semver.gt(x, y)` for two valid version strings. */
  predicate Gt(x: string, y: string)
    requires Valid(x) && Valid(y)
  {
    Less(Parse(y).value, Parse(x).value)
  }

  /** Precedence is a strict total order on versions. */
  lemma LessIsStrictTotalOrder(a: Version, b: Version, c: Version)
    ensures !Less(a, a)
    ensures Less(a, b) && Less(b, c) ==> Less(a, c)
    ensures a == b || Less(a, b) || Less(b, a)
  {
  }

  /** No valid version precedes `0.0.0`, and a valid version is above it
      exactly when it does not read as the zero version. */
  lemma ZeroIsBottom(s: string)
    requires Valid(s)
    ensures Valid("0.0.0") && !Gt("0.0.0", s)
    ensures Gt(s, "0.0.0") <==> Parse(s) != Some(Version(0, 0, 0))
  {
    ZeroIsValid();
  }

  /** `0.0.0` parses to the zero version. */
  lemma ZeroIsValid()
    ensures Parse("0.0.0") == Some(Version(0, 0, 0))
  {
    assert "0.0.0"[1..] == ".0.0" && ".0.0"[1..] == "0.0" && "0.0"[1..] == ".0" && ".0"[1..] == "0" && "0"[1..] == "";
    assert SplitDots("") == [""];
    assert ['0'] + "" == "0";
    assert SplitDots("0") == ["0"];
    assert SplitDots(".0") == ["", "0"];
    assert SplitDots("0.0") == ["0", "0"];
    assert SplitDots(".0.0") == ["", "0", "0"];
    assert SplitDots("0.0.0") == ["0", "0", "0"];
  }

  // ---------------------------------------------------------------------
  // parseFloat

  /** Number of leading decimal digits of `s`. */
  function LeadingDigits(s: string): (k: nat)
    ensures k <= |s| && AllDigits(s[..k])
    ensures k < |s| ==> !IsDigit(s[k])
  {
    if |s| == 0 || !IsDigit(s[0]) then 0
    else
      var k := 1 + LeadingDigits(s[1..]);
      assert s[..k] == [s[0]] + s[1..][..k - 1];
      k
  }

  function Pow10(n: nat): (p: nat)
    ensures p >= 1
  {
    if n == 0 then 1 else 10 * Pow10(n - 1)
  }

  /** The value `parseFloat` reads from the leading `digits[.digits]` of `s`;
      None where it yields NaN. */
  function ParseFloatPrefix(s: string): (r: Option<real>)
    ensures r.None? <==> LeadingDigits(s) == 0 && (|s| == 0 || s[0] != '.' || LeadingDigits(s[1..]) == 0)
  {
    var k := LeadingDigits(s);
    var whole := DigitsValue(s[..k]) as real;
    if k < |s| && s[k] == '.' then
      var f := LeadingDigits(s[k + 1..]);
      if k == 0 && f == 0 then None
      else Some(whole + (DigitsValue(s[k + 1..][..f]) as real) / (Pow10(f) as real))
    else if k == 0 then None
    else Some(whole)
  }

  /** A string without '.' is a single piece. */
  lemma {:induction false} NoDotOnePiece(s: string)
    requires forall i :: 0 <= i < |s| ==> s[i] != '.'
    ensures |SplitDots(s)| == 1
  {
    if |s| > 0 {
      NoDotOnePiece(s[1..]);
    }
  }

  /** Neither `none` nor `N/A` has a numeric prefix. */
  lemma NonNumericStrings()
    ensures ParseFloatPrefix("none").None?
    ensures ParseFloatPrefix("N/A").None?
    ensures !Valid("none") && !Valid("N/A")
  {
    NoDotOnePiece("none");
    NoDotOnePiece("N/A");
  }
}
