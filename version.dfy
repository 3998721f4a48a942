/** Program version triple (`class Version`, src/middleware/version.cpp).
    The fields are never changed after construction, so a version is a value. */
module Versions {
  import opened Util

  datatype Version = Version(major: Int32, minor: Int32, revision: Int32)

  /** `Version()`. */
  const Default: Version := Version(0, 0, 0)

  /** The version potoroo reports (`project::version`, src/project.h:16). */
  const ProjectVersion: Version := Version(0, 2, 0)

  /** `toVector`: major, minor and revision in this order. */
  function ToVector(v: Version): (r: seq<int>)
    ensures |r| == 3
  {
    [v.major, v.minor, v.revision]
  }

  /** Rebuilds a version from the three numbers `ToVector` lists. */
  function FromVector(r: seq<int>): Version
    requires |r| == 3
    requires forall k :: 0 <= k < 3 ==> -0x8000_0000 <= r[k] < 0x8000_0000
  {
    Version(r[0], r[1], r[2])
  }

  lemma VectorRoundTrip(v: Version)
    ensures FromVector(ToVector(v)) == v
  {
  }

  /** `toArray(dest)`: returns 1 for a null pointer and writes nothing;
      otherwise writes the three numbers to `dest[0..3]` and returns 0.
      The caller must supply room for three `int`s. */
  method ToArray(v: Version, dest: array?<int>) returns (r: int)
    requires dest != null ==> dest.Length >= 3
    modifies dest
    ensures dest == null <==> r == 1
    ensures r == 0 || r == 1
    ensures dest != null ==> dest[..3] == ToVector(v) && dest[3..] == old(dest[3..])
  {
    if dest == null {
      return 1;
    }
    dest[0] := v.major;
    dest[1] := v.minor;
    dest[2] := v.revision;
    return 0;
  }

  // ---------------------------------------------------------------------
  // toString

  /** `toString`: "major.minor.revision". */
  function ToString(v: Version): string
  {
    IntToString(v.major) + "." + IntToString(v.minor) + "." + IntToString(v.revision)
  }

  /** Index of the first '.' in `s`, or `|s|` when there is none. */
  function FirstDot(s: string): (i: nat)
    ensures i <= |s|
    ensures forall k :: 0 <= k < i ==> s[k] != '.'
    ensures i < |s| ==> s[i] == '.'
  {
    if s == [] then 0 else if s[0] == '.' then 0 else 1 + FirstDot(s[1..])
  }

  /** Reads back a version written by `ToString`: three numbers read as
      `std::stoi` reads them, separated by dots. */
  function ParseVersion(s: string): Option<Version>
  {
    var i := FirstDot(s);
    if i == |s| then None
    else
      var rest := s[i + 1..];
      var j := FirstDot(rest);
      if j == |rest| then None
      else
        match (Stoi(s[..i]), Stoi(rest[..j]), Stoi(rest[j + 1..]))
        case (Some(a), Some(b), Some(c)) => Some(Version(a, b, c))
        case _ => None
  }

  lemma FirstDotOf(a: string, rest: string)
    requires forall k :: 0 <= k < |a| ==> a[k] != '.'
    ensures FirstDot(a + "." + rest) == |a|
  {
    var s := a + "." + rest;
    assert s[|a|] == '.';
    assert forall k :: 0 <= k < |a| ==> s[k] == a[k];
  }

  /** `toString` loses nothing: the three numbers can be read back. */
  lemma ToStringRoundTrip(v: Version)
    ensures ParseVersion(ToString(v)) == Some(v)
  {
    var a, b, c := IntToString(v.major), IntToString(v.minor), IntToString(v.revision);
    StoiOfIntToString(v.major);
    StoiOfIntToString(v.minor);
    StoiOfIntToString(v.revision);
    assert ToString(v) == a + "." + (b + "." + c);
    ParseThree(a, b, c, v.major, v.minor, v.revision);
  }

  lemma ParseThree(a: string, b: string, c: string, x: Int32, y: Int32, z: Int32)
    requires Stoi(a) == Some(x) && Stoi(b) == Some(y) && Stoi(c) == Some(z)
    requires forall k :: 0 <= k < |a| ==> a[k] != '.'
    requires forall k :: 0 <= k < |b| ==> b[k] != '.'
    ensures ParseVersion(a + "." + (b + "." + c)) == Some(Version(x, y, z))
  {
    var s := a + "." + (b + "." + c);
    FirstDotOf(a, b + "." + c);
    var rest := s[|a| + 1..];
    assert rest == b + "." + c;
    FirstDotOf(b, c);
    assert s[..|a|] == a;
    assert rest[..|b|] == b;
    assert rest[|b| + 1..] == c;
  }

  /** Different versions print differently. */
  lemma ToStringInjective(v: Version, w: Version)
    requires ToString(v) == ToString(w)
    ensures v == w
  {
    ToStringRoundTrip(v);
    ToStringRoundTrip(w);
  }

  // ---------------------------------------------------------------------
  // Comparison operators

  /** `operator<`: decided by the first of major, minor, revision that differs. */
  predicate Less(left: Version, right: Version)
  {
    if left.major > right.major then false
    else if left.major < right.major then true
    else if left.minor > right.minor then false
    else if left.minor < right.minor then true
    else if left.revision > right.revision then false
    else if left.revision < right.revision then true
    else false
  }

  /** `operator>`. */
  predicate Greater(left: Version, right: Version)
  {
    if left.major > right.major then true
    else if left.major < right.major then false
    else if left.minor > right.minor then true
    else if left.minor < right.minor then false
    else if left.revision > right.revision then true
    else if left.revision < right.revision then false
    else false
  }

  /** `operator<=`: not greater. */
  predicate LessEq(left: Version, right: Version)
  {
    !Greater(left, right)
  }

  /** `operator>=`: not less. */
  predicate GreaterEq(left: Version, right: Version)
  {
    !Less(left, right)
  }

  /** `operator==`: all three numbers equal. */
  predicate Equal(left: Version, right: Version)
  {
    left.major == right.major && left.minor == right.minor && left.revision == right.revision
  }

  /** `operator!=`. */
  predicate NotEqual(left: Version, right: Version)
  {
    !Equal(left, right)
  }

  /** Reference order: lexicographic order on number sequences. */
  predicate LexLess(a: seq<int>, b: seq<int>)
  {
    exists k :: 0 <= k < |a| && k < |b| && a[..k] == b[..k] && a[k] < b[k]
  }

  /** `<` is the lexicographic order of `toVector`. */
  lemma LessIsLexicographic(v: Version, w: Version)
    ensures Less(v, w) <==> LexLess(ToVector(v), ToVector(w))
  {
    var a, b := ToVector(v), ToVector(w);
    if Less(v, w) {
      var k := if v.major != w.major then 0 else if v.minor != w.minor then 1 else 2;
      assert a[..k] == b[..k];
    }
    if LexLess(a, b) {
      var k :| 0 <= k < |a| && k < |b| && a[..k] == b[..k] && a[k] < b[k];
      if k >= 1 { assert a[0] == a[..k][0] == b[..k][0] == b[0]; }
      if k == 2 { assert a[1] == a[..k][1] == b[..k][1] == b[1]; }
    }
  }

  /** `>` is `<` with the operands swapped. */
  lemma GreaterIsConverse(v: Version, w: Version)
    ensures Greater(v, w) <==> Less(w, v)
  {
  }

  /** `==` is equality of the triples. */
  lemma EqualIsIdentity(v: Version, w: Version)
    ensures Equal(v, w) <==> v == w
  {
  }

  /** Exactly one of `<`, `==`, `>` holds. */
  lemma Trichotomy(v: Version, w: Version)
    ensures Less(v, w) || Equal(v, w) || Greater(v, w)
    ensures !(Less(v, w) && Equal(v, w))
    ensures !(Less(v, w) && Greater(v, w))
    ensures !(Equal(v, w) && Greater(v, w))
  {
  }

  /** `<=` and `>=` are the non-strict orders. */
  lemma NonStrictOrders(v: Version, w: Version)
    ensures LessEq(v, w) <==> Less(v, w) || Equal(v, w)
    ensures GreaterEq(v, w) <==> Greater(v, w) || Equal(v, w)
    ensures NotEqual(v, w) <==> v != w
  {
  }

  lemma LessTransitive(u: Version, v: Version, w: Version)
    requires Less(u, v) && Less(v, w)
    ensures Less(u, w)
  {
  }

  lemma LessIrreflexive(v: Version)
    ensures !Less(v, v)
  {
  }

  /** `project::version` is later than `Version()` and is printed as a
      version that reads back to itself. */
  lemma ProjectVersionReported()
    ensures Greater(ProjectVersion, Default)
    ensures ParseVersion(ToString(ProjectVersion)) == Some(ProjectVersion)
  {
    ToStringRoundTrip(ProjectVersion);
  }
}
