/** Versions following Semantic Versioning 2.0.0: a version core
    MAJOR.MINOR.PATCH, a pre-release (section 9) and build metadata
    (section 10), each kept as its dot-separated text, "" when absent. */
module Semver {
  import opened Wrappers
  import opened Strings

  datatype Version = Version(major: nat, minor: nat, patch: nat, pre: string, build: string)

  /** An identifier character: ASCII alphanumerics and hyphen. */
  predicate IdentChar(c: char) {
    ('0' <= c <= '9') || ('A' <= c <= 'Z') || ('a' <= c <= 'z') || c == '-'
  }

  predicate IdentChars(s: string) {
    forall i :: 0 <= i < |s| ==> IdentChar(s[i])
  }

  predicate IsNumericIdent(s: string) {
    |s| > 0 && AllDigits(s)
  }

  /** Section 9: non-empty, identifier characters, no leading zero in a numeric identifier. */
  predicate ValidPreIdent(s: string) {
    |s| > 0 && IdentChars(s) && (IsNumericIdent(s) && |s| > 1 ==> s[0] != '0')
  }

  /** Section 10: non-empty, identifier characters (leading zeros allowed). */
  predicate ValidBuildIdent(s: string) {
    |s| > 0 && IdentChars(s)
  }

  /** A pre-release `Prerelease::new` accepts; the empty one means none. */
  predicate ValidPre(s: string) {
    var ids := Split(s, '.');
    s == "" || forall k :: 0 <= k < |ids| ==> ValidPreIdent(ids[k])
  }

  /** Build metadata `BuildMetadata::new` accepts; the empty one means none. */
  predicate ValidBuild(s: string) {
    var ids := Split(s, '.');
    s == "" || forall k :: 0 <= k < |ids| ==> ValidBuildIdent(ids[k])
  }

  /** `format!("{}", v)`. */
  function Render(v: Version): string {
    NatToString(v.major) + "." + NatToString(v.minor) + "." + NatToString(v.patch)
    + (if v.pre == "" then "" else "-" + v.pre)
    + (if v.build == "" then "" else "+" + v.build)
  }

  /** Section 11.2: the version cores compared numerically, left to right. */
  predicate CoreLess(a: Version, b: Version) {
    || a.major < b.major
    || (a.major == b.major && a.minor < b.minor)
    || (a.major == b.major && a.minor == b.minor && a.patch < b.patch)
  }

  predicate SameCore(a: Version, b: Version) {
    a.major == b.major && a.minor == b.minor && a.patch == b.patch
  }

  /** ASCII lexical order on strings. */
  predicate AsciiLess(x: string, y: string) {
    if |x| == 0 then |y| > 0
    else if |y| == 0 then false
    else if x[0] != y[0] then x[0] < y[0]
    else AsciiLess(x[1..], y[1..])
  }

  /** Section 11.4.1-11.4.3: one pre-release identifier below another. */
  predicate IdentLess(x: string, y: string) {
    if IsNumericIdent(x) && IsNumericIdent(y) then DigitsValue(x) < DigitsValue(y)
    else if IsNumericIdent(x) then true
    else if IsNumericIdent(y) then false
    else AsciiLess(x, y)
  }

  /** Section 11.4: identifiers compared left to right; a proper prefix is lower. */
  predicate IdentsLess(xs: seq<string>, ys: seq<string>) {
    if |xs| == 0 then |ys| > 0
    else if |ys| == 0 then false
    else if xs[0] == ys[0] then IdentsLess(xs[1..], ys[1..])
    else IdentLess(xs[0], ys[0])
  }

  /** Section 11: `a` has lower precedence than `b` (build metadata is ignored). */
  predicate Precedes(a: Version, b: Version) {
    || CoreLess(a, b)
    || (SameCore(a, b) && a.pre != "" && b.pre == "")
    || (SameCore(a, b) && a.pre != "" && b.pre != "" && IdentsLess(Split(a.pre, '.'), Split(b.pre, '.')))
  }

  lemma {:induction false} IdentsLessCommonPrefix(p: seq<string>, x: string, y: string)
    requires x != y
    ensures IdentsLess(p + [x], p + [y]) == IdentLess(x, y)
    decreases |p|
  {
    if |p| > 0 {
      assert (p + [x])[1..] == p[1..] + [x];
      assert (p + [y])[1..] == p[1..] + [y];
      IdentsLessCommonPrefix(p[1..], x, y);
    }
  }

  lemma {:induction false} IdentsLessExtension(p: seq<string>, q: seq<string>)
    requires |q| > 0
    ensures IdentsLess(p, p + q)
    decreases |p|
  {
    if |p| > 0 {
      assert (p + q)[1..] == p[1..] + q;
      IdentsLessExtension(p[1..], q);
    }
  }
}
