/** The version mappers of src/cli.rs, one per `version` sub-command: each
    takes a package's current version and yields the version to set, `None`
    to leave the package alone, or an error where the program panics. */
module Mappers {
  import opened Wrappers
  import opened Strings
  import opened Semver

  const U32Max: nat := 0xFFFF_FFFF

  datatype VersionCommand =
    | SetTo(version: Version)
    | BumpPre
    | BumpPatch
    | BumpMinor
    | BumpMajor
    | BumpBreaking
    | BumpToDev(preTag: Option<string>)
    | SetPre(pre: string)
    | SetBuild(meta: string)
    | Release

  const DevTag: string := "dev"
  const PreRejected: string := "Static or expected to work"
  const MetaRejected: string := "The meta you provided couldn't be parsed"

  /** Each of the patch, minor and major bumps moves strictly up in
      precedence, keeps the components above the bumped one and the build
      metadata, and clears the pre-release. */
  function Patch(v: Version): (r: Version)
    ensures Precedes(v, r)
    ensures r.major == v.major && r.minor == v.minor && r.patch == v.patch + 1
    ensures r.pre == "" && r.build == v.build
  {
    v.(pre := "", patch := v.patch + 1)
  }

  function Minor(v: Version): (r: Version)
    ensures Precedes(v, r)
    ensures r.major == v.major && r.minor == v.minor + 1 && r.patch == 0
    ensures r.pre == "" && r.build == v.build
  {
    v.(pre := "", minor := v.minor + 1, patch := 0)
  }

  function Major(v: Version): (r: Version)
    ensures Precedes(v, r)
    ensures r.major == v.major + 1 && r.minor == 0 && r.patch == 0
    ensures r.pre == "" && r.build == v.build
  {
    v.(pre := "", major := v.major + 1, minor := 0, patch := 0)
  }

  /** The leftmost non-zero core component is bumped and the rest reset; a
      0.0.x version bumps its patch and also drops its build metadata. */
  function BreakingCore(v: Version): Version {
    if v.major != 0 then v.(major := v.major + 1, minor := 0, patch := 0)
    else if v.minor != 0 then v.(minor := v.minor + 1, patch := 0)
    else v.(patch := v.patch + 1, build := "")
  }

  /** Cargo's caret compatibility: `w` satisfies `^v` by its core. */
  predicate CaretCompatible(v: Version, w: Version) {
    if v.major != 0 then w.major == v.major
    else if v.minor != 0 then w.major == 0 && w.minor == v.minor
    else w.major == 0 && w.minor == 0 && w.patch == v.patch
  }

  /** `bump-breaking` yields the lowest release above `v` that `^v` does not
      accept. */
  function Breaking(v: Version): (r: Version)
    ensures r.pre == ""
    ensures r.build == if v.major == 0 && v.minor == 0 then "" else v.build
    ensures Precedes(v, r) && !CaretCompatible(v, r)
    ensures forall w: Version :: w.pre == "" && Precedes(v, w) && !CaretCompatible(v, w) ==> !Precedes(w, r)
  {
    BreakingCore(v).(pre := "")
  }

  /** `bump-to-dev` is `bump-breaking` with the tag as pre-release, so with
      a non-empty tag it lands above `v` and just below the breaking release. */
  function ToDev(v: Version, tag: string): (r: Version)
    ensures r.pre == tag && SameCore(r, Breaking(v))
    ensures r.build == if v.major == 0 && v.minor == 0 then "" else v.build
    ensures tag != "" ==> Precedes(v, r) && Precedes(r, Breaking(v))
  {
    BreakingCore(v).(pre := tag)
  }

  /** `Prerelease::new(&items.join("."))`, `None` when rejected. */
  function PreFrom(items: seq<string>): (r: Option<string>)
    ensures r.Some? <==> ValidPre(Join(items, '.'))
    ensures r.Some? ==> r.value == Join(items, '.')
  {
    var s := Join(items, '.');
    if ValidPre(s) then Some(s) else None
  }

  /** `num + 1` on a u32 as a release build computes it: 2^32 - 1 wraps to 0. */
  function IncU32(n: nat): (r: nat)
    requires n < U32_LIMIT
    ensures r < U32_LIMIT
    ensures n < U32Max ==> r == n + 1
    ensures n == U32Max ==> r == 0
  {
    (n + 1) % U32_LIMIT
  }

  /** The pre-release after `bump-pre`, with `inc` for the u32 increment:
      "1" when there is none; the number plus one when it is a u32; otherwise
      the last identifier plus one when it is a u32, or ".1" appended. */
  function NextPre(pre: string, inc: nat -> nat): Option<string> {
    if pre == "" then Some("1")
    else
      var whole := ParseU32(pre);
      if whole.Some? then Some(NatToString(inc(whole.value)))
      else
        var items := Split(pre, '.');
        var last := ParseU32(items[|items| - 1]);
        if last.Some? then PreFrom(items[..|items| - 1] + [NatToString(inc(last.value))])
        else PreFrom(items + ["1"])
  }

  /** The increment applied to a parsed u32 as a release build computes it. */
  function WrapInc(n: nat): nat {
    if n < U32_LIMIT then IncU32(n) else n + 1
  }

  function Succ(n: nat): nat {
    n + 1
  }

  /** `bump-pre` as written, with the wrapping increment: only the
      pre-release changes, and a release gets the pre-release "1". */
  function BumpPreAsWritten(v: Version): (r: Option<Version>)
    ensures r.Some? ==> r.value.(pre := v.pre) == v
    ensures v.pre == "" ==> r == Some(v.(pre := "1"))
  {
    var pre := NextPre(v.pre, WrapInc);
    if pre.None? then None else Some(v.(pre := pre.value))
  }

  /** `bump-pre` with the increment that does not wrap. */
  function BumpPreNext(v: Version): Option<Version> {
    var pre := NextPre(v.pre, Succ);
    if pre.None? then None else Some(v.(pre := pre.value))
  }

  /** The mapper each sub-command hands to `set_version`, as written:
      `bump-pre` increments with the wrapping u32 addition and changes
      nothing but the pre-release; `release` moves a pre-release up to its
      release and leaves a release at the same precedence. */
  function Apply(cmd: VersionCommand, v: Version): (r: Result<Option<Version>>)
    ensures cmd.SetPre? ==> (r.Err? <==> !ValidPre(cmd.pre))
    ensures cmd.SetBuild? ==> (r.Err? <==> !ValidBuild(cmd.meta))
    ensures cmd.BumpToDev? ==> (r.Err? <==> !ValidPre(DevTagOf(cmd.preTag)))
    ensures !(cmd.SetPre? || cmd.SetBuild? || cmd.BumpToDev?) ==> r.Ok?
    ensures r.Ok? && r.value.Some? && !cmd.SetTo? ==> r.value.value.major >= v.major
    ensures cmd.Release? ==>
      (r.Ok? && r.value.Some? && SameCore(v, r.value.value) && r.value.value.pre == "" && r.value.value.build == ""
       && (v.pre != "" <==> Precedes(v, r.value.value)))
    ensures cmd.BumpPre? ==> r == Ok(BumpPreAsWritten(v))
    ensures cmd.BumpPre? && ValidPre(v.pre) ==> r.Ok? && r.value.Some? && r.value.value.(pre := v.pre) == v
    ensures cmd.SetTo? ==> r == Ok(Some(cmd.version))
    ensures cmd.BumpPatch? ==> r == Ok(Some(Patch(v)))
    ensures cmd.BumpMinor? ==> r == Ok(Some(Minor(v)))
    ensures cmd.BumpMajor? ==> r == Ok(Some(Major(v)))
    ensures cmd.BumpBreaking? ==> r == Ok(Some(Breaking(v)))
    ensures cmd.BumpToDev? && r.Ok? ==> r.value == Some(ToDev(v, DevTagOf(cmd.preTag)))
    ensures cmd.SetPre? && r.Ok? ==> r.value == Some(v.(pre := cmd.pre))
    ensures cmd.SetBuild? && r.Ok? ==> r.value == Some(v.(build := cmd.meta))
  {
    match cmd
    case SetTo(target) => Ok(Some(target))
    case BumpPre =>
      if ValidPre(v.pre) then
        BumpPreTotal(v);
        Ok(BumpPreAsWritten(v))
      else Ok(BumpPreAsWritten(v))
    case BumpPatch => Ok(Some(Patch(v)))
    case BumpMinor => Ok(Some(Minor(v)))
    case BumpMajor => Ok(Some(Major(v)))
    case BumpBreaking => Ok(Some(Breaking(v)))
    case BumpToDev(tag) =>
      if ValidPre(DevTagOf(tag)) then Ok(Some(ToDev(v, DevTagOf(tag)))) else Err(PreRejected)
    case SetPre(pre) => if ValidPre(pre) then Ok(Some(v.(pre := pre))) else Err(PreRejected)
    case SetBuild(meta) => if ValidBuild(meta) then Ok(Some(v.(build := meta))) else Err(MetaRejected)
    case Release => Ok(Some(v.(pre := "", build := "")))
  }

  /** The mappers with the `bump-pre` increment that does not wrap: a
      pre-release always moves up, and every other sub-command is as
      written. */
  function ApplyIntended(cmd: VersionCommand, v: Version): (r: Result<Option<Version>>)
    ensures !cmd.BumpPre? ==> r == Apply(cmd, v)
    ensures cmd.BumpPre? && ValidPre(v.pre) ==> r.Ok? && r.value.Some? && r.value.value.(pre := v.pre) == v
    ensures cmd.BumpPre? && ValidPre(v.pre) && v.pre != "" ==> Precedes(v, r.value.value)
    ensures cmd.BumpPre? && v.pre == "" ==> r.Ok? && r.value.Some? && Precedes(r.value.value, v)
  {
    if cmd.BumpPre? then
      if ValidPre(v.pre) then
        BumpPreTotal(v);
        BumpPreRaises(v);
        Ok(BumpPreNext(v))
      else
        assert v.pre != "" by { assert ValidPre(""); }
        Ok(BumpPreNext(v))
    else Apply(cmd, v)
  }

  function DevTagOf(tag: Option<string>): string {
    if tag.Some? then tag.value else DevTag
  }

  // ----- precedence -----

  // ----- bump-pre -----

  lemma {:induction false} NatToStringValidIdent(n: nat)
    ensures ValidPreIdent(NatToString(n)) && NoChar(NatToString(n), '.')
  {
  }

  /** A valid pre-release's identifiers are valid and hold no dot. */
  lemma {:induction false} ValidPreItems(pre: string)
    requires ValidPre(pre) && pre != ""
    ensures forall k :: 0 <= k < |Split(pre, '.')| ==> ValidPreIdent(Split(pre, '.')[k]) && NoChar(Split(pre, '.')[k], '.')
  {
    SplitPiecesHaveNoSeparator(pre, '.');
  }

  /** Joining valid identifiers gives a valid pre-release that splits back into them. */
  lemma {:induction false} JoinValidPre(items: seq<string>)
    requires |items| >= 1
    requires forall k :: 0 <= k < |items| ==> ValidPreIdent(items[k]) && NoChar(items[k], '.')
    ensures Split(Join(items, '.'), '.') == items && ValidPre(Join(items, '.'))
  {
    SplitJoin(items, '.');
  }

  /** A string that parses as a u32 holds no dot. */
  lemma {:induction false} ParsedNoDot(s: string)
    requires ParseU32(s).Some?
    ensures NoChar(s, '.')
  {
    var digits := if |s| > 0 && s[0] == '+' then s[1..] else s;
    forall i | 0 <= i < |s| ensures s[i] != '.' {
      if !(|s| > 0 && s[0] == '+') {
        assert IsDigit(digits[i]);
      } else if i > 0 {
        assert IsDigit(digits[i - 1]);
      }
    }
  }

  /** A u32 that parses out of an identifier is that identifier's digits. */
  lemma {:induction false} ParsedIdent(s: string)
    requires IdentChars(s) && ParseU32(s).Some?
    ensures IsNumericIdent(s) && DigitsValue(s) == ParseU32(s).value
  {
    if |s| > 0 {
      assert IdentChar(s[0]);
    }
  }

  /** The identifiers `bump-pre` produces from a valid, non-empty pre-release
      when it does not take the whole-number route. */
  /** A numeric last identifier is replaced by the incremented number. */
  lemma {:induction false} BumpedLast(pre: string, inc: nat -> nat, n: nat)
    requires ValidPre(pre) && pre != "" && ParseU32(pre).None?
    requires var items := Split(pre, '.'); ParseU32(items[|items| - 1]) == Some(n)
    ensures var items := Split(pre, '.');
      var next := items[..|items| - 1] + [NatToString(inc(n))];
      NextPre(pre, inc) == Some(Join(next, '.')) && Split(Join(next, '.'), '.') == next
      && ValidPre(Join(next, '.'))
  {
    var items := Split(pre, '.');
    ValidPreItems(pre);
    var next := items[..|items| - 1] + [NatToString(inc(n))];
    NatToStringValidIdent(inc(n));
    JoinValidPre(next);
  }

  /** A non-numeric last identifier gets ".1" appended. */
  lemma {:induction false} BumpedAppend(pre: string, inc: nat -> nat)
    requires ValidPre(pre) && pre != "" && ParseU32(pre).None?
    requires var items := Split(pre, '.'); ParseU32(items[|items| - 1]).None?
    ensures var next := Split(pre, '.') + ["1"];
      NextPre(pre, inc) == Some(Join(next, '.')) && Split(Join(next, '.'), '.') == next
      && ValidPre(Join(next, '.'))
  {
    var items := Split(pre, '.');
    ValidPreItems(pre);
    var next := items + ["1"];
    assert ValidPreIdent("1");
    JoinValidPre(next);
  }

  /** A pre-release that is a whole u32 becomes the next number. */
  lemma {:induction false} BumpWholeTotal(pre: string, n: nat)
    requires ParseU32(pre) == Some(n)
    ensures NextPre(pre, Succ) == Some(NatToString(n + 1)) && ValidPre(NatToString(n + 1))
    ensures NextPre(pre, WrapInc).Some?
  {
    NatToStringValidIdent(n + 1);
    JoinValidPre([NatToString(n + 1)]);
  }

  /** On a valid pre-release `bump-pre` always succeeds. */
  lemma {:induction false} BumpPreTotal(v: Version)
    requires ValidPre(v.pre)
    ensures BumpPreNext(v).Some? && BumpPreAsWritten(v).Some?
    ensures ValidPre(BumpPreNext(v).value.pre)
  {
    if v.pre == "" {
      SplitOfPiece("1", '.');
    } else if ParseU32(v.pre).Some? {
      BumpWholeTotal(v.pre, ParseU32(v.pre).value);
    } else {
      var items := Split(v.pre, '.');
      var last := ParseU32(items[|items| - 1]);
      if last.Some? {
        BumpedLast(v.pre, Succ, last.value);
        BumpedLast(v.pre, WrapInc, last.value);
      } else {
        BumpedAppend(v.pre, Succ);
        BumpedAppend(v.pre, WrapInc);
      }
    }
  }

  lemma {:induction false} DigitsLess(a: nat, b: nat)
    requires a < b
    ensures IdentLess(NatToString(a), NatToString(b))
  {
    NatToStringValue(a);
    NatToStringValue(b);
  }

  /** A numeric identifier ranks below the rendering of its successor. */
  lemma {:induction false} NextNumberRanksAbove(x: string, n: nat)
    requires IsNumericIdent(x) && DigitsValue(x) == n
    ensures x != NatToString(n + 1) && IdentLess(x, NatToString(n + 1))
  {
    NatToStringValue(n + 1);
  }

  /** The whole pre-release is a u32: the bumped number ranks above it. */
  lemma {:induction false} BumpPreRaisesWhole(v: Version)
    requires ValidPre(v.pre) && v.pre != "" && ParseU32(v.pre).Some?
    ensures BumpPreNext(v).Some? && IdentsLess(Split(v.pre, '.'), Split(BumpPreNext(v).value.pre, '.'))
  {
    var n := ParseU32(v.pre).value;
    var nu := NatToString(n + 1);
    assert BumpPreNext(v) == Some(v.(pre := nu));
    ValidPreItems(v.pre);
    ParsedNoDot(v.pre);
    SplitOfPiece(v.pre, '.');
    assert Split(v.pre, '.')[0] == v.pre;
    assert ValidPreIdent(v.pre);
    ParsedIdent(v.pre);
    SplitOfPiece(nu, '.');
    NextNumberRanksAbove(v.pre, n);
  }

  /** Replacing a numeric last identifier by its successor ranks higher. */
  lemma {:induction false} LastBumpRanksAbove(items: seq<string>, n: nat)
    requires |items| >= 1 && ValidPreIdent(items[|items| - 1]) && ParseU32(items[|items| - 1]) == Some(n)
    ensures IdentsLess(items, items[..|items| - 1] + [NatToString(n + 1)])
  {
    var lastItem := items[|items| - 1];
    var prefix := items[..|items| - 1];
    ParsedIdent(lastItem);
    NextNumberRanksAbove(lastItem, n);
    assert items == prefix + [lastItem];
    IdentsLessCommonPrefix(prefix, lastItem, NatToString(n + 1));
  }

  /** The last identifier is a u32: only it changes, to the next number. */
  lemma {:induction false} BumpPreRaisesLast(v: Version)
    requires ValidPre(v.pre) && v.pre != "" && ParseU32(v.pre).None?
    requires var items := Split(v.pre, '.'); ParseU32(items[|items| - 1]).Some?
    ensures BumpPreNext(v).Some? && IdentsLess(Split(v.pre, '.'), Split(BumpPreNext(v).value.pre, '.'))
  {
    var items := Split(v.pre, '.');
    var n := ParseU32(items[|items| - 1]).value;
    BumpedLast(v.pre, Succ, n);
    ValidPreItems(v.pre);
    assert ValidPreIdent(items[|items| - 1]);
    LastBumpRanksAbove(items, n);
  }

  /** Otherwise ".1" is appended, and a longer list with the same prefix ranks higher. */
  lemma {:induction false} BumpPreRaisesAppend(v: Version)
    requires ValidPre(v.pre) && v.pre != "" && ParseU32(v.pre).None?
    requires var items := Split(v.pre, '.'); ParseU32(items[|items| - 1]).None?
    ensures BumpPreNext(v).Some? && IdentsLess(Split(v.pre, '.'), Split(BumpPreNext(v).value.pre, '.'))
  {
    BumpedAppend(v.pre, Succ);
    IdentsLessExtension(Split(v.pre, '.'), ["1"]);
  }

  /** `bump-pre` on a pre-release moves up in precedence; on a release it
      yields the pre-release "1", which sits below it. */
  lemma {:induction false} BumpPreRaises(v: Version)
    requires ValidPre(v.pre)
    ensures BumpPreNext(v).Some?
    ensures v.pre != "" ==> Precedes(v, BumpPreNext(v).value)
    ensures v.pre == "" ==> Precedes(BumpPreNext(v).value, v)
  {
    BumpPreTotal(v);
    if v.pre != "" {
      if ParseU32(v.pre).Some? {
        BumpPreRaisesWhole(v);
      } else {
        var items := Split(v.pre, '.');
        if ParseU32(items[|items| - 1]).Some? {
          BumpPreRaisesLast(v);
        } else {
          BumpPreRaisesAppend(v);
        }
      }
    }
  }

  /** The wrapping increment: `bump-pre` on the pre-release "4294967295"
      (the largest u32) yields "0", which has LOWER precedence. */
  lemma {:induction false} BumpPreWrapLowers()
    ensures var v := Version(1, 0, 0, NatToString(U32Max), "");
      BumpPreAsWritten(v) == Some(v.(pre := "0")) && Precedes(BumpPreAsWritten(v).value, v)
  {
    var v := Version(1, 0, 0, NatToString(U32Max), "");
    ParseU32OfNatToString(U32Max);
    assert NatToString(0) == "0";
    SplitOfPiece("0", '.');
    NatToStringValidIdent(U32Max);
    SplitOfPiece(v.pre, '.');
    NatToStringValue(U32Max);
  }

  /** Without the wrap the same input moves up to "4294967296". */
  lemma {:induction false} BumpPreNextNoWrap()
    ensures var v := Version(1, 0, 0, NatToString(U32Max), "");
      BumpPreNext(v) == Some(v.(pre := NatToString(U32Max + 1))) && Precedes(v, BumpPreNext(v).value)
  {
    var v := Version(1, 0, 0, NatToString(U32Max), "");
    ParseU32OfNatToString(U32Max);
    NatToStringValidIdent(U32Max);
    SplitOfPiece(v.pre, '.');
    BumpPreRaises(v);
  }

  // ----- examples from the integration tests -----

  /** `version bump-to-dev` on 0.1.0, 2.0.0 and 3.1.0. */
  lemma {:induction false} BumpToDevExamples()
    ensures Apply(BumpToDev(None), Version(0, 1, 0, "", "")) == Ok(Some(Version(0, 2, 0, "dev", "")))
    ensures Apply(BumpToDev(None), Version(2, 0, 0, "", "")) == Ok(Some(Version(3, 0, 0, "dev", "")))
    ensures Apply(BumpToDev(None), Version(3, 1, 0, "", "")) == Ok(Some(Version(4, 0, 0, "dev", "")))
  {
    SplitOfPiece(DevTag, '.');
  }

  /** `version set-pre dev` on 0.1.0 and 2.0.0. */
  lemma {:induction false} SetPreExamples()
    ensures Apply(SetPre("dev"), Version(0, 1, 0, "", "")) == Ok(Some(Version(0, 1, 0, "dev", "")))
    ensures Apply(SetPre("dev"), Version(2, 0, 0, "", "")) == Ok(Some(Version(2, 0, 0, "dev", "")))
  {
    SplitOfPiece("dev", '.');
  }

  /** `set-pre` changes nothing but the pre-release: setting the previous
      pre-release back gives the version it started from. */
  lemma {:induction false} SetPreRestores(v: Version, pre: string)
    requires ValidPre(pre) && ValidPre(v.pre)
    ensures Apply(SetPre(pre), v).Ok? && Apply(SetPre(pre), v).value.Some?
    ensures Apply(SetPre(pre), v).value.value.pre == pre
    ensures Apply(SetPre(v.pre), Apply(SetPre(pre), v).value.value) == Ok(Some(v))
  {
  }

  /** `set-build` changes nothing but the build metadata: setting the
      previous metadata back gives the version it started from. */
  lemma {:induction false} SetBuildRestores(v: Version, meta: string)
    requires ValidBuild(meta) && ValidBuild(v.build)
    ensures Apply(SetBuild(meta), v).Ok? && Apply(SetBuild(meta), v).value.Some?
    ensures Apply(SetBuild(meta), v).value.value.build == meta
    ensures Apply(SetBuild(v.build), Apply(SetBuild(meta), v).value.value) == Ok(Some(v))
  {
  }

  /** 0.0.5 is bumped to 0.0.6 by `bump-breaking`, and its build metadata dropped. */
  lemma {:induction false} BreakingExample()
    ensures Apply(BumpBreaking, Version(0, 0, 5, "", "b1")) == Ok(Some(Version(0, 0, 6, "", "")))
    ensures Apply(BumpBreaking, Version(1, 4, 2, "rc.1", "b1")) == Ok(Some(Version(2, 0, 0, "", "b1")))
  {
  }
}
