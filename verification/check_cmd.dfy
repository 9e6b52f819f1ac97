/** `check` (src/commands/check.rs): the checks run before a release. Soft
    checks of every package's metadata and dependencies, then packing every
    package, then verifying the packages one by one, each built against the
    unpacked copies of the packages verified before it. Packing, unpacking
    and compiling are oracles. */
module CheckCmd {
  import opened Wrappers
  import opened Toml
  import opened Cargo
  import opened Util
  import opened Strings
  import Assoc
  import Cascade

  /** A problem `check_metadata` reports about a package's metadata. */
  datatype FieldProblem =
    | DescriptionEmpty | DescriptionMissing
    | RepositoryEmpty | RepositoryMissing
    | LicenseAndFile | NoLicense
    | TooManyKeywords

  /** The text each problem is reported with. */
  function Message(b: FieldProblem): string {
    match b
    case DescriptionEmpty => "description is empty"
    case DescriptionMissing => "description is missing"
    case RepositoryEmpty => "repository is empty"
    case RepositoryMissing => "repository is missing"
    case LicenseAndFile => "You can't have license AND license_file"
    case NoLicense => "Neither license nor license_file is provided"
    case TooManyKeywords => "crates.io only allows up to 5 keywords"
  }

  function Messages(bad: seq<FieldProblem>): (r: seq<string>)
    ensures |r| == |bad|
    ensures forall i :: 0 <= i < |bad| ==> r[i] == Message(bad[i])
  {
    if |bad| == 0 then [] else [Message(bad[0])] + Messages(bad[1..])
  }

  /** The problems `check_metadata` lists for a package's metadata, in order:
      each holds exactly when its condition does. */
  function BadFields(m: Metadata): (r: seq<FieldProblem>)
    ensures DescriptionEmpty in r <==> m.description == Some("")
    ensures DescriptionMissing in r <==> m.description.None?
    ensures RepositoryEmpty in r <==> m.repository == Some("")
    ensures RepositoryMissing in r <==> m.repository.None?
    ensures LicenseAndFile in r <==> m.license.Some? && m.licenseFile.Some?
    ensures NoLicense in r <==> !LicenseOk(m) && !(m.license.Some? && m.licenseFile.Some?)
    ensures TooManyKeywords in r <==> |m.keywords| > 5
  {
    DescriptionProblems(m.description) + RepositoryProblems(m.repository) + LicenseProblems(m) + KeywordsProblems(m)
  }

  /** Which of the four checks reports a problem. */
  function Stage(b: FieldProblem): nat {
    match b
    case DescriptionEmpty | DescriptionMissing => 0
    case RepositoryEmpty | RepositoryMissing => 1
    case LicenseAndFile | NoLicense => 2
    case TooManyKeywords => 3
  }

  function DescriptionProblems(d: Option<string>): (r: seq<FieldProblem>)
    ensures DescriptionEmpty in r <==> d == Some("")
    ensures DescriptionMissing in r <==> d.None?
    ensures |r| <= 1 && forall b :: b in r ==> Stage(b) == 0
  {
    if d == Some("") then [DescriptionEmpty]
    else if d.None? then [DescriptionMissing] else []
  }

  function RepositoryProblems(d: Option<string>): (r: seq<FieldProblem>)
    ensures RepositoryEmpty in r <==> d == Some("")
    ensures RepositoryMissing in r <==> d.None?
    ensures |r| <= 1 && forall b :: b in r ==> Stage(b) == 1
  {
    if d == Some("") then [RepositoryEmpty]
    else if d.None? then [RepositoryMissing] else []
  }

  function LicenseProblems(m: Metadata): (r: seq<FieldProblem>)
    ensures LicenseAndFile in r <==> m.license.Some? && m.licenseFile.Some?
    ensures NoLicense in r <==> !LicenseOk(m) && !(m.license.Some? && m.licenseFile.Some?)
    ensures |r| <= 1 && forall b :: b in r ==> Stage(b) == 2
  {
    if LicenseOk(m) then []
    else if m.license.Some? && m.licenseFile.Some? then [LicenseAndFile]
    else [NoLicense]
  }

  function KeywordsProblems(m: Metadata): (r: seq<FieldProblem>)
    ensures TooManyKeywords in r <==> |m.keywords| > 5
    ensures |r| <= 1 && forall b :: b in r ==> Stage(b) == 3
  {
    if |m.keywords| > 5 then [TooManyKeywords] else []
  }

  /** Exactly one of `license` and `license-file` is given, and it is not empty. */
  predicate LicenseOk(m: Metadata) {
    || (m.license.Some? && m.licenseFile.None? && m.license.value != "")
    || (m.license.None? && m.licenseFile.Some? && m.licenseFile.value != "")
  }

  /** What crates.io asks of a package's metadata before publishing. */
  predicate Publishable(m: Metadata) {
    && m.description.Some? && m.description.value != ""
    && m.repository.Some? && m.repository.value != ""
    && LicenseOk(m)
    && |m.keywords| <= 5
  }

  /** `check_metadata`: every problem found, in one message. */
  function CheckMetadata(p: Package): (r: Result<()>)
    ensures r.Ok? <==> |BadFields(p.metadata)| == 0
  {
    var bad := BadFields(p.metadata);
    if |bad| == 0 then Ok(()) else Err(p.name + ": Bad metadata: " + JoinWith(Messages(bad), "; "))
  }

  /** The metadata check passes exactly on publishable metadata. */
  lemma {:induction false} CheckMetadataOk(p: Package)
    ensures CheckMetadata(p).Ok? <==> Publishable(p.metadata)
  {
    var m := p.metadata;
    var bad := BadFields(m);
    if !Publishable(m) && m.description != Some("") && m.description.Some? && m.repository != Some("") && m.repository.Some? && LicenseOk(m) {
      assert TooManyKeywords in bad;
    }
  }

  /** The names of the dependencies taken from git without a version requirement. */
  function GitUnversioned(deps: seq<Dependency>): (r: seq<string>)
    ensures forall n :: n in r <==> exists d :: d in deps && d.source.GitSource? && d.req.AnyVersion? && d.packageName == n
  {
    if |deps| == 0 then []
    else
      var here := if deps[0].source.GitSource? && deps[0].req.AnyVersion? then [deps[0].packageName] else [];
      assert forall d :: d in deps <==> d == deps[0] || d in deps[1..];
      here + GitUnversioned(deps[1..])
  }

  /** `check_dependencies`: fails exactly when some dependency comes from
      git without a version, naming all of them. */
  function CheckDependencies(p: Package): (r: Result<()>)
    ensures r.Ok? <==> forall d :: d in p.deps ==> !(d.source.GitSource? && d.req.AnyVersion?)
  {
    var git := GitUnversioned(p.deps);
    assert forall d :: d in p.deps && d.source.GitSource? && d.req.AnyVersion? ==> d.packageName in git;
    if |git| == 0 then Ok(())
    else
      assert git[0] in git;
      Err(p.name + ": has dependencies defined as git without a version: " + JoinWith(git, ", "))
  }

  /** How many of the packages fail `check`. */
  function NumFailing(packages: seq<Package>, check: Package -> Result<()>): nat {
    if |packages| == 0 then 0 else (if check(packages[0]).Err? then 1 else 0) + NumFailing(packages[1..], check)
  }

  /** The error `check` reports for package i, when it fails. */
  predicate ErrorOf(packages: seq<Package>, check: Package -> Result<()>, i: int, e: string) {
    0 <= i < |packages| && check(packages[i]).Err? && check(packages[i]).error == e
  }

  /** The errors of the two soft checks, `check_metadata` and
      `check_dependencies`, over all packages, package by package: the
      metadata error, then the dependency error of each package. Each failing
      check contributes its own error and nothing else is in the list, so its
      length, the number the bail message reports, is the number of failing
      checks. The checks are parameters; `Check` passes `CheckMetadata` and
      `CheckDependencies`. */
  function SoftErrors(packages: seq<Package>, metadata: Package -> Result<()>, deps: Package -> Result<()>): (r: seq<string>)
    ensures |r| == NumFailing(packages, metadata) + NumFailing(packages, deps) <= 2 * |packages|
    ensures |r| == 0 <==> forall i :: 0 <= i < |packages| ==> metadata(packages[i]).Ok? && deps(packages[i]).Ok?
    ensures forall i :: 0 <= i < |packages| && metadata(packages[i]).Err? ==> metadata(packages[i]).error in r
    ensures forall i :: 0 <= i < |packages| && deps(packages[i]).Err? ==> deps(packages[i]).error in r
    decreases |packages|
  {
    NumFailingBound(packages, metadata);
    NumFailingBound(packages, deps);
    if |packages| == 0 then []
    else
      var p := packages[0];
      var rest := SoftErrors(packages[1..], metadata, deps);
      assert forall i :: 1 <= i < |packages| ==> packages[i] == packages[1..][i - 1];
      (if metadata(p).Err? then [metadata(p).error] else []) + (if deps(p).Err? then [deps(p).error] else []) + rest
  }

  /** Nothing but the packages' own errors is in the list. */
  lemma {:induction false} SoftErrorsOnly(packages: seq<Package>, metadata: Package -> Result<()>, deps: Package -> Result<()>, e: string)
    requires e in SoftErrors(packages, metadata, deps)
    ensures exists i :: ErrorOf(packages, metadata, i, e) || ErrorOf(packages, deps, i, e)
    decreases |packages|
  {
    var p := packages[0];
    var rest := SoftErrors(packages[1..], metadata, deps);
    if e in rest {
      SoftErrorsOnly(packages[1..], metadata, deps, e);
      var j :| ErrorOf(packages[1..], metadata, j, e) || ErrorOf(packages[1..], deps, j, e);
      assert packages[1..][j] == packages[j + 1];
      assert ErrorOf(packages, metadata, j + 1, e) || ErrorOf(packages, deps, j + 1, e);
    } else {
      assert ErrorOf(packages, metadata, 0, e) || ErrorOf(packages, deps, 0, e);
    }
  }

  lemma {:induction false} NumFailingBound(packages: seq<Package>, check: Package -> Result<()>)
    ensures NumFailing(packages, check) <= |packages|
    decreases |packages|
  {
    if |packages| > 0 {
      NumFailingBound(packages[1..], check);
    }
  }

  /** The readme check of each package: an oracle. */
  type Readme = Package -> Result<()>

  /** The line reported for a package whose readme check failed. */
  function ReadmeMessage(p: Package, e: string): string {
    p.name + ": Checking Readme file failed with: " + e
  }

  /** One line per package whose readme check fails, in package order, so
      its length is the number the bail message reports. */
  function ReadmeErrors(packages: seq<Package>, readme: Readme): (r: seq<string>)
    ensures |r| == 0 <==> forall i :: 0 <= i < |packages| ==> readme(packages[i]).Ok?
    ensures |r| == NumFailing(packages, readme)
    ensures forall i :: 0 <= i < |packages| && readme(packages[i]).Err? ==> ReadmeMessage(packages[i], readme(packages[i]).error) in r
    ensures forall e :: e in r ==> exists i :: 0 <= i < |packages| && readme(packages[i]).Err? && e == ReadmeMessage(packages[i], readme(packages[i]).error)
  {
    if |packages| == 0 then []
    else
      var rest := ReadmeErrors(packages[1..], readme);
      assert forall i :: 1 <= i < |packages| ==> packages[i] == packages[1..][i - 1];
      var p := packages[0];
      var r := if readme(p).Err? then [ReadmeMessage(p, readme(p).error)] + rest else rest;
      forall e | e in r
        ensures exists i :: 0 <= i < |packages| && readme(packages[i]).Err? && e == ReadmeMessage(packages[i], readme(packages[i]).error)
      {
        if e in rest {
          var j :| 0 <= j < |packages[1..]| && readme(packages[1..][j]).Err? && e == ReadmeMessage(packages[1..][j], readme(packages[1..][j]).error);
          assert packages[j + 1] == packages[1..][j];
        }
      }
      r
  }

  /** What packing a package produced: some number of tarballs, nothing,
      or an error. */
  datatype Packing = Tarballs(count: nat) | NoTarball | PackError(e: string)

  type Pack = Package -> Packing

  /** Packing one package: the metadata check again, then exactly one
      tarball. Any other number of tarballs, zero included, is reported as
      more than one. */
  function PackOne(p: Package, pack: Pack): (r: Result<()>)
    ensures r.Ok? <==> CheckMetadata(p).Ok? && pack(p) == Tarballs(1)
  {
    var _ :- CheckMetadata(p);
    match pack(p)
    case Tarballs(n) => if n == 1 then Ok(()) else Err("Packing " + p.name + " produced more than one package")
    case NoTarball => Err("Failure packing " + p.name)
    case PackError(e) => Err("Failure packing " + p.name + ": " + e)
  }

  /** Every package is packed; the failures are counted, not stopped at. */
  function PackFailures(packages: seq<Package>, pack: Pack): (r: nat)
    ensures r == 0 <==> forall i :: 0 <= i < |packages| ==> PackOne(packages[i], pack).Ok?
    ensures r <= |packages|
  {
    if |packages| == 0 then 0
    else
      assert forall i :: 1 <= i < |packages| ==> packages[i] == packages[1..][i - 1];
      (if PackOne(packages[0], pack).Err? then 1 else 0) + PackFailures(packages[1..], pack)
  }

  /** Verifying one packed package against the replacements so far: the
      verified package's name and unpacked directory, or the error. */
  type Verify = (Package, map<string, string>) -> Result<(string, string)>

  /** The replacement maps the verifications were given, in order, and the
      final map or the first error. */
  datatype Verification = Verification(given: seq<map<string, string>>, result: Result<map<string, string>>)

  /** Verification one package at a time; each success adds the package's
      directory under its name before the next package is verified. */
  function VerifyAll(packages: seq<Package>, verify: Verify, known: map<string, string>): (r: Verification)
    ensures |r.given| <= |packages|
    ensures r.result.Ok? ==> |r.given| == |packages|
    ensures |packages| > 0 ==> |r.given| > 0 && r.given[0] == known
    ensures forall i :: 0 <= i < |r.given| - 1 ==>
      verify(packages[i], r.given[i]).Ok? &&
      r.given[i + 1] == r.given[i][verify(packages[i], r.given[i]).value.0 := verify(packages[i], r.given[i]).value.1]
    ensures r.result.Err? ==> |r.given| > 0 && verify(packages[|r.given| - 1], r.given[|r.given| - 1]) == Err(r.result.error)
    ensures r.result.Ok? && |packages| > 0 ==> verify(packages[|packages| - 1], r.given[|packages| - 1]).Ok?
    decreases |packages|
  {
    if |packages| == 0 then Verification([], Ok(known))
    else
      var out := verify(packages[0], known);
      if out.Err? then Verification([known], Err(out.error))
      else
        var rest := VerifyAll(packages[1..], verify, known[out.value.0 := out.value.1]);
        assert forall i :: 1 <= i < |packages| ==> packages[i] == packages[1..][i - 1];
        Verification([known] + rest.given, rest.result)
  }

  function NamesBefore(packages: seq<Package>, i: nat): (r: set<string>)
    requires i <= |packages|
    ensures forall n :: n in r <==> exists j :: 0 <= j < i && packages[j].name == n
  {
    set j | 0 <= j < i :: packages[j].name
  }

  /** When each verification reports the package's own name, the map the
      i-th package is verified against holds exactly the packages before it. */
  lemma {:induction false} GivenHoldsEarlier(packages: seq<Package>, verify: Verify)
    requires forall p, m :: verify(p, m).Ok? ==> verify(p, m).value.0 == p.name
    ensures var r := VerifyAll(packages, verify, map[]);
      forall i :: 0 <= i < |r.given| ==> r.given[i].Keys == NamesBefore(packages, i)
  {
    var r := VerifyAll(packages, verify, map[]);
    var i := 0;
    while i < |r.given|
      invariant i <= |r.given|
      invariant forall j :: 0 <= j < i ==> r.given[j].Keys == NamesBefore(packages, j)
    {
      if i > 0 {
        assert r.given[i] == r.given[i - 1][packages[i - 1].name := verify(packages[i - 1], r.given[i - 1]).value.1];
        assert NamesBefore(packages, i) == NamesBefore(packages, i - 1) + {packages[i - 1].name};
      }
      i := i + 1;
    }
  }

  /** What a `check` run did: whether packing was reached, the maps the
      verifications were given, and the verdict. */
  datatype CheckRun = CheckRun(packed: bool, given: seq<map<string, string>>, result: Result<()>)

  /** `check`: soft checks over all packages, then readmes when asked, then
      packing over all packages, then verification until the first error. */
  function Check(packages: seq<Package>, checkReadme: bool, readme: Readme, pack: Pack, verify: Verify): (r: CheckRun)
    ensures |SoftErrors(packages, CheckMetadata, CheckDependencies)| > 0 ==>
      r == CheckRun(false, [], Err("Soft checkes failed with " + NatToString(|SoftErrors(packages, CheckMetadata, CheckDependencies)|) + " errors (see above)"))
    ensures r.packed ==> forall i :: 0 <= i < |packages| ==> CheckMetadata(packages[i]).Ok? && CheckDependencies(packages[i]).Ok?
    ensures |r.given| > 0 ==> r.packed && forall i :: 0 <= i < |packages| ==> PackOne(packages[i], pack).Ok?
    ensures r.result.Ok? <==>
      && |SoftErrors(packages, CheckMetadata, CheckDependencies)| == 0
      && (checkReadme ==> |ReadmeErrors(packages, readme)| == 0)
      && PackFailures(packages, pack) == 0
      && VerifyAll(packages, verify, map[]).result.Ok?
  {
    var soft := SoftErrors(packages, CheckMetadata, CheckDependencies);
    if |soft| > 0 then CheckRun(false, [], Err("Soft checkes failed with " + NatToString(|soft|) + " errors (see above)"))
    else if checkReadme && |ReadmeErrors(packages, readme)| > 0 then
      CheckRun(false, [], Err(NatToString(|ReadmeErrors(packages, readme)|) + " readme file(s) need to be updated (see above)."))
    else
      PackThenVerify(packages, pack, verify)
  }

  /** The stages after the soft and readme checks: packing every package,
      then, when none failed, verifying them in order. */
  function PackThenVerify(packages: seq<Package>, pack: Pack, verify: Verify): (r: CheckRun)
    ensures r.packed
    ensures |r.given| > 0 ==> forall i :: 0 <= i < |packages| ==> PackOne(packages[i], pack).Ok?
    ensures r.result.Ok? <==> PackFailures(packages, pack) == 0 && VerifyAll(packages, verify, map[]).result.Ok?
  {
    var failed := PackFailures(packages, pack);
    if failed > 0 then CheckRun(true, [], Err("Packing failed with " + NatToString(failed) + " errors (see above)"))
    else
      var v := VerifyAll(packages, verify, map[]);
      CheckRun(true, v.given, if v.result.Err? then Err(v.result.error) else Ok(()))
  }

  /** The edit `inject_replacement` makes to one dependency: an entry whose
      true name has a replacement gets that directory as `path`, kept when
      an inline table already has one and overwritten in a table; the entry
      keeps its kind and every other field. */
  function InjectEntry(name: string, entry: DepEntry, replace: map<string, string>): (r: Visit)
    ensures r.action != Remove
    ensures r.action == Mutated <==> name in replace
    ensures r.action == Untouched ==> r.entry == entry
    ensures r.action == Mutated ==>
      && r.entry.InlineEntry? == entry.InlineEntry?
      && (forall k :: k != "path" ==> Cascade.Field(r.entry, k) == Cascade.Field(entry, k))
      && (entry.TableEntry? ==> Cascade.Field(r.entry, "path") == Some(Val(Str(replace[name]))))
      && (entry.InlineEntry? ==>
            Cascade.Field(r.entry, "path") == (if Cascade.HasPath(entry) then Cascade.Field(entry, "path") else Some(Val(Str(replace[name])))))
  {
    if name !in replace then Visit(Untouched, entry)
    else
      match entry
      case InlineEntry(i) => Visit(Mutated, InlineEntry(Assoc.GetOrInsert(i, "path", Str(replace[name]))))
      case TableEntry(t) => Visit(Mutated, TableEntry(Assoc.Set(t, "path", Val(Str(replace[name])))))
  }

  function Injector(replace: map<string, string>): Util.Visitor {
    (n: string, a: Option<string>, e: DepEntry, sec: Section) => Ok(InjectEntry(n, e, replace))
  }

  function Replaced(replace: map<string, string>): (string, Option<string>) -> Action {
    (n: string, a: Option<string>) => if n in replace then Mutated else Untouched
  }

  /** `inject_replacement` on a manifest: the dependency walk with the
      injecting visitor; only dependency sections change. */
  function InjectReplacement(doc: Table, replace: map<string, string>): (r: Result<Table>)
    ensures r.Ok? ==> Assoc.Keys(r.value) == Assoc.Keys(doc)
    ensures r.Ok? ==> forall k :: k !in DepSectionKeys && k != "features" ==> Assoc.Get(r.value, k) == Assoc.Get(doc, k)
  {
    var w :- EditEachDep(doc, Injector(replace));
    Ok(w.table)
  }

  /** Every dependency visited is rewritten exactly when its true name has
      a replacement, and features stay as they were. */
  lemma {:induction false} InjectReplacementVisits(doc: Table, replace: map<string, string>)
    ensures var r := EditEachDep(doc, Injector(replace));
      r.Ok? ==> VisitsActBy(r.value.visits, Replaced(replace)) && Assoc.Get(r.value.table, "features") == Assoc.Get(doc, "features")
  {
    var f := Injector(replace);
    EditEachDepActs(doc, f, Replaced(replace));
    assert NeverRemoves(f);
    EditEachDepNoRemovals(doc, f);
  }

  /** An empty replacement map leaves the manifest as it was. */
  lemma {:induction false} InjectNothing(doc: Table)
    ensures InjectReplacement(doc, map[]).Ok? ==> InjectReplacement(doc, map[]).value == doc
  {
    var f := Injector(map[]);
    assert KeepsEntries(f);
    EditEachDepKeeps(doc, f);
  }
}
