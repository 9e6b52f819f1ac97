/** `make_pkg_predicate` (src/cli.rs): turn the package selection options
    into the predicate the commands filter workspace members with. Regular
    expressions and the git diff are oracles. */
module Selection {
  import opened Wrappers
  import opened Paths
  import opened Cargo
  import WorkspaceView

  datatype SelectOptions = SelectOptions(
    packages: seq<string>,
    skip: seq<string>,
    ignorePre: seq<string>,
    ignorePublish: bool,
    changedSince: Option<string>,
    includePreDeps: bool)

  /** Whether a regular expression (by its source) matches a name. */
  type RegexMatch = (string, string) -> bool

  /** The new paths of the deltas between a git reference and the working
      tree, or the git error. */
  type GitDiff = string -> Result<seq<Option<Path>>>

  const PackagesExcludeSkip := "-p/--packages is mutually exlusive to using -s/--skip and -i/--ignore-version-pre"
  const PackagesExcludeChanged := "-p/--packages is mutually exlusive to using -c/--changed-since"
  const ChangedExcludeSkip := "-c/--changed-since is mutually exlusive to using -s/--skip and -i/--ignore-version-pre"

  /** The built predicate's state: the options, the changed packages when
      asked for, and the regex oracle. */
  datatype Selector = Selector(opts: SelectOptions, changed: Option<set<Package>>, isMatch: RegexMatch)

  predicate Filters(o: SelectOptions) {
    |o.skip| > 0 || |o.ignorePre| > 0
  }

  /** Only one selection mode is given: a package list, a changed-since
      reference, or skip and pre-release filters. */
  predicate OneMode(o: SelectOptions) {
    && !(|o.packages| > 0 && Filters(o))
    && !(|o.packages| > 0 && o.changedSince.Some?)
    && !(o.changedSince.Some? && Filters(o))
  }

  /** The options are checked before any predicate is built, the package
      list first; the changed set comes from the diff. */
  function MakePredicate(ws: Workspace, o: SelectOptions, isMatch: RegexMatch, diff: GitDiff, isFile: Path -> bool): (r: Result<Selector>)
    ensures r.Ok? <==> OneMode(o) && (o.changedSince.Some? ==> diff(o.changedSince.value).Ok?)
    ensures |o.packages| > 0 && Filters(o) ==> r == Err(PackagesExcludeSkip)
    ensures |o.packages| > 0 && !Filters(o) && o.changedSince.Some? ==> r == Err(PackagesExcludeChanged)
    ensures |o.packages| == 0 && o.changedSince.Some? && Filters(o) ==> r == Err(ChangedExcludeSkip)
    ensures OneMode(o) && o.changedSince.Some? && diff(o.changedSince.value).Err? ==> r == Err(diff(o.changedSince.value).error)
    ensures r.Ok? ==> r.value.opts == o && r.value.isMatch == isMatch
    ensures r.Ok? ==> (r.value.changed.Some? <==> o.changedSince.Some?)
    ensures r.Ok? && o.changedSince.Some? ==>
      r.value.changed == Some(WorkspaceView.ChangedPackages(ws, diff(o.changedSince.value), isFile).value)
  {
    if |o.packages| > 0 && Filters(o) then Err(PackagesExcludeSkip)
    else if |o.packages| > 0 && o.changedSince.Some? then Err(PackagesExcludeChanged)
    else if o.changedSince.Some? then
      if Filters(o) then Err(ChangedExcludeSkip)
      else
        var changed :- WorkspaceView.ChangedPackages(ws, diff(o.changedSince.value), isFile);
        Ok(Selector(o, Some(changed), isMatch))
    else Ok(Selector(o, None, isMatch))
  }

  /** The publish gate: a package restricting `publish` is left out unless
      that is to be ignored. */
  predicate PublishOk(o: SelectOptions, p: Package) {
    o.ignorePublish || p.publish.None?
  }

  /** A pre-release pulled in by `--include-pre-deps`. */
  predicate PreDep(o: SelectOptions, p: Package) {
    o.includePreDeps && p.version.pre != ""
  }

  predicate Skipped(s: Selector, p: Package) {
    exists i :: 0 <= i < |s.opts.skip| && s.isMatch(s.opts.skip[i], p.name)
  }

  predicate PreIgnored(o: SelectOptions, p: Package) {
    p.version.pre != "" && p.version.pre in o.ignorePre
  }

  /** The predicate: the publish gate, then the first mode that applies. */
  function Accepts(s: Selector, p: Package): (r: bool)
    ensures !PublishOk(s.opts, p) ==> !r
    ensures PublishOk(s.opts, p) && s.changed.Some? ==> (r <==> p in s.changed.value || PreDep(s.opts, p))
    ensures PublishOk(s.opts, p) && s.changed.None? && |s.opts.packages| > 0 ==> (r <==> p.name in s.opts.packages || PreDep(s.opts, p))
    ensures PublishOk(s.opts, p) && s.changed.None? && |s.opts.packages| == 0 ==> (r <==> !Skipped(s, p) && !PreIgnored(s.opts, p))
  {
    var o := s.opts;
    if !PublishOk(o, p) then false
    else if s.changed.Some? then p in s.changed.value || PreDep(o, p)
    else if |o.packages| > 0 then p.name in o.packages || PreDep(o, p)
    else if Filters(o) then
      if exists i :: 0 <= i < |o.skip| && s.isMatch(o.skip[i], p.name) then false
      else !PreIgnored(o, p)
    else true
  }

  function Predicate(s: Selector): Package -> bool {
    (p: Package) => Accepts(s, p)
  }

  /** Without any selection option every publishable package is taken. */
  lemma {:induction false} NoOptionsTakesPublishable(ws: Workspace, o: SelectOptions, isMatch: RegexMatch, diff: GitDiff, isFile: Path -> bool, p: Package)
    requires o.packages == [] && o.skip == [] && o.ignorePre == [] && o.changedSince.None?
    ensures var r := MakePredicate(ws, o, isMatch, diff, isFile);
      r.Ok? && (Accepts(r.value, p) <==> PublishOk(o, p))
  {
    var s := MakePredicate(ws, o, isMatch, diff, isFile).value;
    assert !Skipped(s, p);
  }

  /** A built predicate works in exactly one mode: with a package list or a
      changed set, skip and pre-release filters are empty and reject nothing. */
  lemma {:induction false} BuiltPredicateOneMode(ws: Workspace, o: SelectOptions, isMatch: RegexMatch, diff: GitDiff, isFile: Path -> bool, p: Package)
    requires MakePredicate(ws, o, isMatch, diff, isFile).Ok?
    ensures var s := MakePredicate(ws, o, isMatch, diff, isFile).value;
      (s.changed.Some? || |o.packages| > 0) ==> !Skipped(s, p) && !PreIgnored(o, p)
  {
  }

  /** A package list with `--include-pre-deps` also takes every publishable
      pre-release, as when checking a crate together with its pre-release
      dependencies. */
  lemma {:induction false} PackagesIncludePreDeps(ws: Workspace, isMatch: RegexMatch, diff: GitDiff, isFile: Path -> bool, p: Package)
    requires p.publish.None? && p.name != "crate_a" && p.version.pre != ""
    ensures var o := SelectOptions(["crate_a"], [], [], false, None, true);
      var r := MakePredicate(ws, o, isMatch, diff, isFile);
      r.Ok? && Accepts(r.value, p)
  {
  }
}
