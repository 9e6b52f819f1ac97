/** `set_version` (src/commands/version.rs): give the selected packages new
    versions, then rewrite the requirements of every path dependency on
    them that no longer admits the new version. */
module VersionCmd {
  import opened Wrappers
  import opened Toml
  import opened Semver
  import opened Cargo
  import opened Util
  import opened Store
  import opened Cascade
  import opened Mappers
  import WorkspaceView
  import Assoc

  /** The panic when a dependency's `version` is no parsable requirement. */
  const SemverEnforced: string := "Cargo enforces us using semver versions. qed"

  /** `VersionReq::parse(text)` and then `matches(version)`: `None` when the
      text is no requirement. The requirement grammar is not modelled. */
  type ReqMatcher = (string, Version) -> Option<bool>

  /** The entry's `version` requirement read and checked against `nv`; `Err`
      when it is missing or not a requirement string. */
  function ReqMatches(e: DepEntry, nv: Version, m: ReqMatcher): (r: Result<bool>)
    ensures r.Ok? <==> (Field(e, "version").Some? && ItemStr(Field(e, "version").value).Some? &&
                        m(ItemStr(Field(e, "version").value).value, nv).Some?)
  {
    var req := Field(e, "version");
    if req.None? then Err(SemverEnforced)
    else
      var text := ItemStr(req.value);
      if text.None? || m(text.value, nv).None? then Err(SemverEnforced)
      else Ok(m(text.value, nv).value)
  }

  /** The entry has to be rewritten: it is a path dependency on an updated
      package and its requirement excludes the new version (or `force` is
      set), or it has no requirement and is no dev-dependency. */
  predicate NeedsUpdate(name: string, e: DepEntry, updates: map<string, Version>, sec: Section, force: bool, m: ReqMatcher) {
    && name in updates
    && HasPath(e)
    && if Field(e, "version").Some?
       then force || ReqMatches(e, updates[name], m) == Ok(false)
       else sec != Dev
  }

  /** The visitor of both passes over dependencies. A matched requirement is
      left alone unless forced; a missing one is set, except on
      dev-dependencies. An inline entry without `version` gets the key
      `" version"`, leading space included, inserted only when absent. A
      rewritten entry keeps its kind and every other field. */
  function CheckForUpdate(name: string, entry: DepEntry, updates: map<string, Version>, sec: Section, force: bool, m: ReqMatcher): (r: Result<Visit>)
    ensures r.Err? <==> name in updates && HasPath(entry) && Field(entry, "version").Some? && ReqMatches(entry, updates[name], m).Err?
    ensures r.Ok? ==> r.value.action != Remove
    ensures r.Ok? ==> (r.value.action == Mutated <==> NeedsUpdate(name, entry, updates, sec, force, m))
    ensures r.Ok? && r.value.action == Untouched ==> r.value.entry == entry
    ensures r.Ok? && r.value.action == Mutated ==>
      && r.value.entry.InlineEntry? == entry.InlineEntry?
      && (forall k :: k != "version" && k != " version" ==> Field(r.value.entry, k) == Field(entry, k))
      && (Field(entry, "version").Some? || entry.TableEntry? ==> Field(r.value.entry, "version") == Some(Val(Str(Render(updates[name])))))
      && (Field(entry, "version").None? && entry.InlineEntry? ==>
            Field(r.value.entry, "version").None? &&
            Field(r.value.entry, " version") == (if Field(entry, " version").Some? then Field(entry, " version") else Some(Val(Str(Render(updates[name]))))))
  {
    if name !in updates || !HasPath(entry) then Ok(Visit(Untouched, entry))
    else
      var text := Render(updates[name]);
      if Field(entry, "version").Some? then
        var matched :- ReqMatches(entry, updates[name], m);
        if force || !matched then
          match entry
          case InlineEntry(i) => Ok(Visit(Mutated, InlineEntry(Assoc.Set(i, "version", Str(text)))))
          case TableEntry(t) => Ok(Visit(Mutated, TableEntry(Assoc.Set(t, "version", Val(Str(text))))))
        else Ok(Visit(Untouched, entry))
      else if sec == Dev then Ok(Visit(Untouched, entry))
      else
        match entry
        case InlineEntry(i) => Ok(Visit(Mutated, InlineEntry(Assoc.GetOrInsert(i, " version", Str(text)))))
        case TableEntry(t) => Ok(Visit(Mutated, TableEntry(Assoc.Set(t, "version", Val(Str(text))))))
  }

  /** The visitor handed to `edit_each_dep`; the alias is ignored. */
  function Visitor(updates: map<string, Version>, force: bool, m: ReqMatcher): Util.Visitor {
    (n: string, a: Option<string>, e: DepEntry, sec: Section) => CheckForUpdate(n, e, updates, sec, force, m)
  }

  lemma {:induction false} VisitorNeverRemoves(updates: map<string, Version>, force: bool, m: ReqMatcher)
    ensures NeverRemoves(Visitor(updates, force, m))
  {
  }

  /** With nothing updated no entry is touched. */
  lemma {:induction false} VisitorPassiveWithoutUpdates(force: bool, m: ReqMatcher)
    ensures Passive(Visitor(map[], force, m))
  {
  }

  /** The second pass over one manifest as written: its own dependency
      sections, then, for each standard table under `target`, the table of
      THE SAME KEY AT THE ROOT of the manifest, when that is a standard
      table. The count is the number of rewritten entries. */
  function UpdateDeps(doc: Table, updates: map<string, Version>, force: bool, m: ReqMatcher): (r: Result<(nat, Table)>)
    ensures r.Ok? ==> Assoc.Keys(r.value.1) == Assoc.Keys(doc)
    ensures r.Ok? ==> forall k :: k !in DepSectionKeys && k != "features" && k !in TargetKeys(doc) ==>
      Assoc.Get(r.value.1, k) == Assoc.Get(doc, k)
  {
    var f := Visitor(updates, force, m);
    var w :- EditEachDep(doc, f);
    var t :- WalkTables(w.table, TargetKeys(w.table), f);
    TargetFrame(doc, w.table, t.0);
    Ok((w.count + t.1, t.0))
  }

  /** The frame of the second pass: the dependency walk leaves `target`
      alone, so the keys the target walk visits are those of the input. */
  lemma {:induction false} TargetFrame(doc: Table, mid: Table, last: Table)
    requires Assoc.Keys(mid) == Assoc.Keys(doc)
    requires forall k :: k !in DepSectionKeys && k != "features" ==> Assoc.Get(mid, k) == Assoc.Get(doc, k)
    requires Assoc.Keys(last) == Assoc.Keys(mid)
    requires forall k :: k !in TargetKeys(mid) ==> Assoc.Get(last, k) == Assoc.Get(mid, k)
    ensures Assoc.Keys(last) == Assoc.Keys(doc)
    ensures forall k :: k !in DepSectionKeys && k != "features" && k !in TargetKeys(doc) ==>
      Assoc.Get(last, k) == Assoc.Get(doc, k)
  {
    assert "target" !in DepSectionKeys;
    assert SubTable(mid, "target") == SubTable(doc, "target");
    assert TargetKeys(mid) == TargetKeys(doc);
  }

  /** As written, the tables under `target` are never walked themselves:
      unless `target` holds a table called `target`, the whole `target`
      entry comes out of the second pass as it went in, so path dependencies
      declared only for a platform keep their old requirements. */
  lemma {:induction false} TargetDepsNotRewritten(doc: Table, updates: map<string, Version>, force: bool, m: ReqMatcher)
    requires SubTable(doc, "target").Some?
    requires forall i :: 0 <= i < |SubTable(doc, "target").value| ==> SubTable(doc, "target").value[i].0 != "target"
    ensures var r := UpdateDeps(doc, updates, force, m);
      r.Ok? ==> Assoc.Get(r.value.1, "target") == Assoc.Get(doc, "target")
  {
    assert "target" !in TargetKeys(doc);
    assert "target" !in DepSectionKeys;
  }

  /** A concrete manifest: the root has no `cfg(unix)` key, so the path
      dependency under `target.'cfg(unix)'.dependencies` is left with a
      requirement the new version does not meet. */
  lemma {:induction false} TargetDepsExample(m: ReqMatcher)
    requires m("1.0.0", Version(2, 0, 0, "", "")) == Some(false)
    ensures var dep := Tbl([("a", Val(Inline([("path", Str("../a")), ("version", Str("1.0.0"))])))]);
      var doc := [("target", Tbl([("cfg(unix)", Tbl([("dependencies", dep)]))]))];
      var r := UpdateDeps(doc, map["a" := Version(2, 0, 0, "", "")], false, m);
      r.Ok? && r.value == (0, doc)
  {
    var dep := Tbl([("a", Val(Inline([("path", Str("../a")), ("version", Str("1.0.0"))])))]);
    var doc := [("target", Tbl([("cfg(unix)", Tbl([("dependencies", dep)]))]))];
    var f := Visitor(map["a" := Version(2, 0, 0, "", "")], false, m);
    var target := [("cfg(unix)", Tbl([("dependencies", dep)]))];
    assert SubTable(doc, "target") == Some(target);
    assert TableKeys(target[1..]) == [];
    assert TargetKeys(doc) == ["cfg(unix)"];
    assert SubTable(doc, "dependencies").None? && SubTable(doc, "dev-dependencies").None? && SubTable(doc, "build-dependencies").None?;
    assert SubTable(doc, "cfg(unix)").None?;
    NoSectionsNoWalk(doc, f);
    WalkTablesAbsent(doc, ["cfg(unix)"], f);
  }

  /** In a section without duplicate keys, every table-like entry ends up as
      the visitor rewrote it from its original contents. */
  lemma {:induction false} SectionRewritten(doc: Table, sec: Section, updates: map<string, Version>, force: bool, m: ReqMatcher)
    requires SubTable(doc, SectionKey(sec)).Some? && Assoc.DistinctKeys(SubTable(doc, SectionKey(sec)).value)
    ensures var r := WalkSection(doc, sec, Visitor(updates, force, m)); r.Ok? ==>
      var sub := SubTable(doc, SectionKey(sec)).value;
      var after := SubTable(r.value.table, SectionKey(sec)).value;
      forall i :: 0 <= i < |sub| && IsTableLike(sub[i].1) && Assoc.Get(sub, sub[i].0) == Some(sub[i].1) ==>
        var e := EntryOf(sub[i].1);
        && Resolve(sub[i].0, e).Ok?
        && var name := Resolve(sub[i].0, e).value.0;
        && CheckForUpdate(name, e, updates, sec, force, m).Ok?
        && Assoc.Get(after, sub[i].0) == Some(ToItem(CheckForUpdate(name, e, updates, sec, force, m).value.entry))
  {
    var f := Visitor(updates, force, m);
    VisitorNeverRemoves(updates, force, m);
    WalkSectionWritesAnswers(doc, sec, f);
    var sub := SubTable(doc, SectionKey(sec)).value;
    CandidateKeysVisitable(sub);
    var r := WalkSection(doc, sec, f);
    if r.Ok? {
      var keys := CandidateKeys(sub);
      forall i | 0 <= i < |sub| && IsTableLike(sub[i].1) && Assoc.Get(sub, sub[i].0) == Some(sub[i].1)
        ensures Resolve(sub[i].0, EntryOf(sub[i].1)).Ok?
      {
        var j :| 0 <= j < |keys| && keys[j] == sub[i].0;
        assert Answer(keys[j], sub[i].1, sec, f).Ok?;
      }
    }
  }

  /** The whole command: the first pass over the selected packages of
      `members_deep`, writing `package.version`; then the second pass over
      all of `members_deep`. No file appears or disappears. */
  function SetVersion(ws: Workspace, store: Store, pred: Package -> bool, mapper: Package -> Result<Option<Version>>, force: bool, m: ReqMatcher): (r: (Store, Result<()>))
    ensures r.0.Keys == store.Keys
  {
    var first := FirstPass(store, Filter(WorkspaceView.MembersDeep(ws), pred), mapper, "version", Render);
    if first.1.Err? then (first.0, Err(first.1.error))
    else
      var updates := first.1.value;
      var second := EditEach(first.0, WorkspaceView.MembersDeep(ws), UpdateEdit(updates, force, m));
      (second.store, if second.results.Err? then Err(second.results.error) else Ok(()))
  }

  /** The per-manifest edit of the second pass, with the platform tables
      looked up inside `target` as `rename` does (see `UpdateDeps` for the
      lookup as written). */
  function UpdateEdit(updates: map<string, Version>, force: bool, m: ReqMatcher): Edit<nat> {
    (p: Package, doc: Table) => SecondPass(doc, Visitor(updates, force, m))
  }

  /** `set_version` exactly as written: the second pass looks the platform
      tables up at the root (`UpdateDeps`). */
  function SetVersionAsWritten(ws: Workspace, store: Store, pred: Package -> bool, mapper: Package -> Result<Option<Version>>, force: bool, m: ReqMatcher): (r: (Store, Result<()>))
    ensures r.0.Keys == store.Keys
  {
    var first := FirstPass(store, Filter(WorkspaceView.MembersDeep(ws), pred), mapper, "version", Render);
    if first.1.Err? then (first.0, Err(first.1.error))
    else
      var second := EditEach(first.0, WorkspaceView.MembersDeep(ws), UpdateEditAsWritten(first.1.value, force, m));
      (second.store, if second.results.Err? then Err(second.results.error) else Ok(()))
  }

  function UpdateEditAsWritten(updates: map<string, Version>, force: bool, m: ReqMatcher): Edit<nat> {
    (p: Package, doc: Table) => UpdateDeps(doc, updates, force, m)
  }

  /** The mapper of a `version` subcommand, applied to each package's own
      version: `set` gives everyone the same version, only the sub-commands
      that take an identifier can fail, and `release` always yields a release. */
  function CommandMapper(cmd: VersionCommand): (r: Package -> Result<Option<Version>>)
    ensures cmd.SetTo? ==> forall p :: r(p) == Ok(Some(cmd.version))
    ensures forall p :: r(p).Err? ==> cmd.SetPre? || cmd.SetBuild? || cmd.BumpToDev?
    ensures cmd.Release? ==> forall p :: r(p).Ok? && r(p).value.Some? && r(p).value.value.pre == "" && SameCore(p.version, r(p).value.value)
  {
    (p: Package) => Apply(cmd, p.version)
  }

  /** A mapper with no new version for anyone changes no file. */
  lemma {:induction false} SetVersionNoOp(ws: Workspace, store: Store, pred: Package -> bool, mapper: Package -> Result<Option<Version>>, force: bool, m: ReqMatcher)
    requires forall p :: mapper(p) == Ok(None)
    ensures SetVersion(ws, store, pred, mapper, force, m).0 == store
  {
    var first := FirstPass(store, Filter(WorkspaceView.MembersDeep(ws), pred), mapper, "version", Render);
    FirstPassNoOp(store, Filter(WorkspaceView.MembersDeep(ws), pred), mapper);
    if first.1.Ok? {
      SecondPassNoOp(store, WorkspaceView.MembersDeep(ws), force, m);
    }
  }

  /** A first pass whose mapper never answers writes nothing and collects
      no update. */
  lemma {:induction false} FirstPassNoOp(store: Store, selected: seq<Package>, mapper: Package -> Result<Option<Version>>)
    requires forall p :: mapper(p) == Ok(None)
    ensures var first := FirstPass(store, selected, mapper, "version", Render);
      first.0 == store && (first.1.Ok? ==> first.1.value == map[])
  {
    var f1 := Cascade.RenameEdit(mapper, "version", Render);
    EditEachReadOnly(store, selected, f1);
    var run := EditEach(store, selected, f1);
    if run.results.Ok? {
      var pairs := run.results.value;
      assert forall i :: 0 <= i < |pairs| ==> pairs[i].None? by {
        EditEachPerManifestNone(store, selected, mapper);
      }
      assert CollectUpdates(pairs) == map[];
    }
  }

  /** A second pass without updates writes nothing. */
  lemma {:induction false} SecondPassNoOp(store: Store, pkgs: seq<Package>, force: bool, m: ReqMatcher)
    ensures EditEach(store, pkgs, UpdateEdit(map[], force, m)).store == store
  {
    var f2 := UpdateEdit(map[], force, m);
    forall p, d | f2(p, d).Ok? ensures f2(p, d).value.1 == d {
      VisitorPassiveWithoutUpdates(force, m);
      SecondPassPassive(d, Visitor(map[], force, m));
    }
    EditEachReadOnly(store, pkgs, f2);
  }

  /** Every result of a first pass whose mapper never answers is `None`. */
  lemma {:induction false} EditEachPerManifestNone(store: Store, pkgs: seq<Package>, mapper: Package -> Result<Option<Version>>)
    requires forall p :: mapper(p) == Ok(None)
    ensures var run := EditEach(store, pkgs, Cascade.RenameEdit(mapper, "version", Render));
      run.results.Ok? ==> forall i :: 0 <= i < |run.results.value| ==> run.results.value[i].None?
    decreases |pkgs|
  {
    if |pkgs| > 0 {
      var path := pkgs[0].manifestPath;
      if path in store {
        EditEachPerManifestNone(store[path := store[path]], pkgs[1..], mapper);
      }
    }
  }
}
