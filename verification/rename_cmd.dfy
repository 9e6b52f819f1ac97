/** `rename` (src/commands/rename.rs): give the packages of one name a new
    name, then point every path dependency on them at the new name through
    its `package` field. */
module RenameCmd {
  import opened Wrappers
  import opened Toml
  import opened Cargo
  import opened Util
  import opened Store
  import opened Cascade
  import Strings
  import WorkspaceView
  import Assoc

  /** The visitor of the second pass. A path dependency on a renamed package
      is rewritten: a table gets `package` set; an inline table gets the key
      `" package"`, leading space included, inserted only when absent, so an
      existing `package` field is kept beside it. It never fails, and a
      rewritten entry keeps its kind and every other field. */
  function CheckForRename(name: string, entry: DepEntry, updates: map<string, string>): (r: Visit)
    ensures r.action != Remove
    ensures r.action == Mutated <==> name in updates && HasPath(entry)
    ensures r.action == Untouched ==> r.entry == entry
    ensures r.action == Mutated ==>
      && r.entry.InlineEntry? == entry.InlineEntry?
      && (forall k :: k != "package" && k != " package" ==> Field(r.entry, k) == Field(entry, k))
      && (entry.TableEntry? ==> Field(r.entry, "package") == Some(Val(Str(updates[name]))) && Field(r.entry, " package") == Field(entry, " package"))
      && (entry.InlineEntry? ==>
            Field(r.entry, "package") == Field(entry, "package") &&
            Field(r.entry, " package") == (if Field(entry, " package").Some? then Field(entry, " package") else Some(Val(Str(updates[name])))))
  {
    if name !in updates || !HasPath(entry) then Visit(Untouched, entry)
    else
      match entry
      case InlineEntry(i) => Visit(Mutated, InlineEntry(Assoc.GetOrInsert(i, " package", Str(updates[name]))))
      case TableEntry(t) => Visit(Mutated, TableEntry(Assoc.Set(t, "package", Val(Str(updates[name])))))
  }

  function Visitor(updates: map<string, string>): Util.Visitor {
    (n: string, a: Option<string>, e: DepEntry, sec: Section) => Ok(CheckForRename(n, e, updates))
  }

  /** The source's mapper cannot fail. */
  function Lift(mapper: Package -> Option<string>): Package -> Result<Option<string>> {
    (p: Package) => Ok(mapper(p))
  }

  function Verbatim(s: string): string {
    s
  }

  /** The mapper of the `rename` command: the new name for everyone. */
  function Renamer(newName: string): Package -> Option<string> {
    (p: Package) => Some(newName)
  }

  /** `rename` with a selection predicate and a mapper: the first pass writes
      `package.name`; when it renamed nothing the run stops there, otherwise
      the second pass rewrites dependencies across `members_deep`. */
  function Rename(ws: Workspace, store: Store, pred: Package -> bool, mapper: Package -> Option<string>): (r: (Store, Result<()>))
    ensures r.0.Keys == store.Keys
  {
    var first := FirstPass(store, Filter(WorkspaceView.MembersDeep(ws), pred), Lift(mapper), "name", Verbatim);
    if first.1.Err? then (first.0, Err(first.1.error))
    else if first.1.value == map[] then (first.0, Ok(()))
    else
      var updates := first.1.value;
      var second := EditEach(first.0, WorkspaceView.MembersDeep(ws), (p: Package, doc: Table) => SecondPass(doc, Visitor(updates)));
      (second.store, if second.results.Err? then Err(second.results.error) else Ok(()))
  }

  /** The selection of the `rename` command: the trimmed name equals the old one. */
  function NamedPredicate(oldName: string): Package -> bool {
    (p: Package) => Strings.Trim(p.name) == oldName
  }

  /** The `rename` command: every package of `members_deep` whose trimmed
      name is `oldName` is renamed to `newName`. */
  function RenameCommand(ws: Workspace, store: Store, oldName: string, newName: string): (r: (Store, Result<()>))
    ensures r.0.Keys == store.Keys
  {
    Rename(ws, store, NamedPredicate(oldName), Renamer(newName))
  }

  /** With packages that share a manifest being the same package, as the
      repeats in `members_deep` are, a successful rename gives each selected
      package's manifest the new name. */
  lemma {:induction false} RenameSetsNames(ws: Workspace, store: Store, oldName: string, newName: string)
    requires ConsistentManifests(Filter(WorkspaceView.MembersDeep(ws), NamedPredicate(oldName)))
    ensures var selected := Filter(WorkspaceView.MembersDeep(ws), NamedPredicate(oldName));
      var first := FirstPass(store, selected, Lift(Renamer(newName)), "name", Verbatim);
      first.1.Ok? ==> forall i :: 0 <= i < |selected| ==> PackageFieldIs(first.0[selected[i].manifestPath], "name", newName)
  {
    var selected := Filter(WorkspaceView.MembersDeep(ws), NamedPredicate(oldName));
    FirstPassWrites(store, selected, Lift(Renamer(newName)), "name", Verbatim);
  }

  /** The updates of a successful rename name exactly the selected packages. */
  lemma {:induction false} RenameUpdatesSelected(ps: seq<Package>, store: Store, oldName: string, newName: string)
    ensures var first := FirstPass(store, Filter(ps, NamedPredicate(oldName)), Lift(Renamer(newName)), "name", Verbatim);
      first.1.Ok? ==> forall n :: n in first.1.value <==> exists p :: p in ps && NamedPredicate(oldName)(p) && p.name == n
  {
    var selected := Filter(ps, NamedPredicate(oldName));
    var mapper := Lift(Renamer(newName));
    FirstPassUpdates(store, selected, mapper, "name", Verbatim);
    assert forall i :: 0 <= i < |selected| ==> Reported(selected[i], mapper).Some?;
    forall n ensures HasNamed(selected, n) <==> exists p :: p in ps && NamedPredicate(oldName)(p) && p.name == n {
      FilterNames(ps, NamedPredicate(oldName), n);
    }
  }

  predicate HasNamed(ps: seq<Package>, n: string) {
    exists i :: 0 <= i < |ps| && ps[i].name == n
  }

  /** A name occurs among the filtered packages exactly when a package of
      that name passes the predicate. */
  lemma {:induction false} FilterNames(ps: seq<Package>, pred: Package -> bool, n: string)
    ensures HasNamed(Filter(ps, pred), n) <==> exists p :: p in ps && pred(p) && p.name == n
  {
    var sel := Filter(ps, pred);
    if exists i :: 0 <= i < |sel| && sel[i].name == n {
      var i :| 0 <= i < |sel| && sel[i].name == n;
      assert sel[i] in sel;
    }
    if exists p :: p in ps && pred(p) && p.name == n {
      var p :| p in ps && pred(p) && p.name == n;
      assert p in sel;
      var i :| 0 <= i < |sel| && sel[i] == p;
      assert sel[i].name == n;
    }
  }

  /** When no package of `members_deep` carries the old name, no file changes. */
  lemma {:induction false} RenameNoMatch(ws: Workspace, store: Store, oldName: string, newName: string)
    requires forall i :: 0 <= i < |WorkspaceView.MembersDeep(ws)| ==> Strings.Trim(WorkspaceView.MembersDeep(ws)[i].name) != oldName
    ensures RenameCommand(ws, store, oldName, newName) == (store, Ok(()))
  {
    FilterNone(WorkspaceView.MembersDeep(ws), NamedPredicate(oldName));
    FirstPassEmpty(store, Lift(Renamer(newName)), "name", Verbatim);
  }
}
