/** `clean_up_unused_dependencies` (src/commands/clean_deps.rs): search each
    selected member's Rust sources for every dependency's identifier and
    remove the dependencies that do not occur, or, in check-only mode,
    report them. The search is an oracle. */
module CleanDeps {
  import opened Wrappers
  import opened Paths
  import opened Cargo
  import opened Util
  import opened Store
  import Toml
  import Assoc
  import Strings
  import Cascade

  /** `rg --type rust -qw <ident> <dir>` succeeded: the identifier occurs as
      a word in the Rust sources under the directory. */
  type Search = (string, Path) -> bool

  /** The identifier searched for a dependency: the alias when there is one,
      otherwise the true name, with every '-' turned into '_'. */
  function Ident(name: string, alias: Option<string>): (r: string)
    ensures |r| == |if alias.Some? then alias.value else name|
    ensures '-' !in r
    ensures forall i :: 0 <= i < |r| ==> r[i] == (if (if alias.Some? then alias.value else name)[i] == '-' then '_' else (if alias.Some? then alias.value else name)[i])
  {
    Strings.ReplaceChar(if alias.Some? then alias.value else name, '-', '_')
  }

  /** The dependency is unused: its identifier does not occur under `dir`. */
  predicate Unused(search: Search, dir: Path, name: string, alias: Option<string>) {
    !search(Ident(name, alias), dir)
  }

  /** The visitor's answer as written: a found dependency is Untouched; one
      not found is removed, except in check-only mode, where it is only
      reported and answered Untouched. */
  function DecideAsWritten(unused: bool, checkOnly: bool): (r: Action)
    ensures r == Remove <==> unused && !checkOnly
    ensures r != Mutated
  {
    if !unused then Untouched
    else if checkOnly then Untouched
    else Remove
  }

  /** The answer as evidently intended: in check-only mode an unused
      dependency is counted (Mutated, entry left as it was) so that the run
      can fail on it. */
  function DecideIntended(unused: bool, checkOnly: bool): (r: Action)
    ensures r == Remove <==> unused && !checkOnly
    ensures r == Mutated <==> unused && checkOnly
  {
    if !unused then Untouched
    else if checkOnly then Mutated
    else Remove
  }

  /** The three-argument closure of the source, under the walker's visitor
      type: the entry is always handed back as it came; the section is not
      looked at. */
  function Visitor(search: Search, dir: Path, checkOnly: bool, decide: (bool, bool) -> Action): (r: Util.Visitor)
    ensures forall n, a, e, sec :: r(n, a, e, sec).Ok? && r(n, a, e, sec).value.entry == e
    ensures forall n, a, e, sec :: r(n, a, e, sec).value.action == decide(Unused(search, dir, n, a), checkOnly)
  {
    (n: string, a: Option<string>, e: DepEntry, sec: Section) => Ok(Visit(decide(Unused(search, dir, n, a), checkOnly), e))
  }

  /** One manifest: the walk and its count. */
  function CleanManifest(p: Package, doc: Toml.Table, search: Search, checkOnly: bool, decide: (bool, bool) -> Action): (r: Result<(nat, Toml.Table)>)
    ensures r.Ok? ==> Assoc.Keys(r.value.1) == Assoc.Keys(doc)
  {
    var w :- EditEachDep(doc, Visitor(search, p.root, checkOnly, decide));
    Ok((w.count, w.table))
  }

  /** The per-manifest edit the command hands to the store. */
  function CleanEdit(search: Search, checkOnly: bool, decide: (bool, bool) -> Action): Edit<nat> {
    (p: Package, doc: Toml.Table) => CleanManifest(p, doc, search, checkOnly, decide)
  }

  function Sum(xs: seq<nat>): nat {
    if |xs| == 0 then 0 else xs[0] + Sum(xs[1..])
  }

  lemma {:induction false} SumPositive(xs: seq<nat>)
    ensures Sum(xs) > 0 <==> exists i :: 0 <= i < |xs| && xs[i] > 0
    decreases |xs|
  {
    if |xs| > 0 {
      SumPositive(xs[1..]);
      if exists i :: 0 <= i < |xs| && xs[i] > 0 {
        var i :| 0 <= i < |xs| && xs[i] > 0;
        if i > 0 {
          assert xs[1..][i - 1] == xs[i];
        }
      }
      if exists i :: 0 <= i < |xs[1..]| && xs[1..][i] > 0 {
        var i :| 0 <= i < |xs[1..]| && xs[1..][i] > 0;
        assert xs[i + 1] == xs[1..][i];
      }
    }
  }

  function AbortMessage(total: nat): string {
    "Aborting: " + Strings.NatToString(total) + " unused dependencies found. See shell output for more."
  }

  /** The command over the selected workspace members (not `members_deep`)
      with a given decision rule: the manifests as the run left them, and
      `Err` when a manifest failed or, in check-only mode, when the summed
      count is positive. */
  function Clean(ws: Workspace, store: Store, pred: Package -> bool, search: Search, checkOnly: bool, decide: (bool, bool) -> Action): (r: (Store, Result<()>))
    ensures r.0.Keys == store.Keys
  {
    var run := EditEach(store, Cascade.Filter(ws.members, pred), CleanEdit(search, checkOnly, decide));
    if run.results.Err? then (run.store, Err(run.results.error))
    else
      var total := Sum(run.results.value);
      if total > 0 && checkOnly then (run.store, Err(AbortMessage(total))) else (run.store, Ok(()))
  }

  /** `clean_up_unused_dependencies` as written. */
  function CleanAsWritten(ws: Workspace, store: Store, pred: Package -> bool, search: Search, checkOnly: bool): (r: (Store, Result<()>))
    ensures r.0.Keys == store.Keys
  {
    Clean(ws, store, pred, search, checkOnly, DecideAsWritten)
  }

  /** The command with the check-only answer corrected. */
  function CleanIntended(ws: Workspace, store: Store, pred: Package -> bool, search: Search, checkOnly: bool): (r: (Store, Result<()>))
    ensures r.0.Keys == store.Keys
  {
    Clean(ws, store, pred, search, checkOnly, DecideIntended)
  }

  /** In check-only mode both rules leave every manifest as it was. */
  lemma {:induction false} CheckOnlyKeepsManifests(ws: Workspace, store: Store, pred: Package -> bool, search: Search, decide: (bool, bool) -> Action)
    requires forall u :: decide(u, true) != Remove
    ensures Clean(ws, store, pred, search, true, decide).0 == store
  {
    var f := CleanEdit(search, true, decide);
    forall p, d | f(p, d).Ok? ensures f(p, d).value.1 == d {
      EditEachDepKeeps(d, Visitor(search, p.root, true, decide));
    }
    EditEachReadOnly(store, Cascade.Filter(ws.members, pred), f);
  }

  /** As written, a check-only walk counts nothing. */
  lemma {:induction false} AsWrittenCountsNothing(p: Package, doc: Toml.Table, search: Search)
    ensures var r := CleanManifest(p, doc, search, true, DecideAsWritten); r.Ok? ==> r.value.0 == 0
  {
    var f := Visitor(search, p.root, true, DecideAsWritten);
    assert ActsBy(f, Ignored) by {
      forall n, a, e, sec ensures f(n, a, e, sec).Ok? && f(n, a, e, sec).value.action == Ignored(n, a) {
        assert DecideAsWritten(Unused(search, p.root, n, a), true) == Untouched;
      }
    }
    EditEachDepActs(doc, f, Ignored);
    var w := EditEachDep(doc, f);
    if w.Ok? {
      CountChangedPositive(w.value.visits);
    }
  }

  /** The as-written check-only answer, for any name and alias. */
  function Ignored(n: string, a: Option<string>): Action {
    Untouched
  }

  function Zero(p: Package): nat {
    0
  }

  function Everyone(p: Package): bool {
    true
  }

  /** As written, the visitor never answers anything but Untouched in
      check-only mode, so every count is zero and the check can never
      fail on unused dependencies: its only errors are the walk's own. */
  lemma {:induction false} CheckOnlyNeverAborts(ws: Workspace, store: Store, pred: Package -> bool, search: Search)
    ensures var r := CleanAsWritten(ws, store, pred, search, true);
      var run := EditEach(store, Cascade.Filter(ws.members, pred), CleanEdit(search, true, DecideAsWritten));
      r.1.Err? ==> run.results.Err? && r.1.error == run.results.error
  {
    var selected := Cascade.Filter(ws.members, pred);
    var f := CleanEdit(search, true, DecideAsWritten);
    forall p, d | f(p, d).Ok? ensures f(p, d).value.0 == Zero(p) {
      AsWrittenCountsNothing(p, d, search);
    }
    EditEachResultsBy(store, selected, f, Zero);
    var run := EditEach(store, selected, f);
    if run.results.Ok? {
      SumPositive(run.results.value);
    }
  }

  /** What `CheckOnlyNeverAborts` costs: a member with a dependency its
      sources never mention passes the check. */
  lemma {:induction false} CheckOnlyMissesUnused(ws: Workspace, m: Package, search: Search)
    requires ws.members == [m] && m.manifestPath == ["Cargo.toml"] && !search("foo", m.root)
    ensures && Unused(search, m.root, "foo", None)
            && CleanAsWritten(ws, map[["Cargo.toml"] := UnusedFooManifest()], Everyone, search, true) == (map[["Cargo.toml"] := UnusedFooManifest()], Ok(()))
  {
    var doc := UnusedFooManifest();
    var store := map[["Cargo.toml"] := doc];
    assert Ident("foo", None) == "foo";
    CheckOnlyNeverAborts(ws, store, Everyone, search);
    CheckOnlyKeepsManifests(ws, store, Everyone, search, DecideAsWritten);
    assert Cascade.Filter([m], Everyone) == [m];
    UnusedFooWalks(Visitor(search, m.root, true, DecideAsWritten));
    OneManifestRuns(store, m, CleanEdit(search, true, DecideAsWritten));
  }

  /** A run over one package whose manifest is present and whose edit
      succeeds does not fail. */
  lemma {:induction false} OneManifestRuns<R>(store: Store, m: Package, f: Edit<R>)
    requires m.manifestPath in store && f(m, store[m.manifestPath]).Ok?
    ensures EditEach(store, [m], f).results.Ok?
  {
    var out := f(m, store[m.manifestPath]);
    assert [m][1..] == [];
    assert EditEach(store[m.manifestPath := out.value.1], [], f).results == Ok([]);
  }

  /** A manifest with one dependency, `foo = { version = "1" }`. */
  function UnusedFooManifest(): Toml.Table {
    [("dependencies", Toml.Tbl([("foo", Toml.Val(Toml.Inline([("version", Toml.Str("1"))])))]))]
  }

  lemma {:induction false} UnusedFooWalks(f: Util.Visitor)
    requires forall n, a, e, sec :: f(n, a, e, sec).Ok?
    ensures EditEachDep(UnusedFooManifest(), f).Ok?
  {
    var doc := UnusedFooManifest();
    var deps := [("foo", Toml.Val(Toml.Inline([("version", Toml.Str("1"))])))];
    assert Toml.SubTable(doc, "dependencies") == Some(deps);
    assert Toml.SubTable(doc, "dev-dependencies").None? && Toml.SubTable(doc, "build-dependencies").None?;
    OneEntryWalks(deps, f);
    OnlyRegularWalks(doc, f);
  }

  /** A section of one inline-table entry without a `package` key walks
      without error under a visitor that never fails. */
  lemma {:induction false} OneEntryWalks(deps: Toml.Table, f: Util.Visitor)
    requires forall n, a, e, sec :: f(n, a, e, sec).Ok?
    requires |deps| == 1 && deps[0].1.Val? && deps[0].1.v.Inline? && deps[0].1.v.entries == [("version", Toml.Str("1"))]
    ensures WalkKeys(deps, CandidateKeys(deps), Regular, f).Ok?
  {
    assert CandidateKeys(deps) == [deps[0].0];
    assert PackageField(EntryOf(deps[0].1)).None?;
    assert Step(deps, deps[0].0, Regular, f).Ok?;
  }

  /** A manifest whose only dependency section is `[dependencies]` walks
      without error when that section does. */
  lemma {:induction false} OnlyRegularWalks(root: Toml.Table, f: Util.Visitor)
    requires Toml.SubTable(root, "dev-dependencies").None? && Toml.SubTable(root, "build-dependencies").None?
    requires Toml.SubTable(root, "dependencies").Some?
    requires WalkKeys(Toml.SubTable(root, "dependencies").value, CandidateKeys(Toml.SubTable(root, "dependencies").value), Regular, f).Ok?
    ensures EditEachDep(root, f).Ok?
  {
    RegularSectionWalks(root, f);
    LaterSectionsAfterRegular(root, f);
    SectionsDistinct();
    assert [Regular, Dev, Build][1..] == [Dev, Build];
    FirstSectionThenRest(root, [Regular, Dev, Build], f);
    SectionsWalkThenPrune(root, f);
  }

  /** The `[dependencies]` walk succeeds when walking its keys does. */
  lemma {:induction false} RegularSectionWalks(root: Toml.Table, f: Util.Visitor)
    requires Toml.SubTable(root, "dependencies").Some?
    requires WalkKeys(Toml.SubTable(root, "dependencies").value, CandidateKeys(Toml.SubTable(root, "dependencies").value), Regular, f).Ok?
    ensures WalkSection(root, Regular, f).Ok?
  {
    assert SectionKey(Regular) == "dependencies";
  }

  /** After the `[dependencies]` walk, the absent `[dev-dependencies]` and
      `[build-dependencies]` sections walk without failing. */
  lemma {:induction false} LaterSectionsAfterRegular(root: Toml.Table, f: Util.Visitor)
    requires Toml.SubTable(root, "dev-dependencies").None? && Toml.SubTable(root, "build-dependencies").None?
    requires WalkSection(root, Regular, f).Ok?
    ensures WalkSections(WalkSection(root, Regular, f).value.table, [Dev, Build], f).Ok?
  {
    var t := WalkSection(root, Regular, f).value.table;
    KeptSubTable(root, t, SectionKey(Dev));
    KeptSubTable(root, t, SectionKey(Build));
    LaterSectionsWalk(t, f);
  }

  /** Pruning the features table cannot fail once the sections are walked. */
  lemma {:induction false} SectionsWalkThenPrune(root: Toml.Table, f: Util.Visitor)
    requires WalkSections(root, [Regular, Dev, Build], f).Ok?
    ensures EditEachDep(root, f).Ok?
  {
  }

  /** Walking a list of sections succeeds when the first section's walk
      succeeds and the rest succeed on the table it leaves. */
  lemma {:induction false} FirstSectionThenRest(root: Toml.Table, secs: seq<Section>, f: Util.Visitor)
    requires |secs| > 0 && DistinctSections(secs) && WalkSection(root, secs[0], f).Ok?
    requires WalkSections(WalkSection(root, secs[0], f).value.table, secs[1..], f).Ok?
    ensures WalkSections(root, secs, f).Ok?
  {
  }

  /** The three dependency sections are walked under three different keys. */
  lemma {:induction false} SectionsDistinct()
    ensures DistinctSections([Regular, Dev, Build])
  {
  }

  /** A table that agrees with another on a key has the same sub-table there. */
  lemma {:induction false} KeptSubTable(a: Toml.Table, b: Toml.Table, k: string)
    requires Assoc.Get(b, k) == Assoc.Get(a, k)
    ensures Toml.SubTable(b, k) == Toml.SubTable(a, k)
  {
  }

  /** With neither `[dev-dependencies]` nor `[build-dependencies]` present,
      walking those two sections succeeds and visits nothing. */
  lemma {:induction false} LaterSectionsWalk(t: Toml.Table, f: Util.Visitor)
    requires Toml.SubTable(t, SectionKey(Dev)).None? && Toml.SubTable(t, SectionKey(Build)).None?
    ensures WalkSections(t, [Dev, Build], f).Ok?
  {
    assert WalkSection(t, Dev, f) == Ok(Walk(t, 0, [], []));
    assert WalkSection(t, Build, f) == Ok(Walk(t, 0, [], []));
    assert [Dev, Build][1..] == [Build] && [Build][1..] == [];
    assert WalkSections(t, [Build], f).Ok?;
  }

  /** A member's walk records an unused dependency. */
  predicate FindsUnused(p: Package, doc: Toml.Table, search: Search, decide: (bool, bool) -> Action) {
    var w := EditEachDep(doc, Visitor(search, p.root, true, decide));
    w.Ok? && exists i :: 0 <= i < |w.value.visits| && Unused(search, p.root, w.value.visits[i].name, w.value.visits[i].alias)
  }

  /** With the corrected rule, a manifest's count is positive exactly when
      its walk met an unused dependency. */
  lemma {:induction false} IntendedCountsUnused(p: Package, doc: Toml.Table, search: Search)
    ensures var r := CleanManifest(p, doc, search, true, DecideIntended);
      r.Ok? ==> (r.value.0 > 0 <==> FindsUnused(p, doc, search, DecideIntended))
  {
    var f := Visitor(search, p.root, true, DecideIntended);
    var g := (n: string, a: Option<string>) => DecideIntended(Unused(search, p.root, n, a), true);
    EditEachDepActs(doc, f, g);
    var w := EditEachDep(doc, f);
    if w.Ok? {
      CountChangedPositive(w.value.visits);
    }
  }

  /** With the corrected rule and one manifest per member, check-only mode
      fails on unused dependencies exactly when some selected member's walk
      meets one, provided every walk succeeds. */
  lemma {:induction false} IntendedCheckFails(ws: Workspace, store: Store, pred: Package -> bool, search: Search)
    requires DistinctManifests(Cascade.Filter(ws.members, pred))
    ensures var selected := Cascade.Filter(ws.members, pred);
      var run := EditEach(store, selected, CleanEdit(search, true, DecideIntended));
      run.results.Ok? ==>
        (CleanIntended(ws, store, pred, search, true).1.Err? <==>
         exists i :: 0 <= i < |selected| && FindsUnused(selected[i], store[selected[i].manifestPath], search, DecideIntended))
  {
    var selected := Cascade.Filter(ws.members, pred);
    var f := CleanEdit(search, true, DecideIntended);
    EditEachPerManifest(store, selected, f);
    var run := EditEach(store, selected, f);
    if run.results.Ok? {
      var counts := run.results.value;
      forall i | 0 <= i < |selected|
        ensures counts[i] > 0 <==> FindsUnused(selected[i], store[selected[i].manifestPath], search, DecideIntended)
      {
        var p := selected[i];
        var doc := store[p.manifestPath];
        assert counts[i] == CleanManifest(p, doc, search, true, DecideIntended).value.0;
        IntendedCountsUnused(p, doc, search);
      }
      SumFindsUnused(counts, selected, store, search);
      CleanVerdict(ws, store, pred, search, true, DecideIntended);
    }
  }

  /** After a run without failure, the command fails exactly in check-only
      mode with a positive total. */
  lemma {:induction false} CleanVerdict(ws: Workspace, store: Store, pred: Package -> bool, search: Search, checkOnly: bool, decide: (bool, bool) -> Action)
    ensures var run := EditEach(store, Cascade.Filter(ws.members, pred), CleanEdit(search, checkOnly, decide));
      run.results.Ok? ==> (Clean(ws, store, pred, search, checkOnly, decide).1.Err? <==> checkOnly && Sum(run.results.value) > 0)
  {
  }

  /** The summed count is positive exactly when some member's walk met an
      unused dependency, given that each count is positive exactly then. */
  lemma {:induction false} SumFindsUnused(counts: seq<nat>, selected: seq<Package>, store: Store, search: Search)
    requires |counts| == |selected|
    requires forall i :: 0 <= i < |selected| ==> selected[i].manifestPath in store
    requires forall i :: 0 <= i < |selected| ==>
      (counts[i] > 0 <==> FindsUnused(selected[i], store[selected[i].manifestPath], search, DecideIntended))
    ensures Sum(counts) > 0 <==> exists i :: 0 <= i < |selected| && FindsUnused(selected[i], store[selected[i].manifestPath], search, DecideIntended)
  {
    SumPositive(counts);
  }

  /** Outside check-only mode, every visited dependency whose identifier is
      not found is answered Remove, and the key of its true name is gone
      from its section afterwards; found ones are Untouched. */
  lemma {:induction false} CleanRemovesUnused(p: Package, doc: Toml.Table, search: Search)
    ensures var w := EditEachDep(doc, Visitor(search, p.root, false, DecideAsWritten));
      w.Ok? ==> forall v :: v in w.value.visits ==>
        && (v.action == Remove <==> Unused(search, p.root, v.name, v.alias))
        && (v.action == Remove ==> var sub := Toml.SubTable(w.value.table, SectionKey(v.section)); sub.Some? && !Assoc.HasKey(sub.value, v.name))
  {
    var f := Visitor(search, p.root, false, DecideAsWritten);
    var g := (n: string, a: Option<string>) => DecideAsWritten(Unused(search, p.root, n, a), false);
    assert ActsBy(f, g) by {
      forall n, a, e, sec ensures f(n, a, e, sec).Ok? && f(n, a, e, sec).value.action == g(n, a) {
      }
    }
    EditEachDepActs(doc, f, g);
    EditEachDepRemoves(doc, f);
    var w := EditEachDep(doc, f);
    if w.Ok? {
      forall v | v in w.value.visits ensures v.action == Remove <==> Unused(search, p.root, v.name, v.alias) {
        var i :| 0 <= i < |w.value.visits| && w.value.visits[i] == v;
        assert v.action == g(v.name, v.alias);
      }
    }
  }
}
