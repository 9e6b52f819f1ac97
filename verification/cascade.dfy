/** What `set_version` (src/commands/version.rs) and `rename`
    (src/commands/rename.rs) share: the first pass writes a new
    `package.<field>` into each selected manifest and collects the updates,
    the second walks dependency tables, including those under `target`. */
module Cascade {
  import opened Wrappers
  import opened Toml
  import opened Cargo
  import opened Util
  import opened Store
  import Assoc

  /** The panic of toml_edit's `doc["package"][field]` when `package` is a
      plain value. */
  const CannotAccessKey: string := "cannot access key"

  /** `package.<field>` of a manifest is the string `value`. */
  predicate PackageFieldIs(doc: Table, field: string, value: string) {
    var pkg := Assoc.Get(doc, "package");
    && pkg.Some?
    && ((pkg.value.Tbl? && Assoc.Get(pkg.value.entries, field) == Some(Val(Str(value))))
        || (pkg.value.Val? && pkg.value.v.Inline? && Assoc.Get(pkg.value.v.entries, field) == Some(Str(value))))
  }

  /** `doc["package"][field] = value`: index-assign into the `package` table
      or inline table; a missing `package` becomes an inline table holding
      only the field; a plain value there panics. Nothing but `package` is
      touched, no top-level key is added unless `package` was missing, and
      the other keys of a `package` table are kept. */
  function SetPackageField(doc: Table, field: string, value: string): (r: Result<Table>)
    ensures r.Err? <==> Assoc.Get(doc, "package").Some? && !IsTableLike(Assoc.Get(doc, "package").value)
    ensures r.Ok? ==> PackageFieldIs(r.value, field, value)
    ensures r.Ok? ==> forall k :: k != "package" ==> Assoc.Get(r.value, k) == Assoc.Get(doc, k)
    ensures r.Ok? && Assoc.HasKey(doc, "package") ==> Assoc.Keys(r.value) == Assoc.Keys(doc)
    ensures r.Ok? && Assoc.HasKey(doc, "package") && Assoc.Get(doc, "package").value.Tbl? ==>
      Assoc.Get(r.value, "package").Some? && Assoc.Get(r.value, "package").value.Tbl? &&
      forall k :: k != field ==> Assoc.Get(Assoc.Get(r.value, "package").value.entries, k) == Assoc.Get(Assoc.Get(doc, "package").value.entries, k)
  {
    var pkg: Option<Item> := Assoc.Get(doc, "package");
    if pkg.None? then Ok(Assoc.Set(doc, "package", Val(Inline([(field, Str(value))]))))
    else if pkg.value.Tbl? then Ok(Assoc.Set(doc, "package", Tbl(Assoc.Set(pkg.value.entries, field, Val(Str(value))))))
    else if pkg.value.v.Inline? then Ok(Assoc.Set(doc, "package", Val(Inline(Assoc.Set(pkg.value.v.entries, field, Str(value))))))
    else Err(CannotAccessKey)
  }

  /** An entry's field, lifted to an item for inline entries. */
  function Field(e: DepEntry, k: string): Option<Item> {
    match e
    case InlineEntry(i) => var v := Assoc.Get(i, k); if v.None? then None else Some(Val(v.value))
    case TableEntry(t) => Assoc.Get(t, k)
  }

  predicate HasPath(e: DepEntry) {
    Field(e, "path").Some?
  }

  /** `iter().filter(predicate)`: the accepted elements in their order,
      each as often as it occurs. */
  function Filter(ps: seq<Package>, pred: Package -> bool): (r: seq<Package>)
    ensures forall p :: p in r <==> p in ps && pred(p)
    ensures |r| <= |ps|
    ensures IsSubsequence(r, ps)
    ensures forall p :: multiset(r)[p] == if pred(p) then multiset(ps)[p] else 0
  {
    if |ps| == 0 then []
    else
      var rest := Filter(ps[1..], pred);
      assert ps == [ps[0]] + ps[1..];
      if pred(ps[0]) then
        var r := [ps[0]] + rest;
        assert r[0] == ps[0] && r[1..] == rest;
        assert multiset(r) == multiset{ps[0]} + multiset(rest);
        r
      else
        assert |rest| > 0 ==> rest[0] in rest && rest[0] != ps[0];
        rest
  }

  /** Nothing passes the filter when no element satisfies the predicate. */
  lemma {:induction false} FilterNone(ps: seq<Package>, pred: Package -> bool)
    requires forall i :: 0 <= i < |ps| ==> !pred(ps[i])
    ensures Filter(ps, pred) == []
  {
    if |ps| > 0 {
      FilterNone(ps[1..], pred);
    }
  }

  /** The first pass over no package changes nothing and collects nothing. */
  lemma {:induction false} FirstPassEmpty<V>(store: Store, mapper: Package -> Result<Option<V>>, field: string, render: V -> string)
    ensures FirstPass(store, [], mapper, field, render) == (store, Ok(map[]))
  {
  }

  /** The first pass's edit: ask the mapper, and when it has a new value
      write it into `package.<field>` and report `(name, value)`. An `Err`
      from the mapper stands for a panic inside it. */
  function RenameStep<V>(p: Package, doc: Table, mapper: Package -> Result<Option<V>>, field: string, render: V -> string): (r: Result<(Option<(string, V)>, Table)>)
    ensures r.Ok? && r.value.0.None? ==> r.value.1 == doc
    ensures r.Ok? && r.value.0.Some? ==> r.value.0.value.0 == p.name && PackageFieldIs(r.value.1, field, render(r.value.0.value.1))
    ensures r.Ok? ==> (r.value.0.None? <==> mapper(p) == Ok(None))
  {
    var m :- mapper(p);
    if m.None? then Ok((None, doc))
    else
      var d :- SetPackageField(doc, field, render(m.value));
      Ok((Some((p.name, m.value)), d))
  }

  /** The pairs collected into a map, as `collect::<HashMap<_, _>>` does:
      a later pair for the same name wins. */
  function CollectUpdates<V>(pairs: seq<Option<(string, V)>>): (r: map<string, V>)
    ensures forall n :: n in r <==> exists i :: 0 <= i < |pairs| && pairs[i].Some? && pairs[i].value.0 == n
  {
    if |pairs| == 0 then map[]
    else
      var init := pairs[..|pairs| - 1];
      var m := CollectUpdates(init);
      assert forall i :: 0 <= i < |init| ==> init[i] == pairs[i];
      var last := pairs[|pairs| - 1];
      if last.Some? then m[last.value.0 := last.value.1] else m
  }

  /** `pairs[i]` is the last pair for its name. */
  predicate LastFor<V>(pairs: seq<Option<(string, V)>>, i: int) {
    0 <= i < |pairs| && pairs[i].Some? &&
    forall j :: i < j < |pairs| ==> !(pairs[j].Some? && pairs[j].value.0 == pairs[i].value.0)
  }

  /** Each name maps to the value of its last pair. */
  lemma {:induction false} CollectUpdatesLastWins<V>(pairs: seq<Option<(string, V)>>, i: int)
    requires LastFor(pairs, i)
    ensures CollectUpdates(pairs)[pairs[i].value.0] == pairs[i].value.1
    decreases |pairs|
  {
    var init := pairs[..|pairs| - 1];
    var last := pairs[|pairs| - 1];
    if i < |pairs| - 1 {
      assert LastFor(init, i) by {
        forall j | i < j < |init| ensures !(init[j].Some? && init[j].value.0 == init[i].value.0) {
          assert init[j] == pairs[j];
        }
      }
      CollectUpdatesLastWins(init, i);
      assert !(last.Some? && last.value.0 == pairs[i].value.0);
    }
  }

  /** The first pass over the selected packages: the store after it and the
      collected updates, or the first error. */
  /** The per-manifest edit of the first pass. */
  function RenameEdit<V>(mapper: Package -> Result<Option<V>>, field: string, render: V -> string): Edit<Option<(string, V)>> {
    (p, doc) => RenameStep(p, doc, mapper, field, render)
  }

  function FirstPass<V>(store: Store, selected: seq<Package>, mapper: Package -> Result<Option<V>>, field: string, render: V -> string): (r: (Store, Result<map<string, V>>))
    ensures r.0.Keys == store.Keys
  {
    var run := EditEach(store, selected, RenameEdit(mapper, field, render));
    (run.store, if run.results.Err? then Err(run.results.error) else Ok(CollectUpdates(run.results.value)))
  }

  /** Writing the same field value a second time changes nothing. */
  lemma {:induction false} SetPackageFieldIdempotent(doc: Table, field: string, value: string)
    requires SetPackageField(doc, field, value).Ok?
    ensures var d := SetPackageField(doc, field, value).value;
      SetPackageField(d, field, value) == Ok(d)
  {
    var d := SetPackageField(doc, field, value).value;
    var pkg := Assoc.Get(d, "package").value;
    if pkg.Tbl? {
      Assoc.SetToCurrent(pkg.entries, field);
    } else {
      Assoc.SetToCurrent(pkg.v.entries, field);
    }
    Assoc.SetToCurrent(d, "package");
  }

  /** The first pass's edit is idempotent: the mapper answers by the package
      alone, and writing its value again changes nothing. */
  lemma {:induction false} RenameEditIdempotent<V>(mapper: Package -> Result<Option<V>>, field: string, render: V -> string)
    ensures Idempotent(RenameEdit(mapper, field, render))
  {
    forall p, d | RenameStep(p, d, mapper, field, render).Ok?
      ensures RenameStep(p, RenameStep(p, d, mapper, field, render).value.1, mapper, field, render) == RenameStep(p, d, mapper, field, render)
    {
      if mapper(p).value.Some? {
        SetPackageFieldIdempotent(d, field, render(mapper(p).value.value));
      }
    }
  }

  /** With packages that share a manifest being the same package, as the
      repeats in `members_deep` are, a successful first pass writes the new
      value into exactly the manifests whose mapper answered and leaves the
      others as they were. */
  lemma {:induction false} FirstPassWrites<V>(store: Store, selected: seq<Package>, mapper: Package -> Result<Option<V>>, field: string, render: V -> string)
    requires ConsistentManifests(selected)
    ensures var r := FirstPass(store, selected, mapper, field, render);
      r.1.Ok? ==> forall i :: 0 <= i < |selected| ==>
        && mapper(selected[i]).Ok?
        && (mapper(selected[i]).value.None? ==> r.0[selected[i].manifestPath] == store[selected[i].manifestPath])
        && (mapper(selected[i]).value.Some? ==> PackageFieldIs(r.0[selected[i].manifestPath], field, render(mapper(selected[i]).value.value)))
  {
    var f := RenameEdit(mapper, field, render);
    RenameEditIdempotent(mapper, field, render);
    forall i | 0 <= i < |selected| {
      EditEachAtShared(store, selected, f, i);
    }
  }

  /** The map of a successful first pass holds a name exactly when some
      selected package of that name got a new value. */
  lemma {:induction false} FirstPassUpdates<V>(store: Store, selected: seq<Package>, mapper: Package -> Result<Option<V>>, field: string, render: V -> string)
    ensures var r := FirstPass(store, selected, mapper, field, render);
      r.1.Ok? ==> forall n :: n in r.1.value <==>
        exists i :: 0 <= i < |selected| && selected[i].name == n && Reported(selected[i], mapper).Some?
  {
    var f := RenameEdit(mapper, field, render);
    var g := (p: Package) => Reported(p, mapper);
    EditEachResultsBy(store, selected, f, g);
    var run := EditEach(store, selected, f);
    if run.results.Ok? {
      var pairs := run.results.value;
      forall i | 0 <= i < |selected| ensures pairs[i] == Reported(selected[i], mapper) {
        assert pairs[i] == g(selected[i]);
      }
      UpdatesByName(pairs, selected, mapper);
    }
  }

  /** The collected map holds a name exactly when some package of that name
      reported a value, given the pairs are the packages' reports in order. */
  lemma {:induction false} UpdatesByName<V>(pairs: seq<Option<(string, V)>>, selected: seq<Package>, mapper: Package -> Result<Option<V>>)
    requires |pairs| == |selected|
    requires forall i :: 0 <= i < |selected| ==> pairs[i] == Reported(selected[i], mapper)
    ensures forall n :: n in CollectUpdates(pairs) <==>
      exists i :: 0 <= i < |selected| && selected[i].name == n && Reported(selected[i], mapper).Some?
  {
    var m := CollectUpdates(pairs);
    forall n ensures n in m <==> exists i :: 0 <= i < |selected| && selected[i].name == n && Reported(selected[i], mapper).Some? {
      if n in m {
        var i :| 0 <= i < |pairs| && pairs[i].Some? && pairs[i].value.0 == n;
        assert selected[i].name == n && Reported(selected[i], mapper).Some?;
      }
      if exists i :: 0 <= i < |selected| && selected[i].name == n && Reported(selected[i], mapper).Some? {
        var i :| 0 <= i < |selected| && selected[i].name == n && Reported(selected[i], mapper).Some?;
        assert pairs[i].Some? && pairs[i].value.0 == n;
      }
    }
  }

  /** What the first pass reports for a package whose mapper did not fail. */
  function Reported<V>(p: Package, mapper: Package -> Result<Option<V>>): Option<(string, V)> {
    if mapper(p).Ok? && mapper(p).value.Some? then Some((p.name, mapper(p).value.value)) else None
  }

  /** The keys under `target` whose items are standard tables, in order. */
  function TargetKeys(root: Table): (r: seq<string>)
    ensures SubTable(root, "target").None? ==> r == []
    ensures SubTable(root, "target").Some? ==> r == TableKeys(SubTable(root, "target").value)
  {
    var t := SubTable(root, "target");
    if t.None? then [] else TableKeys(t.value)
  }

  function TableKeys(t: Table): (r: seq<string>)
    ensures forall k :: k in r <==> (exists i :: 0 <= i < |t| && t[i].0 == k && t[i].1.Tbl?)
  {
    if |t| == 0 then []
    else
      var rest := TableKeys(t[1..]);
      assert forall i :: 1 <= i < |t| ==> t[i] == t[1..][i - 1];
      (if t[0].1.Tbl? then [t[0].0] else []) + rest
  }

  /** For each key, when `container` holds a standard table there, the
      dependency walk on that table, written back; the counts are summed.
      Keys not listed keep their items. */
  function WalkTables(container: Table, keys: seq<string>, f: Visitor): (r: Result<(Table, nat)>)
    ensures r.Ok? ==> Assoc.Keys(r.value.0) == Assoc.Keys(container)
    ensures r.Ok? ==> forall k :: k !in keys ==> Assoc.Get(r.value.0, k) == Assoc.Get(container, k)
    decreases |keys|
  {
    if |keys| == 0 then Ok((container, 0))
    else
      var sub := SubTable(container, keys[0]);
      var here :-
        if sub.None? then Ok((container, 0))
        else
          var w :- EditEachDep(sub.value, f);
          Ok((Assoc.Set(container, keys[0], Tbl(w.table)), w.count));
      var rest :- WalkTables(here.0, keys[1..], f);
      Ok((rest.0, here.1 + rest.1))
  }

  /** Keys that hold no standard table are skipped. */
  lemma {:induction false} WalkTablesAbsent(container: Table, keys: seq<string>, f: Visitor)
    requires forall i :: 0 <= i < |keys| ==> SubTable(container, keys[i]).None?
    ensures WalkTables(container, keys, f) == Ok((container, 0))
    decreases |keys|
  {
    if |keys| > 0 {
      WalkTablesAbsent(container, keys[1..], f);
    }
  }

  /** A visitor that changes nothing leaves the walked tables as they were. */
  lemma {:induction false} WalkTablesPassive(container: Table, keys: seq<string>, f: Visitor)
    requires Passive(f)
    ensures var r := WalkTables(container, keys, f); r.Ok? ==> r.value == (container, 0)
    decreases |keys|
  {
    if |keys| > 0 {
      var sub := SubTable(container, keys[0]);
      if sub.Some? {
        EditEachDepPassive(sub.value, f);
        Assoc.SetToCurrent(container, keys[0]);
      }
      WalkTablesPassive(container, keys[1..], f);
    }
  }

  predicate DistinctStrings(keys: seq<string>) {
    forall i, j :: 0 <= i < j < |keys| ==> keys[i] != keys[j]
  }

  /** A table without duplicate keys lists each of its sub-tables once. */
  lemma {:induction false} TableKeysDistinct(t: Table)
    requires Assoc.DistinctKeys(t)
    ensures DistinctStrings(TableKeys(t))
    decreases |t|
  {
    if |t| > 0 {
      var tail := t[1..];
      assert Assoc.DistinctKeys(tail) by {
        forall i, j | 0 <= i < j < |tail| ensures tail[i].0 != tail[j].0 {
          assert tail[i] == t[i + 1] && tail[j] == t[j + 1];
        }
      }
      TableKeysDistinct(tail);
      var rest := TableKeys(tail);
      forall k | k in rest ensures k != t[0].0 {
        var i :| 0 <= i < |tail| && tail[i].0 == k && tail[i].1.Tbl?;
        assert tail[i] == t[i + 1];
      }
      var r := TableKeys(t);
      if t[0].1.Tbl? {
        assert r == [t[0].0] + rest;
        forall i, j | 0 <= i < j < |r| ensures r[i] != r[j] {
          if i == 0 {
            assert r[j] == rest[j - 1] && r[j] in rest;
          } else {
            assert r[i] == rest[i - 1] && r[j] == rest[j - 1];
          }
        }
      } else {
        assert r == rest;
      }
    }
  }

  /** With distinct keys, each listed key holding a standard table ends up
      holding that table as the dependency walk left it; a key holding
      anything else keeps it. */
  lemma {:induction false} WalkTablesWalksEach(container: Table, keys: seq<string>, f: Visitor)
    requires DistinctStrings(keys)
    ensures var r := WalkTables(container, keys, f);
      r.Ok? ==> forall i :: 0 <= i < |keys| ==>
        if SubTable(container, keys[i]).Some?
        then EditEachDep(SubTable(container, keys[i]).value, f).Ok? &&
             Assoc.Get(r.value.0, keys[i]) == Some(Tbl(EditEachDep(SubTable(container, keys[i]).value, f).value.table))
        else Assoc.Get(r.value.0, keys[i]) == Assoc.Get(container, keys[i])
    decreases |keys|
  {
    var r := WalkTables(container, keys, f);
    if |keys| > 0 && r.Ok? {
      var k0 := keys[0];
      var tail := keys[1..];
      var sub := SubTable(container, k0);
      var next := if sub.None? then container else Assoc.Set(container, k0, Tbl(EditEachDep(sub.value, f).value.table));
      assert DistinctStrings(tail) by {
        forall i, j | 0 <= i < j < |tail| ensures tail[i] != tail[j] {
          assert tail[i] == keys[i + 1] && tail[j] == keys[j + 1];
        }
      }
      WalkTablesWalksEach(next, tail, f);
      assert k0 !in tail by {
        forall i | 0 <= i < |tail| ensures tail[i] != k0 {
          assert tail[i] == keys[i + 1];
        }
      }
      forall i | 1 <= i < |keys| ensures Assoc.Get(next, keys[i]) == Assoc.Get(container, keys[i]) {
        assert keys[i] == tail[i - 1] != k0;
      }
    }
  }

  /** The platform part of a second pass: each standard table under
      `target`, looked up inside `target`, walked, and written back there.
      Nothing outside `target` changes. */
  function WalkTarget(root: Table, f: Visitor): (r: Result<(Table, nat)>)
    ensures r.Ok? ==> Assoc.Keys(r.value.0) == Assoc.Keys(root)
    ensures r.Ok? ==> forall k :: k != "target" ==> Assoc.Get(r.value.0, k) == Assoc.Get(root, k)
  {
    var target := SubTable(root, "target");
    if target.None? then Ok((root, 0))
    else
      var t :- WalkTables(target.value, TableKeys(target.value), f);
      Ok((Assoc.Set(root, "target", Tbl(t.0)), t.1))
  }

  /** The second pass of `rename` over one manifest (and, corrected, that of
      `set_version`): its own dependency sections, then its platform tables.
      The count is the number of rewritten entries. */
  function SecondPass(doc: Table, f: Visitor): (r: Result<(nat, Table)>)
    ensures r.Ok? ==> Assoc.Keys(r.value.1) == Assoc.Keys(doc)
    ensures r.Ok? ==> forall k :: k !in DepSectionKeys && k != "features" && k != "target" ==>
      Assoc.Get(r.value.1, k) == Assoc.Get(doc, k)
  {
    var w :- EditEachDep(doc, f);
    var t :- WalkTarget(w.table, f);
    Ok((w.count + t.1, t.0))
  }

  /** Every platform table under `target` (given distinct keys there) comes
      out as the dependency walk made it. */
  lemma {:induction false} WalkTargetReachesEach(root: Table, f: Visitor)
    requires SubTable(root, "target").Some? && Assoc.DistinctKeys(SubTable(root, "target").value)
    ensures var r := WalkTarget(root, f);
      r.Ok? ==>
        var before := SubTable(root, "target").value;
        SubTable(r.value.0, "target").Some? &&
        forall k :: SubTable(before, k).Some? ==>
          EditEachDep(SubTable(before, k).value, f).Ok? &&
          Assoc.Get(SubTable(r.value.0, "target").value, k) == Some(Tbl(EditEachDep(SubTable(before, k).value, f).value.table))
  {
    var before := SubTable(root, "target").value;
    TableKeysDistinct(before);
    WalkTablesWalksEach(before, TableKeys(before), f);
    TableKeysCover(before);
  }

  /** The same for the whole second pass: the dependency walk leaves
      `target` alone, and the platform walk then reaches every table in it. */
  lemma {:induction false} SecondPassReachesTargets(doc: Table, f: Visitor)
    requires SubTable(doc, "target").Some? && Assoc.DistinctKeys(SubTable(doc, "target").value)
    ensures var r := SecondPass(doc, f);
      r.Ok? ==>
        var before := SubTable(doc, "target").value;
        SubTable(r.value.1, "target").Some? &&
        forall k :: SubTable(before, k).Some? ==>
          EditEachDep(SubTable(before, k).value, f).Ok? &&
          Assoc.Get(SubTable(r.value.1, "target").value, k) == Some(Tbl(EditEachDep(SubTable(before, k).value, f).value.table))
  {
    var w := EditEachDep(doc, f);
    if w.Ok? {
      assert "target" !in DepSectionKeys;
      assert SubTable(w.value.table, "target") == SubTable(doc, "target");
      WalkTargetReachesEach(w.value.table, f);
    }
  }

  /** In a table without duplicate keys, every key holding a standard table
      is among its table keys. */
  lemma {:induction false} TableKeysCover(t: Table)
    requires Assoc.DistinctKeys(t)
    ensures forall k :: SubTable(t, k).Some? ==> k in TableKeys(t)
  {
    forall k | SubTable(t, k).Some? ensures k in TableKeys(t) {
      var j :| 0 <= j < |Assoc.Keys(t)| && Assoc.Keys(t)[j] == k;
      assert t[j].0 == k;
      AssocGetFirst(t, k, j);
    }
  }

  /** In a table without duplicate keys, a key's entry is the one at its position. */
  lemma {:induction false} AssocGetFirst(t: Table, k: string, j: nat)
    requires Assoc.DistinctKeys(t) && j < |t| && t[j].0 == k
    ensures Assoc.Get(t, k) == Some(t[j].1)
    decreases j
  {
    if j > 0 {
      assert t[0].0 != k;
      var tail := t[1..];
      assert Assoc.DistinctKeys(tail) by {
        forall a, b | 0 <= a < b < |tail| ensures tail[a].0 != tail[b].0 {
          assert tail[a] == t[a + 1] && tail[b] == t[b + 1];
        }
      }
      AssocGetFirst(tail, k, j - 1);
    }
  }

  /** A visitor that changes nothing leaves the platform tables as they were. */
  lemma {:induction false} WalkTargetPassive(root: Table, f: Visitor)
    requires Passive(f)
    ensures var r := WalkTarget(root, f); r.Ok? ==> r.value == (root, 0)
  {
    var target := SubTable(root, "target");
    if target.Some? {
      WalkTablesPassive(target.value, TableKeys(target.value), f);
      assert Assoc.Get(root, "target") == Some(Tbl(target.value));
      Assoc.SetToCurrent(root, "target");
    }
  }

  /** A visitor that changes nothing leaves the manifest as it was. */
  lemma {:induction false} SecondPassPassive(doc: Table, f: Visitor)
    requires Passive(f)
    ensures var r := SecondPass(doc, f); r.Ok? ==> r.value == (0, doc)
  {
    EditEachDepPassive(doc, f);
    var w := EditEachDep(doc, f);
    if w.Ok? {
      WalkTargetPassive(w.value.table, f);
    }
  }
}
