/** The dependency walker of src/util.rs (`edit_each_dep`): visit every
    dependency entry of a manifest's dependency sections, let a visitor
    answer Untouched, Mutated or Remove, delete removed entries and prune
    the feature lists that referred to them. */
module Util {
  import opened Wrappers
  import opened Toml
  import opened Strings
  import Assoc

  datatype Action = Untouched | Mutated | Remove

  datatype Section = Regular | Dev | Build

  function SectionKey(s: Section): string {
    match s
    case Regular => "dependencies"
    case Dev => "dev-dependencies"
    case Build => "build-dependencies"
  }

  /** The order in which the sections are walked. */
  const AllSections: seq<Section> := [Regular, Dev, Build]

  /** A dependency entry as the visitor sees it: an inline table or a standard table. */
  datatype DepEntry = InlineEntry(inline: InlineTable) | TableEntry(table: Table)

  /** The visitor's answer and the entry as it left it. */
  datatype Visit = Visit(action: Action, entry: DepEntry)

  /** The visitor gets the true name, the alias (the key, when renamed),
      the entry and its section. An `Err` stands for a panic inside it. */
  type Visitor = (string, Option<string>, DepEntry, Section) -> Result<Visit>

  /** One visitor call, recorded in walk order, with the entry as the visitor left it. */
  datatype VisitRecord = VisitRecord(section: Section, key: string, name: string, alias: Option<string>, action: Action, entry: DepEntry)

  datatype Walk = Walk(table: Table, count: nat, removed: seq<string>, visits: seq<VisitRecord>)

  const PackageNotString: string := "Package is always a string, or cargo would have failed before. qed"

  function EntryOf(it: Item): DepEntry
    requires IsTableLike(it)
  {
    if it.Tbl? then TableEntry(it.entries) else InlineEntry(it.v.entries)
  }

  function ToItem(e: DepEntry): (it: Item)
    ensures IsTableLike(it)
  {
    match e
    case InlineEntry(i) => Val(Inline(i))
    case TableEntry(t) => Tbl(t)
  }

  lemma {:induction false} EntryRoundTrip(it: Item)
    requires IsTableLike(it)
    ensures ToItem(EntryOf(it)) == it
  {
  }

  /** The `package` field of an entry, as text when it is a string. */
  function PackageField(e: DepEntry): Option<Option<string>> {
    match e
    case InlineEntry(i) =>
      var p := Assoc.Get(i, "package");
      if p.None? then None else Some(ValueStr(p.value))
    case TableEntry(t) =>
      var p := Assoc.Get(t, "package");
      if p.None? then None else Some(ItemStr(p.value))
  }

  /** The true name and alias of the entry under `key`: the `package` string
      with the key as alias, or the key itself and no alias. */
  function Resolve(key: string, e: DepEntry): (r: Result<(string, Option<string>)>)
    ensures PackageField(e).None? ==> r == Ok((key, None))
    ensures PackageField(e).Some? && PackageField(e).value.Some? ==> r == Ok((PackageField(e).value.value, Some(key)))
    ensures PackageField(e).Some? && PackageField(e).value.None? ==> r.Err?
  {
    match PackageField(e)
    case None => Ok((key, None))
    case Some(None) => Err(PackageNotString)
    case Some(Some(n)) => Ok((n, Some(key)))
  }

  /** The keys of a section whose entries are tables or inline tables, in order. */
  function CandidateKeys(t: Table): (r: seq<string>)
    ensures forall k :: k in r ==> k in Assoc.Keys(t)
    ensures forall i :: 0 <= i < |t| && IsTableLike(t[i].1) ==> t[i].0 in r
  {
    if |t| == 0 then []
    else (if IsTableLike(t[0].1) then [t[0].0] else []) + CandidateKeys(t[1..])
  }

  /** What the visitor answers for the entry `it` found under `key`. */
  function Answer(key: string, it: Item, sec: Section, f: Visitor): Result<Visit>
    requires IsTableLike(it)
  {
    var e := EntryOf(it);
    var nm :- Resolve(key, e);
    f(nm.0, nm.1, e, sec)
  }

  /** One key of the section: skipped when gone or not a table; otherwise the
      visitor's entry is written back and, on Remove, the TRUE NAME is deleted. */
  function Step(t: Table, key: string, sec: Section, f: Visitor): (r: Result<Walk>)
    ensures r.Ok? ==> |r.value.visits| <= 1 && r.value.count == CountChanged(r.value.visits)
    ensures r.Ok? ==> forall n :: n in r.value.removed ==> !Assoc.HasKey(r.value.table, n)
    ensures r.Ok? ==> forall k :: Assoc.HasKey(r.value.table, k) ==> Assoc.HasKey(t, k)
  {
    var found: Option<Item> := Assoc.Get(t, key);
    if found.None? || !IsTableLike(found.value) then Ok(Walk(t, 0, [], []))
    else
      var e := EntryOf(found.value);
      var nm :- Resolve(key, e);
      var visit :- f(nm.0, nm.1, e, sec);
      var written := Assoc.Set(t, key, ToItem(visit.entry));
      var isRemove := visit.action == Remove;
      Assoc.RemoveKeysShrink(written, nm.0);
      Ok(Walk(
        if isRemove then Assoc.Remove(written, nm.0) else written,
        if visit.action == Untouched then 0 else 1,
        if isRemove then [nm.0] else [],
        [VisitRecord(sec, key, nm.0, nm.1, visit.action, visit.entry)]))
  }

  function CountChanged(visits: seq<VisitRecord>): nat {
    if |visits| == 0 then 0
    else (if visits[0].action == Untouched then 0 else 1) + CountChanged(visits[1..])
  }

  lemma {:induction false} CountChangedAppend(a: seq<VisitRecord>, b: seq<VisitRecord>)
    ensures CountChanged(a + b) == CountChanged(a) + CountChanged(b)
    decreases |a|
  {
    if |a| == 0 {
      assert a + b == b;
    } else {
      assert (a + b)[1..] == a[1..] + b;
      CountChangedAppend(a[1..], b);
    }
  }

  /** A removed entry is gone from the section it was found in. */
  predicate GoneFrom(t: Table, v: VisitRecord) {
    v.action == Remove ==> !Assoc.HasKey(t, v.name)
  }

  /** The walk over the given keys of one section table. The count is the
      number of visits answered otherwise than Untouched, every visit is
      recorded under this section, every removed name is gone, and no key
      is added. */
  function WalkKeys(t: Table, keys: seq<string>, sec: Section, f: Visitor): (r: Result<Walk>)
    ensures r.Ok? ==> r.value.count == CountChanged(r.value.visits) <= |keys|
    ensures r.Ok? ==> forall v :: v in r.value.visits ==> v.section == sec && GoneFrom(r.value.table, v)
    ensures r.Ok? ==> forall n :: n in r.value.removed ==> !Assoc.HasKey(r.value.table, n)
    ensures r.Ok? ==> forall k :: Assoc.HasKey(r.value.table, k) ==> Assoc.HasKey(t, k)
    decreases |keys|
  {
    if |keys| == 0 then Ok(Walk(t, 0, [], []))
    else
      var step :- Step(t, keys[0], sec, f);
      var rest :- WalkKeys(step.table, keys[1..], sec, f);
      CountChangedAppend(step.visits, rest.visits);
      assert forall n :: n in step.removed + rest.removed ==> !Assoc.HasKey(rest.table, n);
      Ok(Walk(rest.table, step.count + rest.count, step.removed + rest.removed, step.visits + rest.visits))
  }

  /** One section of `root`, when it is a standard table; otherwise nothing.
      Only the section's own entry changes, and it stays a standard table. */
  function WalkSection(root: Table, sec: Section, f: Visitor): (r: Result<Walk>)
    ensures r.Ok? ==> Assoc.Keys(r.value.table) == Assoc.Keys(root)
    ensures r.Ok? ==> forall k :: k != SectionKey(sec) ==> Assoc.Get(r.value.table, k) == Assoc.Get(root, k)
    ensures r.Ok? ==> r.value.count == CountChanged(r.value.visits)
    ensures r.Ok? && SubTable(root, SectionKey(sec)).None? ==> r.value.table == root && r.value.visits == []
    ensures r.Ok? && SubTable(root, SectionKey(sec)).Some? ==> SubTable(r.value.table, SectionKey(sec)).Some?
    ensures r.Ok? ==> forall v :: v in r.value.visits ==>
      v.section == sec && GoneFrom(SubTable(r.value.table, SectionKey(sec)).value, v)
  {
    var sub := SubTable(root, SectionKey(sec));
    if sub.None? then Ok(Walk(root, 0, [], []))
    else
      var w :- WalkKeys(sub.value, CandidateKeys(sub.value), sec, f);
      Ok(w.(table := Assoc.Set(root, SectionKey(sec), Tbl(w.table))))
  }

  predicate DistinctSections(secs: seq<Section>) {
    forall i, j :: 0 <= i < j < |secs| ==> secs[i] != secs[j]
  }

  lemma {:induction false} SectionKeyInjective(a: Section, b: Section)
    requires a != b
    ensures SectionKey(a) != SectionKey(b)
  {
  }

  /** The given sections in order; each removed name is gone from the section
      its visit was in. */
  function WalkSections(root: Table, secs: seq<Section>, f: Visitor): (r: Result<Walk>)
    requires DistinctSections(secs)
    ensures r.Ok? ==> Assoc.Keys(r.value.table) == Assoc.Keys(root)
    ensures r.Ok? ==> forall k :: (forall i :: 0 <= i < |secs| ==> k != SectionKey(secs[i])) ==> Assoc.Get(r.value.table, k) == Assoc.Get(root, k)
    ensures r.Ok? ==> r.value.count == CountChanged(r.value.visits)
    ensures r.Ok? ==> forall v :: v in r.value.visits ==>
      v.section in secs && SubTable(r.value.table, SectionKey(v.section)).Some? &&
      GoneFrom(SubTable(r.value.table, SectionKey(v.section)).value, v)
    decreases |secs|
  {
    if |secs| == 0 then Ok(Walk(root, 0, [], []))
    else
      var here :- WalkSection(root, secs[0], f);
      LaterSectionKeysDiffer(secs);
      var rest :- WalkSections(here.table, secs[1..], f);
      CountChangedAppend(here.visits, rest.visits);
      SectionsVisitsJoin(here, rest, secs);
      SectionsKeepOthers(root, here.table, rest.table, secs);
      Ok(Walk(rest.table, here.count + rest.count, here.removed + rest.removed, here.visits + rest.visits))
  }

  /** After the first of distinct sections, the rest are distinct and none
      shares the first one's key. */
  lemma {:induction false} LaterSectionKeysDiffer(secs: seq<Section>)
    requires |secs| > 0 && DistinctSections(secs)
    ensures DistinctSections(secs[1..])
    ensures forall i :: 0 <= i < |secs[1..]| ==> SectionKey(secs[0]) != SectionKey(secs[1..][i])
  {
    forall i | 0 <= i < |secs[1..]| ensures SectionKey(secs[0]) != SectionKey(secs[1..][i]) {
      assert secs[1..][i] == secs[i + 1];
      SectionKeyInjective(secs[0], secs[1..][i]);
    }
    forall i, j | 0 <= i < j < |secs[1..]| ensures secs[1..][i] != secs[1..][j] {
      assert secs[1..][i] == secs[i + 1] && secs[1..][j] == secs[j + 1];
    }
  }

  /** Keys outside every walked section keep their items through the first
      section's walk and the later ones. */
  lemma {:induction false} SectionsKeepOthers(root: Table, mid: Table, last: Table, secs: seq<Section>)
    requires |secs| > 0
    requires forall k :: k != SectionKey(secs[0]) ==> Assoc.Get(mid, k) == Assoc.Get(root, k)
    requires forall k :: (forall i :: 0 <= i < |secs[1..]| ==> k != SectionKey(secs[1..][i])) ==> Assoc.Get(last, k) == Assoc.Get(mid, k)
    ensures forall k :: (forall i :: 0 <= i < |secs| ==> k != SectionKey(secs[i])) ==> Assoc.Get(last, k) == Assoc.Get(root, k)
  {
    forall k | forall i :: 0 <= i < |secs| ==> k != SectionKey(secs[i])
      ensures Assoc.Get(last, k) == Assoc.Get(root, k)
    {
      assert k != SectionKey(secs[0]);
      forall i | 0 <= i < |secs[1..]| ensures k != SectionKey(secs[1..][i]) {
        assert secs[1..][i] == secs[i + 1];
      }
    }
  }

  /** The visits of the first section's walk stay valid after the later
      sections are walked, since those leave the first section's key alone. */
  lemma {:induction false} SectionsVisitsJoin(here: Walk, rest: Walk, secs: seq<Section>)
    requires |secs| > 0
    requires forall i :: 0 <= i < |secs[1..]| ==> SectionKey(secs[0]) != SectionKey(secs[1..][i])
    requires forall k :: (forall i :: 0 <= i < |secs[1..]| ==> k != SectionKey(secs[1..][i])) ==> Assoc.Get(rest.table, k) == Assoc.Get(here.table, k)
    requires |here.visits| > 0 ==> SubTable(here.table, SectionKey(secs[0])).Some?
    requires forall v :: v in here.visits ==>
      v.section == secs[0] && SubTable(here.table, SectionKey(secs[0])).Some? && GoneFrom(SubTable(here.table, SectionKey(secs[0])).value, v)
    requires forall v :: v in rest.visits ==>
      v.section in secs[1..] && SubTable(rest.table, SectionKey(v.section)).Some? &&
      GoneFrom(SubTable(rest.table, SectionKey(v.section)).value, v)
    ensures forall v :: v in here.visits + rest.visits ==>
      v.section in secs && SubTable(rest.table, SectionKey(v.section)).Some? &&
      GoneFrom(SubTable(rest.table, SectionKey(v.section)).value, v)
  {
    var key := SectionKey(secs[0]);
    assert Assoc.Get(rest.table, key) == Assoc.Get(here.table, key);
    assert SubTable(rest.table, key) == SubTable(here.table, key);
    forall v | v in rest.visits ensures v.section in secs {
      var i :| 0 <= i < |secs[1..]| && secs[1..][i] == v.section;
      assert secs[i + 1] == v.section;
    }
  }

  /** Sections the table does not have are walked without a visit. */
  lemma {:induction false} AbsentSectionsWalk(t: Table, secs: seq<Section>, f: Visitor)
    requires DistinctSections(secs)
    requires forall i :: 0 <= i < |secs| ==> SubTable(t, SectionKey(secs[i])).None?
    ensures WalkSections(t, secs, f) == Ok(Walk(t, 0, [], []))
    decreases |secs|
  {
    if |secs| > 0 {
      assert WalkSection(t, secs[0], f) == Ok(Walk(t, 0, [], []));
      AbsentSectionsWalk(t, secs[1..], f);
    }
  }

  /** A manifest without dependency sections comes out of the walk as it went in. */
  lemma {:induction false} NoSectionsNoWalk(t: Table, f: Visitor)
    requires forall i :: 0 <= i < |AllSections| ==> SubTable(t, SectionKey(AllSections[i])).None?
    ensures EditEachDep(t, f) == Ok(Walk(t, 0, [], []))
  {
    AbsentSectionsWalk(t, AllSections, f);
  }

  /** The text a feature element names a dependency by: trimmed, before the first '/'. */
  function FeatureTarget(s: string): string {
    Split(Trim(s), '/')[0]
  }

  predicate Dropped(v: Value, removed: seq<string>) {
    v.Str? && FeatureTarget(v.s) in removed
  }

  predicate IsSubsequence<T(==)>(a: seq<T>, b: seq<T>) {
    if |a| == 0 then true
    else if |b| == 0 then false
    else if a[0] == b[0] then IsSubsequence(a[1..], b[1..])
    else IsSubsequence(a, b[1..])
  }

  /** One feature's list without the elements that name a removed dependency;
      the rest keep their order. */
  function PruneArray(items: seq<Value>, removed: seq<string>): (r: seq<Value>)
    ensures forall x :: x in r <==> x in items && !Dropped(x, removed)
    ensures forall x :: multiset(r)[x] == if Dropped(x, removed) then 0 else multiset(items)[x]
    ensures IsSubsequence(r, items)
  {
    if |items| == 0 then []
    else
      var rest := PruneArray(items[1..], removed);
      var r := if Dropped(items[0], removed) then rest else [items[0]] + rest;
      PruneArrayStep(items, rest, r, removed);
      r
  }

  /** One step of `PruneArray`: dropping or keeping the head element keeps
      the counts, the order and the membership right. */
  lemma {:induction false} PruneArrayStep(items: seq<Value>, rest: seq<Value>, r: seq<Value>, removed: seq<string>)
    requires |items| > 0 && r == if Dropped(items[0], removed) then rest else [items[0]] + rest
    requires forall x :: multiset(rest)[x] == if Dropped(x, removed) then 0 else multiset(items[1..])[x]
    requires forall x :: x in rest ==> !Dropped(x, removed)
    requires IsSubsequence(rest, items[1..])
    ensures forall x :: multiset(r)[x] == if Dropped(x, removed) then 0 else multiset(items)[x]
    ensures forall x :: x in r <==> x in items && !Dropped(x, removed)
    ensures IsSubsequence(r, items)
  {
    assert items == [items[0]] + items[1..];
    assert multiset(items) == multiset{items[0]} + multiset(items[1..]);
    if !Dropped(items[0], removed) {
      assert r[0] == items[0] && r[1..] == rest;
      assert multiset(r) == multiset{items[0]} + multiset(rest);
    } else if |rest| > 0 {
      assert rest[0] in rest;
    }
    forall x ensures x in r <==> x in items && !Dropped(x, removed) {
      assert x in r <==> multiset(r)[x] > 0;
      assert x in items <==> multiset(items)[x] > 0;
    }
  }

  /** No array-valued feature of `ft` names a removed dependency. */
  predicate MentionsNone(ft: Table, removed: seq<string>) {
    forall i, x :: 0 <= i < |ft| && ft[i].1.Val? && ft[i].1.v.Arr? && x in ft[i].1.v.items ==> !Dropped(x, removed)
  }

  /** One feature entry: an array value pruned, anything else kept. */
  function PruneItem(it: Item, removed: seq<string>): Item {
    if it.Val? && it.v.Arr? then Val(Arr(PruneArray(it.v.items, removed))) else it
  }

  /** Every array-valued feature pruned; every other entry kept. */
  function PruneFeatureTable(ft: Table, removed: seq<string>): (r: Table)
    ensures Assoc.Keys(r) == Assoc.Keys(ft)
    ensures MentionsNone(r, removed)
    ensures forall i :: 0 <= i < |ft| ==> (r[i].1.Val? && r[i].1.v.Arr? <==> ft[i].1.Val? && ft[i].1.v.Arr?)
    ensures forall i :: 0 <= i < |ft| && !(ft[i].1.Val? && ft[i].1.v.Arr?) ==> r[i].1 == ft[i].1
    ensures forall i :: 0 <= i < |ft| && ft[i].1.Val? && ft[i].1.v.Arr? ==> r[i].1 == Val(Arr(PruneArray(ft[i].1.v.items, removed)))
    ensures forall i, x :: 0 <= i < |ft| && ft[i].1.Val? && ft[i].1.v.Arr? && x in ft[i].1.v.items && !Dropped(x, removed) ==>
      x in r[i].1.v.items
  {
    var r := PruneEntries(ft, removed);
    PrunedEntriesFacts(ft, r, removed);
    r
  }

  /** The entries of `ft`, each under its own key with its item pruned. */
  function PruneEntries(ft: Table, removed: seq<string>): (r: Table)
    ensures |r| == |ft|
    ensures forall i :: 0 <= i < |ft| ==> r[i] == (ft[i].0, PruneItem(ft[i].1, removed))
  {
    if |ft| == 0 then []
    else
      var rest := PruneEntries(ft[1..], removed);
      var r := [(ft[0].0, PruneItem(ft[0].1, removed))] + rest;
      assert forall i :: 1 <= i < |ft| ==> r[i] == rest[i - 1] && ft[i] == ft[1..][i - 1];
      r
  }

  lemma {:induction false} PrunedEntriesFacts(ft: Table, r: Table, removed: seq<string>)
    requires |r| == |ft| && forall i :: 0 <= i < |ft| ==> r[i] == (ft[i].0, PruneItem(ft[i].1, removed))
    ensures Assoc.Keys(r) == Assoc.Keys(ft)
    ensures MentionsNone(r, removed)
    ensures forall i :: 0 <= i < |ft| ==> (r[i].1.Val? && r[i].1.v.Arr? <==> ft[i].1.Val? && ft[i].1.v.Arr?)
    ensures forall i :: 0 <= i < |ft| && !(ft[i].1.Val? && ft[i].1.v.Arr?) ==> r[i].1 == ft[i].1
    ensures forall i :: 0 <= i < |ft| && ft[i].1.Val? && ft[i].1.v.Arr? ==> r[i].1 == Val(Arr(PruneArray(ft[i].1.v.items, removed)))
    ensures forall i, x :: 0 <= i < |ft| && ft[i].1.Val? && ft[i].1.v.Arr? && x in ft[i].1.v.items && !Dropped(x, removed) ==>
      x in r[i].1.v.items
  {
    var kr, kf := Assoc.Keys(r), Assoc.Keys(ft);
    assert forall i :: 0 <= i < |kr| ==> kr[i] == kf[i];
  }

  function PruneFeatures(root: Table, removed: seq<string>): (r: Table)
    ensures Assoc.Keys(r) == Assoc.Keys(root)
    ensures forall k :: k != "features" ==> Assoc.Get(r, k) == Assoc.Get(root, k)
    ensures SubTable(root, "features").Some? ==>
      SubTable(r, "features").Some? && MentionsNone(SubTable(r, "features").value, removed)
    ensures SubTable(root, "features").Some? ==>
      SubTable(r, "features") == Some(PruneFeatureTable(SubTable(root, "features").value, removed))
    ensures SubTable(root, "features").None? ==> r == root
  {
    var ft := SubTable(root, "features");
    if ft.None? then root else Assoc.Set(root, "features", Tbl(PruneFeatureTable(ft.value, removed)))
  }

  function RemovedNames(visits: seq<VisitRecord>): seq<string> {
    if |visits| == 0 then []
    else (if visits[0].action == Remove then [visits[0].name] else []) + RemovedNames(visits[1..])
  }

  const DepSectionKeys: seq<string> := ["dependencies", "dev-dependencies", "build-dependencies"]

  /** `edit_each_dep(root, f)`: the three sections in order, then feature
      pruning when something was removed. No root key appears or vanishes,
      root keys other than the sections and `features` keep their items, and
      the count is the number of answers other than Untouched. */
  function EditEachDep(root: Table, f: Visitor): (r: Result<Walk>)
    ensures r.Ok? ==> Assoc.Keys(r.value.table) == Assoc.Keys(root)
    ensures r.Ok? ==> forall k :: k !in DepSectionKeys && k != "features" ==>
      Assoc.Get(r.value.table, k) == Assoc.Get(root, k)
    ensures r.Ok? ==> r.value.count == CountChanged(r.value.visits)
  {
    var w :- WalkSections(root, AllSections, f);
    assert forall k :: k !in DepSectionKeys ==> (forall i :: 0 <= i < |AllSections| ==> k != SectionKey(AllSections[i]));
    if |w.removed| == 0 then Ok(w)
    else Ok(w.(table := PruneFeatures(w.table, w.removed)))
  }

  lemma {:induction false} PruneFeaturesKeepsSections(t: Table, removed: seq<string>, sec: Section)
    ensures SubTable(PruneFeatures(t, removed), SectionKey(sec)) == SubTable(t, SectionKey(sec))
  {
    assert SectionKey(sec) != "features";
  }

  /** Every name the visitor asked to remove is gone from the section it
      was found in. */
  lemma {:induction false} EditEachDepRemoves(root: Table, f: Visitor)
    ensures var r := EditEachDep(root, f);
      r.Ok? ==> forall v :: v in r.value.visits ==>
        SubTable(r.value.table, SectionKey(v.section)).Some? &&
        GoneFrom(SubTable(r.value.table, SectionKey(v.section)).value, v)
  {
    var ws := WalkSections(root, AllSections, f);
    if ws.Ok? && |ws.value.removed| > 0 {
      var w := ws.value;
      forall v | v in w.visits
        ensures SubTable(PruneFeatures(w.table, w.removed), SectionKey(v.section)) == SubTable(w.table, SectionKey(v.section))
      {
        PruneFeaturesKeepsSections(w.table, w.removed, v.section);
      }
    }
  }

  lemma {:induction false} FeaturesUntouchedByWalk(root: Table, f: Visitor)
    ensures var ws := WalkSections(root, AllSections, f);
      ws.Ok? ==> Assoc.Get(ws.value.table, "features") == Assoc.Get(root, "features")
  {
    assert forall i :: 0 <= i < |AllSections| ==> "features" != SectionKey(AllSections[i]);
  }

  /** Feature lists are left alone when nothing was removed. */
  lemma {:induction false} EditEachDepKeepsFeatures(root: Table, f: Visitor)
    ensures var r := EditEachDep(root, f);
      r.Ok? && |r.value.removed| == 0 ==> Assoc.Get(r.value.table, "features") == Assoc.Get(root, "features")
  {
    FeaturesUntouchedByWalk(root, f);
  }

  /** Once something was removed, no array-valued feature names it any more. */
  lemma {:induction false} EditEachDepPrunesFeatures(root: Table, f: Visitor)
    ensures var r := EditEachDep(root, f);
      r.Ok? && |r.value.removed| > 0 && SubTable(root, "features").Some? ==>
        SubTable(r.value.table, "features").Some? && MentionsNone(SubTable(r.value.table, "features").value, r.value.removed)
    ensures var r := EditEachDep(root, f);
      r.Ok? && |r.value.removed| > 0 && SubTable(root, "features").Some? ==>
        SubTable(r.value.table, "features") == Some(PruneFeatureTable(SubTable(root, "features").value, r.value.removed))
  {
    FeaturesUntouchedByWalk(root, f);
  }

  /** A visitor that leaves every entry as it found it and answers Untouched. */
  ghost predicate Passive(f: Visitor) {
    forall n, a, e, sec :: f(n, a, e, sec).Ok? ==> f(n, a, e, sec).value == Visit(Untouched, e)
  }

  lemma {:induction false} StepPassive(t: Table, key: string, sec: Section, f: Visitor)
    requires Passive(f)
    ensures var r := Step(t, key, sec, f); r.Ok? ==> r.value.table == t && r.value.removed == [] && r.value.count == 0
  {
    var found: Option<Item> := Assoc.Get(t, key);
    if found.Some? && IsTableLike(found.value) {
      EntryRoundTrip(found.value);
      Assoc.SetToCurrent(t, key);
    }
  }

  lemma {:induction false} WalkKeysPassive(t: Table, keys: seq<string>, sec: Section, f: Visitor)
    requires Passive(f)
    ensures var r := WalkKeys(t, keys, sec, f); r.Ok? ==> r.value.table == t && r.value.removed == [] && r.value.count == 0
    decreases |keys|
  {
    if |keys| > 0 {
      StepPassive(t, keys[0], sec, f);
      var step := Step(t, keys[0], sec, f);
      if step.Ok? {
        WalkKeysPassive(t, keys[1..], sec, f);
      }
    }
  }

  lemma {:induction false} WalkSectionsPassive(root: Table, secs: seq<Section>, f: Visitor)
    requires Passive(f) && DistinctSections(secs)
    ensures var r := WalkSections(root, secs, f); r.Ok? ==> r.value.table == root && r.value.removed == [] && r.value.count == 0
    decreases |secs|
  {
    if |secs| > 0 {
      var sub := SubTable(root, SectionKey(secs[0]));
      if sub.Some? {
        WalkKeysPassive(sub.value, CandidateKeys(sub.value), secs[0], f);
        Assoc.SetToCurrent(root, SectionKey(secs[0]));
      }
      WalkSectionsPassive(root, secs[1..], f);
    }
  }

  /** A visitor that changes nothing leaves the manifest as it was and
      counts nothing. */
  lemma {:induction false} EditEachDepPassive(root: Table, f: Visitor)
    requires Passive(f)
    ensures var r := EditEachDep(root, f); r.Ok? ==> r.value.table == root && r.value.count == 0
  {
    WalkSectionsPassive(root, AllSections, f);
  }

  /** A visitor that never answers Remove. */
  ghost predicate NeverRemoves(f: Visitor) {
    forall n, a, e, sec :: f(n, a, e, sec).Ok? ==> f(n, a, e, sec).value.action != Remove
  }

  /** The keys a walk may be asked to visit: present, table-like, distinct. */
  predicate VisitableKeys(t: Table, keys: seq<string>) {
    && (forall i :: 0 <= i < |keys| ==> Assoc.HasKey(t, keys[i]) && IsTableLike(Assoc.Get(t, keys[i]).value))
    && (forall i, j :: 0 <= i < j < |keys| ==> keys[i] != keys[j])
  }

  /** `visits` answer `keys` one by one, in order, each on the entry `before`
      holds; `after` holds the answered entries under those keys and keeps
      every other key's item and the key order. */
  ghost predicate WritesAnswers(before: Table, keys: seq<string>, sec: Section, f: Visitor, visits: seq<VisitRecord>, after: Table) {
    && |visits| == |keys|
    && Assoc.Keys(after) == Assoc.Keys(before)
    && (forall i :: 0 <= i < |keys| ==>
         && visits[i].key == keys[i]
         && Assoc.Get(before, keys[i]).Some? && IsTableLike(Assoc.Get(before, keys[i]).value)
         && Answer(keys[i], Assoc.Get(before, keys[i]).value, sec, f) == Ok(Visit(visits[i].action, visits[i].entry))
         && Assoc.Get(after, keys[i]) == Some(ToItem(visits[i].entry)))
    && (forall k :: k !in keys ==> Assoc.Get(after, k) == Assoc.Get(before, k))
  }

  /** Without removals the walk visits every key once, in order; each visit
      is the visitor's answer on the ORIGINAL entry, the entry it hands back
      is what ends up under the key, and every other key keeps its item. */
  lemma {:induction false} WalkKeysWritesAnswers(t: Table, keys: seq<string>, sec: Section, f: Visitor)
    requires NeverRemoves(f)
    requires VisitableKeys(t, keys)
    ensures var r := WalkKeys(t, keys, sec, f); r.Ok? ==> WritesAnswers(t, keys, sec, f, r.value.visits, r.value.table)
    decreases |keys|
  {
    if |keys| > 0 {
      var k0 := keys[0];
      var r := WalkKeys(t, keys, sec, f);
      var step := Step(t, k0, sec, f);
      if r.Ok? {
        StepWritesAnswer(t, k0, sec, f);
        var written := step.value.table;
        var tail := keys[1..];
        VisitableAfterWrite(t, keys, ToItem(step.value.visits[0].entry));
        WalkKeysWritesAnswers(written, tail, sec, f);
        var rest := WalkKeys(written, tail, sec, f);
        assert r.value.visits == step.value.visits + rest.value.visits;
        assert r.value.visits[1..] == rest.value.visits;
        WritesAnswersCons(t, keys, sec, f, r.value.visits, rest.value.table);
      }
    }
  }

  /** Writing the first key leaves the others visitable. */
  lemma {:induction false} VisitableAfterWrite(t: Table, keys: seq<string>, it: Item)
    requires VisitableKeys(t, keys) && |keys| > 0
    ensures VisitableKeys(Assoc.Set(t, keys[0], it), keys[1..])
  {
    var tail := keys[1..];
    forall i | 0 <= i < |tail| ensures Assoc.Get(Assoc.Set(t, keys[0], it), tail[i]) == Assoc.Get(t, tail[i]) {
      assert tail[i] == keys[i + 1] != keys[0];
    }
  }

  /** One step over a visitable key writes the visitor's answer on the entry
      back under the key and records that one visit. */
  lemma {:induction false} StepWritesAnswer(t: Table, k: string, sec: Section, f: Visitor)
    requires NeverRemoves(f)
    requires Assoc.HasKey(t, k) && IsTableLike(Assoc.Get(t, k).value)
    ensures var s := Step(t, k, sec, f);
      var a := Answer(k, Assoc.Get(t, k).value, sec, f);
      s.Ok? ==>
        && a.Ok? && |s.value.visits| == 1
        && s.value.table == Assoc.Set(t, k, ToItem(a.value.entry))
        && s.value.visits[0].key == k
        && a.value == Visit(s.value.visits[0].action, s.value.visits[0].entry)
  {
  }

  /** The first key's answer written, then the rest of the keys answered on
      the written table, is every key answered on the original table. */
  lemma {:induction false} WritesAnswersCons(t: Table, keys: seq<string>, sec: Section, f: Visitor, visits: seq<VisitRecord>, after: Table)
    requires VisitableKeys(t, keys) && |keys| > 0 && |visits| > 0
    requires visits[0].key == keys[0]
    requires Answer(keys[0], Assoc.Get(t, keys[0]).value, sec, f) == Ok(Visit(visits[0].action, visits[0].entry))
    requires WritesAnswers(Assoc.Set(t, keys[0], ToItem(visits[0].entry)), keys[1..], sec, f, visits[1..], after)
    ensures WritesAnswers(t, keys, sec, f, visits, after)
  {
    var k0 := keys[0];
    var written := Assoc.Set(t, k0, ToItem(visits[0].entry));
    var tail := keys[1..];
    var rest := visits[1..];
    assert k0 !in tail;
    assert Assoc.Keys(after) == Assoc.Keys(t);
    assert forall i :: 0 <= i < |keys| ==>
      && visits[i].key == keys[i]
      && Assoc.Get(t, keys[i]).Some? && IsTableLike(Assoc.Get(t, keys[i]).value)
      && Answer(keys[i], Assoc.Get(t, keys[i]).value, sec, f) == Ok(Visit(visits[i].action, visits[i].entry))
      && Assoc.Get(after, keys[i]) == Some(ToItem(visits[i].entry))
    by {
      assert Assoc.Get(after, k0) == Assoc.Get(written, k0);
      forall i | 1 <= i < |keys|
        ensures && visits[i].key == keys[i]
                && Answer(keys[i], Assoc.Get(t, keys[i]).value, sec, f) == Ok(Visit(visits[i].action, visits[i].entry))
                && Assoc.Get(after, keys[i]) == Some(ToItem(visits[i].entry))
      {
        assert keys[i] == tail[i - 1] != k0;
        assert Assoc.Get(written, keys[i]) == Assoc.Get(t, keys[i]);
      }
    }
    assert forall k :: k !in keys ==> Assoc.Get(after, k) == Assoc.Get(t, k) by {
      forall k | k !in keys ensures Assoc.Get(after, k) == Assoc.Get(t, k) {
        assert k !in tail && k != k0;
      }
    }
  }

  /** In a table without duplicate keys the candidate keys can all be visited. */
  lemma {:induction false} CandidateKeysVisitable(t: Table)
    requires Assoc.DistinctKeys(t)
    ensures VisitableKeys(t, CandidateKeys(t))
    ensures forall k :: k in CandidateKeys(t) <==> Assoc.HasKey(t, k) && IsTableLike(Assoc.Get(t, k).value)
    decreases |t|
  {
    if |t| > 0 {
      var tail := t[1..];
      assert Assoc.DistinctKeys(tail) by {
        forall i, j | 0 <= i < j < |tail| ensures tail[i].0 != tail[j].0 {
          assert tail[i] == t[i + 1] && tail[j] == t[j + 1];
        }
      }
      CandidateKeysVisitable(tail);
      assert t[0].0 !in Assoc.Keys(tail) by {
        forall i | 0 <= i < |tail| ensures Assoc.Keys(tail)[i] != t[0].0 {
          assert tail[i] == t[i + 1];
        }
      }
      forall k | k != t[0].0 ensures Assoc.Get(t, k) == Assoc.Get(tail, k) && (Assoc.HasKey(t, k) <==> Assoc.HasKey(tail, k)) {
        assert Assoc.Keys(t) == [t[0].0] + Assoc.Keys(tail);
      }
      assert Assoc.Get(t, t[0].0) == Some(t[0].1);
    }
  }

  /** A section without duplicate keys, walked by a visitor that never
      removes: every table-like entry is visited once, in order, each visit
      answers on the original entry, the answered entries are what the
      section holds afterwards, and the other entries are untouched. */
  lemma {:induction false} WalkSectionWritesAnswers(root: Table, sec: Section, f: Visitor)
    requires NeverRemoves(f)
    requires SubTable(root, SectionKey(sec)).Some? && Assoc.DistinctKeys(SubTable(root, SectionKey(sec)).value)
    ensures var r := WalkSection(root, sec, f); r.Ok? ==>
      var sub := SubTable(root, SectionKey(sec)).value;
      SubTable(r.value.table, SectionKey(sec)).Some? &&
      WritesAnswers(sub, CandidateKeys(sub), sec, f, r.value.visits, SubTable(r.value.table, SectionKey(sec)).value)
  {
    var sub := SubTable(root, SectionKey(sec)).value;
    CandidateKeysVisitable(sub);
    WalkKeysWritesAnswers(sub, CandidateKeys(sub), sec, f);
    var r := WalkSection(root, sec, f);
    if r.Ok? {
      var w := WalkKeys(sub, CandidateKeys(sub), sec, f);
      assert w.Ok? && r.value.visits == w.value.visits;
      assert r.value.table == Assoc.Set(root, SectionKey(sec), Tbl(w.value.table));
      assert SubTable(r.value.table, SectionKey(sec)) == Some(w.value.table);
    }
  }

  /** A visitor that hands every entry back as it found it and never asks
      for removal; it may still answer Mutated. */
  ghost predicate KeepsEntries(f: Visitor) {
    forall n, a, e, sec :: f(n, a, e, sec).Ok? ==> f(n, a, e, sec).value.entry == e && f(n, a, e, sec).value.action != Remove
  }

  lemma {:induction false} StepKeeps(t: Table, key: string, sec: Section, f: Visitor)
    requires KeepsEntries(f)
    ensures var r := Step(t, key, sec, f); r.Ok? ==> r.value.table == t && r.value.removed == []
  {
    var found: Option<Item> := Assoc.Get(t, key);
    if found.Some? && IsTableLike(found.value) {
      EntryRoundTrip(found.value);
      Assoc.SetToCurrent(t, key);
    }
  }

  lemma {:induction false} WalkKeysKeeps(t: Table, keys: seq<string>, sec: Section, f: Visitor)
    requires KeepsEntries(f)
    ensures var r := WalkKeys(t, keys, sec, f); r.Ok? ==> r.value.table == t && r.value.removed == []
    decreases |keys|
  {
    if |keys| > 0 {
      StepKeeps(t, keys[0], sec, f);
      var step := Step(t, keys[0], sec, f);
      if step.Ok? {
        WalkKeysKeeps(t, keys[1..], sec, f);
      }
    }
  }

  lemma {:induction false} WalkSectionsKeeps(root: Table, secs: seq<Section>, f: Visitor)
    requires KeepsEntries(f) && DistinctSections(secs)
    ensures var r := WalkSections(root, secs, f); r.Ok? ==> r.value.table == root && r.value.removed == []
    decreases |secs|
  {
    if |secs| > 0 {
      var sub := SubTable(root, SectionKey(secs[0]));
      if sub.Some? {
        WalkKeysKeeps(sub.value, CandidateKeys(sub.value), secs[0], f);
        Assoc.SetToCurrent(root, SectionKey(secs[0]));
      }
      WalkSectionsKeeps(root, secs[1..], f);
    }
  }

  /** A visitor that keeps every entry leaves the manifest as it was,
      whatever it counts. */
  lemma {:induction false} EditEachDepKeeps(root: Table, f: Visitor)
    requires KeepsEntries(f)
    ensures var r := EditEachDep(root, f); r.Ok? ==> r.value.table == root
  {
    WalkSectionsKeeps(root, AllSections, f);
  }

  /** The visitor's action depends on the name and alias alone, as `g` says. */
  ghost predicate ActsBy(f: Visitor, g: (string, Option<string>) -> Action) {
    forall n, a, e, sec :: f(n, a, e, sec).Ok? ==> f(n, a, e, sec).value.action == g(n, a)
  }

  predicate VisitsActBy(visits: seq<VisitRecord>, g: (string, Option<string>) -> Action) {
    forall i :: 0 <= i < |visits| ==> visits[i].action == g(visits[i].name, visits[i].alias)
  }

  lemma {:induction false} WalkKeysActs(t: Table, keys: seq<string>, sec: Section, f: Visitor, g: (string, Option<string>) -> Action)
    requires ActsBy(f, g)
    ensures var r := WalkKeys(t, keys, sec, f); r.Ok? ==> VisitsActBy(r.value.visits, g)
    decreases |keys|
  {
    var r := WalkKeys(t, keys, sec, f);
    if |keys| > 0 && r.Ok? {
      var step := Step(t, keys[0], sec, f).value;
      WalkKeysActs(step.table, keys[1..], sec, f, g);
      var rest := WalkKeys(step.table, keys[1..], sec, f).value;
      assert r.value.visits == step.visits + rest.visits;
    }
  }

  lemma {:induction false} WalkSectionsActs(root: Table, secs: seq<Section>, f: Visitor, g: (string, Option<string>) -> Action)
    requires ActsBy(f, g) && DistinctSections(secs)
    ensures var r := WalkSections(root, secs, f); r.Ok? ==> VisitsActBy(r.value.visits, g)
    decreases |secs|
  {
    var r := WalkSections(root, secs, f);
    if |secs| > 0 && r.Ok? {
      var sub := SubTable(root, SectionKey(secs[0]));
      if sub.Some? {
        WalkKeysActs(sub.value, CandidateKeys(sub.value), secs[0], f, g);
      }
      var here := WalkSection(root, secs[0], f).value;
      WalkSectionsActs(here.table, secs[1..], f, g);
      var rest := WalkSections(here.table, secs[1..], f).value;
      assert r.value.visits == here.visits + rest.visits;
    }
  }

  /** Every recorded visit carries the action `g` gives its name and alias. */
  lemma {:induction false} EditEachDepActs(root: Table, f: Visitor, g: (string, Option<string>) -> Action)
    requires ActsBy(f, g)
    ensures var r := EditEachDep(root, f); r.Ok? ==> VisitsActBy(r.value.visits, g)
  {
    WalkSectionsActs(root, AllSections, f, g);
  }

  /** Something was counted exactly when some visit was not answered Untouched. */
  lemma {:induction false} CountChangedPositive(visits: seq<VisitRecord>)
    ensures CountChanged(visits) > 0 <==> exists i :: 0 <= i < |visits| && visits[i].action != Untouched
    decreases |visits|
  {
    if |visits| > 0 {
      CountChangedPositive(visits[1..]);
      if exists i :: 0 <= i < |visits| && visits[i].action != Untouched {
        var i :| 0 <= i < |visits| && visits[i].action != Untouched;
        if i > 0 {
          assert visits[1..][i - 1] == visits[i];
        }
      }
      if exists i :: 0 <= i < |visits[1..]| && visits[1..][i].action != Untouched {
        var i :| 0 <= i < |visits[1..]| && visits[1..][i].action != Untouched;
        assert visits[i + 1] == visits[1..][i];
      }
    }
  }

  lemma {:induction false} WalkKeysNoRemovals(t: Table, keys: seq<string>, sec: Section, f: Visitor)
    requires NeverRemoves(f)
    ensures var r := WalkKeys(t, keys, sec, f); r.Ok? ==> r.value.removed == []
    decreases |keys|
  {
    var r := WalkKeys(t, keys, sec, f);
    if |keys| > 0 && r.Ok? {
      var step := Step(t, keys[0], sec, f).value;
      WalkKeysNoRemovals(step.table, keys[1..], sec, f);
    }
  }

  lemma {:induction false} WalkSectionsNoRemovals(root: Table, secs: seq<Section>, f: Visitor)
    requires NeverRemoves(f) && DistinctSections(secs)
    ensures var r := WalkSections(root, secs, f); r.Ok? ==> r.value.removed == []
    decreases |secs|
  {
    var r := WalkSections(root, secs, f);
    if |secs| > 0 && r.Ok? {
      var sub := SubTable(root, SectionKey(secs[0]));
      if sub.Some? {
        WalkKeysNoRemovals(sub.value, CandidateKeys(sub.value), secs[0], f);
      }
      var here := WalkSection(root, secs[0], f).value;
      WalkSectionsNoRemovals(here.table, secs[1..], f);
    }
  }

  /** A visitor that never asks for removal removes nothing, so the
      features are left alone. */
  lemma {:induction false} EditEachDepNoRemovals(root: Table, f: Visitor)
    requires NeverRemoves(f)
    ensures var r := EditEachDep(root, f);
      r.Ok? ==> r.value.removed == [] && Assoc.Get(r.value.table, "features") == Assoc.Get(root, "features")
  {
    WalkSectionsNoRemovals(root, AllSections, f);
    EditEachDepKeepsFeatures(root, f);
  }
}
