/** The hidden-feature check: features that a crate's Rust sources name in
    `feature = "…"` attributes but that its Cargo.toml does not declare.
    The finder walks a directory, files each used feature under the nearest
    Cargo.toml, reads the declared features of those manifests, and reports
    the difference. Directory listing, reading files, the regular expression
    that extracts names and reading the manifests are oracles. */
module HiddenFeatures {
  import opened Wrappers
  import Strings
  import Paths

  type Path = Paths.Path

  // ------------------------------------------------------------ features

  /** A feature used in the code, with where it was seen, or one exposed by
      a Cargo.toml. */
  datatype Feature =
    | UsedFeature(name: string, path: Path, lineNumber: nat)
    | ExposedFeature(name: string)

  /** `Feature::path`. */
  function FeaturePath(f: Feature): Option<Path> {
    match f
    case UsedFeature(_, p, _) => Some(p)
    case ExposedFeature(_) => None
  }

  /** `PartialEq for Feature`: two features are equal when their names are. */
  predicate SameFeature(a: Feature, b: Feature) {
    a.name == b.name
  }

  /** A `HashSet<Feature>`. Features hash and compare by name, so the set is
      a map from a name to the one feature filed under it. */
  type FeatureSet = map<string, Feature>

  predicate KeyedByName(s: FeatureSet) {
    forall n :: n in s ==> s[n].name == n
  }

  /** `HashSet::contains`. */
  predicate Contains(s: FeatureSet, f: Feature) {
    f.name in s
  }

  /** `HashSet::insert`: a feature equal to one already present is not
      stored; the one inserted first stays. */
  function Insert(s: FeatureSet, f: Feature): (r: FeatureSet)
    ensures KeyedByName(s) ==> KeyedByName(r)
    ensures r.Keys == s.Keys + {f.name}
    ensures f.name in s ==> r == s
    ensures f.name !in s ==> r[f.name] == f && forall n :: n in s ==> r[n] == s[n]
  {
    if f.name in s then s else s[f.name := f]
  }

  /** `a.union(b).cloned().collect()`: the elements of `a`, then those of `b`
      equal to none of them. */
  function Union(a: FeatureSet, b: FeatureSet): (r: FeatureSet)
    ensures KeyedByName(a) && KeyedByName(b) ==> KeyedByName(r)
    ensures r.Keys == a.Keys + b.Keys
    ensures forall n :: n in a ==> r[n] == a[n]
    ensures forall n :: n in b && n !in a ==> r[n] == b[n]
  {
    map n | n in a.Keys + b.Keys :: if n in a then a[n] else b[n]
  }

  /** `a.difference(b).cloned().collect()`: the elements of `a` equal to no
      element of `b`. */
  function Difference(a: FeatureSet, b: FeatureSet): (r: FeatureSet)
    ensures KeyedByName(a) ==> KeyedByName(r)
    ensures r.Keys == a.Keys - b.Keys
    ensures forall n :: n in r ==> r[n] == a[n]
  {
    map n | n in a && n !in b :: a[n]
  }

  /** Equality by name makes a set hold at most one feature per name:
      inserting a feature equal to one already inserted changes nothing,
      whatever its path or line, and a set contains a feature exactly when
      it contains one of the same name. */
  lemma {:induction false} InsertSameName(s: FeatureSet, a: Feature, b: Feature)
    requires KeyedByName(s) && SameFeature(a, b)
    ensures Insert(Insert(s, a), b) == Insert(s, a)
    ensures Contains(Insert(s, a), b)
    ensures a.name !in s ==> Insert(s, a)[b.name] == a
  {
  }

  // -------------------------------------------------------------- crates

  /** `CrateInfo`: a Cargo.toml and the features of its crate. */
  datatype CrateInfo = CrateInfo(path: Path, exposed: FeatureSet, used: FeatureSet, hidden: FeatureSet)

  /** `CrateInfo::new`. */
  function NewCrate(path: Path): CrateInfo {
    CrateInfo(path, map[], map[], map[])
  }

  /** `CrateInfo::add_used_features`. */
  function AddUsedFeatures(c: CrateInfo, fs: FeatureSet): CrateInfo {
    c.(used := Union(c.used, fs))
  }

  predicate ValidCrate(c: CrateInfo) {
    KeyedByName(c.exposed) && KeyedByName(c.used) && KeyedByName(c.hidden)
  }

  /** `HiddenFeaturesFinder`: the crates that use features, keyed by the
      path of their Cargo.toml, and what to ignore. The shell reference it
      prints through is not modelled. */
  datatype Finder = Finder(mapping: map<Path, CrateInfo>, ignoredPaths: set<Path>, ignoredFeatures: set<string>)

  /** Every crate is filed under its own Cargo.toml and its sets hold one
      feature per name. */
  predicate Valid(finder: Finder) {
    forall p :: p in finder.mapping ==> finder.mapping[p].path == p && ValidCrate(finder.mapping[p])
  }

  /** No ignored feature is recorded as used or exposed by any crate. */
  predicate IgnoredKeptOut(finder: Finder) {
    forall p :: p in finder.mapping ==>
      finder.mapping[p].used.Keys !! finder.ignoredFeatures && finder.mapping[p].exposed.Keys !! finder.ignoredFeatures
  }

  /** `HiddenFeaturesFinder::new`. */
  function NewFinder(ignoredPaths: set<Path>, ignoredFeatures: set<string>): (r: Finder)
    ensures Valid(r) && IgnoredKeptOut(r)
    ensures r.mapping == map[] && r.ignoredPaths == ignoredPaths && r.ignoredFeatures == ignoredFeatures
    ensures CheckHidden(r) == Ok(())
  {
    Finder(map[], ignoredPaths, ignoredFeatures)
  }

  // ------------------------------------------------- the nearest manifest

  const CargoToml := "Cargo.toml"

  /** Whether a file exists on disk. */
  type OnDisk = Path -> bool

  /** `dir/Cargo.toml` is already a crate of the finder or exists on disk. */
  predicate Found(mapping: map<Path, CrateInfo>, onDisk: OnDisk, dir: Path) {
    dir + [CargoToml] in mapping || onDisk(dir + [CargoToml])
  }

  /** The length of the last ancestor `Path::parent` reaches: the root
      directory for an absolute path, the empty path otherwise. */
  function Floor(p: Path): nat {
    if |p| > 0 && p[0] == Paths.RootDir then 1 else 0
  }

  /** `find_associated_cargo`: the `Cargo.toml` of the path itself or of
      its nearest ancestor that has one. */
  function FindAssociatedCargo(mapping: map<Path, CrateInfo>, onDisk: OnDisk, p: Path): (r: Option<Path>)
    ensures r.Some? ==>
      |r.value| > 0 && Found(mapping, onDisk, r.value[..|r.value| - 1]) && r.value == r.value[..|r.value| - 1] + [CargoToml]
    decreases |p|
  {
    var candidate := p + [CargoToml];
    if candidate in mapping || onDisk(candidate) then
      assert candidate[..|candidate| - 1] == p;
      Some(candidate)
    else
      match Paths.Parent(p)
      case None => None
      case Some(q) => FindAssociatedCargo(mapping, onDisk, q)
  }

  /** The search returns the manifest of the longest ancestor (the path
      included) that has one. */
  lemma {:induction false} FindAssociatedCargoNearest(mapping: map<Path, CrateInfo>, onDisk: OnDisk, p: Path, k: nat)
    requires Floor(p) <= k <= |p| && Found(mapping, onDisk, p[..k])
    requires forall j :: k < j <= |p| ==> !Found(mapping, onDisk, p[..j])
    ensures FindAssociatedCargo(mapping, onDisk, p) == Some(p[..k] + [CargoToml])
    decreases |p|
  {
    if k == |p| {
      assert p[..k] == p;
    } else {
      assert p[..|p|] == p;
      assert !Found(mapping, onDisk, p);
      var q := p[..|p| - 1];
      assert p != [Paths.RootDir];
      assert Paths.Parent(p) == Some(q);
      assert Floor(q) <= Floor(p) by {
        if |q| > 0 { assert q[0] == p[0]; }
      }
      assert q[..k] == p[..k];
      forall j | k < j <= |q|
        ensures !Found(mapping, onDisk, q[..j])
      {
        assert q[..j] == p[..j];
      }
      FindAssociatedCargoNearest(mapping, onDisk, q, k);
    }
  }

  /** The search finds nothing exactly when no ancestor the loop reaches
      has a manifest. */
  lemma {:induction false} FindAssociatedCargoNone(mapping: map<Path, CrateInfo>, onDisk: OnDisk, p: Path)
    ensures FindAssociatedCargo(mapping, onDisk, p).None?
      <==> forall k :: Floor(p) <= k <= |p| ==> !Found(mapping, onDisk, p[..k])
    decreases |p|
  {
    assert p[..|p|] == p;
    if !Found(mapping, onDisk, p) {
      match Paths.Parent(p)
      case None =>
        forall k | Floor(p) <= k <= |p|
          ensures !Found(mapping, onDisk, p[..k])
        {
          assert k == |p| by {
            if p == [Paths.RootDir] { assert Floor(p) == 1; }
          }
        }
      case Some(q) =>
        FindAssociatedCargoNone(mapping, onDisk, q);
        assert q == p[..|p| - 1];
        assert Floor(q) == Floor(p) by {
          if |q| > 0 { assert q[0] == p[0]; }
          else { assert p != [Paths.RootDir]; }
        }
        forall k | Floor(p) <= k <= |q|
          ensures q[..k] == p[..k]
        {
        }
    }
  }

  // ---------------------------------------------------------- add_feature

  const NoPathError := "internal error: should have a path"
  const NoParentError := "path has no parent"
  const NoCargoError := "could not find corresponding Cargo file"

  /** The manifest a feature is filed under, when there is one. */
  function CargoFor(finder: Finder, f: Feature, onDisk: OnDisk): Option<Path> {
    if f.ExposedFeature? then None
    else match Paths.Parent(f.path)
      case None => None
      case Some(parent) => FindAssociatedCargo(finder.mapping, onDisk, parent)
  }

  /** `add_feature`: files a used feature under the Cargo.toml nearest to
      the directory of its file, creating the crate when it is new. */
  function AddFeature(finder: Finder, f: Feature, onDisk: OnDisk): (r: Result<Finder>)
    ensures r.Ok? <==> CargoFor(finder, f, onDisk).Some?
    ensures f.ExposedFeature? ==> r == Err(NoPathError)
    ensures f.UsedFeature? && Paths.Parent(f.path).None? ==> r == Err(NoParentError)
    ensures f.UsedFeature? && Paths.Parent(f.path).Some? && r.Err? ==> r == Err(NoCargoError)
  {
    match FeaturePath(f)
    case None => Err(NoPathError)
    case Some(path) =>
      match Paths.Parent(path)
      case None => Err(NoParentError)
      case Some(parent) =>
        match FindAssociatedCargo(finder.mapping, onDisk, parent)
        case None => Err(NoCargoError)
        case Some(cargo) =>
          var info :=
            if cargo in finder.mapping then finder.mapping[cargo].(used := Insert(finder.mapping[cargo].used, f))
            else AddUsedFeatures(NewCrate(cargo), Insert(map[], f));
          Ok(finder.(mapping := finder.mapping[cargo := info]))
  }

  /** What `add_feature` changes: the feature's crate gains its name among
      the used features (keeping an equal feature already there), the crate
      is created when new, and no other crate and no other part of the
      crate changes. */
  lemma {:induction false} AddFeatureEffect(finder: Finder, f: Feature, onDisk: OnDisk)
    requires AddFeature(finder, f, onDisk).Ok?
    ensures var cargo := CargoFor(finder, f, onDisk).value;
      var m := AddFeature(finder, f, onDisk).value.mapping;
      && m.Keys == finder.mapping.Keys + {cargo}
      && (forall p :: p in finder.mapping && p != cargo ==> m[p] == finder.mapping[p])
      && m[cargo].used == Insert(if cargo in finder.mapping then finder.mapping[cargo].used else map[], f)
      && (cargo in finder.mapping ==> m[cargo] == finder.mapping[cargo].(used := m[cargo].used))
      && (cargo !in finder.mapping ==> m[cargo] == CrateInfo(cargo, map[], map[f.name := f], map[]))
    ensures AddFeature(finder, f, onDisk).value.ignoredPaths == finder.ignoredPaths
    ensures AddFeature(finder, f, onDisk).value.ignoredFeatures == finder.ignoredFeatures
  {
    var cargo := CargoFor(finder, f, onDisk).value;
    if cargo !in finder.mapping {
      assert Union(map[], map[f.name := f]) == map[f.name := f];
    }
  }

  /** Adding a feature keeps the finder valid, and keeps ignored features out
      when the feature is not ignored. */
  lemma {:induction false} AddFeatureInvariants(finder: Finder, f: Feature, onDisk: OnDisk)
    requires Valid(finder) && AddFeature(finder, f, onDisk).Ok?
    ensures Valid(AddFeature(finder, f, onDisk).value)
    ensures IgnoredKeptOut(finder) && f.name !in finder.ignoredFeatures
      ==> IgnoredKeptOut(AddFeature(finder, f, onDisk).value)
  {
    AddFeatureEffect(finder, f, onDisk);
    var cargo := CargoFor(finder, f, onDisk).value;
    var m := AddFeature(finder, f, onDisk).value.mapping;
    var old_used := if cargo in finder.mapping then finder.mapping[cargo].used else map[];
    assert KeyedByName(old_used);
    assert m[cargo].used.Keys == old_used.Keys + {f.name};
    forall p | p in m
      ensures m[p].path == p && ValidCrate(m[p])
      ensures IgnoredKeptOut(finder) && f.name !in finder.ignoredFeatures ==>
        m[p].used.Keys !! finder.ignoredFeatures && m[p].exposed.Keys !! finder.ignoredFeatures
    {
      if p != cargo {
        assert m[p] == finder.mapping[p];
      }
    }
  }

  // ----------------------------------------------------------- the walk

  /** The directory tree below the walk's root, as the file system would
      list it, with the directories whose listing fails. */
  datatype FsNode =
    | File(name: string)
    | Dir(name: string, children: seq<FsNode>)
    | Unlistable(name: string, error: string)

  /** A `walkdir::DirEntry`: its path and its depth below the root. */
  datatype DirEntry = DirEntry(path: Path, depth: nat)

  /** `is_hidden`: an entry below the root whose name starts with a dot. */
  predicate IsHidden(e: DirEntry) {
    e.depth != 0 && |e.path| > 0 && Strings.StartsWith(e.path[|e.path| - 1], ".")
  }

  /** The `filter_entry` test of `find_used_features`. */
  predicate Admitted(finder: Finder, e: DirEntry) {
    !IsHidden(e) && e.path !in finder.ignoredPaths
  }

  /** `WalkDir` with `filter_entry`: an entry is yielded before its
      contents; an entry the filter rejects is skipped together with
      everything below it; a failed listing yields its error. */
  function Walk(finder: Finder, n: FsNode, path: Path, depth: nat): seq<Result<DirEntry>>
    decreases n
  {
    var e := DirEntry(path, depth);
    if !Admitted(finder, e) then []
    else match n
      case File(_) => [Ok(e)]
      case Unlistable(_, msg) => [Ok(e), Err(msg)]
      case Dir(_, children) => [Ok(e)] + WalkChildren(finder, children, path, depth + 1)
  }

  function WalkChildren(finder: Finder, ch: seq<FsNode>, parent: Path, depth: nat): seq<Result<DirEntry>>
    decreases ch
  {
    if |ch| == 0 then []
    else Walk(finder, ch[0], parent + [ch[0].name], depth) + WalkChildren(finder, ch[1..], parent, depth)
  }

  /** The walk from its root: a root that cannot be read yields its error. */
  function WalkRoot(finder: Finder, rootPath: Path, root: Result<FsNode>): seq<Result<DirEntry>> {
    match root
    case Err(msg) => [Err(msg)]
    case Ok(n) => Walk(finder, n, rootPath, 0)
  }

  /** A path the filter lets through, for a walk whose root has `base`
      components: neither the root nor any directory between it and the
      path is ignored, and no component below the root starts with a dot. */
  predicate Visible(finder: Finder, p: Path, base: nat) {
    && base <= |p|
    && (forall k :: base <= k <= |p| ==> p[..k] !in finder.ignoredPaths)
    && (forall k :: base <= k < |p| ==> !Strings.StartsWith(p[k], "."))
  }

  /** Every entry a walk yields */
  predicate AllVisible(finder: Finder, es: seq<Result<DirEntry>>, base: nat) {
    forall i :: 0 <= i < |es| && es[i].Ok? ==> Visible(finder, es[i].value.path, base)
  }

  lemma {:induction false} VisibleStep(finder: Finder, path: Path, base: nat)
    requires base < |path|
    requires Visible(finder, path[..|path| - 1], base)
    requires path !in finder.ignoredPaths && !Strings.StartsWith(path[|path| - 1], ".")
    ensures Visible(finder, path, base)
  {
    var q := path[..|path| - 1];
    forall k | base <= k <= |path|
      ensures path[..k] !in finder.ignoredPaths
    {
      if k < |path| {
        assert path[..k] == q[..k];
      } else {
        assert path[..k] == path;
      }
    }
    forall k | base <= k < |path|
      ensures !Strings.StartsWith(path[k], ".")
    {
      if k < |path| - 1 {
        assert path[k] == q[k];
      }
    }
  }

  /** Ignored paths and dot-named entries below the root are never yielded,
      and neither is anything below them. */
  lemma {:induction false} WalkVisible(finder: Finder, n: FsNode, path: Path, depth: nat)
    requires depth <= |path|
    requires depth > 0 ==> Visible(finder, path[..|path| - 1], |path| - depth)
    ensures AllVisible(finder, Walk(finder, n, path, depth), |path| - depth)
    decreases n
  {
    var e := DirEntry(path, depth);
    var base := |path| - depth;
    if Admitted(finder, e) {
      if depth == 0 {
        assert path[..|path|] == path;
      } else {
        VisibleStep(finder, path, base);
      }
      match n
      case File(_) =>
      case Unlistable(_, _) =>
      case Dir(_, children) =>
        WalkChildrenVisible(finder, children, path, depth + 1);
        var rest := WalkChildren(finder, children, path, depth + 1);
        assert Walk(finder, n, path, depth) == [Ok(e)] + rest;
        forall i | 0 <= i < |[Ok(e)] + rest| && ([Ok(e)] + rest)[i].Ok?
          ensures Visible(finder, ([Ok(e)] + rest)[i].value.path, base)
        {
          if i > 0 {
            assert ([Ok(e)] + rest)[i] == rest[i - 1];
          }
        }
    }
  }

  lemma {:induction false} WalkChildrenVisible(finder: Finder, ch: seq<FsNode>, parent: Path, depth: nat)
    requires 0 < depth <= |parent| + 1
    requires Visible(finder, parent, |parent| + 1 - depth)
    ensures AllVisible(finder, WalkChildren(finder, ch, parent, depth), |parent| + 1 - depth)
    decreases ch
  {
    if |ch| > 0 {
      var path := parent + [ch[0].name];
      assert path[..|path| - 1] == parent;
      WalkVisible(finder, ch[0], path, depth);
      WalkChildrenVisible(finder, ch[1..], parent, depth);
      AllVisibleAppend(finder, Walk(finder, ch[0], path, depth), WalkChildren(finder, ch[1..], parent, depth), |parent| + 1 - depth);
    }
  }

  lemma {:induction false} AllVisibleAppend(finder: Finder, a: seq<Result<DirEntry>>, b: seq<Result<DirEntry>>, base: nat)
    requires AllVisible(finder, a, base) && AllVisible(finder, b, base)
    ensures AllVisible(finder, a + b, base)
  {
    forall i | 0 <= i < |a + b| && (a + b)[i].Ok?
      ensures Visible(finder, (a + b)[i].value.path, base)
    {
      if i >= |a| {
        assert (a + b)[i] == b[i - |a|];
      }
    }
  }

  /** Everything the walk from the root yields is visible from the root. */
  lemma {:induction false} WalkRootVisible(finder: Finder, rootPath: Path, root: Result<FsNode>)
    ensures AllVisible(finder, WalkRoot(finder, rootPath, root), |rootPath|)
  {
    if root.Ok? {
      WalkVisible(finder, root.value, rootPath, 0);
    }
  }

  // -------------------------------------------------- collecting features

  /** `File::open` followed by `lines()`: the file's lines, each of which
      may fail to read. */
  type LineReader = Path -> Result<seq<Result<string>>>

  /** `extract_feature_names`: the names in `feature = "…"` on a line. */
  type Extractor = string -> seq<string>

  /** A path whose extension is `rs`: the file name ends in `.rs` and has
      something before the dot. */
  predicate IsRustFile(p: Path) {
    |p| > 0 && |p[|p| - 1]| > 3 && Strings.EndsWith(p[|p| - 1], ".rs")
  }

  /** The used features of one line, ignored names left out. */
  function LineFeatures(finder: Finder, path: Path, lineNumber: nat, names: seq<string>): (r: seq<Feature>)
    ensures forall k :: 0 <= k < |r| ==>
      r[k].UsedFeature? && r[k].name !in finder.ignoredFeatures && r[k].name in names
      && r[k].path == path && r[k].lineNumber == lineNumber
  {
    if |names| == 0 then []
    else
      var rest := LineFeatures(finder, path, lineNumber, names[1..]);
      if names[0] in finder.ignoredFeatures then rest
      else [UsedFeature(names[0], path, lineNumber)] + rest
  }

  /** The used features of a file's lines from `lineNumber` on; a line that
      cannot be read is skipped. */
  function FileFeatures(finder: Finder, path: Path, lines: seq<Result<string>>, lineNumber: nat, extract: Extractor): (r: seq<Feature>)
    ensures forall k :: 0 <= k < |r| ==>
      r[k].UsedFeature? && r[k].name !in finder.ignoredFeatures && r[k].path == path
    decreases |lines|
  {
    if |lines| == 0 then []
    else
      var here := if lines[0].Ok? then LineFeatures(finder, path, lineNumber, extract(lines[0].value)) else [];
      here + FileFeatures(finder, path, lines[1..], lineNumber + 1, extract)
  }

  /** The loop over the walk in `find_used_features`: the features of every
      Rust file, in walk order; the first walk or open error ends it. */
  function Collect(finder: Finder, entries: seq<Result<DirEntry>>, read: LineReader, extract: Extractor): (r: Result<seq<Feature>>)
    ensures r.Ok? ==> forall k :: 0 <= k < |r.value| ==>
      r.value[k].UsedFeature? && r.value[k].name !in finder.ignoredFeatures && IsRustFile(r.value[k].path)
    decreases |entries|
  {
    if |entries| == 0 then Ok([])
    else match entries[0]
      case Err(msg) => Err(msg)
      case Ok(e) =>
        if e.path in finder.ignoredPaths || !IsRustFile(e.path) then Collect(finder, entries[1..], read, extract)
        else match read(e.path)
          case Err(msg) => Err(msg)
          case Ok(lines) =>
            var rest :- Collect(finder, entries[1..], read, extract);
            Ok(FileFeatures(finder, e.path, lines, 0, extract) + rest)
  }

  /** Every collected feature comes from a file the walk yielded. */
  lemma {:induction false} CollectFromEntries(finder: Finder, entries: seq<Result<DirEntry>>, read: LineReader, extract: Extractor, base: nat)
    requires AllVisible(finder, entries, base)
    requires Collect(finder, entries, read, extract).Ok?
    ensures var fs := Collect(finder, entries, read, extract).value;
      forall k :: 0 <= k < |fs| ==> Visible(finder, fs[k].path, base)
    decreases |entries|
  {
    if |entries| > 0 {
      assert AllVisible(finder, entries[1..], base) by {
        forall i | 0 <= i < |entries[1..]| && entries[1..][i].Ok?
          ensures Visible(finder, entries[1..][i].value.path, base)
        {
          assert entries[1..][i] == entries[i + 1];
        }
      }
      CollectFromEntries(finder, entries[1..], read, extract, base);
    }
  }

  /** `self.add_feature(feature)?` for each collected feature in turn; the
      crates added before an error stay. */
  function AddAll(finder: Finder, fs: seq<Feature>, onDisk: OnDisk): (r: (Finder, Result<()>))
    ensures r.0.ignoredPaths == finder.ignoredPaths && r.0.ignoredFeatures == finder.ignoredFeatures
    ensures finder.mapping.Keys <= r.0.mapping.Keys
    decreases |fs|
  {
    if |fs| == 0 then (finder, Ok(()))
    else match AddFeature(finder, fs[0], onDisk)
      case Err(msg) => (finder, Err(msg))
      case Ok(next) =>
        AddFeatureEffect(finder, fs[0], onDisk);
        AddAll(next, fs[1..], onDisk)
  }

  /** Filing features keeps the finder valid, and records no ignored name
      when none of the features carries one. */
  lemma {:induction false} AddAllInvariants(finder: Finder, fs: seq<Feature>, onDisk: OnDisk)
    requires Valid(finder) && IgnoredKeptOut(finder)
    requires forall k :: 0 <= k < |fs| ==> fs[k].name !in finder.ignoredFeatures
    ensures Valid(AddAll(finder, fs, onDisk).0) && IgnoredKeptOut(AddAll(finder, fs, onDisk).0)
    decreases |fs|
  {
    if |fs| > 0 && AddFeature(finder, fs[0], onDisk).Ok? {
      var next := AddFeature(finder, fs[0], onDisk).value;
      AddFeatureInvariants(finder, fs[0], onDisk);
      AddFeatureEffect(finder, fs[0], onDisk);
      AddAllInvariants(next, fs[1..], onDisk);
    }
  }

  /** `find_used_features`: walk, collect, then file every feature. A walk
      or open error leaves the finder as it was. */
  function FindUsed(finder: Finder, rootPath: Path, root: Result<FsNode>, read: LineReader, extract: Extractor, onDisk: OnDisk): (r: (Finder, Result<()>))
    ensures r.0.ignoredPaths == finder.ignoredPaths && r.0.ignoredFeatures == finder.ignoredFeatures
    ensures finder.mapping.Keys <= r.0.mapping.Keys
    ensures Collect(finder, WalkRoot(finder, rootPath, root), read, extract).Err? ==> r.0 == finder && r.1.Err?
  {
    match Collect(finder, WalkRoot(finder, rootPath, root), read, extract)
    case Err(msg) => (finder, Err(msg))
    case Ok(fs) => AddAll(finder, fs, onDisk)
  }

  /** Ignored feature names are never recorded as used. */
  lemma {:induction false} FindUsedKeepsIgnoredOut(finder: Finder, rootPath: Path, root: Result<FsNode>, read: LineReader, extract: Extractor, onDisk: OnDisk)
    requires Valid(finder) && IgnoredKeptOut(finder)
    ensures var r := FindUsed(finder, rootPath, root, read, extract, onDisk).0;
      Valid(r) && IgnoredKeptOut(r)
  {
    var c := Collect(finder, WalkRoot(finder, rootPath, root), read, extract);
    if c.Ok? {
      AddAllInvariants(finder, c.value, onDisk);
    }
  }

  /** Ignored paths, and dot-named entries below the root, contribute no
      features: every feature collected for filing lies in a Rust file
      visible from the root. */
  lemma {:induction false} CollectedAreVisible(finder: Finder, rootPath: Path, root: Result<FsNode>, read: LineReader, extract: Extractor)
    requires Collect(finder, WalkRoot(finder, rootPath, root), read, extract).Ok?
    ensures var fs := Collect(finder, WalkRoot(finder, rootPath, root), read, extract).value;
      forall k :: 0 <= k < |fs| ==>
        Visible(finder, fs[k].path, |rootPath|) && IsRustFile(fs[k].path) && fs[k].name !in finder.ignoredFeatures
  {
    WalkRootVisible(finder, rootPath, root);
    CollectFromEntries(finder, WalkRoot(finder, rootPath, root), read, extract, |rootPath|);
  }

  // ------------------------------------------- exposed and hidden features

  /** The keys of a manifest's `[features]` table, `None` when it has no
      such table; `None` overall when the manifest cannot be read or parsed,
      where the program panics. */
  type ManifestReader = Path -> Option<Option<seq<string>>>

  /** The message of the panic of `unwrap()` on a failed read or parse. */
  const UnwrapPanic := "called `Result::unwrap()` on an `Err` value"

  /** The exposed features of one manifest, ignored names left out. */
  function ExposedOf(finder: Finder, table: Option<seq<string>>): (r: FeatureSet)
    ensures KeyedByName(r)
  {
    match table
    case None => map[]
    case Some(names) => map n | n in names && n !in finder.ignoredFeatures :: ExposedFeature(n)
  }

  /** `find_exposed_features`: replaces every crate's exposed set with the
      features its Cargo.toml declares. */
  function FindExposed(finder: Finder, manifest: ManifestReader): (r: Result<Finder>)
    ensures r.Ok? <==> forall p :: p in finder.mapping ==> manifest(finder.mapping[p].path).Some?
    ensures r.Ok? ==>
      && r.value.mapping.Keys == finder.mapping.Keys
      && r.value.ignoredPaths == finder.ignoredPaths && r.value.ignoredFeatures == finder.ignoredFeatures
      && forall p :: p in finder.mapping ==>
        var c, table := finder.mapping[p], manifest(finder.mapping[p].path).value;
        && r.value.mapping[p] == c.(exposed := r.value.mapping[p].exposed)
        && r.value.mapping[p].exposed.Keys
          == (if table.None? then {} else (set n | n in table.value) - finder.ignoredFeatures)
  {
    if exists p :: p in finder.mapping && manifest(finder.mapping[p].path).None? then Err(UnwrapPanic)
    else Ok(finder.(mapping := map p | p in finder.mapping ::
      finder.mapping[p].(exposed := ExposedOf(finder, manifest(finder.mapping[p].path).value))))
  }

  /** Reading the manifests keeps the finder valid and records no ignored
      name as exposed. */
  lemma {:induction false} FindExposedInvariants(finder: Finder, manifest: ManifestReader)
    requires Valid(finder) && IgnoredKeptOut(finder) && FindExposed(finder, manifest).Ok?
    ensures Valid(FindExposed(finder, manifest).value) && IgnoredKeptOut(FindExposed(finder, manifest).value)
  {
  }

  /** `find_hidden_features`: every crate's hidden set becomes its used
      features minus its exposed ones. */
  function FindHidden(finder: Finder): (r: Finder)
    ensures r.mapping.Keys == finder.mapping.Keys
    ensures r.ignoredPaths == finder.ignoredPaths && r.ignoredFeatures == finder.ignoredFeatures
    ensures forall p :: p in finder.mapping ==>
      var c := finder.mapping[p];
      && r.mapping[p] == c.(hidden := r.mapping[p].hidden)
      && r.mapping[p].hidden.Keys == c.used.Keys - c.exposed.Keys
      && forall n :: n in r.mapping[p].hidden ==> r.mapping[p].hidden[n] == c.used[n]
  {
    finder.(mapping := map p | p in finder.mapping ::
      finder.mapping[p].(hidden := Difference(finder.mapping[p].used, finder.mapping[p].exposed)))
  }

  const HiddenDetected := "Hidden features detected\n\n\t\t\t\tHint: you can ignore specific features with `--ignored-features`\n\t\t\t\tand/or specific paths with `--ignored-paths`"

  /** `check_hidden_features`, without the lines it prints for each
      hidden feature. */
  function CheckHidden(finder: Finder): (r: Result<()>)
    ensures r.Ok? <==> forall p :: p in finder.mapping ==> finder.mapping[p].hidden == map[]
    ensures r.Err? ==> r.error == HiddenDetected
  {
    if forall p :: p in finder.mapping ==> |finder.mapping[p].hidden| == 0 then Ok(()) else Err(HiddenDetected)
  }

  /** After `find_hidden_features`, the check passes exactly when every
      crate exposes every feature it uses. */
  lemma {:induction false} CheckAfterFindHidden(finder: Finder)
    ensures CheckHidden(FindHidden(finder)).Ok?
      <==> forall p :: p in finder.mapping ==> finder.mapping[p].used.Keys <= finder.mapping[p].exposed.Keys
  {
    var r := FindHidden(finder);
    forall p | p in finder.mapping
      ensures |r.mapping[p].hidden| == 0 <==> finder.mapping[p].used.Keys <= finder.mapping[p].exposed.Keys
    {
      NothingHidden(finder.mapping[p]);
    }
  }

  lemma {:induction false} NothingHidden(c: CrateInfo)
    ensures |Difference(c.used, c.exposed)| == 0 <==> c.used.Keys <= c.exposed.Keys
  {
    var d := Difference(c.used, c.exposed);
    assert d.Keys == c.used.Keys - c.exposed.Keys;
    if |d| == 0 {
      assert d.Keys == {};
    } else {
      var n :| n in d.Keys;
    }
  }

  /** `find_and_check`: the three passes, then the check. */
  function FindAndCheck(finder: Finder, rootPath: Path, root: Result<FsNode>, read: LineReader, extract: Extractor,
                        onDisk: OnDisk, manifest: ManifestReader): (r: Result<()>)
    ensures var used := FindUsed(finder, rootPath, root, read, extract, onDisk);
      r.Ok? ==> used.1.Ok? && FindExposed(used.0, manifest).Ok?
    ensures var used := FindUsed(finder, rootPath, root, read, extract, onDisk);
      used.1.Err? ==> r == Err(used.1.error)
  {
    var (used, status) := FindUsed(finder, rootPath, root, read, extract, onDisk);
    if status.Err? then Err(status.error)
    else
      var exposed :- FindExposed(used, manifest);
      CheckHidden(FindHidden(exposed))
  }

  // ---------------------------------------------------------------- tests

  /** `does_not_exist`: a root that cannot be read fails with its error. */
  lemma {:induction false} DoesNotExist(ignoredPaths: set<Path>, ignoredFeatures: set<string>, rootPath: Path, msg: string,
                     read: LineReader, extract: Extractor, onDisk: OnDisk, manifest: ManifestReader)
    ensures FindAndCheck(NewFinder(ignoredPaths, ignoredFeatures), rootPath, Err(msg), read, extract, onDisk, manifest)
      == Err(msg)
  {
  }

  /** `one_feature_but_path_excluded`: when the root itself is ignored the
      walk yields nothing and the check passes. */
  lemma {:induction false} RootIgnored(ignoredPaths: set<Path>, ignoredFeatures: set<string>, rootPath: Path, n: FsNode,
                    read: LineReader, extract: Extractor, onDisk: OnDisk, manifest: ManifestReader)
    requires rootPath in ignoredPaths
    ensures FindAndCheck(NewFinder(ignoredPaths, ignoredFeatures), rootPath, Ok(n), read, extract, onDisk, manifest)
      == Ok(())
  {
    var finder := NewFinder(ignoredPaths, ignoredFeatures);
    assert Walk(finder, n, rootPath, 0) == [];
  }

  /** Whether the whole check passes, once the walk, the reads and the
      filing have succeeded: exactly when every crate exposes every feature
      its files use. This is what `one_feature` and `four_features` see
      fail. */
  lemma {:induction false} FindAndCheckVerdict(finder: Finder, rootPath: Path, root: Result<FsNode>, read: LineReader, extract: Extractor,
                            onDisk: OnDisk, manifest: ManifestReader)
    requires FindUsed(finder, rootPath, root, read, extract, onDisk).1.Ok?
    requires FindExposed(FindUsed(finder, rootPath, root, read, extract, onDisk).0, manifest).Ok?
    ensures var e := FindExposed(FindUsed(finder, rootPath, root, read, extract, onDisk).0, manifest).value;
      var ok := FindAndCheck(finder, rootPath, root, read, extract, onDisk, manifest).Ok?;
      ok <==> forall p :: p in e.mapping ==> e.mapping[p].used.Keys <= e.mapping[p].exposed.Keys
  {
    var e := FindExposed(FindUsed(finder, rootPath, root, read, extract, onDisk).0, manifest).value;
    CheckAfterFindHidden(e);
  }

  /** `one_feature_but_excluded`: when every name the files mention is
      ignored, nothing is filed, so the check passes unless the walk or a
      read fails. */
  lemma {:induction false} AllNamesIgnored(ignoredPaths: set<Path>, ignoredFeatures: set<string>, rootPath: Path, root: Result<FsNode>,
                        read: LineReader, extract: Extractor, onDisk: OnDisk, manifest: ManifestReader)
    requires forall line: string, i :: 0 <= i < |extract(line)| ==> extract(line)[i] in ignoredFeatures
    ensures var finder := NewFinder(ignoredPaths, ignoredFeatures);
      var ok := FindAndCheck(finder, rootPath, root, read, extract, onDisk, manifest).Ok?;
      ok <==> Collect(finder, WalkRoot(finder, rootPath, root), read, extract).Ok?
  {
    var finder := NewFinder(ignoredPaths, ignoredFeatures);
    var c := Collect(finder, WalkRoot(finder, rootPath, root), read, extract);
    if c.Ok? {
      NoFeaturesWhenIgnored(finder, WalkRoot(finder, rootPath, root), read, extract);
      assert c.value == [];
    }
  }

  lemma {:induction false} NoFeaturesWhenIgnored(finder: Finder, entries: seq<Result<DirEntry>>, read: LineReader, extract: Extractor)
    requires forall line: string, i :: 0 <= i < |extract(line)| ==> extract(line)[i] in finder.ignoredFeatures
    requires Collect(finder, entries, read, extract).Ok?
    ensures Collect(finder, entries, read, extract).value == []
    decreases |entries|
  {
    if |entries| > 0 {
      var fs := Collect(finder, entries, read, extract).value;
      if |fs| > 0 {
        assert fs[0].name !in finder.ignoredFeatures;
        var e := entries[0].value;
        NoFeaturesWhenIgnored(finder, entries[1..], read, extract);
        FileFeaturesWhenIgnored(finder, e.path, read(e.path).value, 0, extract);
      }
    }
  }

  lemma {:induction false} FileFeaturesWhenIgnored(finder: Finder, path: Path, lines: seq<Result<string>>, lineNumber: nat, extract: Extractor)
    requires forall line: string, i :: 0 <= i < |extract(line)| ==> extract(line)[i] in finder.ignoredFeatures
    ensures FileFeatures(finder, path, lines, lineNumber, extract) == []
    decreases |lines|
  {
    if |lines| > 0 {
      FileFeaturesWhenIgnored(finder, path, lines[1..], lineNumber + 1, extract);
      if lines[0].Ok? {
        LineFeaturesWhenIgnored(finder, path, lineNumber, extract(lines[0].value));
      }
    }
  }

  lemma {:induction false} LineFeaturesWhenIgnored(finder: Finder, path: Path, lineNumber: nat, names: seq<string>)
    requires forall i :: 0 <= i < |names| ==> names[i] in finder.ignoredFeatures
    ensures LineFeatures(finder, path, lineNumber, names) == []
    decreases |names|
  {
    if |names| > 0 {
      LineFeaturesWhenIgnored(finder, path, lineNumber, names[1..]);
    }
  }
}
