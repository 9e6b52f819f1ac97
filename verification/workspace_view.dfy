/** `members_deep` and `changed_packages` of src/util.rs: the workspace
    members together with the out-of-workspace path dependencies they pull
    in, and which of those a git diff touches. The diff itself (opening the
    repository, resolving the reference) comes in as a result. */
module WorkspaceView {
  import opened Wrappers
  import opened Paths
  import opened Cargo

  /** `Workspace::is_member`: membership is by package id. */
  predicate IsMember(ws: Workspace, p: Package) {
    exists i :: 0 <= i < |ws.members| && Id(ws.members[i]) == Id(p)
  }

  /** Some path dependency in `deps` points at `p`. */
  predicate PointedAt(ws: Workspace, deps: seq<Dependency>, p: Package) {
    exists i :: 0 <= i < |deps| && deps[i].source.PathSource? && p == ws.rootPackageAt(deps[i].source.dir)
  }

  /** The packages a member's path dependencies point at that are not
      themselves members, in declaration order. */
  function OutsidePathDeps(ws: Workspace, deps: seq<Dependency>): (r: seq<Package>)
    ensures forall p :: p in r <==> (!IsMember(ws, p) && PointedAt(ws, deps, p))
  {
    if |deps| == 0 then []
    else
      var here := if deps[0].source.PathSource? && !IsMember(ws, ws.rootPackageAt(deps[0].source.dir))
        then [ws.rootPackageAt(deps[0].source.dir)] else [];
      var rest := OutsidePathDeps(ws, deps[1..]);
      assert forall i :: 1 <= i < |deps| ==> deps[i] == deps[1..][i - 1];
      here + rest
  }

  function MembersDeepOf(ws: Workspace, ms: seq<Package>): (r: seq<Package>)
    ensures forall p :: p in r <==> p in ms || exists m :: m in ms && p in OutsidePathDeps(ws, m.deps)
  {
    if |ms| == 0 then [] else [ms[0]] + OutsidePathDeps(ws, ms[0].deps) + MembersDeepOf(ws, ms[1..])
  }

  /** `members_deep`: each member followed by the packages its path
      dependencies point at, unless those are members. A package is listed
      exactly when it is a member or a non-member one of their path
      dependencies points at. */
  function MembersDeep(ws: Workspace): (r: seq<Package>)
    ensures forall m :: m in ws.members ==> m in r
    ensures forall p :: p in r <==> (p in ws.members || (!IsMember(ws, p) && exists m :: m in ws.members && PointedAt(ws, m.deps, p)))
  {
    MembersDeepOf(ws, ws.members)
  }

  /** Every path dependency of a member ends up in `members_deep`, as itself
      or as the member with its id. */
  lemma {:induction false} PathDepsCovered(ws: Workspace, m: Package, i: nat)
    requires m in ws.members && i < |m.deps| && m.deps[i].source.PathSource?
    ensures var p := ws.rootPackageAt(m.deps[i].source.dir);
      p in MembersDeep(ws) || exists q :: q in MembersDeep(ws) && Id(q) == Id(p)
  {
    var p := ws.rootPackageAt(m.deps[i].source.dir);
    if IsMember(ws, p) {
      var j :| 0 <= j < |ws.members| && Id(ws.members[j]) == Id(p);
      assert ws.members[j] in MembersDeep(ws);
    }
  }

  lemma {:induction false} MembersDeepOfAppend(ws: Workspace, a: seq<Package>, b: seq<Package>)
    ensures MembersDeepOf(ws, a + b) == MembersDeepOf(ws, a) + MembersDeepOf(ws, b)
    decreases |a|
  {
    if |a| > 0 {
      assert (a + b)[0] == a[0];
      assert (a + b)[1..] == a[1..] + b;
      MembersDeepOfAppend(ws, a[1..], b);
    } else {
      assert a + b == b;
    }
  }

  /** The list is not deduplicated: a non-member that two members point at
      is listed once after each of them. */
  lemma {:induction false} MembersDeepRepeats(ws: Workspace, i: nat, j: nat, p: Package)
    requires i < j < |ws.members|
    requires !IsMember(ws, p) && PointedAt(ws, ws.members[i].deps, p) && PointedAt(ws, ws.members[j].deps, p)
    ensures exists x, y :: 0 <= x < y < |MembersDeep(ws)| && MembersDeep(ws)[x] == p && MembersDeep(ws)[y] == p
  {
    var ms := ws.members;
    var front, back := ms[..j], ms[j..];
    assert ms == front + back;
    MembersDeepOfAppend(ws, front, back);
    assert front[i] == ms[i] && back[0] == ms[j];
    assert p in MembersDeepOf(ws, front) && p in MembersDeepOf(ws, back);
    var x :| 0 <= x < |MembersDeepOf(ws, front)| && MembersDeepOf(ws, front)[x] == p;
    var y :| 0 <= y < |MembersDeepOf(ws, back)| && MembersDeepOf(ws, back)[y] == p;
    assert MembersDeep(ws)[x] == p;
    assert MembersDeep(ws)[|MembersDeepOf(ws, front)| + y] == p;
  }

  predicate StandsFor(root: Path, c: Option<Path>, isFile: Path -> bool, d: Path) {
    c.Some? &&
    if isFile(c.value) then Parent(c.value).Some? && d == Join(root, Parent(c.value).value)
    else d == Join(root, c.value)
  }

  /** The directory a changed path stands for: a file's parent (which may
      be the empty path), anything else itself; joined onto the workspace root. */
  function ChangedDirs(root: Path, changed: seq<Option<Path>>, isFile: Path -> bool): (r: seq<Path>)
    ensures forall d :: d in r <==> (exists i :: 0 <= i < |changed| && StandsFor(root, changed[i], isFile, d))
  {
    if |changed| == 0 then []
    else
      var here :=
        if changed[0].None? then []
        else if isFile(changed[0].value) then
          (if Parent(changed[0].value).None? then [] else [Join(root, Parent(changed[0].value).value)])
        else [Join(root, changed[0].value)];
      var rest := ChangedDirs(root, changed[1..], isFile);
      assert forall i :: 1 <= i < |changed| ==> changed[i] == changed[1..][i - 1];
      here + rest
  }

  function Touched(ps: seq<Package>, dirs: seq<Path>): (r: set<Package>)
    ensures forall p :: p in r <==> p in ps && exists d :: d in dirs && StartsWith(d, p.root)
  {
    if |ps| == 0 then {}
    else
      var rest := Touched(ps[1..], dirs);
      if exists d :: d in dirs && StartsWith(d, ps[0].root) then {ps[0]} + rest else rest
  }

  /** `changed_packages`: the packages of `members_deep` with a changed
      directory under their root. `diff` is the list of deltas' new paths,
      relative to the workspace root, or the git error; `isFile` answers
      `Path::is_file` for such a relative path. */
  function ChangedPackages(ws: Workspace, diff: Result<seq<Option<Path>>>, isFile: Path -> bool): (r: Result<set<Package>>)
    ensures diff.Err? <==> r.Err?
    ensures diff.Err? ==> r.error == diff.error
    ensures r.Ok? ==> forall p :: p in r.value <==>
      p in MembersDeep(ws) && exists d :: d in ChangedDirs(ws.root, diff.value, isFile) && StartsWith(d, p.root)
  {
    var changed :- diff;
    Ok(Touched(MembersDeep(ws), ChangedDirs(ws.root, changed, isFile)))
  }
}
