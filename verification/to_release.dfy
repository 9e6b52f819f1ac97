/** `packages_to_release` (src/commands/to_release.rs): the selected
    workspace members, in an order where every package comes after the
    selected packages it depends on. */
module ToRelease {
  import opened Wrappers
  import opened Cargo
  import Cascade

  function DuplicateMessage(name: string): string {
    "ERR: " + name + " found more than once in the package tree"
  }

  function CycleMessage(name: string): string {
    "Cycle detected: " + name
  }

  predicate DistinctNames(ps: seq<Package>) {
    forall i, j :: 0 <= i < j < |ps| ==> ps[i].name != ps[j].name
  }

  function Names(ps: seq<Package>): (r: set<string>)
    ensures forall n :: n in r <==> exists i :: 0 <= i < |ps| && ps[i].name == n
  {
    set i | 0 <= i < |ps| :: ps[i].name
  }

  /** The first name taken a second time while the selected members are
      entered into the name map, in member order. */
  function FirstDuplicate(ps: seq<Package>): (r: Option<string>)
    ensures r.None? <==> DistinctNames(ps)
    ensures r.Some? ==> exists i, j :: 0 <= i < j < |ps| && ps[i].name == r.value && ps[j].name == r.value
  {
    if |ps| == 0 then None
    else
      var before := FirstDuplicate(ps[..|ps| - 1]);
      if before.Some? then
        assert forall i :: 0 <= i < |ps| - 1 ==> ps[..|ps| - 1][i] == ps[i];
        before
      else if ps[|ps| - 1].name in Names(ps[..|ps| - 1]) then
        var last := ps[|ps| - 1].name;
        var i :| 0 <= i < |ps| - 1 && ps[..|ps| - 1][i].name == last;
        assert ps[i].name == last;
        Some(last)
      else
        assert forall i :: 0 <= i < |ps| - 1 ==> ps[..|ps| - 1][i] == ps[i];
        None
  }

  /** The graph's edges, as pairs of names: a member whose name is in the
      map (selected, or sharing a selected member's name) depends on a
      package of the map. Dependencies on anything else add nothing. */
  function Edges(members: seq<Package>, names: set<string>): (r: set<(string, string)>)
    ensures forall a, b :: (a, b) in r <==>
      a in names && b in names && exists m, d :: m in members && m.name == a && d in m.deps && d.packageName == b
  {
    set m, d | m in members && m.name in names && d in m.deps && d.packageName in names :: (m.name, d.packageName)
  }

  /** `p` may be released now: it depends on none of the packages still waiting. */
  predicate Ready(p: Package, waiting: seq<Package>, edges: set<(string, string)>) {
    forall q :: q in waiting ==> (p.name, q.name) !in edges
  }

  /** Every dependency among the listed packages comes before its dependent. */
  predicate DepsFirst(order: seq<Package>, edges: set<(string, string)>) {
    forall i, j :: 0 <= i < |order| && 0 <= j < |order| && (order[j].name, order[i].name) in edges ==> i < j
  }

  /** A non-empty group in which everyone depends on someone of the group:
      no order can release it, and following dependencies inside it must
      come back to a package already seen, which is a cycle. */
  predicate Stuck(group: seq<Package>, edges: set<(string, string)>) {
    |group| > 0 && forall p :: p in group ==> exists q :: q in group && (p.name, q.name) in edges
  }

  ghost predicate HasCycle(nodes: seq<Package>, edges: set<(string, string)>) {
    exists group :: Stuck(group, edges) && forall p :: p in group ==> p in nodes
  }

  function FirstReady(waiting: seq<Package>, edges: set<(string, string)>): (r: Option<nat>)
    ensures r.Some? ==> r.value < |waiting| && Ready(waiting[r.value], waiting, edges)
    ensures r.None? ==> forall p :: p in waiting ==> !Ready(p, waiting, edges)
  {
    FirstReadyFrom(waiting, edges, 0)
  }

  function FirstReadyFrom(waiting: seq<Package>, edges: set<(string, string)>, k: nat): (r: Option<nat>)
    requires k <= |waiting|
    requires forall i :: 0 <= i < k ==> !Ready(waiting[i], waiting, edges)
    ensures r.Some? ==> r.value < |waiting| && Ready(waiting[r.value], waiting, edges)
    ensures r.None? ==> forall p :: p in waiting ==> !Ready(p, waiting, edges)
    decreases |waiting| - k
  {
    if k == |waiting| then None
    else if Ready(waiting[k], waiting, edges) then Some(k)
    else FirstReadyFrom(waiting, edges, k + 1)
  }

  datatype Sorted = Order(order: seq<Package>) | Cycle(group: seq<Package>)

  /** Nothing released so far depends on a package still waiting. */
  predicate Released(done: seq<Package>, waiting: seq<Package>, edges: set<(string, string)>) {
    && DepsFirst(done, edges)
    && forall j, q :: 0 <= j < |done| && q in waiting ==> (done[j].name, q.name) !in edges
  }

  /** Release a ready package, repeatedly; when none is ready, the waiting
      packages are stuck. */
  function Sort(done: seq<Package>, waiting: seq<Package>, edges: set<(string, string)>): (r: Sorted)
    requires Released(done, waiting, edges)
    ensures r.Order? ==> multiset(r.order) == multiset(done) + multiset(waiting) && DepsFirst(r.order, edges)
    ensures r.Cycle? ==> Stuck(r.group, edges) && forall p :: p in r.group ==> p in waiting
    decreases |waiting|
  {
    if |waiting| == 0 then Order(done)
    else
      var k := FirstReady(waiting, edges);
      if k.None? then Cycle(waiting)
      else
        var p := waiting[k.value];
        var rest := waiting[..k.value] + waiting[k.value + 1..];
        assert waiting == waiting[..k.value] + [p] + waiting[k.value + 1..];
        assert multiset(waiting) == multiset(rest) + multiset{p};
        ReleaseStep(done, waiting, p, rest, edges);
        Sort(done + [p], rest, edges)
  }

  lemma {:induction false} ReleaseStep(done: seq<Package>, waiting: seq<Package>, p: Package, rest: seq<Package>, edges: set<(string, string)>)
    requires Released(done, waiting, edges)
    requires p in waiting && Ready(p, waiting, edges)
    requires forall q :: q in rest ==> q in waiting
    ensures Released(done + [p], rest, edges)
  {
    var next := done + [p];
    forall i, j | 0 <= i < |next| && 0 <= j < |next| && (next[j].name, next[i].name) in edges
      ensures i < j
    {
      if j == |done| {
        if i == |done| {
          assert (p.name, p.name) !in edges;
        }
      } else if i == |done| {
        assert (done[j].name, p.name) !in edges;
      } else {
        assert next[i] == done[i] && next[j] == done[j];
      }
    }
  }

  /** `packages_to_release`: duplicate names among the selected members
      fail first; then the selected members come out dependencies first,
      or a package of a dependency cycle is named. */
  function PackagesToRelease(ws: Workspace, pred: Package -> bool): (r: Result<seq<Package>>)
    ensures var selected := Cascade.Filter(ws.members, pred);
      && (!DistinctNames(selected) ==> r.Err? && exists i :: 0 <= i < |selected| && r.error == DuplicateMessage(selected[i].name))
      && (r.Ok? ==> DistinctNames(selected) && multiset(r.value) == multiset(selected))
      && (r.Ok? ==> DepsFirst(r.value, Edges(ws.members, Names(selected))))
  {
    var selected := Cascade.Filter(ws.members, pred);
    var dup := FirstDuplicate(selected);
    if dup.Some? then Err(DuplicateMessage(dup.value))
    else
      var sorted := Sort([], selected, Edges(ws.members, Names(selected)));
      if sorted.Cycle? then Err(CycleMessage(sorted.group[0].name))
      else Ok(sorted.order)
  }

  /** The first selected package in an order that lies in a group. */
  lemma {:induction false} FirstInOrder(order: seq<Package>, group: seq<Package>)
    requires |group| > 0 && forall p :: p in group ==> p in order
    ensures exists k :: 0 <= k < |order| && order[k] in group && forall i :: 0 <= i < k ==> order[i] !in group
    decreases |order|
  {
    assert group[0] in order;
    if order[0] !in group {
      var tail := order[1..];
      forall p | p in group ensures p in tail {
        var j :| 0 <= j < |order| && order[j] == p;
        assert j != 0 && tail[j - 1] == p;
      }
      FirstInOrder(tail, group);
      var k :| 0 <= k < |tail| && tail[k] in group && forall i :: 0 <= i < k ==> tail[i] !in group;
      assert order[k + 1] == tail[k];
      forall i | 0 <= i < k + 1 ensures order[i] !in group {
        if i > 0 {
          assert order[i] == tail[i - 1];
        }
      }
      assert 0 <= k + 1 < |order| && order[k + 1] in group;
    } else {
      assert 0 < |order| && order[0] in group;
    }
  }

  /** An order with dependencies first has no stuck group among its packages. */
  lemma {:induction false} DepsFirstAcyclic(order: seq<Package>, edges: set<(string, string)>)
    requires DepsFirst(order, edges)
    ensures !HasCycle(order, edges)
  {
    if HasCycle(order, edges) {
      var group :| Stuck(group, edges) && forall p :: p in group ==> p in order;
      FirstInOrder(order, group);
    }
  }

  lemma {:induction false} SortStartsReleased(nodes: seq<Package>, edges: set<(string, string)>)
    ensures Released([], nodes, edges)
  {
  }

  /** A stuck group among some packages is one among any packages that
      include them. */
  lemma {:induction false} CycleCarries(nodes: seq<Package>, order: seq<Package>, edges: set<(string, string)>)
    requires forall p :: p in nodes ==> p in order
    requires HasCycle(nodes, edges)
    ensures HasCycle(order, edges)
  {
    var group :| Stuck(group, edges) && forall p :: p in group ==> p in nodes;
    assert Stuck(group, edges) && forall p :: p in group ==> p in order;
  }

  /** A sorted order means no stuck group. */
  lemma {:induction false} SortOkAcyclic(nodes: seq<Package>, edges: set<(string, string)>)
    requires Released([], nodes, edges)
    ensures Sort([], nodes, edges).Order? ==> !HasCycle(nodes, edges)
  {
    var sorted := Sort([], nodes, edges);
    if sorted.Order? {
      var order := sorted.order;
      assert multiset(order) == multiset(nodes);
      forall p | p in nodes
        ensures p in order
      {
        assert p in multiset(nodes);
      }
      DepsFirstAcyclic(order, edges);
      if HasCycle(nodes, edges) {
        CycleCarries(nodes, order, edges);
      }
    }
  }

  /** Sorting succeeds exactly when the packages have no stuck group. */
  lemma {:induction false} SortOkIffAcyclic(nodes: seq<Package>, edges: set<(string, string)>)
    ensures Released([], nodes, edges)
    ensures Sort([], nodes, edges).Order? <==> !HasCycle(nodes, edges)
  {
    SortStartsReleased(nodes, edges);
    SortOkAcyclic(nodes, edges);
    var sorted := Sort([], nodes, edges);
    if sorted.Cycle? {
      assert Stuck(sorted.group, edges) && forall p :: p in sorted.group ==> p in nodes;
    }
  }

  /** With distinct names the run fails exactly when the selected members'
      graph has a cycle. */
  lemma {:induction false} ReleaseOkIffAcyclic(ws: Workspace, pred: Package -> bool)
    requires DistinctNames(Cascade.Filter(ws.members, pred))
    ensures var selected := Cascade.Filter(ws.members, pred);
      PackagesToRelease(ws, pred).Ok? <==> !HasCycle(selected, Edges(ws.members, Names(selected)))
  {
    var selected := Cascade.Filter(ws.members, pred);
    SortOkIffAcyclic(selected, Edges(ws.members, Names(selected)));
  }

  lemma {:induction false} SelfLoopStuck(nodes: seq<Package>, edges: set<(string, string)>, m: Package)
    requires m in nodes && (m.name, m.name) in edges
    ensures HasCycle(nodes, edges)
  {
    assert Stuck([m], edges);
  }

  /** A selected member that depends on its own name makes the run fail. */
  lemma {:induction false} SelfDependencyFails(ws: Workspace, pred: Package -> bool, m: Package, d: Dependency)
    requires m in ws.members && pred(m) && d in m.deps && d.packageName == m.name
    ensures PackagesToRelease(ws, pred).Err?
  {
    var selected := Cascade.Filter(ws.members, pred);
    if DistinctNames(selected) {
      var names := Names(selected);
      var edges := Edges(ws.members, names);
      assert m in selected;
      var i :| 0 <= i < |selected| && selected[i] == m;
      assert m.name in names;
      assert (m.name, m.name) in edges;
      SelfLoopStuck(selected, edges, m);
      ReleaseOkIffAcyclic(ws, pred);
    }
  }

  /** With distinct names a failure names a package of a stuck group of
      selected members. */
  lemma {:induction false} CycleNamesStuckPackage(ws: Workspace, pred: Package -> bool)
    requires DistinctNames(Cascade.Filter(ws.members, pred))
    ensures var selected := Cascade.Filter(ws.members, pred);
      var r := PackagesToRelease(ws, pred);
      r.Err? ==> exists group: seq<Package> :: (Stuck(group, Edges(ws.members, Names(selected))) &&
        (forall p :: p in group ==> p in selected) && r.error == CycleMessage(group[0].name))
  {
    var selected := Cascade.Filter(ws.members, pred);
    SortStartsReleased(selected, Edges(ws.members, Names(selected)));
  }
}
