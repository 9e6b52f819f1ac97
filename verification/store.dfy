/** `edit_each` of src/util.rs: read each package's manifest, run an edit on
    the document, write it back; stop at the first failure. The file system
    is a map from manifest path to the manifest's table tree. */
module Store {
  import opened Wrappers
  import opened Toml
  import opened Paths
  import opened Cargo

  type Store = map<Path, Table>

  /** The error of reading or parsing a manifest that is not in the store. */
  const ManifestUnreadable: string := "failed to read manifest"

  /** An edit: the package and its document in, a result and the edited
      document out; `Err` when the edit fails. */
  type Edit<R> = (Package, Table) -> Result<(R, Table)>

  /** The store after the run and the edits' results, or the first error. */
  datatype Edited<R> = Edited(store: Store, results: Result<seq<R>>)

  predicate ManifestsPresent(store: Store, pkgs: seq<Package>) {
    forall i :: 0 <= i < |pkgs| ==> pkgs[i].manifestPath in store
  }

  predicate NotAManifestOf(p: Path, pkgs: seq<Package>) {
    forall i :: 0 <= i < |pkgs| ==> pkgs[i].manifestPath != p
  }

  /** Manifests are edited and written back one package at a time, each
      written even when the edit left it as it was; the first failure ends
      the run with the earlier manifests already written. No file appears,
      and files that are no package's manifest keep their contents. */
  function EditEach<R>(store: Store, pkgs: seq<Package>, f: Edit<R>): (r: Edited<R>)
    ensures r.store.Keys == store.Keys
    ensures forall p :: p in store && NotAManifestOf(p, pkgs) ==> r.store[p] == store[p]
    ensures r.results.Ok? ==> |r.results.value| == |pkgs| && ManifestsPresent(store, pkgs)
    decreases |pkgs|
  {
    if |pkgs| == 0 then Edited(store, Ok([]))
    else
      var path := pkgs[0].manifestPath;
      if path !in store then Edited(store, Err(ManifestUnreadable))
      else
        var out := f(pkgs[0], store[path]);
        if out.Err? then Edited(store, Err(out.error))
        else
          var rest := EditEach(store[path := out.value.1], pkgs[1..], f);
          assert forall i :: 1 <= i < |pkgs| ==> pkgs[i] == pkgs[1..][i - 1];
          Edited(rest.store, if rest.results.Err? then rest.results else Ok([out.value.0] + rest.results.value))
  }

  /** Running over `a + b` is running over `a`, then over `b` on the store it
      left behind; a failure in `a` skips `b`. */
  lemma {:induction false} EditEachAppend<R>(store: Store, a: seq<Package>, b: seq<Package>, f: Edit<R>)
    ensures EditEach(store, a + b, f) ==
      var ra := EditEach(store, a, f);
      if ra.results.Err? then ra
      else
        var rb := EditEach(ra.store, b, f);
        Edited(rb.store, if rb.results.Err? then rb.results else Ok(ra.results.value + rb.results.value))
    decreases |a|
  {
    if |a| == 0 {
      assert a + b == b;
      var rb := EditEach(store, b, f);
      if rb.results.Ok? {
        assert [] + rb.results.value == rb.results.value;
      }
    } else {
      assert (a + b)[0] == a[0];
      assert (a + b)[1..] == a[1..] + b;
      var path := a[0].manifestPath;
      if path in store && f(a[0], store[path]).Ok? {
        var out := f(a[0], store[path]);
        EditEachAppend(store[path := out.value.1], a[1..], b, f);
        var ra := EditEach(store[path := out.value.1], a[1..], f);
        if ra.results.Ok? {
          var rb := EditEach(ra.store, b, f);
          if rb.results.Ok? {
            assert [out.value.0] + (ra.results.value + rb.results.value) == ([out.value.0] + ra.results.value) + rb.results.value;
          }
        }
      }
    }
  }

  /** An edit that never changes the document leaves every file as it was. */
  lemma {:induction false} EditEachReadOnly<R>(store: Store, pkgs: seq<Package>, f: Edit<R>)
    requires forall p, d :: f(p, d).Ok? ==> f(p, d).value.1 == d
    ensures EditEach(store, pkgs, f).store == store
    decreases |pkgs|
  {
    if |pkgs| > 0 {
      var path := pkgs[0].manifestPath;
      if path in store && f(pkgs[0], store[path]).Ok? {
        assert store[path := store[path]] == store;
        EditEachReadOnly(store, pkgs[1..], f);
      }
    }
  }

  predicate DistinctManifests(pkgs: seq<Package>) {
    forall i, j :: 0 <= i < j < |pkgs| ==> pkgs[i].manifestPath != pkgs[j].manifestPath
  }

  /** With one package per manifest, a successful run leaves each manifest as
      its own edit made it from the original contents, and the i-th result
      is that edit's result. */
  lemma {:induction false} EditEachPerManifest<R>(store: Store, pkgs: seq<Package>, f: Edit<R>)
    requires DistinctManifests(pkgs)
    ensures var r := EditEach(store, pkgs, f);
      r.results.Ok? ==> forall i :: 0 <= i < |pkgs| ==>
        && f(pkgs[i], store[pkgs[i].manifestPath]).Ok?
        && r.store[pkgs[i].manifestPath] == f(pkgs[i], store[pkgs[i].manifestPath]).value.1
        && r.results.value[i] == f(pkgs[i], store[pkgs[i].manifestPath]).value.0
  {
    forall i | 0 <= i < |pkgs| {
      EditEachAt(store, pkgs, f, i);
    }
  }

  /** `EditEachPerManifest` for one package. */
  lemma {:induction false} EditEachAt<R>(store: Store, pkgs: seq<Package>, f: Edit<R>, i: nat)
    requires DistinctManifests(pkgs) && i < |pkgs|
    ensures var r := EditEach(store, pkgs, f);
      r.results.Ok? ==>
        && f(pkgs[i], store[pkgs[i].manifestPath]).Ok?
        && r.store[pkgs[i].manifestPath] == f(pkgs[i], store[pkgs[i].manifestPath]).value.1
        && r.results.value[i] == f(pkgs[i], store[pkgs[i].manifestPath]).value.0
    decreases |pkgs|
  {
    var r := EditEach(store, pkgs, f);
    if r.results.Ok? {
      var path := pkgs[0].manifestPath;
      var out := f(pkgs[0], store[path]);
      var next := store[path := out.value.1];
      var tail := pkgs[1..];
      DistinctTail(pkgs);
      var rest := EditEach(next, tail, f);
      EditEachFirst(store, pkgs, f);
      if i == 0 {
        assert rest.store[path] == next[path];
      } else {
        EditEachAt(next, tail, f, i - 1);
        assert pkgs[i] == tail[i - 1];
        assert next[pkgs[i].manifestPath] == store[pkgs[i].manifestPath];
      }
    }
  }

  /** A run that succeeds edited the first manifest and then succeeded on
      the rest. */
  lemma {:induction false} EditEachFirst<R>(store: Store, pkgs: seq<Package>, f: Edit<R>)
    requires |pkgs| > 0 && EditEach(store, pkgs, f).results.Ok?
    ensures pkgs[0].manifestPath in store && f(pkgs[0], store[pkgs[0].manifestPath]).Ok?
    ensures var out := f(pkgs[0], store[pkgs[0].manifestPath]).value;
      var rest := EditEach(store[pkgs[0].manifestPath := out.1], pkgs[1..], f);
      rest.results.Ok? && EditEach(store, pkgs, f) == Edited(rest.store, Ok([out.0] + rest.results.value))
  {
  }

  /** Packages that share a manifest are the same package, as the repeated
      entries of `members_deep` are. */
  predicate ConsistentManifests(pkgs: seq<Package>) {
    forall i, j :: 0 <= i < |pkgs| && 0 <= j < |pkgs| && pkgs[i].manifestPath == pkgs[j].manifestPath ==> pkgs[i] == pkgs[j]
  }

  /** Running an edit again on the document it produced changes nothing and
      gives the same result. */
  ghost predicate Idempotent<R>(f: Edit<R>) {
    forall p, d :: f(p, d).Ok? ==> f(p, f(p, d).value.1) == f(p, d)
  }

  /** `EditEachAt` where a package may occur more than once: since the edit
      is idempotent, the repeats leave its manifest and result as the first
      edit made them. */
  lemma {:induction false} EditEachAtShared<R>(store: Store, pkgs: seq<Package>, f: Edit<R>, i: nat)
    requires ConsistentManifests(pkgs) && Idempotent(f) && i < |pkgs|
    ensures var r := EditEach(store, pkgs, f);
      r.results.Ok? ==>
        && f(pkgs[i], store[pkgs[i].manifestPath]).Ok?
        && r.store[pkgs[i].manifestPath] == f(pkgs[i], store[pkgs[i].manifestPath]).value.1
        && r.results.value[i] == f(pkgs[i], store[pkgs[i].manifestPath]).value.0
    decreases |pkgs|, 1
  {
    if EditEach(store, pkgs, f).results.Ok? {
      if i == 0 {
        SharedAtFirst(store, pkgs, f);
      } else {
        SharedAtLater(store, pkgs, f, i);
      }
    }
  }

  /** The conclusion of `EditEachAtShared` for the i-th package. */
  ghost predicate SharedAt<R>(store: Store, pkgs: seq<Package>, f: Edit<R>, i: nat)
    requires i < |pkgs|
  {
    var r := EditEach(store, pkgs, f);
    r.results.Ok? ==>
      && pkgs[i].manifestPath in store
      && f(pkgs[i], store[pkgs[i].manifestPath]).Ok?
      && r.store[pkgs[i].manifestPath] == f(pkgs[i], store[pkgs[i].manifestPath]).value.1
      && r.results.value[i] == f(pkgs[i], store[pkgs[i].manifestPath]).value.0
  }

  /** The first package: a later visit to its manifest repeats an edit that
      changes nothing any more. */
  lemma {:induction false} SharedAtFirst<R>(store: Store, pkgs: seq<Package>, f: Edit<R>)
    requires ConsistentManifests(pkgs) && Idempotent(f) && |pkgs| > 0
    requires EditEach(store, pkgs, f).results.Ok?
    ensures SharedAt(store, pkgs, f, 0)
    decreases |pkgs|, 0
  {
    EditEachFirst(store, pkgs, f);
    var path := pkgs[0].manifestPath;
    var out := f(pkgs[0], store[path]);
    var next := store[path := out.value.1];
    var tail := pkgs[1..];
    ConsistentTail(pkgs);
    assert f(pkgs[0], next[path]) == out;
    if j :| 0 <= j < |tail| && tail[j].manifestPath == path {
      assert tail[j] == pkgs[j + 1] == pkgs[0];
      EditEachAtShared(next, tail, f, j);
    } else {
      assert NotAManifestOf(path, tail);
    }
  }

  /** A later package: its manifest is either the first one's, edited again
      to the same effect, or untouched by the first edit. */
  lemma {:induction false} SharedAtLater<R>(store: Store, pkgs: seq<Package>, f: Edit<R>, i: nat)
    requires ConsistentManifests(pkgs) && Idempotent(f) && 0 < i < |pkgs|
    requires EditEach(store, pkgs, f).results.Ok?
    ensures SharedAt(store, pkgs, f, i)
    decreases |pkgs|, 0
  {
    EditEachFirst(store, pkgs, f);
    var path := pkgs[0].manifestPath;
    var out := f(pkgs[0], store[path]);
    var next := store[path := out.value.1];
    var tail := pkgs[1..];
    ConsistentTail(pkgs);
    EditEachAtShared(next, tail, f, i - 1);
    assert pkgs[i] == tail[i - 1];
    if pkgs[i].manifestPath == path {
      assert pkgs[i] == pkgs[0];
      assert f(pkgs[0], next[path]) == out;
    } else {
      assert next[pkgs[i].manifestPath] == store[pkgs[i].manifestPath];
    }
  }

  lemma {:induction false} ConsistentTail(pkgs: seq<Package>)
    requires |pkgs| > 0 && ConsistentManifests(pkgs)
    ensures ConsistentManifests(pkgs[1..])
  {
    var tail := pkgs[1..];
    forall i, j | 0 <= i < |tail| && 0 <= j < |tail| && tail[i].manifestPath == tail[j].manifestPath
      ensures tail[i] == tail[j]
    {
      assert tail[i] == pkgs[i + 1] && tail[j] == pkgs[j + 1];
    }
  }

  /** Dropping the first package keeps the manifests distinct, and none of
      the others shares the first one's manifest. */
  lemma {:induction false} DistinctTail(pkgs: seq<Package>)
    requires |pkgs| > 0 && DistinctManifests(pkgs)
    ensures DistinctManifests(pkgs[1..]) && NotAManifestOf(pkgs[0].manifestPath, pkgs[1..])
  {
    var tail := pkgs[1..];
    forall i, j | 0 <= i < j < |tail| ensures tail[i].manifestPath != tail[j].manifestPath {
      assert tail[i] == pkgs[i + 1] && tail[j] == pkgs[j + 1];
    }
    forall i | 0 <= i < |tail| ensures tail[i].manifestPath != pkgs[0].manifestPath {
      assert tail[i] == pkgs[i + 1];
    }
  }

  /** When the edit's result depends on the package alone, a successful run
      yields that result for each package in order. */
  lemma {:induction false} EditEachResultsBy<R>(store: Store, pkgs: seq<Package>, f: Edit<R>, g: Package -> R)
    requires forall p, d :: f(p, d).Ok? ==> f(p, d).value.0 == g(p)
    ensures var r := EditEach(store, pkgs, f);
      r.results.Ok? ==> forall i :: 0 <= i < |pkgs| ==> r.results.value[i] == g(pkgs[i])
    decreases |pkgs|
  {
    var r := EditEach(store, pkgs, f);
    if |pkgs| > 0 && r.results.Ok? {
      var path := pkgs[0].manifestPath;
      var out := f(pkgs[0], store[path]);
      EditEachResultsBy(store[path := out.value.1], pkgs[1..], f, g);
      var rest := EditEach(store[path := out.value.1], pkgs[1..], f);
      assert r.results.value == [out.value.0] + rest.results.value;
      forall i | 1 <= i < |pkgs| ensures r.results.value[i] == g(pkgs[i]) {
        assert pkgs[i] == pkgs[1..][i - 1];
      }
    }
  }

  /** The run fails at package i with error e: its manifest is missing, or
      its edit fails with e on the manifest as it was before the run. */
  predicate FailsAt<R>(store: Store, pkgs: seq<Package>, f: Edit<R>, i: int, e: string) {
    && 0 <= i < |pkgs|
    && if pkgs[i].manifestPath !in store then e == ManifestUnreadable
       else f(pkgs[i], store[pkgs[i].manifestPath]) == Err(e)
  }

  /** With one package per manifest, a failed run failed at some package
      with that package's error, and that package's manifest and every later one are as they were. */
  lemma {:induction false} EditEachStops<R>(store: Store, pkgs: seq<Package>, f: Edit<R>)
    requires DistinctManifests(pkgs)
    ensures var r := EditEach(store, pkgs, f);
      r.results.Err? ==> exists i :: (FailsAt(store, pkgs, f, i, r.results.error) &&
        forall j :: i <= j < |pkgs| && pkgs[j].manifestPath in store ==> r.store[pkgs[j].manifestPath] == store[pkgs[j].manifestPath])
    decreases |pkgs|
  {
    var r := EditEach(store, pkgs, f);
    if |pkgs| > 0 && r.results.Err? {
      var path := pkgs[0].manifestPath;
      if path !in store || f(pkgs[0], store[path]).Err? {
        assert FailsAt(store, pkgs, f, 0, r.results.error);
      } else {
        var out := f(pkgs[0], store[path]);
        var next := store[path := out.value.1];
        var tail := pkgs[1..];
        assert DistinctManifests(tail) by {
          forall a, b | 0 <= a < b < |tail| ensures tail[a].manifestPath != tail[b].manifestPath {
            assert tail[a] == pkgs[a + 1] && tail[b] == pkgs[b + 1];
          }
        }
        EditEachStops(next, tail, f);
        var i :| (FailsAt(next, tail, f, i, r.results.error) &&
          forall j :: i <= j < |tail| && tail[j].manifestPath in next ==> r.store[tail[j].manifestPath] == next[tail[j].manifestPath]);
        assert tail[i] == pkgs[i + 1] && pkgs[i + 1].manifestPath != path;
        assert FailsAt(store, pkgs, f, i + 1, r.results.error);
        forall j | i + 1 <= j < |pkgs| && pkgs[j].manifestPath in store
          ensures r.store[pkgs[j].manifestPath] == store[pkgs[j].manifestPath]
        {
          assert pkgs[j] == tail[j - 1] && pkgs[j].manifestPath != path;
        }
      }
    }
  }

  /** With one package per manifest, a run succeeds exactly when every
      manifest can be read and its edit succeeds on its original contents. */
  lemma {:induction false} EditEachOk<R>(store: Store, pkgs: seq<Package>, f: Edit<R>)
    requires DistinctManifests(pkgs)
    ensures EditEach(store, pkgs, f).results.Ok? <==>
      forall i :: 0 <= i < |pkgs| ==> pkgs[i].manifestPath in store && f(pkgs[i], store[pkgs[i].manifestPath]).Ok?
  {
    EditEachPerManifest(store, pkgs, f);
    EditEachStops(store, pkgs, f);
  }
}
