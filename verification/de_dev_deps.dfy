/** `deactivate_dev_dependencies` (src/commands/de_dev_deps.rs): drop the
    `dev-dependencies` section of every given manifest. */
module DeDevDeps {
  import opened Wrappers
  import opened Toml
  import opened Cargo
  import opened Store
  import Assoc

  /** One manifest without its `dev-dependencies` section. */
  function Deactivate(doc: Table): (r: Table)
    ensures !Assoc.HasKey(r, "dev-dependencies")
    ensures forall k :: k != "dev-dependencies" ==> Assoc.Get(r, k) == Assoc.Get(doc, k)
  {
    Assoc.Remove(doc, "dev-dependencies")
  }

  /** Dropping the section twice is dropping it once. */
  lemma {:induction false} DeactivateIdempotent(doc: Table)
    ensures Deactivate(Deactivate(doc)) == Deactivate(doc)
  {
    Assoc.RemoveAbsent(Deactivate(doc), "dev-dependencies");
  }

  /** The edit of the run: no result, the section gone. */
  function Edit(p: Package, doc: Table): Result<((), Table)> {
    Ok(((), Deactivate(doc)))
  }

  /** Every given manifest rewritten in order, whether or not it had the
      section; the only failure is a manifest that cannot be read. */
  function DeactivateAll(store: Store, pkgs: seq<Package>): (r: (Store, Result<()>))
    ensures r.0.Keys == store.Keys
    ensures r.1.Ok? <==> ManifestsPresent(store, pkgs)
  {
    var run := EditEach(store, pkgs, Edit);
    MissingManifestFails(store, pkgs);
    (run.store, if run.results.Err? then Err(run.results.error) else Ok(()))
  }

  lemma {:induction false} MissingManifestFails(store: Store, pkgs: seq<Package>)
    ensures EditEach(store, pkgs, Edit).results.Ok? <==> ManifestsPresent(store, pkgs)
    decreases |pkgs|
  {
    if |pkgs| > 0 {
      var path := pkgs[0].manifestPath;
      if path in store {
        var next := store[path := Deactivate(store[path])];
        MissingManifestFails(next, pkgs[1..]);
        assert ManifestsPresent(store, pkgs) <==> ManifestsPresent(next, pkgs[1..]) by {
          assert next.Keys == store.Keys;
          assert forall i :: 1 <= i < |pkgs| ==> pkgs[i] == pkgs[1..][i - 1];
        }
      } else {
        assert !ManifestsPresent(store, pkgs);
      }
    }
  }

  /** With one package per manifest, afterwards no given manifest has the
      section and every other top-level key keeps its contents. */
  lemma {:induction false} DeactivateAllRemoves(store: Store, pkgs: seq<Package>)
    requires DistinctManifests(pkgs)
    ensures var r := DeactivateAll(store, pkgs);
      r.1.Ok? ==> forall i :: 0 <= i < |pkgs| ==>
        && !Assoc.HasKey(r.0[pkgs[i].manifestPath], "dev-dependencies")
        && forall k :: k != "dev-dependencies" ==> Assoc.Get(r.0[pkgs[i].manifestPath], k) == Assoc.Get(store[pkgs[i].manifestPath], k)
  {
    EditEachPerManifest(store, pkgs, Edit);
  }

  /** A run over manifests that have no section left changes nothing. */
  lemma {:induction false} DeactivateAllAbsent(store: Store, pkgs: seq<Package>)
    requires forall i :: 0 <= i < |pkgs| && pkgs[i].manifestPath in store ==> !Assoc.HasKey(store[pkgs[i].manifestPath], "dev-dependencies")
    ensures DeactivateAll(store, pkgs).0 == store
    decreases |pkgs|
  {
    if |pkgs| > 0 {
      var path := pkgs[0].manifestPath;
      if path in store {
        Assoc.RemoveAbsent(store[path], "dev-dependencies");
        assert store[path := store[path]] == store;
        assert forall i :: 1 <= i < |pkgs| ==> pkgs[i] == pkgs[1..][i - 1];
        DeactivateAllAbsent(store, pkgs[1..]);
      }
    }
  }

  /** Running the command twice leaves the files as running it once. */
  lemma {:induction false} DeactivateAllIdempotent(store: Store, pkgs: seq<Package>)
    requires DistinctManifests(pkgs)
    ensures var once := DeactivateAll(store, pkgs);
      once.1.Ok? ==> DeactivateAll(once.0, pkgs).0 == once.0
  {
    var once := DeactivateAll(store, pkgs);
    if once.1.Ok? {
      DeactivateAllRemoves(store, pkgs);
      forall i | 0 <= i < |pkgs| && pkgs[i].manifestPath in once.0
        ensures !Assoc.HasKey(once.0[pkgs[i].manifestPath], "dev-dependencies")
      {
      }
      DeactivateAllAbsent(once.0, pkgs);
    }
  }

  /** With one package per manifest, a failed run failed at an unreadable
      manifest, and no later manifest was touched. */
  lemma {:induction false} DeactivateAllStops(store: Store, pkgs: seq<Package>)
    requires DistinctManifests(pkgs)
    ensures var r := DeactivateAll(store, pkgs);
      r.1.Err? ==> exists i :: (0 <= i < |pkgs| && pkgs[i].manifestPath !in store &&
        forall j :: i <= j < |pkgs| && pkgs[j].manifestPath in store ==> r.0[pkgs[j].manifestPath] == store[pkgs[j].manifestPath])
  {
    EditEachStops(store, pkgs, Edit);
  }
}
