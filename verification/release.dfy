/** `release` (src/commands/release.rs): publish the packages in the given
    order, pacing the uploads when there are many, and add an owner to each
    right after its upload. Publishing and the owners call are oracles; the
    run is described by the trace of events it performs. */
module Release {
  import opened Wrappers
  import opened Cargo
  import AddOwner

  /** The publish options: no verification, dirty trees allowed. */
  datatype PublishOpts = PublishOpts(verify: bool, allowDirty: bool, dryRun: bool, token: Option<string>)

  datatype Event =
    | Wait(seconds: nat)
    | Publish(pkg: Package, opts: PublishOpts)
    | AddOwnerCall(pkg: Package, owner: string)

  /** Publishing one package in its own ephemeral workspace. */
  type Publisher = (Package, PublishOpts) -> Result<()>

  /** Seconds to wait between uploads: up to 29 packages go out in a burst;
      more are paced so that no more than 30 are published in 10 minutes:
      the 30 waits among any 31 consecutive uploads exceed 600 seconds, and
      the delay is the shortest whole number of seconds that does so. */
  function Delay(count: nat): (d: nat)
    ensures d > 0 <==> count > 29
    ensures count <= 29 ==> d == 0
    ensures count > 29 ==> 30 * d > 600 && 30 * (d - 1) <= 600
  {
    if count > 29 then 21 else 0
  }

  function Options(dryRun: bool, token: Option<string>): (o: PublishOpts)
    ensures !o.verify && o.allowDirty && o.dryRun == dryRun && o.token == token
  {
    PublishOpts(false, true, dryRun, token)
  }

  /** The events of package k when nothing fails. */
  function StepsOf(packages: seq<Package>, k: nat, delay: nat, opts: PublishOpts, owner: Option<string>): seq<Event>
    requires k < |packages|
  {
    (if k > 0 && delay > 0 then [Wait(delay)] else [])
    + [Publish(packages[k], opts)]
    + (if owner.Some? then [AddOwnerCall(packages[k], owner.value)] else [])
  }

  /** The events of packages k.. when nothing fails. */
  function IdealFrom(packages: seq<Package>, k: nat, delay: nat, opts: PublishOpts, owner: Option<string>): seq<Event>
    requires k <= |packages|
    decreases |packages| - k
  {
    if k == |packages| then [] else StepsOf(packages, k, delay, opts, owner) + IdealFrom(packages, k + 1, delay, opts, owner)
  }

  datatype Run = Run(trace: seq<Event>, result: Result<()>)

  predicate PrefixOf(a: seq<Event>, b: seq<Event>) {
    |a| <= |b| && b[..|a|] == a
  }

  /** The event was a failed upload or a failed owner call. */
  predicate Failed(e: Event, publish: Publisher, owners: AddOwner.ModifyOwners, token: Option<string>) {
    || (e.Publish? && publish(e.pkg, e.opts).Err?)
    || (e.AddOwnerCall? && AddOwner.AddOwner(e.pkg, e.owner, token, owners).Err?)
  }

  /** Packages k.. in order; the first failed upload or owner call ends the
      run, with nothing undone. */
  function RunFrom(packages: seq<Package>, k: nat, delay: nat, opts: PublishOpts, owner: Option<string>,
                   publish: Publisher, owners: AddOwner.ModifyOwners): (r: Run)
    requires k <= |packages|
    ensures PrefixOf(r.trace, IdealFrom(packages, k, delay, opts, owner))
    ensures r.result.Ok? ==> r.trace == IdealFrom(packages, k, delay, opts, owner)
    ensures r.result.Err? ==> |r.trace| > 0 && Failed(r.trace[|r.trace| - 1], publish, owners, opts.token)
    decreases |packages| - k
  {
    if k == |packages| then Run([], Ok(()))
    else
      var steps := StepsOf(packages, k, delay, opts, owner);
      var later := IdealFrom(packages, k + 1, delay, opts, owner);
      var published := (if k > 0 && delay > 0 then [Wait(delay)] else []) + [Publish(packages[k], opts)];
      var own: seq<Event> := if owner.Some? then [AddOwnerCall(packages[k], owner.value)] else [];
      if publish(packages[k], opts).Err? then
        assert steps == published + own;
        PrefixOfThree(published, own, later);
        Run(published, Err(publish(packages[k], opts).error))
      else if owner.Some? && AddOwner.AddOwner(packages[k], owner.value, opts.token, owners).Err? then
        PrefixExtends(steps, later);
        Run(steps, AddOwner.AddOwner(packages[k], owner.value, opts.token, owners))
      else
        var rest := RunFrom(packages, k + 1, delay, opts, owner, publish, owners);
        PrefixCompose(steps, rest.trace, later);
        Run(steps + rest.trace, rest.result)
  }

  lemma {:induction false} PrefixExtends(a: seq<Event>, b: seq<Event>)
    ensures PrefixOf(a, a + b)
  {
    assert (a + b)[..|a|] == a;
  }

  lemma {:induction false} PrefixOfThree(a: seq<Event>, b: seq<Event>, c: seq<Event>)
    ensures PrefixOf(a, a + b + c)
  {
    assert (a + b + c)[..|a|] == a;
  }

  lemma {:induction false} PrefixCompose(s: seq<Event>, a: seq<Event>, b: seq<Event>)
    requires PrefixOf(a, b)
    ensures PrefixOf(s + a, s + b)
  {
    assert (s + b)[..|s + a|] == s + b[..|a|];
  }

  /** Every upload and owner call succeeds. */
  predicate AllSucceed(packages: seq<Package>, k: nat, opts: PublishOpts, owner: Option<string>,
                       publish: Publisher, owners: AddOwner.ModifyOwners) {
    forall i :: k <= i < |packages| ==>
      publish(packages[i], opts).Ok? && (owner.Some? ==> AddOwner.AddOwner(packages[i], owner.value, opts.token, owners).Ok?)
  }

  /** The run succeeds exactly when every upload and owner call does. */
  lemma {:induction false} RunFromOk(packages: seq<Package>, k: nat, delay: nat, opts: PublishOpts, owner: Option<string>,
                                     publish: Publisher, owners: AddOwner.ModifyOwners)
    requires k <= |packages|
    ensures RunFrom(packages, k, delay, opts, owner, publish, owners).result.Ok? <==> AllSucceed(packages, k, opts, owner, publish, owners)
    decreases |packages| - k
  {
    if k < |packages| {
      RunFromOk(packages, k + 1, delay, opts, owner, publish, owners);
    }
  }

  /** `release`: the delay chosen from the number of packages, publish
      options fixed but for dry-run and token, the owner token the same. */
  function ReleaseAll(packages: seq<Package>, dryRun: bool, token: Option<string>, owner: Option<string>,
                      publish: Publisher, owners: AddOwner.ModifyOwners): (r: Run)
    ensures PrefixOf(r.trace, IdealFrom(packages, 0, Delay(|packages|), Options(dryRun, token), owner))
    ensures r.result.Ok? ==> r.trace == IdealFrom(packages, 0, Delay(|packages|), Options(dryRun, token), owner)
    ensures r.result.Err? ==> |r.trace| > 0 && Failed(r.trace[|r.trace| - 1], publish, owners, token)
  {
    RunFrom(packages, 0, Delay(|packages|), Options(dryRun, token), owner, publish, owners)
  }

  function Published(trace: seq<Event>): seq<Package> {
    if |trace| == 0 then []
    else (if trace[0].Publish? then [trace[0].pkg] else []) + Published(trace[1..])
  }

  function Waits(trace: seq<Event>): nat {
    if |trace| == 0 then 0
    else (if trace[0].Wait? then 1 else 0) + Waits(trace[1..])
  }

  lemma {:induction false} CountsAppend(a: seq<Event>, b: seq<Event>)
    ensures Published(a + b) == Published(a) + Published(b)
    ensures Waits(a + b) == Waits(a) + Waits(b)
    decreases |a|
  {
    if |a| == 0 {
      assert a + b == b;
    } else {
      var ab := a + b;
      assert ab[0] == a[0] && ab[1..] == a[1..] + b;
      CountsAppend(a[1..], b);
      var head: seq<Package> := if a[0].Publish? then [a[0].pkg] else [];
      assert Published(ab) == head + (Published(a[1..]) + Published(b));
      assert Published(a) == head + Published(a[1..]);
      assert head + (Published(a[1..]) + Published(b)) == (head + Published(a[1..])) + Published(b);
    }
  }

  /** A full run uploads every package once, in the given order, and waits
      once before each upload but the first when the delay is positive. */
  lemma {:induction false} IdealPublishesInOrder(packages: seq<Package>, k: nat, delay: nat, opts: PublishOpts, owner: Option<string>)
    requires k <= |packages|
    ensures Published(IdealFrom(packages, k, delay, opts, owner)) == packages[k..]
    ensures Waits(IdealFrom(packages, k, delay, opts, owner)) ==
      if delay == 0 then 0 else if k == 0 && |packages| > 0 then |packages| - 1 else |packages| - k
    decreases |packages| - k
  {
    if k < |packages| {
      var steps := StepsOf(packages, k, delay, opts, owner);
      StepsCounts(packages, k, delay, opts, owner);
      IdealPublishesInOrder(packages, k + 1, delay, opts, owner);
      CountsAppend(steps, IdealFrom(packages, k + 1, delay, opts, owner));
      assert packages[k..] == [packages[k]] + packages[k + 1..];
    }
  }

  /** The steps for one package upload it once and wait at most once. */
  lemma {:induction false} StepsCounts(packages: seq<Package>, k: nat, delay: nat, opts: PublishOpts, owner: Option<string>)
    requires k < |packages|
    ensures Published(StepsOf(packages, k, delay, opts, owner)) == [packages[k]]
    ensures Waits(StepsOf(packages, k, delay, opts, owner)) == if k > 0 && delay > 0 then 1 else 0
  {
    var wait: seq<Event> := if k > 0 && delay > 0 then [Wait(delay)] else [];
    var own: seq<Event> := if owner.Some? then [AddOwnerCall(packages[k], owner.value)] else [];
    assert StepsOf(packages, k, delay, opts, owner) == wait + [Publish(packages[k], opts)] + own;
    CountsAppend(wait + [Publish(packages[k], opts)], own);
    CountsAppend(wait, [Publish(packages[k], opts)]);
    assert Published([Publish(packages[k], opts)]) == [packages[k]];
    assert Waits([Publish(packages[k], opts)]) == 0;
    assert Published(own) == [] && Waits(own) == 0;
  }

  /** The first event of a run is never a wait. */
  lemma {:induction false} NoWaitFirst(packages: seq<Package>, delay: nat, opts: PublishOpts, owner: Option<string>)
    requires |packages| > 0
    ensures IdealFrom(packages, 0, delay, opts, owner)[0] == Publish(packages[0], opts)
  {
  }

  predicate OwnerAfterPublish(t: seq<Event>, owner: string) {
    forall i :: 0 <= i < |t| && t[i].Publish? ==> i + 1 < |t| && t[i + 1] == AddOwnerCall(t[i].pkg, owner)
  }

  /** With an owner, each upload is followed at once by that package's
      owner call. */
  lemma {:induction false} OwnerFollowsPublish(packages: seq<Package>, k: nat, delay: nat, opts: PublishOpts, owner: Option<string>)
    requires k <= |packages| && owner.Some?
    ensures OwnerAfterPublish(IdealFrom(packages, k, delay, opts, owner), owner.value)
    decreases |packages| - k
  {
    if k < |packages| {
      OwnerFollowsPublish(packages, k + 1, delay, opts, owner);
      var steps := StepsOf(packages, k, delay, opts, owner);
      var rest := IdealFrom(packages, k + 1, delay, opts, owner);
      var t := steps + rest;
      var wait: seq<Event> := if k > 0 && delay > 0 then [Wait(delay)] else [];
      assert steps == wait + [Publish(packages[k], opts), AddOwnerCall(packages[k], owner.value)];
      forall i | 0 <= i < |t| && t[i].Publish? ensures i + 1 < |t| && t[i + 1] == AddOwnerCall(t[i].pkg, owner.value) {
        if i < |steps| {
          assert i == |wait|;
          assert t[i] == Publish(packages[k], opts) && t[i + 1] == AddOwnerCall(packages[k], owner.value);
        } else {
          var j := i - |steps|;
          assert t[i] == rest[j];
          assert rest[j].Publish?;
          assert OwnerAfterPublish(rest, owner.value);
          assert j + 1 < |rest| && rest[j + 1] == AddOwnerCall(rest[j].pkg, owner.value);
          assert t[i + 1] == rest[j + 1];
        }
      }
    }
  }
}
