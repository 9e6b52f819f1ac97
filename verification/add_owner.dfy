/** `add_owner` (src/commands/add_owner.rs): ask the registry to add one
    owner to a crate; being an owner already is not a failure. The registry
    call (`modify_owners`) is an oracle. */
module AddOwner {
  import opened Wrappers
  import opened Strings
  import opened Cargo

  /** The owners request: crate, owners to add and remove, whether to list. */
  datatype OwnersRequest = OwnersRequest(
    token: Option<string>,
    krate: Option<string>,
    toAdd: Option<seq<string>>,
    toRemove: Option<seq<string>>,
    list: bool)

  type ModifyOwners = OwnersRequest -> Result<()>

  const AlreadyOwner := "is already an owner"

  /** The request for one new owner of one package: it names the package,
      adds exactly that owner, removes nobody and lists nothing. */
  function RequestFor(p: Package, newOwner: string, token: Option<string>): (q: OwnersRequest)
    ensures q.krate == Some(p.name) && q.toAdd == Some([newOwner]) && q.toRemove.None? && !q.list && q.token == token
  {
    OwnersRequest(token, Some(p.name), Some([newOwner]), None, false)
  }

  /** The registry's error, unless it only says the owner is one already. */
  function AddOwner(p: Package, newOwner: string, token: Option<string>, owners: ModifyOwners): (r: Result<()>)
    ensures var answer := owners(RequestFor(p, newOwner, token));
      && (r.Ok? <==> answer.Ok? || EndsWith(answer.error, AlreadyOwner))
      && (r.Err? ==> r.error == answer.error)
  {
    var answer := owners(RequestFor(p, newOwner, token));
    if answer.Err? && !EndsWith(answer.error, AlreadyOwner) then Err(answer.error) else Ok(())
  }

  /** Adding an owner a second time, when the registry answers that the
      owner is one already, succeeds like the first time. */
  lemma {:induction false} AlreadyOwnerAccepted(p: Package, newOwner: string, token: Option<string>, owners: ModifyOwners, prefix: string)
    requires owners(RequestFor(p, newOwner, token)) == Err(prefix + AlreadyOwner)
    ensures AddOwner(p, newOwner, token, owners).Ok?
  {
    var e := prefix + AlreadyOwner;
    assert e[|e| - |AlreadyOwner|..] == AlreadyOwner;
  }
}
