/** The ownership predicate: a range belongs to a single owner, who alone may
    start an exit and whose signature on a later committed update deprecates
    an exit of the old state. */
module Ownership {
  import opened PlasmaTypes
  import CommitmentChain

  datatype OwnershipDeprecationWitness =
    OwnershipDeprecationWitness(nextStateUpdate: StateUpdate, signature: Address, inclusionWitness: Witness)

  /** Only the owner may submit an exit. */
  function CanInitiateExit(su: StateUpdate, initiationWitness: Address): (r: Outcome)
    requires su.state.OwnershipState?
    ensures r.Pass? <==> initiationWitness == su.state.owner
    ensures r.Fail? ==> r.error == ExitNotAuthorized
  {
    if su.state.owner == initiationWitness then Pass else Fail(ExitNotAuthorized)
  }

  /** Checks, in this order, that `stateId` lies in the superseding update's
      range, that the superseding update is included in the chain for the
      parent contract, and that the exited state's owner signed it. Nothing
      ties `stateId` to the exited range, and no block order is checked. */
  function VerifyDeprecation(blocks: seq<CommitmentChain.Block>, parent: Address, stateId: int,
                             su: StateUpdate, w: OwnershipDeprecationWitness): (r: Outcome)
    requires su.state.OwnershipState?
    ensures r.Pass? <==>
      && w.nextStateUpdate.start <= stateId < w.nextStateUpdate.end
      && CommitmentChain.Recorded(blocks, w.nextStateUpdate, parent)
      && su.state.owner == w.signature
    ensures !(w.nextStateUpdate.start <= stateId < w.nextStateUpdate.end) ==> r == Fail(StateIdNotInNextRange)
    ensures w.nextStateUpdate.start <= stateId < w.nextStateUpdate.end ==>
      var included := CommitmentChain.VerifyInclusion(blocks, w.nextStateUpdate, parent, w.inclusionWitness);
      && (included.Err? ==> r == Fail(included.error))
      && (included == Ok(false) ==> r == Fail(InclusionProofInvalid))
      && (included == Ok(true) && su.state.owner != w.signature ==> r == Fail(SignatureMismatch))
  {
    if !(w.nextStateUpdate.start <= stateId && w.nextStateUpdate.end > stateId) then
      Fail(StateIdNotInNextRange)
    else match CommitmentChain.VerifyInclusion(blocks, w.nextStateUpdate, parent, w.inclusionWitness)
      case Err(e) => Fail(e)
      case Ok(included) =>
        if !included then Fail(InclusionProofInvalid)
        else if su.state.owner != w.signature then Fail(SignatureMismatch)
        else Pass
  }

  /** As written, an exit can be deprecated at a position it does not cover,
      by an update committed no later than the exit's own: here the exited
      range is [0, 10) at block 1, the "superseding" update covers [20, 30)
      at block 0, and position 25 is accepted. */
  lemma DeprecationIgnoresExitedRangeAndOrder(owner: Address, parent: Address)
    ensures var exited := StateUpdate(OwnershipState(owner), 0, 10, 1);
            var next := StateUpdate(OwnershipState(parent), 20, 30, 0);
            var blocks := [map[parent := [next]]];
            && !(exited.start <= 25 < exited.end)
            && next.plasmaBlockNumber < exited.plasmaBlockNumber
            && VerifyDeprecation(blocks, parent, 25, exited, OwnershipDeprecationWitness(next, owner, "")) == Pass
  {
    var next := StateUpdate(OwnershipState(parent), 20, 30, 0);
    var blocks := [map[parent := [next]]];
    assert CommitmentChain.Recorded(blocks, next, parent);
  }

  /** The payout: the predicate transfers the exited width to the owner. */
  function FinalizeExit(e: Exit): (call: LedgerCall)
    requires e.stateUpdate.state.OwnershipState?
    ensures call.TransferFrom?
    ensures call.from == PredicateAccount(OwnershipPredicate)
    ensures call.to == Addr(e.stateUpdate.state.owner)
    ensures call.amount == e.stateUpdate.end - e.stateUpdate.start
  {
    TransferFrom(PredicateAccount(OwnershipPredicate), Addr(e.stateUpdate.state.owner),
                 e.stateUpdate.end - e.stateUpdate.start)
  }

  function GetAdditionalLockup(s: State): (r: int)
    ensures r == 0
  {
    0
  }
}
