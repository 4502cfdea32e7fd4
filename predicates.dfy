/** Dispatch from a state to the predicate that governs it. The contract
    calls `state.predicate.<method>(...)`; here the closed union `State`
    picks the ownership or the multisig rules. */
module Predicates {
  import opened PlasmaTypes
  import CommitmentChain
  import Ownership
  import MultiSig

  /** A deprecation witness is the witness class of one predicate or the other. */
  datatype DeprecationWitness =
    | OwnershipWitness(ownership: Ownership.OwnershipDeprecationWitness)
    | MultiSigWitness(multiSig: MultiSig.MultiSigDeprecationWitness)
  {
    function Next(): StateUpdate
    {
      if OwnershipWitness? then ownership.nextStateUpdate else multiSig.nextStateCommitment
    }
  }

  /** Ownership states need the owner as witness; multisig states need nothing. */
  function CanInitiateExit(su: StateUpdate, initiationWitness: Address): (r: Outcome)
    ensures r.Pass? <==> (su.state.OwnershipState? ==> su.state.owner == initiationWitness)
    ensures r.Fail? ==> r.error == ExitNotAuthorized
  {
    match su.state
    case OwnershipState(_) => Ownership.CanInitiateExit(su, initiationWitness)
    case MultiSigState(_) => MultiSig.CanInitiateExit(su, initiationWitness)
  }

  /** A deprecation succeeds exactly when the witness belongs to the state's
      own predicate and that predicate's checks hold. A witness of the other
      class lacks the attributes read, so Python raises as soon as one is
      read: at once for an ownership state, and after the exited-range check
      for a multisig state. */
  function VerifyDeprecation(blocks: seq<CommitmentChain.Block>, parent: Address, stateId: int,
                             su: StateUpdate, w: DeprecationWitness): (r: Outcome)
    ensures su.state.OwnershipState? && w.MultiSigWitness? ==> r == Fail(WitnessKindMismatch)
    ensures su.state.MultiSigState? && w.OwnershipWitness? ==>
      r == if su.start <= stateId < su.end then Fail(WitnessKindMismatch) else Fail(StateIdNotInExitRange)
    ensures su.state.OwnershipState? && w.OwnershipWitness? ==>
      (r.Pass? <==>
         && w.Next().start <= stateId < w.Next().end
         && CommitmentChain.Recorded(blocks, w.Next(), parent)
         && su.state.owner == w.ownership.signature)
    ensures su.state.MultiSigState? && w.MultiSigWitness? ==>
      (r.Pass? <==>
         && su.start <= stateId < su.end
         && w.Next().start <= stateId < w.Next().end
         && CommitmentChain.Recorded(blocks, w.Next(), parent)
         && su.state.recipients == w.multiSig.signatures
         && su.plasmaBlockNumber < w.Next().plasmaBlockNumber)
    ensures r.Pass? ==>
      && w.Next().start <= stateId < w.Next().end
      && CommitmentChain.Recorded(blocks, w.Next(), parent)
  {
    match w
    case OwnershipWitness(ow) =>
      if su.state.OwnershipState? then Ownership.VerifyDeprecation(blocks, parent, stateId, su, ow)
      else if !(su.start <= stateId && su.end > stateId) then Fail(StateIdNotInExitRange)
      else Fail(WitnessKindMismatch)
    case MultiSigWitness(mw) =>
      if su.state.MultiSigState? then MultiSig.VerifyDeprecation(blocks, parent, stateId, su, mw)
      else Fail(WitnessKindMismatch)
  }

  /** Neither predicate adds lockup beyond the dispute period. */
  function GetAdditionalLockup(s: State): (r: int)
    ensures r == 0
  {
    match s
    case OwnershipState(_) => Ownership.GetAdditionalLockup(s)
    case MultiSigState(_) => MultiSig.GetAdditionalLockup(s)
  }

  /** The predicate's payout when an exit is finalized: the ownership
      predicate pays the exited width to the owner; the multisig predicate's
      finalize_exit raises before paying anything. */
  function FinalizeExit(e: Exit): (r: Result<LedgerCall>)
    ensures e.stateUpdate.state.OwnershipState? ==>
      r == Ok(TransferFrom(PredicateAccount(OwnershipPredicate), Addr(e.stateUpdate.state.owner),
                           e.stateUpdate.end - e.stateUpdate.start))
    ensures e.stateUpdate.state.MultiSigState? ==> r == Err(MultiSigFinalizeUndefined)
  {
    match e.stateUpdate.state
    case OwnershipState(_) => Ok(Ownership.FinalizeExit(e))
    case MultiSigState(_) => Err(MultiSigFinalizeUndefined)
  }
}
