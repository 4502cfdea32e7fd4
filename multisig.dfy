/** The multi-signature predicate: a range held jointly by a list of
    recipients. Anyone may start an exit; an exit is deprecated only by a
    strictly later committed update covering the position that all the
    recipients signed. */
module MultiSig {
  import opened PlasmaTypes
  import CommitmentChain

  /** Exit disputes last this many eth blocks; nothing in the contract reads it. */
  const DisputeDuration: int := 10

  datatype MultiSigDeprecationWitness =
    MultiSigDeprecationWitness(nextStateCommitment: StateUpdate, signatures: seq<Address>, inclusionWitness: Witness)

  /** Deliberately permissive: any caller may submit an exit. */
  function CanInitiateExit(commitment: StateUpdate, initiationWitness: Address): (r: Outcome)
    requires commitment.state.MultiSigState?
    ensures r == Pass
  {
    Pass
  }

  /** Checks, in this order: `stateId` lies in the exited range; it lies in
      the superseding update's range; the superseding update is included for
      the parent contract; the signatures are exactly the recipient list; the
      superseding update is from a strictly later plasma block. */
  function VerifyDeprecation(blocks: seq<CommitmentChain.Block>, parent: Address, stateId: int,
                             commitment: StateUpdate, w: MultiSigDeprecationWitness): (r: Outcome)
    requires commitment.state.MultiSigState?
    ensures r.Pass? <==>
      && commitment.start <= stateId < commitment.end
      && w.nextStateCommitment.start <= stateId < w.nextStateCommitment.end
      && CommitmentChain.Recorded(blocks, w.nextStateCommitment, parent)
      && commitment.state.recipients == w.signatures
      && commitment.plasmaBlockNumber < w.nextStateCommitment.plasmaBlockNumber
    ensures !(commitment.start <= stateId < commitment.end) ==> r == Fail(StateIdNotInExitRange)
    ensures commitment.start <= stateId < commitment.end ==>
      var next := w.nextStateCommitment;
      var included := CommitmentChain.VerifyInclusion(blocks, next, parent, w.inclusionWitness);
      && (!(next.start <= stateId < next.end) ==> r == Fail(StateIdNotInNextRange))
      && (next.start <= stateId < next.end ==>
            && (included.Err? ==> r == Fail(included.error))
            && (included == Ok(false) ==> r == Fail(InclusionProofInvalid))
            && (included == Ok(true) && commitment.state.recipients != w.signatures ==> r == Fail(SignatureMismatch))
            && ((included == Ok(true) && commitment.state.recipients == w.signatures
                 && next.plasmaBlockNumber <= commitment.plasmaBlockNumber) ==> r == Fail(NotLaterCommitment)))
  {
    var next := w.nextStateCommitment;
    if !(commitment.start <= stateId && commitment.end > stateId) then Fail(StateIdNotInExitRange)
    else if !(next.start <= stateId && next.end > stateId) then Fail(StateIdNotInNextRange)
    else match CommitmentChain.VerifyInclusion(blocks, next, parent, w.inclusionWitness)
      case Err(e) => Fail(e)
      case Ok(included) =>
        if !included then Fail(InclusionProofInvalid)
        else if commitment.state.recipients != w.signatures then Fail(SignatureMismatch)
        else if !(commitment.plasmaBlockNumber < next.plasmaBlockNumber) then Fail(NotLaterCommitment)
        else Pass
  }

  /** A successful deprecation means the two ranges share the position
      `stateId`, so they overlap as half-open intervals. */
  lemma DeprecatedRangesOverlap(blocks: seq<CommitmentChain.Block>, parent: Address, stateId: int,
                                commitment: StateUpdate, w: MultiSigDeprecationWitness)
    requires commitment.state.MultiSigState?
    requires VerifyDeprecation(blocks, parent, stateId, commitment, w).Pass?
    ensures commitment.start < w.nextStateCommitment.end && w.nextStateCommitment.start < commitment.end
    ensures commitment.start < commitment.end && w.nextStateCommitment.start < w.nextStateCommitment.end
  {
  }

  /** The payout as the source evidently means it (the source's own body
      reads an undefined `call_data`): the caller supplies the recipients'
      signatures and a destination; the payout happens only when the
      signatures are exactly the recipient list. */
  function IntendedFinalizeExit(su: StateUpdate, recipientsSigs: seq<Address>, destination: Address): (r: Result<LedgerCall>)
    requires su.state.MultiSigState?
    ensures r.Ok? <==> recipientsSigs == su.state.recipients
    ensures r.Ok? ==> r.value == TransferFrom(PredicateAccount(MultiSigPredicate), Addr(destination), su.end - su.start)
    ensures r.Err? ==> r.error == SignatureMismatch
  {
    if recipientsSigs != su.state.recipients then Err(SignatureMismatch)
    else Ok(TransferFrom(PredicateAccount(MultiSigPredicate), Addr(destination), su.end - su.start))
  }

  function GetAdditionalLockup(s: State): (r: int)
    ensures r == 0
  {
    0
  }
}
