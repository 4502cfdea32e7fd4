/** The commitment chain: an append-only list of blocks that only the operator
    may extend, and a mocked inclusion check that looks a state update up in
    the stored block instead of checking a Merkle proof. */
module CommitmentChain {
  import opened PlasmaTypes

  /** A committed block: for each subject contract, the state updates recorded for it. */
  type Block = map<Address, seq<StateUpdate>>

  /** `blocks[n]` with Python's indexing. */
  function BlockAt(blocks: seq<Block>, n: int): (r: Option<Block>)
    ensures r.Some? <==> PyIndex(|blocks|, n).Some?
    ensures r.Some? ==> r.value == blocks[PyIndex(|blocks|, n).value]
  {
    match PyIndex(|blocks|, n)
    case None => None
    case Some(i) => Some(blocks[i])
  }

  /** `su` is recorded for `subject` in the block it names. */
  predicate Recorded(blocks: seq<Block>, su: StateUpdate, subject: Address)
  {
    var b := BlockAt(blocks, su.plasmaBlockNumber);
    b.Some? && subject in b.value && su in b.value[subject]
  }

  /** Looks up the block at `su.plasmaBlockNumber` (raising when there is
      none, or when `subject` has no entry in it) and answers whether `su` is
      among the subject's recorded updates. The witness plays no part. */
  function VerifyInclusion(blocks: seq<Block>, su: StateUpdate, subject: Address, inclusionWitness: Witness): (r: Result<bool>)
    ensures r == Ok(true) <==> Recorded(blocks, su, subject)
    ensures r.Err? <==> BlockAt(blocks, su.plasmaBlockNumber).None? || subject !in BlockAt(blocks, su.plasmaBlockNumber).value
    ensures BlockAt(blocks, su.plasmaBlockNumber).None? ==> r == Err(NoSuchBlock)
    ensures BlockAt(blocks, su.plasmaBlockNumber).Some? && subject !in BlockAt(blocks, su.plasmaBlockNumber).value ==>
      r == Err(SubjectNotInBlock)
    ensures 0 <= su.plasmaBlockNumber ==>
      (r == Ok(true) <==>
         (su.plasmaBlockNumber < |blocks| && subject in blocks[su.plasmaBlockNumber]
          && su in blocks[su.plasmaBlockNumber][subject]))
  {
    match BlockAt(blocks, su.plasmaBlockNumber)
    case None => Err(NoSuchBlock)
    case Some(block) =>
      if subject !in block then Err(SubjectNotInBlock)
      else Ok(su in block[subject])
  }

  /** The witness is ignored: any two witnesses give the same answer. */
  lemma WitnessIgnored(blocks: seq<Block>, su: StateUpdate, subject: Address, w1: Witness, w2: Witness)
    ensures VerifyInclusion(blocks, su, subject, w1) == VerifyInclusion(blocks, su, subject, w2)
  {
  }

  /** Inclusion at a non-negative block number survives any later commits,
      because blocks are only ever appended. */
  lemma InclusionPersists(blocks: seq<Block>, later: seq<Block>, su: StateUpdate, subject: Address, inclusionWitness: Witness)
    requires 0 <= su.plasmaBlockNumber
    requires VerifyInclusion(blocks, su, subject, inclusionWitness) == Ok(true)
    ensures VerifyInclusion(blocks + later, su, subject, inclusionWitness) == Ok(true)
  {
    assert (blocks + later)[su.plasmaBlockNumber] == blocks[su.plasmaBlockNumber];
  }

  /** A negative block number (a deposit made on an empty chain records -1)
      names the LAST block, so what it verifies changes as blocks are
      committed: inclusion is not monotone for it. */
  lemma NegativeBlockNumberFollowsLastBlock(su: StateUpdate, subject: Address, inclusionWitness: Witness)
    requires su.plasmaBlockNumber == -1
    ensures VerifyInclusion([map[subject := [su]]], su, subject, inclusionWitness) == Ok(true)
    ensures VerifyInclusion([map[subject := [su]], map[subject := []]], su, subject, inclusionWitness) == Ok(false)
  {
  }

  class CommitmentChainContract {
    const operator: Address
    var blocks: seq<Block>

    constructor (operator: Address)
      ensures this.operator == operator && blocks == []
    {
      this.operator := operator;
      blocks := [];
    }

    /** Only the operator may commit; a commit appends exactly one block. */
    method CommitBlock(msgSender: Address, block: Block) returns (r: Outcome)
      modifies this
      ensures msgSender == operator ==> r == Pass && blocks == old(blocks) + [block]
      ensures msgSender != operator ==> r == Fail(NotOperator) && blocks == old(blocks)
    {
      if msgSender != operator {
        return Fail(NotOperator);
      }
      blocks := blocks + [block];
      r := Pass;
    }
  }
}
