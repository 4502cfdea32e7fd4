/** Values shared by the ERC-20 plasma contract, its predicates and the
    commitment chain: the records the Python code builds (State, StateUpdate,
    Exit, Challenge), the calls it makes on the external token, the failures
    its assertions and lookups raise, and Python's rule for indexing a list. */
module PlasmaTypes {

  type Address = string

  /** An inclusion proof or a signature blob: only passed along, never inspected. */
  type Witness = string

  datatype Option<+T> = None | Some(value: T)

  /** The outcome of a call that returns a value or raises. */
  datatype Result<+T> = Ok(value: T) | Err(error: Error)

  /** The outcome of a call that returns nothing (or `True`) or raises. */
  datatype Outcome = Pass | Fail(error: Error)

  /** One constructor per distinct way a call can raise. */
  datatype Error =
    | NoSuchBlock                 // IndexError on the commitment chain's block list
    | SubjectNotInBlock           // assert subject in block
    | NotOperator                 // assert msg_sender == operator
    | InvalidAmount               // assert deposit_amount > 0
    | NoSuchDeposit               // KeyError on deposits
    | NoSuchExit                  // IndexError on exits
    | NoSuchChallenge             // IndexError on challenges
    | InclusionProofInvalid       // verify_inclusion returned False
    | ExitNotAuthorized           // ownership: assert owner == initiation witness
    | StateIdNotInExitRange       // multisig: state id outside the exited update
    | StateIdNotInNextRange       // state id outside the superseding update
    | SignatureMismatch           // owner / recipients differ from the witness signature(s)
    | NotLaterCommitment          // multisig: superseding update not strictly later
    | WitnessKindMismatch         // AttributeError: witness of the other predicate
    | RangesDoNotOverlap
    | PriorityViolation
    | LaterExitAlreadyRedeemable
    | EarlierExitNotRevoked
    | NotYetRedeemable
    | HasOpenChallenges
    | RangeNotExitable
    | MultiSigFinalizeUndefined   // NameError: multisig finalize_exit reads an undefined name

  datatype PredicateKind = OwnershipPredicate | MultiSigPredicate

  /** A state: the predicate that governs it together with that predicate's
      parameters. The closed union stands for Python's reference to a
      predicate object plus its parameter dictionary. */
  datatype State =
    | OwnershipState(owner: Address)
    | MultiSigState(recipients: seq<Address>)
  {
    function Kind(): PredicateKind
    {
      if OwnershipState? then OwnershipPredicate else MultiSigPredicate
    }
  }

  /** A claim that the range [start, end) is in `state` as of a plasma block.
      Nothing forces start < end on a state update read from the chain. */
  datatype StateUpdate = StateUpdate(state: State, start: int, end: int, plasmaBlockNumber: int)

  datatype Exit = Exit(stateUpdate: StateUpdate, ethBlockRedeemable: int, isRevoked: bool, numChallenges: int)

  /** The ids are stored exactly as the caller passed them. */
  datatype Challenge = Challenge(earlierExitId: int, laterExitId: int)

  /** An account on the external ERC-20 token: a plain address, or a predicate
      contract (the predicates hold and pay out funds themselves). */
  datatype Account = Addr(address: Address) | PredicateAccount(kind: PredicateKind)

  /** A call made on the external ERC-20 token. */
  datatype LedgerCall =
    | TransferFrom(from: Account, to: Account, amount: int)
    | Approve(owner: Account, spender: Account, amount: int)

  /** Python's `xs[i]` on a list of length `len`: a negative index counts from
      the end; anything else out of range raises IndexError (None). */
  function PyIndex(len: nat, i: int): (r: Option<nat>)
    ensures r.Some? <==> 0 <= len + i && i < len
    ensures r.Some? ==> r.value < len && (r.value == i || r.value == len + i)
    ensures 0 <= i ==> r.Some? ==> r.value == i
  {
    if 0 <= i < len then Some(i)
    else if 0 <= len + i && i < 0 then Some(len + i)
    else None
  }

  /** The position a valid index resolves to is congruent to it modulo the
      list's length: a negative index counts back from the end. */
  lemma PyIndexCongruent(len: nat, i: int)
    requires PyIndex(len, i).Some?
    ensures PyIndex(len, i).value % len == i % len
  {
    if i < 0 {
      assert PyIndex(len, i).value == len + i;
      assert (len + i) % len == i % len;
    }
  }
}
