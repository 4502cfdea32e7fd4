# Plasma exit game (gen-plasma), modelled in Dafny

This project models the exit game of the generalized plasma research code.
An ERC-20 plasma contract takes deposits of a fungible token. Each deposit is
recorded as a numeric range `[start, end)` of the total deposited, and as an
exitable range.

Holders leave the plasma chain by opening an exit:

- from a deposit, with no authorisation;
- from a state update committed to the commitment chain, when the update's
  predicate lets the caller exit.

Exits can be fought in two ways:

- revoked, by a committed update that the exit's predicate accepts as
  superseding the exited state (the multisig predicate requires it to be
  strictly later; the ownership predicate checks no order);
- challenged, by an exit anchored to an earlier plasma block over an
  overlapping range.

A challenge can be removed once its earlier exit is revoked. An exit that
is past its dispute period and has no open challenge is finalized. The
exitable range it lies in is split, the contract approves the predicate to
spend the exited width, and the predicate pays out.

Two predicates govern states:

- **ownership**: one owner may exit, and the owner's signature on an included
  update covering the position deprecates the state;
- **multisig**: anyone may exit, and all recipients' signatures on a strictly
  later update deprecate the state.

The commitment chain is an append-only list of blocks that only the operator
may extend. Inclusion is mocked by looking the update up in the stored block.

Modules:

- `PlasmaTypes` (`types.dfy`): the shared records (`State`, `StateUpdate`,
  `Exit`, `Challenge`), the typed errors that stand for Python's failed
  `assert`s and lookups, the token calls, and `PyIndex`, Python's list
  indexing rule (a negative index counts from the end).
- `CommitmentChain` (`commitment_chain.dfy`): the chain contract as a class,
  and inclusion as a function.
- `Ownership`, `MultiSig` (`ownership.dfy`, `multisig.dfy`): the two
  predicates as pure functions.
- `Predicates` (`predicates.dfy`): dispatch on the closed `State` union,
  standing for the Python reference to a predicate object.
- `ExitableRanges` (`exitable_ranges.dfy`): the exitable-range table (upper
  bound to lower bound), the split that finalizing performs, and its
  properties.
- `ExitRegistry` (`exit_registry.dfy`): the checks `challenge_exit` and
  `finalize_exit` make, as functions of the exit list. It also holds the
  invariant tying every exit's challenge counter to the list of open
  challenges (`CountsAgree`), and the lemmas showing which operations keep it.
- `Erc20Plasma` (`erc20_plasma_contract.dfy`): the contract as a class. Its
  fields are updated in place by methods whose postconditions give the whole
  new state. The methods are tied to the `ExitRegistry` and `ExitableRanges`
  functions, and preserve `Valid()`:
  - every deposit is a non-empty range below the total;
  - every exitable entry is non-empty;
  - every challenge names existing exits.

The model follows the code where the two could be read differently:

- A list index is resolved as Python resolves it. The deposit's block number
  `len(blocks) - 1` is -1 on an empty chain, and it then names the last block.
  Inclusion at block -1 is therefore not monotone.
- Finalizing does not remove or mark the exit. An exit that runs to its
  entry's end, whether it spans the whole entry or starts inside it, can be
  finalized again.
- A failure raised after state has changed does not undo the change. The
  multisig payout fails only after the range split and the approval.

## Model

| member | source | states |
|---|---|---|
| PlasmaTypes.PyIndex | gen-plasma/erc20_plasma_contract.py:63 | an index resolves exactly when -len <= i < len; a non-negative index is itself, a negative one is len + i |
| PlasmaTypes.PyIndexCongruent | gen-plasma/erc20_plasma_contract.py:63 | the resolved position is congruent to the index modulo the list length |
| CommitmentChain.BlockAt | gen-plasma/commitment_chain_contract.py:21 | `blocks[n]` exists exactly when n resolves, and is the block at the resolved position |
| CommitmentChain.VerifyInclusion | gen-plasma/commitment_chain_contract.py:19-26 | true exactly when the update is recorded for the subject in the block it names; raises exactly when the block is missing or lacks the subject; a missing block raises NoSuchBlock and a missing subject SubjectNotInBlock |
| CommitmentChain.WitnessIgnored | gen-plasma/commitment_chain_contract.py:19-26 | the inclusion witness never changes the answer |
| CommitmentChain.InclusionPersists | gen-plasma/commitment_chain_contract.py:15-26 | an inclusion at a non-negative block number still holds after any blocks are appended |
| CommitmentChain.NegativeBlockNumberFollowsLastBlock | gen-plasma/commitment_chain_contract.py:21 | block number -1 verifies against the last block, so one more commit turns an inclusion into a non-inclusion |
| CommitmentChain.CommitmentChainContract.constructor | gen-plasma/commitment_chain_contract.py:11-13 | the chain starts empty with the given operator |
| CommitmentChain.CommitmentChainContract.CommitBlock | gen-plasma/commitment_chain_contract.py:15-17 | only the operator may commit; a commit appends exactly that block and keeps the earlier ones |
| Ownership.CanInitiateExit | gen-plasma/predicates/ownership.py:12-15 | passes exactly when the witness is the owner |
| Ownership.VerifyDeprecation | gen-plasma/predicates/ownership.py:17-26 | passes exactly when the state id lies in the next update, the next update is included for the parent, and the owner signed; each failure is named by the first check that fails: next range, then the inclusion lookup's error or InclusionProofInvalid, then SignatureMismatch |
| Ownership.DeprecationIgnoresExitedRangeAndOrder | gen-plasma/predicates/ownership.py:17-26 | a deprecation is accepted at a position outside the exited range, by an update from an earlier block |
| Ownership.FinalizeExit | gen-plasma/predicates/ownership.py:28-30 | the payout transfers end - start from the predicate to the owner |
| Ownership.GetAdditionalLockup | gen-plasma/predicates/ownership.py:32-33 | no extra lockup |
| MultiSig.CanInitiateExit | gen-plasma/predicates/multisig.py:13-15 | anyone may exit |
| MultiSig.VerifyDeprecation | gen-plasma/predicates/multisig.py:17-30 | passes exactly when the five checks hold: the id is in the exited range and in the next range, the next update is included, the signatures equal the recipients, and the next block is strictly later; each failure is named by the first of these checks that fails, in that order, with the inclusion lookup's own error when it raises |
| MultiSig.DeprecatedRangesOverlap | gen-plasma/predicates/multisig.py:17-21 | an accepted deprecation means both ranges are non-empty and overlap |
| MultiSig.IntendedFinalizeExit | gen-plasma/predicates/multisig.py:32-38 | the intended payout: it succeeds exactly when the signatures equal the recipients, and then transfers the exited width to the destination |
| MultiSig.GetAdditionalLockup | gen-plasma/predicates/multisig.py:40-41 | no extra lockup |
| Predicates.CanInitiateExit | gen-plasma/erc20_plasma_contract.py:57 | dispatch: an ownership state needs its owner as witness, a multisig state needs nothing |
| Predicates.VerifyDeprecation | gen-plasma/erc20_plasma_contract.py:65 | passes exactly when the witness belongs to the state's predicate and that predicate's checks hold; a witness of the other predicate fails with WitnessKindMismatch, except that a multisig state first fails StateIdNotInExitRange for an id outside the exited range |
| Predicates.GetAdditionalLockup | gen-plasma/erc20_plasma_contract.py:45 | no predicate adds lockup |
| Predicates.FinalizeExit | gen-plasma/erc20_plasma_contract.py:119 | the ownership payout goes to the owner; the multisig payout raises |
| ExitableRanges.DepositKeepsDisjoint | gen-plasma/erc20_plasma_contract.py:29-40 | a deposit's new entry starts at the old total, overwrites nothing, and keeps the table disjoint, non-empty and bounded by the new total |
| ExitableRanges.Split | gen-plasma/erc20_plasma_contract.py:110-115 | the split keeps the entry's key, adds the exit's start as a key exactly when it differs from the entry's lower bound, mapping it to that lower bound; the entry then begins at the exit's end, or keeps its lower bound when the exit runs to its end; every other entry is left alone |
| ExitableRanges.SplitKeepsWellFormed | gen-plasma/erc20_plasma_contract.py:106-115 | after the checks pass, the split leaves every entry non-empty and, when the exit does not start beyond the entry's key, no entry beyond a bound that held before |
| ExitableRanges.SplitRemovesExactlyTheExit | gen-plasma/erc20_plasma_contract.py:112-115 | when the exit ends before the entry does, the split keeps the table disjoint, no entry covers the exited positions, and the parts below and above stay exitable |
| ExitableRanges.SplitOfWholeRangeChangesNothing | gen-plasma/erc20_plasma_contract.py:111-115 | an exit of the whole entry leaves the table unchanged, so its positions stay exitable |
| ExitableRanges.SplitToTheEndOverlaps | gen-plasma/erc20_plasma_contract.py:112-115 | an exit that runs to the entry's end adds an entry overlapping the old one, so the table is no longer disjoint |
| ExitRegistry.ChallengeCheck | gen-plasma/erc20_plasma_contract.py:79-88 | passes exactly when both ids resolve, the ranges overlap as closed intervals, the earlier exit's block is strictly smaller, and the later exit is not yet redeemable; missing ids raise NoSuchExit; the two exits are distinct |
| ExitRegistry.ChallengeIsOneWay | gen-plasma/erc20_plasma_contract.py:86 | if a may challenge b, b challenging a fails the priority check |
| ExitRegistry.EarlierExitMayChallenge | gen-plasma/erc20_plasma_contract.py:82-88 | an exit from an earlier block over an overlapping range may always challenge a not yet redeemable exit |
| ExitRegistry.TouchingRangesCountAsOverlapping | gen-plasma/erc20_plasma_contract.py:83-84 | [0, 10) may challenge [10, 20) |
| ExitRegistry.FinalizeCheck | gen-plasma/erc20_plasma_contract.py:99-109 | passes exactly when the id resolves, the exit is redeemable, has no open challenges, and lies inside an existing exitable entry; an unknown id fails with NoSuchExit, and otherwise the first failed check names the error (NotYetRedeemable, HasOpenChallenges, RangeNotExitable) |
| ExitRegistry.FinalizeIgnoresRevocation | gen-plasma/erc20_plasma_contract.py:99-109 | revoked and unrevoked exits get the same verdict |
| ExitRegistry.WholeRangeExitFinalizesAgain | gen-plasma/erc20_plasma_contract.py:99-115 | an exit of a whole entry passes the finalize checks again after its own split, at any later block |
| ExitRegistry.ExitToTheEndFinalizesAgain | gen-plasma/erc20_plasma_contract.py:99-115 | any exit that runs to its entry's end gets the same verdict again after its own split, at any later block |
| ExitRegistry.PartialExitFinalizesOnce | gen-plasma/erc20_plasma_contract.py:99-115 | a non-empty exit ending before its entry's end fails the checks against that entry after its own split |
| ExitRegistry.RemovalShiftsLaterIds | gen-plasma/erc20_plasma_contract.py:77 | deleting a challenge keeps the ones before it in place and moves every later one down by one position |
| ExitRegistry.MoreExitsKeepIdsResolved | gen-plasma/erc20_plasma_contract.py:52 | challenge ids that name exits still name exits after an exit is appended |
| ExitRegistry.RemovalKeepsIdsResolved | gen-plasma/erc20_plasma_contract.py:77 | challenge ids that name exits still name exits after a challenge is deleted |
| ExitRegistry.UnchallengedExit | gen-plasma/erc20_plasma_contract.py:104 | when the counters agree with the challenge list, a zero counter means no challenge names the exit as its later exit |
| ExitRegistry.AppendExitKeepsCounts | gen-plasma/erc20_plasma_contract.py:49-53 | appending a fresh exit keeps every counter equal to its number of open challenges, when no stored later id is negative |
| ExitRegistry.NegativeLaterIdDrifts | gen-plasma/erc20_plasma_contract.py:75 | a challenge the checks accept with later id -1 (exit 0 against exit 1) leaves the counters agreeing, but once another exit is appended -1 names the new exit and the counters stop agreeing |
| ExitRegistry.ChallengeKeepsCounts | gen-plasma/erc20_plasma_contract.py:90-92 | a new challenge raises exactly the later exit's counter, so the counters keep agreeing |
| ExitRegistry.RemoveKeepsCounts | gen-plasma/erc20_plasma_contract.py:75-77 | deleting a challenge and lowering its later exit's counter keeps the counters agreeing |
| ExitRegistry.SameCountersKeepCounts | gen-plasma/erc20_plasma_contract.py:67 | changing an exit's other fields keeps the counters agreeing |
| Erc20Plasma.Erc20PlasmaContract.constructor | gen-plasma/erc20_plasma_contract.py:8-20 | the contract starts with nothing deposited, no ranges, deposits, exits or challenges |
| Erc20Plasma.Erc20PlasmaContract.ConstructExit | gen-plasma/erc20_plasma_contract.py:44-47 | a new exit is redeemable one dispute period after the given block, unrevoked and unchallenged |
| Erc20Plasma.Erc20PlasmaContract.Deposit | gen-plasma/erc20_plasma_contract.py:22-42 | a non-positive amount fails and changes nothing; otherwise [old total, old total + amount) becomes a deposit and an exitable entry, the total advances, the transfer is logged, the new range starts at 0 or at the end of an earlier deposit, and a disjoint bounded table stays so |
| Erc20Plasma.Erc20PlasmaContract.ExitDeposit | gen-plasma/erc20_plasma_contract.py:49-53 | an unknown deposit fails; otherwise exactly one fresh exit of that deposit is appended and its id (the old length) returned; counters keep agreeing |
| Erc20Plasma.Erc20PlasmaContract.ExitStateUpdate | gen-plasma/erc20_plasma_contract.py:55-60 | succeeds exactly when inclusion holds and the predicate authorises the caller, with the inclusion or authorisation error otherwise; on success exactly one fresh exit is appended and its id returned |
| Erc20Plasma.Erc20PlasmaContract.ChallengeDeprecatedExit | gen-plasma/erc20_plasma_contract.py:62-67 | returns the predicate's verdict; on success only that exit's revoked flag is set; revoking a revoked exit changes nothing |
| Erc20Plasma.Erc20PlasmaContract.RemoveChallenge | gen-plasma/erc20_plasma_contract.py:69-77 | an unknown challenge or an unrevoked earlier exit fails and changes nothing; otherwise the later exit's counter drops by one and that challenge is deleted; counters keep agreeing |
| Erc20Plasma.Erc20PlasmaContract.ChallengeExit | gen-plasma/erc20_plasma_contract.py:79-97 | fails as the challenge check does, changing nothing; otherwise appends the challenge, raises the later exit's counter by one, extends its redeemable block to the maximum of the two, leaves the earlier exit alone, and returns the new challenge's id |
| Erc20Plasma.Erc20PlasmaContract.FinalizeExit | gen-plasma/erc20_plasma_contract.py:99-119 | fails as the finalize check does, changing nothing; otherwise splits the entry, logs the approval of the exited width and the predicate's payout; the exit and challenge lists never change |

## Left out

- ERC-20 token: balances and failing transfers are not modelled. The calls made on the token are recorded in the ghost log `ledgerLog`.
- The eth clock (`eth.block_number`) is a `blockNumber` parameter. How it advances is not modelled.
- Merkle proofs and signatures are opaque values compared by equality. Inclusion is the mocked lookup the code performs.
- `utils` (State, StateUpdate, Exit, Challenge) is not part of this model. A new exit is taken to start unrevoked with zero challenges, as the contract's use of it implies.
- The `exitableRange` class is never used and is not modelled.
- `MultiSigPredicate.finalize_exit` reads an undefined name and so always raises. `Predicates.FinalizeExit` models that failure. Its intended check is stated separately as `MultiSig.IntendedFinalizeExit`, which nothing calls.
- `MultiSigPredicate.dispute_duration` is kept as the constant `MultiSig.DisputeDuration`. Nothing reads it.
- The predicates reach the chain through `parent.commitment_chain`, while the contract stores it as `state_update_chain`. Both are taken to be the same chain, `stateUpdateChain`. As written, the contract has no `commitment_chain` attribute, so both predicates' deprecation checks would raise AttributeError once their range checks pass. No exit could then be revoked, and `remove_challenge` could never succeed. The model does not reproduce that failure.
- State updates are compared structurally: the model's `su in block[subject]` uses value equality. In Python the membership test uses `==`, which is object identity unless `utils.StateUpdate` defines `__eq__`; `utils` is not part of this model.
- The multisig code reads `state.recipient`. The model names the field `recipients`.
- Python object identity is not modelled: exits are values in a list and predicates are a closed union. No two list positions can alias. `challenge_exit` cannot name the same exit twice, because its block-number check is strict.
- Erc20Plasma.Erc20PlasmaContract.FinalizeExit: the method does not state that the exitable table stays disjoint, because it does not when an exit runs to its entry's end. Disjointness for the other case is `ExitableRanges.SplitRemovesExactlyTheExit`.
- Erc20Plasma.Erc20PlasmaContract.Deposit: disjointness and the bound by the total are kept only when they held before. Exits of inverted state updates can break them, so they are not part of `Valid()`.
- Erc20Plasma.Erc20PlasmaContract.ExitDeposit: counters are shown to keep agreeing only when no stored later id is negative. `ExitRegistry.NegativeLaterIdDrifts` shows why.
- Erc20Plasma.Erc20PlasmaContract.ExitStateUpdate: the same condition on stored later ids applies to its counter guarantee.
