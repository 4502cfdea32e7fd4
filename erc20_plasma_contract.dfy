/** The ERC-20 plasma contract: the exit game. It takes deposits, opens exits
    from deposits or from committed state updates, lets exits be revoked and
    challenged, and pays out exits that survive their dispute period.

    The eth clock is the `blockNumber` parameter of the calls that read it;
    the token contract is external and only the calls made on it are kept,
    in the ghost log `ledgerLog`. */
module Erc20Plasma {
  import opened PlasmaTypes
  import CommitmentChain
  import Predicates
  import opened ExitableRanges
  import opened ExitRegistry

  class Erc20PlasmaContract {
    const address: Address
    const stateUpdateChain: CommitmentChain.CommitmentChainContract
    const disputePeriod: int

    var totalDeposited: int
    var exitableRanges: Table
    var deposits: map<int, StateUpdate>
    var exits: seq<Exit>
    var challenges: seq<Challenge>

    /** The calls made on the ERC-20 token contract, oldest first. */
    ghost var ledgerLog: seq<LedgerCall>

    /** What every call preserves. Deposits are non-empty ranges within
        [0, totalDeposited), keyed by their end, and the latest one ends at the
        total. Exitable entries are non-empty. Every challenge's ids name
        exits. */
    ghost predicate Valid()
      reads this
    {
      && 0 <= totalDeposited
      && (forall k :: k in deposits ==>
            deposits[k].end == k && 0 <= deposits[k].start < k <= totalDeposited)
      && (0 < totalDeposited ==> totalDeposited in deposits)
      && WellFormed(exitableRanges)
      && ChallengeIdsResolve(|exits|, challenges)
    }

    constructor (address: Address, stateUpdateChain: CommitmentChain.CommitmentChainContract, disputePeriod: int)
      ensures Valid()
      ensures this.address == address && this.stateUpdateChain == stateUpdateChain
      ensures this.disputePeriod == disputePeriod
      ensures totalDeposited == 0 && exitableRanges == map[] && deposits == map[]
      ensures exits == [] && challenges == [] && ledgerLog == []
    {
      this.address := address;
      this.stateUpdateChain := stateUpdateChain;
      this.disputePeriod := disputePeriod;
      totalDeposited := 0;
      exitableRanges := map[];
      deposits := map[];
      exits := [];
      challenges := [];
      ledgerLog := [];
    }

    /** A new exit of `su`: redeemable one dispute period (plus the
        predicate's extra lockup, which is zero) after `blockNumber`,
        unrevoked and unchallenged. */
    function ConstructExit(su: StateUpdate, blockNumber: int): (e: Exit)
      ensures e.stateUpdate == su
      ensures e.ethBlockRedeemable == blockNumber + disputePeriod
      ensures !e.isRevoked && e.numChallenges == 0
    {
      var additionalLockupDuration := Predicates.GetAdditionalLockup(su.state);
      Exit(su, blockNumber + disputePeriod + additionalLockupDuration, false, 0)
    }

    /** Takes `depositAmount` from the depositor and records the range
        [old total, old total + amount) as a deposit and as exitable. The
        deposit's block number is the index of the chain's last block, -1 on
        an empty chain. */
    method Deposit(depositor: Address, depositAmount: int, state: State) returns (r: Result<StateUpdate>)
      requires Valid()
      modifies this
      ensures Valid()
      ensures depositAmount <= 0 ==> r == Err(InvalidAmount) && unchanged(this)
      ensures 0 < depositAmount ==>
        var start := old(totalDeposited);
        var end := start + depositAmount;
        && r == Ok(StateUpdate(state, start, end, |stateUpdateChain.blocks| - 1))
        && totalDeposited == end
        && end !in old(deposits)
        && deposits == old(deposits)[end := r.value]
        && exitableRanges == old(exitableRanges)[end := start]
        && exits == old(exits) && challenges == old(challenges)
        && ledgerLog == old(ledgerLog) + [TransferFrom(Addr(depositor), Addr(address), depositAmount)]
      ensures r.Ok? ==> r.value.start == 0 || r.value.start in old(deposits)
      ensures BoundedBy(old(exitableRanges), old(totalDeposited)) && Disjoint(old(exitableRanges)) ==>
        BoundedBy(exitableRanges, totalDeposited) && Disjoint(exitableRanges)
    {
      if !(depositAmount > 0) {
        return Err(InvalidAmount);
      }
      ledgerLog := ledgerLog + [TransferFrom(Addr(depositor), Addr(address), depositAmount)];
      var precedingPlasmaBlockNumber := |stateUpdateChain.blocks| - 1;
      var depositStart := totalDeposited;
      var depositEnd := totalDeposited + depositAmount;
      var deposit := StateUpdate(state, depositStart, depositEnd, precedingPlasmaBlockNumber);
      if BoundedBy(exitableRanges, totalDeposited) && Disjoint(exitableRanges) {
        DepositKeepsDisjoint(exitableRanges, totalDeposited, depositAmount);
      }
      deposits := deposits[depositEnd := deposit];
      exitableRanges := exitableRanges[depositEnd := depositStart];
      totalDeposited := depositEnd;
      r := Ok(deposit);
    }

    /** Opens an exit of the deposit that ends at `depositEnd`; no
        authorisation is asked for. Returns the new exit's id. */
    method ExitDeposit(depositEnd: int, blockNumber: int) returns (r: Result<int>)
      requires Valid()
      modifies this
      ensures Valid()
      ensures depositEnd !in deposits ==> r == Err(NoSuchDeposit) && unchanged(this)
      ensures depositEnd in deposits ==>
        && r == Ok(|old(exits)|)
        && exits == old(exits) + [ConstructExit(deposits[depositEnd], blockNumber)]
        && unchanged(this`totalDeposited, this`exitableRanges, this`deposits, this`challenges, this`ledgerLog)
      ensures CountsAgree(old(exits), challenges) && LaterIdsNonNegative(challenges) ==> CountsAgree(exits, challenges)
    {
      if depositEnd !in deposits {
        return Err(NoSuchDeposit);
      }
      var deposit := deposits[depositEnd];
      var exit := ConstructExit(deposit, blockNumber);
      if CountsAgree(exits, challenges) && LaterIdsNonNegative(challenges) {
        AppendExitKeepsCounts(exits, challenges, exit);
      }
      MoreExitsKeepIdsResolved(|exits|, challenges);
      exits := exits + [exit];
      r := Ok(|exits| - 1);
    }

    /** Opens an exit of a committed state update: it must be included in
        the chain for this contract, and its predicate must let the caller
        (named by `exitabilityWitness`) exit. Returns the new exit's id. */
    method ExitStateUpdate(su: StateUpdate, stateUpdateWitness: Witness, exitabilityWitness: Address,
                           blockNumber: int) returns (r: Result<int>)
      requires Valid()
      modifies this
      ensures Valid()
      ensures
        var included := CommitmentChain.VerifyInclusion(stateUpdateChain.blocks, su, address, stateUpdateWitness);
        var authorised := Predicates.CanInitiateExit(su, exitabilityWitness);
        && (included.Err? ==> r == Err(included.error))
        && (included == Ok(false) ==> r == Err(InclusionProofInvalid))
        && (included == Ok(true) && authorised.Fail? ==> r == Err(authorised.error))
        && (r.Ok? <==> included == Ok(true) && authorised.Pass?)
      ensures r.Err? ==> unchanged(this)
      ensures r.Ok? ==>
        && r.value == |old(exits)|
        && exits == old(exits) + [ConstructExit(su, blockNumber)]
        && unchanged(this`totalDeposited, this`exitableRanges, this`deposits, this`challenges, this`ledgerLog)
      ensures CountsAgree(old(exits), challenges) && LaterIdsNonNegative(challenges) ==> CountsAgree(exits, challenges)
    {
      var included := CommitmentChain.VerifyInclusion(stateUpdateChain.blocks, su, address, stateUpdateWitness);
      if included.Err? {
        return Err(included.error);
      }
      if !included.value {
        return Err(InclusionProofInvalid);
      }
      var authorised := Predicates.CanInitiateExit(su, exitabilityWitness);
      if authorised.Fail? {
        return Err(authorised.error);
      }
      var exit := ConstructExit(su, blockNumber);
      if CountsAgree(exits, challenges) && LaterIdsNonNegative(challenges) {
        AppendExitKeepsCounts(exits, challenges, exit);
      }
      MoreExitsKeepIdsResolved(|exits|, challenges);
      exits := exits + [exit];
      r := Ok(|exits| - 1);
    }

    /** Revokes exit `exitId` if its state's predicate accepts the witness
        as proof that the exited state was superseded at `stateId`. The exit
        stays in the list, marked revoked; nothing else changes, and revoking
        an already revoked exit changes nothing at all. */
    method ChallengeDeprecatedExit(stateId: int, exitId: int, revocationWitness: Predicates.DeprecationWitness)
      returns (r: Outcome)
      requires Valid()
      modifies this
      ensures Valid()
      ensures PyIndex(|old(exits)|, exitId).None? ==> r == Fail(NoSuchExit) && unchanged(this)
      ensures PyIndex(|old(exits)|, exitId).Some? ==>
        var i := PyIndex(|old(exits)|, exitId).value;
        var verdict := Predicates.VerifyDeprecation(stateUpdateChain.blocks, address, stateId,
                                                    old(exits)[i].stateUpdate, revocationWitness);
        && r == verdict
        && (verdict.Fail? ==> unchanged(this))
        && (verdict.Pass? ==>
              && exits == old(exits)[i := old(exits)[i].(isRevoked := true)]
              && unchanged(this`totalDeposited, this`exitableRanges, this`deposits, this`challenges, this`ledgerLog))
        && (old(exits)[i].isRevoked ==> unchanged(this))
      ensures CountsAgree(old(exits), challenges) ==> CountsAgree(exits, challenges)
    {
      var index := PyIndex(|exits|, exitId);
      if index.None? {
        return Fail(NoSuchExit);
      }
      var i := index.value;
      var exit := exits[i];
      r := Predicates.VerifyDeprecation(stateUpdateChain.blocks, address, stateId, exit.stateUpdate, revocationWitness);
      if r.Fail? {
        return;
      }
      var revoked := exit.(isRevoked := true);
      if exit.isRevoked {
        assert revoked == exit;
        assert exits[i := revoked] == exits;
      }
      if CountsAgree(exits, challenges) {
        SameCountersKeepCounts(exits, exits[i := revoked], challenges);
      }
      exits := exits[i := revoked];
    }

    /** Dismisses challenge `challengeId` once its earlier exit has been
        revoked: lowers the later exit's counter by one and deletes the
        challenge from the list, so every later challenge's id drops by one. */
    method RemoveChallenge(challengeId: int) returns (r: Outcome)
      requires Valid()
      modifies this
      ensures Valid()
      ensures PyIndex(|old(challenges)|, challengeId).None? ==> r == Fail(NoSuchChallenge) && unchanged(this)
      ensures PyIndex(|old(challenges)|, challengeId).Some? ==>
        var k := PyIndex(|old(challenges)|, challengeId).value;
        var e := PyIndex(|old(exits)|, old(challenges)[k].earlierExitId).value;
        var l := PyIndex(|old(exits)|, old(challenges)[k].laterExitId).value;
        && (!old(exits)[e].isRevoked ==> r == Fail(EarlierExitNotRevoked) && unchanged(this))
        && (old(exits)[e].isRevoked ==>
              && r == Pass
              && exits == old(exits)[l := old(exits)[l].(numChallenges := old(exits)[l].numChallenges - 1)]
              && challenges == old(challenges)[..k] + old(challenges)[k + 1..]
              && unchanged(this`totalDeposited, this`exitableRanges, this`deposits, this`ledgerLog))
      ensures CountsAgree(old(exits), old(challenges)) ==> CountsAgree(exits, challenges)
    {
      var index := PyIndex(|challenges|, challengeId);
      if index.None? {
        return Fail(NoSuchChallenge);
      }
      var k := index.value;
      var challenge := challenges[k];
      var e := PyIndex(|exits|, challenge.earlierExitId).value;
      if !exits[e].isRevoked {
        return Fail(EarlierExitNotRevoked);
      }
      var l := PyIndex(|exits|, challenge.laterExitId).value;
      if CountsAgree(exits, challenges) {
        RemoveKeepsCounts(exits, challenges, k, l);
      }
      exits := exits[l := exits[l].(numChallenges := exits[l].numChallenges - 1)];
      RemovalKeepsIdsResolved(|exits|, challenges, k);
      challenges := challenges[..k] + challenges[k + 1..];
      r := Pass;
    }

    /** Records that exit `earlierExitId` disputes exit `laterExitId`: the
        later exit's counter goes up by one and its redeemable block is
        pushed back to the earlier exit's if that is later. The earlier exit
        is untouched. Returns the new challenge's id. */
    method ChallengeExit(earlierExitId: int, laterExitId: int, blockNumber: int) returns (r: Result<int>)
      requires Valid()
      modifies this
      ensures Valid()
      ensures
        var check := ChallengeCheck(old(exits), earlierExitId, laterExitId, blockNumber);
        && (check.Err? ==> r == Err(check.error) && unchanged(this))
        && (check.Ok? ==>
              var e := check.value.0;
              var l := check.value.1;
              var before := old(exits)[l];
              var extended := if before.ethBlockRedeemable < old(exits)[e].ethBlockRedeemable
                              then old(exits)[e].ethBlockRedeemable else before.ethBlockRedeemable;
              && r == Ok(|old(challenges)|)
              && challenges == old(challenges) + [Challenge(earlierExitId, laterExitId)]
              && exits == old(exits)[l := before.(numChallenges := before.numChallenges + 1,
                                                  ethBlockRedeemable := extended)]
              && exits[e] == old(exits)[e]
              && exits[l].ethBlockRedeemable >= before.ethBlockRedeemable
              && exits[l].ethBlockRedeemable >= exits[e].ethBlockRedeemable
              && unchanged(this`totalDeposited, this`exitableRanges, this`deposits, this`ledgerLog))
      ensures CountsAgree(old(exits), old(challenges)) ==> CountsAgree(exits, challenges)
    {
      var check := ChallengeCheck(exits, earlierExitId, laterExitId, blockNumber);
      if check.Err? {
        return Err(check.error);
      }
      var e, l := check.value.0, check.value.1;
      var earlierExit, laterExit := exits[e], exits[l];
      var redeemable := laterExit.ethBlockRedeemable;
      if laterExit.ethBlockRedeemable < earlierExit.ethBlockRedeemable {
        redeemable := earlierExit.ethBlockRedeemable;
      }
      if CountsAgree(exits, challenges) {
        ChallengeKeepsCounts(exits, challenges, earlierExitId, laterExitId, l, redeemable);
      }
      challenges := challenges + [Challenge(earlierExitId, laterExitId)];
      exits := exits[l := laterExit.(numChallenges := laterExit.numChallenges + 1,
                                     ethBlockRedeemable := redeemable)];
      r := Ok(|challenges| - 1);
    }

    /** Pays out exit `exitId` from the exitable range ending at
        `exitableRangeEnd`, once it is redeemable and unchallenged and lies
        inside that range. Splits the range, approves the predicate to spend
        the exited width, then calls the predicate's payout. Revocation is
        not checked and the exit is not marked as paid. The multisig payout
        raises after the split and the approval, which stay in place. */
    method FinalizeExit(exitId: int, exitableRangeEnd: int, blockNumber: int) returns (r: Outcome)
      requires Valid()
      modifies this
      ensures Valid()
      ensures exits == old(exits) && challenges == old(challenges)
      ensures totalDeposited == old(totalDeposited) && deposits == old(deposits)
      ensures
        var check := FinalizeCheck(old(exits), exitId, old(exitableRanges), exitableRangeEnd, blockNumber);
        && (check.Err? ==> r == Fail(check.error) && unchanged(this))
        && (check.Ok? ==>
              var exit := old(exits)[check.value];
              var su := exit.stateUpdate;
              var approval := Approve(Addr(address), PredicateAccount(su.state.Kind()), su.end - su.start);
              var payout := Predicates.FinalizeExit(exit);
              && exitableRanges == Split(old(exitableRanges), exitableRangeEnd, su.start, su.end)
              && (payout.Ok? ==> r == Pass && ledgerLog == old(ledgerLog) + [approval, payout.value])
              && (payout.Err? ==> r == Fail(payout.error) && ledgerLog == old(ledgerLog) + [approval]))
    {
      var check := FinalizeCheck(exits, exitId, exitableRanges, exitableRangeEnd, blockNumber);
      if check.Err? {
        return Fail(check.error);
      }
      var exit := exits[check.value];
      var su := exit.stateUpdate;
      SplitKeepsWellFormed(exitableRanges, exitableRangeEnd, su.start, su.end);
      if su.start != exitableRanges[exitableRangeEnd] {
        exitableRanges := exitableRanges[su.start := exitableRanges[exitableRangeEnd]];
      }
      if su.end != exitableRangeEnd {
        exitableRanges := exitableRanges[exitableRangeEnd := su.end];
      }
      ledgerLog := ledgerLog + [Approve(Addr(address), PredicateAccount(su.state.Kind()), su.end - su.start)];
      var payout := Predicates.FinalizeExit(exit);
      if payout.Err? {
        return Fail(payout.error);
      }
      ledgerLog := ledgerLog + [payout.value];
      r := Pass;
    }
  }
}
