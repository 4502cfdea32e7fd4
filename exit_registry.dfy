/** The exit and challenge registries of the plasma contract, as values: the
    checks `challenge_exit` and `finalize_exit` make before changing
    anything, and the bookkeeping that ties each exit's challenge counter to
    the list of open challenges. */
module ExitRegistry {
  import opened PlasmaTypes
  import ExitableRanges

  /** Closed-interval overlap: ranges that only touch count as overlapping. */
  predicate ClosedOverlap(a: StateUpdate, b: StateUpdate)
  {
    a.start <= b.end && b.start <= a.end
  }

  /** The lookups and assertions of `challenge_exit`, in the source's order;
      on success, the list positions of the earlier and the later exit. */
  function ChallengeCheck(exits: seq<Exit>, earlierExitId: int, laterExitId: int, blockNumber: int): (r: Result<(nat, nat)>)
    ensures r.Ok? <==>
      && PyIndex(|exits|, earlierExitId).Some? && PyIndex(|exits|, laterExitId).Some?
      && var earlier := exits[PyIndex(|exits|, earlierExitId).value];
         var later := exits[PyIndex(|exits|, laterExitId).value];
         && ClosedOverlap(earlier.stateUpdate, later.stateUpdate)
         && earlier.stateUpdate.plasmaBlockNumber < later.stateUpdate.plasmaBlockNumber
         && blockNumber < later.ethBlockRedeemable
    ensures r.Ok? ==>
      && Some(r.value.0) == PyIndex(|exits|, earlierExitId)
      && Some(r.value.1) == PyIndex(|exits|, laterExitId)
      && r.value.0 != r.value.1
    ensures PyIndex(|exits|, earlierExitId).None? || PyIndex(|exits|, laterExitId).None? ==> r == Err(NoSuchExit)
  {
    match PyIndex(|exits|, earlierExitId)
    case None => Err(NoSuchExit)
    case Some(e) =>
      match PyIndex(|exits|, laterExitId)
      case None => Err(NoSuchExit)
      case Some(l) =>
        var earlier := exits[e].stateUpdate;
        var later := exits[l];
        if !(earlier.start <= later.stateUpdate.end) then Err(RangesDoNotOverlap)
        else if !(later.stateUpdate.start <= earlier.end) then Err(RangesDoNotOverlap)
        else if !(earlier.plasmaBlockNumber < later.stateUpdate.plasmaBlockNumber) then Err(PriorityViolation)
        else if !(blockNumber < later.ethBlockRedeemable) then Err(LaterExitAlreadyRedeemable)
        else Ok((e, l))
  }

  /** Priority is one-way: once `a` may challenge `b`, `b` can never
      challenge `a`, and the attempt fails on the block-number check. */
  lemma ChallengeIsOneWay(exits: seq<Exit>, a: int, b: int, blockNumber: int, laterBlockNumber: int)
    requires ChallengeCheck(exits, a, b, blockNumber).Ok?
    ensures ChallengeCheck(exits, b, a, laterBlockNumber) == Err(PriorityViolation)
  {
  }

  /** An exit anchored to a strictly earlier plasma block may always
      challenge an exit over an overlapping range (in the half-open sense)
      while the later exit is not yet redeemable. */
  lemma EarlierExitMayChallenge(exits: seq<Exit>, e: nat, l: nat, blockNumber: int)
    requires e < |exits| && l < |exits|
    requires exits[e].stateUpdate.start < exits[l].stateUpdate.end
    requires exits[l].stateUpdate.start < exits[e].stateUpdate.end
    requires exits[e].stateUpdate.plasmaBlockNumber < exits[l].stateUpdate.plasmaBlockNumber
    requires blockNumber < exits[l].ethBlockRedeemable
    ensures ChallengeCheck(exits, e, l, blockNumber) == Ok((e, l))
  {
  }

  /** Ranges that merely touch pass the overlap check: [0, 10) may
      challenge [10, 20). */
  lemma TouchingRangesCountAsOverlapping(s: State, blockNumber: int)
    ensures var exits := [Exit(StateUpdate(s, 0, 10, 0), blockNumber + 1, false, 0),
                          Exit(StateUpdate(s, 10, 20, 1), blockNumber + 1, false, 0)];
            ChallengeCheck(exits, 0, 1, blockNumber) == Ok((0, 1))
  {
  }

  /** The lookups and assertions of `finalize_exit`, in the source's order;
      on success, the exit's list position. Revocation is not consulted. */
  function FinalizeCheck(exits: seq<Exit>, exitId: int, ranges: ExitableRanges.Table,
                         exitableRangeEnd: int, blockNumber: int): (r: Result<nat>)
    ensures r.Ok? <==>
      && PyIndex(|exits|, exitId).Some?
      && var e := exits[PyIndex(|exits|, exitId).value];
         && e.ethBlockRedeemable <= blockNumber
         && e.numChallenges == 0
         && exitableRangeEnd in ranges
         && ranges[exitableRangeEnd] <= e.stateUpdate.start
         && e.stateUpdate.end <= exitableRangeEnd
    ensures r.Ok? ==> Some(r.value) == PyIndex(|exits|, exitId)
    ensures PyIndex(|exits|, exitId).None? ==> r == Err(NoSuchExit)
    ensures r.Err? && PyIndex(|exits|, exitId).Some? ==>
      var e := exits[PyIndex(|exits|, exitId).value];
      && (blockNumber < e.ethBlockRedeemable ==> r.error == NotYetRedeemable)
      && (e.ethBlockRedeemable <= blockNumber && e.numChallenges != 0 ==> r.error == HasOpenChallenges)
      && (e.ethBlockRedeemable <= blockNumber && e.numChallenges == 0 ==> r.error == RangeNotExitable)
  {
    match PyIndex(|exits|, exitId)
    case None => Err(NoSuchExit)
    case Some(i) =>
      var e := exits[i];
      if !(e.ethBlockRedeemable <= blockNumber) then Err(NotYetRedeemable)
      else if e.numChallenges != 0 then Err(HasOpenChallenges)
      else if exitableRangeEnd !in ranges then Err(RangeNotExitable)
      else if !(e.stateUpdate.start >= ranges[exitableRangeEnd]) then Err(RangeNotExitable)
      else if !(e.stateUpdate.end <= exitableRangeEnd) then Err(RangeNotExitable)
      else Ok(i)
  }

  /** Finalizing does not look at `isRevoked`: a revoked exit passes exactly
      when the same exit unrevoked would. */
  lemma FinalizeIgnoresRevocation(exits: seq<Exit>, i: nat, ranges: ExitableRanges.Table,
                                  exitableRangeEnd: int, blockNumber: int)
    requires i < |exits|
    ensures FinalizeCheck(exits[i := exits[i].(isRevoked := true)], i, ranges, exitableRangeEnd, blockNumber)
         == FinalizeCheck(exits[i := exits[i].(isRevoked := false)], i, ranges, exitableRangeEnd, blockNumber)
  {
  }

  /** Finalizing does not consume the exit. When the exit spans its whole
      exitable entry the split leaves the table as it was, so the same exit
      passes every check again, at that block or any later one. */
  lemma WholeRangeExitFinalizesAgain(exits: seq<Exit>, exitId: int, ranges: ExitableRanges.Table,
                                     exitableRangeEnd: int, blockNumber: int, laterBlockNumber: int)
    requires FinalizeCheck(exits, exitId, ranges, exitableRangeEnd, blockNumber).Ok?
    requires blockNumber <= laterBlockNumber
    requires var su := exits[FinalizeCheck(exits, exitId, ranges, exitableRangeEnd, blockNumber).value].stateUpdate;
             su.start == ranges[exitableRangeEnd] && su.end == exitableRangeEnd
    ensures var su := exits[FinalizeCheck(exits, exitId, ranges, exitableRangeEnd, blockNumber).value].stateUpdate;
            FinalizeCheck(exits, exitId, ExitableRanges.Split(ranges, exitableRangeEnd, su.start, su.end),
                          exitableRangeEnd, laterBlockNumber)
            == FinalizeCheck(exits, exitId, ranges, exitableRangeEnd, blockNumber)
  {
    ExitableRanges.SplitOfWholeRangeChangesNothing(ranges, exitableRangeEnd);
  }

  /** The same holds for any exit that runs to its entry's end: the entry
      keeps its lower bound, so the exit passes every check against it again,
      at that block or any later one. */
  lemma ExitToTheEndFinalizesAgain(exits: seq<Exit>, exitId: int, ranges: ExitableRanges.Table,
                                   exitableRangeEnd: int, blockNumber: int, laterBlockNumber: int)
    requires FinalizeCheck(exits, exitId, ranges, exitableRangeEnd, blockNumber).Ok?
    requires blockNumber <= laterBlockNumber
    requires exits[FinalizeCheck(exits, exitId, ranges, exitableRangeEnd, blockNumber).value].stateUpdate.end
             == exitableRangeEnd
    ensures var su := exits[FinalizeCheck(exits, exitId, ranges, exitableRangeEnd, blockNumber).value].stateUpdate;
            FinalizeCheck(exits, exitId, ExitableRanges.Split(ranges, exitableRangeEnd, su.start, su.end),
                          exitableRangeEnd, laterBlockNumber)
            == FinalizeCheck(exits, exitId, ranges, exitableRangeEnd, blockNumber)
  {
  }

  /** An exit of a non-empty range that stops short of its entry's end can
      be finalized against that entry only once: after the split the entry
      begins at the exit's end, past the exit's start. */
  lemma PartialExitFinalizesOnce(exits: seq<Exit>, exitId: int, ranges: ExitableRanges.Table,
                                 exitableRangeEnd: int, blockNumber: int, laterBlockNumber: int)
    requires FinalizeCheck(exits, exitId, ranges, exitableRangeEnd, blockNumber).Ok?
    requires blockNumber <= laterBlockNumber
    requires var su := exits[FinalizeCheck(exits, exitId, ranges, exitableRangeEnd, blockNumber).value].stateUpdate;
             su.start < su.end < exitableRangeEnd
    ensures var su := exits[FinalizeCheck(exits, exitId, ranges, exitableRangeEnd, blockNumber).value].stateUpdate;
            FinalizeCheck(exits, exitId, ExitableRanges.Split(ranges, exitableRangeEnd, su.start, su.end),
                          exitableRangeEnd, laterBlockNumber)
            == Err(RangeNotExitable)
  {
  }

  // ---------------------------------------------------------------------
  // Challenge ids

  /** Every challenge names two exits of a list of `n` exits. */
  predicate ChallengeIdsResolve(n: nat, cs: seq<Challenge>)
  {
    forall j :: 0 <= j < |cs| ==>
      PyIndex(n, cs[j].earlierExitId).Some? && PyIndex(n, cs[j].laterExitId).Some?
  }

  /** Deleting challenge `k` moves every later challenge down one place. */
  lemma RemovalShiftsLaterIds(cs: seq<Challenge>, k: nat)
    requires k < |cs|
    ensures |cs[..k] + cs[k + 1..]| == |cs| - 1
    ensures forall j :: 0 <= j < k ==> (cs[..k] + cs[k + 1..])[j] == cs[j]
    ensures forall j :: k < j < |cs| ==> (cs[..k] + cs[k + 1..])[j - 1] == cs[j]
  {
  }

  /** Ids that resolve keep resolving when an exit is appended. */
  lemma MoreExitsKeepIdsResolved(n: nat, cs: seq<Challenge>)
    requires ChallengeIdsResolve(n, cs)
    ensures ChallengeIdsResolve(n + 1, cs)
  {
  }

  /** Ids that resolve keep resolving when a challenge is deleted. */
  lemma RemovalKeepsIdsResolved(n: nat, cs: seq<Challenge>, k: nat)
    requires ChallengeIdsResolve(n, cs) && k < |cs|
    ensures ChallengeIdsResolve(n, cs[..k] + cs[k + 1..])
  {
    RemovalShiftsLaterIds(cs, k);
  }

  // ---------------------------------------------------------------------
  // Challenge counters

  /** How many challenges name the exit at position `i` as their later exit,
      resolving each stored id against a list of `n` exits. */
  function OpenAgainst(cs: seq<Challenge>, n: nat, i: nat): nat
  {
    if cs == [] then 0
    else OpenAgainst(cs[..|cs| - 1], n, i) + (if PyIndex(n, cs[|cs| - 1].laterExitId) == Some(i) then 1 else 0)
  }

  /** Every exit's counter equals the number of open challenges against it. */
  predicate CountsAgree(exits: seq<Exit>, cs: seq<Challenge>)
  {
    forall i :: 0 <= i < |exits| ==> exits[i].numChallenges == OpenAgainst(cs, |exits|, i)
  }

  /** Every stored later-exit id is a plain position (not counted from the end). */
  predicate LaterIdsNonNegative(cs: seq<Challenge>)
  {
    forall j :: 0 <= j < |cs| ==> 0 <= cs[j].laterExitId
  }

  lemma {:induction false} OpenAgainstAppend(a: seq<Challenge>, b: seq<Challenge>, n: nat, i: nat)
    ensures OpenAgainst(a + b, n, i) == OpenAgainst(a, n, i) + OpenAgainst(b, n, i)
    decreases |b|
  {
    if b == [] {
      assert a + b == a;
    } else {
      var b' := b[..|b| - 1];
      assert (a + b)[..|a + b| - 1] == a + b';
      OpenAgainstAppend(a, b', n, i);
    }
  }

  /** A zero count means no challenge names the exit as its later exit. */
  lemma {:induction false} ZeroCountMeansUnchallenged(cs: seq<Challenge>, n: nat, i: nat)
    requires OpenAgainst(cs, n, i) == 0
    ensures forall j :: 0 <= j < |cs| ==> PyIndex(n, cs[j].laterExitId) != Some(i)
  {
    if cs != [] {
      var cs' := cs[..|cs| - 1];
      ZeroCountMeansUnchallenged(cs', n, i);
      forall j | 0 <= j < |cs|
        ensures PyIndex(n, cs[j].laterExitId) != Some(i)
      {
        if j < |cs| - 1 {
          assert cs[j] == cs'[j];
        }
      }
    }
  }

  /** An exit whose counter is zero is the later exit of no open challenge,
      so finalizing it leaves no challenge behind. */
  lemma UnchallengedExit(exits: seq<Exit>, cs: seq<Challenge>, i: nat)
    requires CountsAgree(exits, cs) && i < |exits| && exits[i].numChallenges == 0
    ensures forall j :: 0 <= j < |cs| ==> PyIndex(|exits|, cs[j].laterExitId) != Some(i)
  {
    ZeroCountMeansUnchallenged(cs, |exits|, i);
  }

  lemma {:induction false} OpenAgainstGrow(cs: seq<Challenge>, n: nat, i: nat)
    requires forall j :: 0 <= j < |cs| ==> 0 <= cs[j].laterExitId < n
    requires i <= n
    ensures OpenAgainst(cs, n + 1, i) == if i < n then OpenAgainst(cs, n, i) else 0
  {
    if cs != [] {
      OpenAgainstGrow(cs[..|cs| - 1], n, i);
    }
  }

  /** Appending a fresh, unchallenged exit keeps every counter right, as long
      as no stored later id counts from the end of the list. */
  lemma AppendExitKeepsCounts(exits: seq<Exit>, cs: seq<Challenge>, e: Exit)
    requires CountsAgree(exits, cs) && LaterIdsNonNegative(cs)
    requires forall j :: 0 <= j < |cs| ==> PyIndex(|exits|, cs[j].laterExitId).Some?
    requires e.numChallenges == 0
    ensures CountsAgree(exits + [e], cs)
  {
    forall i | 0 <= i < |exits| + 1
      ensures (exits + [e])[i].numChallenges == OpenAgainst(cs, |exits| + 1, i)
    {
      OpenAgainstGrow(cs, |exits|, i);
    }
  }

  /** A challenge stored with a negative later id resolves against the
      current length of the list. Here exit 0 challenges exit 1 by the id -1,
      which the checks accept, and the counters agree; once one more exit is
      appended, -1 names the new exit, so exit 1's counter and the new
      exit's counter (zero) stop agreeing with the challenge list. */
  lemma NegativeLaterIdDrifts(s: State, blockNumber: int, newExit: Exit)
    requires newExit.numChallenges == 0
    ensures var e0 := Exit(StateUpdate(s, 0, 10, 0), blockNumber + 1, false, 0);
            var e1 := Exit(StateUpdate(s, 0, 10, 1), blockNumber + 1, false, 0);
            var challenged := e1.(numChallenges := 1);
            && ChallengeCheck([e0, e1], 0, -1, blockNumber) == Ok((0, 1))
            && CountsAgree([e0, challenged], [Challenge(0, -1)])
            && !CountsAgree([e0, challenged, newExit], [Challenge(0, -1)])
  {
    var cs := [Challenge(0, -1)];
    assert cs[..0] == [];
    assert OpenAgainst(cs, 2, 0) == 0 && OpenAgainst(cs, 2, 1) == 1;
    assert OpenAgainst(cs, 3, 1) == 0;
  }

  /** A new challenge against the exit at `l` raises exactly that counter by one. */
  lemma ChallengeKeepsCounts(exits: seq<Exit>, cs: seq<Challenge>, earlierExitId: int, laterExitId: int,
                             l: nat, redeemable: int)
    requires CountsAgree(exits, cs)
    requires l < |exits| && PyIndex(|exits|, laterExitId) == Some(l)
    ensures CountsAgree(exits[l := exits[l].(numChallenges := exits[l].numChallenges + 1,
                                             ethBlockRedeemable := redeemable)],
                        cs + [Challenge(earlierExitId, laterExitId)])
  {
    var c := Challenge(earlierExitId, laterExitId);
    forall i | 0 <= i < |exits|
      ensures OpenAgainst(cs + [c], |exits|, i) == OpenAgainst(cs, |exits|, i) + (if i == l then 1 else 0)
    {
      OpenAgainstAppend(cs, [c], |exits|, i);
      assert [c][..0] == [];
    }
  }

  /** Deleting challenge `k` (which names the exit at `l`) and lowering that
      exit's counter by one keeps every counter right. */
  lemma RemoveKeepsCounts(exits: seq<Exit>, cs: seq<Challenge>, k: nat, l: nat)
    requires CountsAgree(exits, cs)
    requires k < |cs| && l < |exits| && PyIndex(|exits|, cs[k].laterExitId) == Some(l)
    ensures CountsAgree(exits[l := exits[l].(numChallenges := exits[l].numChallenges - 1)],
                        cs[..k] + cs[k + 1..])
  {
    assert cs == cs[..k] + [cs[k]] + cs[k + 1..];
    forall i | 0 <= i < |exits|
      ensures OpenAgainst(cs, |exits|, i)
           == OpenAgainst(cs[..k] + cs[k + 1..], |exits|, i) + (if i == l then 1 else 0)
    {
      OpenAgainstAppend(cs[..k] + [cs[k]], cs[k + 1..], |exits|, i);
      OpenAgainstAppend(cs[..k], [cs[k]], |exits|, i);
      OpenAgainstAppend(cs[..k], cs[k + 1..], |exits|, i);
      assert [cs[k]][..0] == [];
    }
  }

  /** Counters only depend on the number of exits and their counter fields. */
  lemma SameCountersKeepCounts(exits: seq<Exit>, exits': seq<Exit>, cs: seq<Challenge>)
    requires CountsAgree(exits, cs) && |exits'| == |exits|
    requires forall i :: 0 <= i < |exits| ==> exits'[i].numChallenges == exits[i].numChallenges
    ensures CountsAgree(exits', cs)
  {
  }
}
