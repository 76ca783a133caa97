/** What the retention strategy guarantees, proved about the idle test and about
    `CheckOutcome`, the outcome that `IdleRetentionStrategy.Check` is proved to
    produce. */
module IdleRetentionProperties {
  import opened JavaInt
  import opened Host
  import opened IdleRetention

  // ---------------------------------------------------------------------------
  // The idle test and the timeout conversion

  /** The conversion of the timeout to milliseconds is exact exactly when the
      product fits in an `int`, that is for at most 35791 minutes either way. */
  lemma MaxAgeExactIff(maxIdleMinutes: Int32)
    ensures MaxAge(maxIdleMinutes) == maxIdleMinutes * MILLIS_PER_MINUTE <==>
            -MAX_EXACT_MINUTES <= maxIdleMinutes <= MAX_EXACT_MINUTES
  {
  }

  /** Just above the exact range the product wraps to a negative timeout. */
  lemma MaxAgeOverflowIsNegative(maxIdleMinutes: Int32)
    requires MAX_EXACT_MINUTES < maxIdleMinutes <= 2 * MAX_EXACT_MINUTES
    ensures MaxAge(maxIdleMinutes) == maxIdleMinutes * MILLIS_PER_MINUTE - TWO_32
    ensures MaxAge(maxIdleMinutes) < 0
  {
  }

  /** With such a timeout every computer whose idle age is not negative is idle
      too long, including one that became idle this very millisecond. */
  lemma OverflowReclaimsAtOnce(maxIdleMinutes: Int32, idleStartMilliseconds: Long, now: Long)
    requires MAX_EXACT_MINUTES < maxIdleMinutes <= 2 * MAX_EXACT_MINUTES
    requires idleStartMilliseconds <= now && FitsLong(now - idleStartMilliseconds)
    ensures IsIdleForTooLong(maxIdleMinutes, idleStartMilliseconds, now)
  {
  }

  /** The comparison is strict: idle for exactly the timeout is not too long,
      one millisecond more is. */
  lemma StrictBoundary(maxIdleMinutes: Int32, idleStartMilliseconds: Long)
    requires 0 <= maxIdleMinutes <= MAX_EXACT_MINUTES
    requires FitsLong(idleStartMilliseconds + maxIdleMinutes * MILLIS_PER_MINUTE + 1)
    ensures !IsIdleForTooLong(maxIdleMinutes, idleStartMilliseconds,
                              idleStartMilliseconds + maxIdleMinutes * MILLIS_PER_MINUTE)
    ensures IsIdleForTooLong(maxIdleMinutes, idleStartMilliseconds,
                             idleStartMilliseconds + maxIdleMinutes * MILLIS_PER_MINUTE + 1)
  {
  }

  /** Without overflow, once a computer is idle too long it stays so while its
      idle start is unchanged. */
  lemma IdleStaysIdle(maxIdleMinutes: Int32, idleStartMilliseconds: Long, now: Long, later: Long)
    requires now <= later
    requires FitsLong(now - idleStartMilliseconds) && FitsLong(later - idleStartMilliseconds)
    requires IsIdleForTooLong(maxIdleMinutes, idleStartMilliseconds, now)
    ensures IsIdleForTooLong(maxIdleMinutes, idleStartMilliseconds, later)
  {
  }

  // ---------------------------------------------------------------------------
  // The task-acceptance gate

  /** A run of requests that starts by closing the gate and never opens it
      leaves it closed. */
  lemma {:induction false} GateStaysClosed(initial: bool, calls: seq<Call>)
    requires |calls| >= 1 && calls[0] == SetAcceptingTasks(false)
    requires SetAcceptingTasks(true) !in calls
    ensures !GateAfter(initial, calls)
  {
    var n := |calls| - 1;
    if n > 0 && !calls[n].SetAcceptingTasks? {
      assert calls[..n][0] == calls[0];
      assert forall c :: c in calls[..n] ==> c in calls;
      GateStaysClosed(initial, calls[..n]);
    }
  }

  /** During a check the gate is closed by the first request and stays closed
      until the last one, which writes the final value; disconnecting, waiting
      and terminating all happen while it is closed. Replaying the requests
      gives the flag the computer ends with. */
  lemma GateClosedDuringCheck(maxIdleMinutes: Int32, s: ComputerState, now: Long, interrupted: bool)
    ensures var o := CheckOutcome(maxIdleMinutes, s, now, interrupted);
            |o.calls| >= 2 &&
            o.calls[0] == SetAcceptingTasks(false) &&
            o.calls[|o.calls| - 1] == SetAcceptingTasks(o.after.acceptingTasks) &&
            (forall k :: 1 <= k < |o.calls| ==> !GateAfter(s.acceptingTasks, o.calls[..k])) &&
            GateAfter(s.acceptingTasks, o.calls) == o.after.acceptingTasks
  {
    var o := CheckOutcome(maxIdleMinutes, s, now, interrupted);
    var n := |o.calls| - 1;
    assert SetAcceptingTasks(true) !in o.calls[..n];
    forall k | 1 <= k < |o.calls|
      ensures !GateAfter(s.acceptingTasks, o.calls[..k])
    {
      assert o.calls[..k] == o.calls[..n][..k];
      assert forall c :: c in o.calls[..n][..k] ==> c in o.calls[..n];
      GateStaysClosed(s.acceptingTasks, o.calls[..k]);
    }
  }

  /** A computer that is not idle too long gets its flag back and is left
      alone: no disconnect, no wait, no termination, and the check returns 1. */
  lemma NotIdleRestoresGate(maxIdleMinutes: Int32, s: ComputerState, now: Long, interrupted: bool)
    requires !IsIdleForTooLong(maxIdleMinutes, s.idleStartMilliseconds, now)
    ensures var o := CheckOutcome(maxIdleMinutes, s, now, interrupted);
            o.after == s && o.after.acceptingTasks == s.acceptingTasks &&
            Terminations(o.calls) == [] &&
            Disconnect(OfflineIdle) !in o.calls && WaitUntilOffline !in o.calls &&
            o.code == 1
  {
    TerminationsOfCheck(maxIdleMinutes, s, now, interrupted);
  }

  /** A computer that is idle too long ends the check not accepting tasks,
      whatever it was before and on every path: missing node, completed wait,
      interrupted wait. Its idle start and node are untouched. */
  lemma IdleClosesGate(maxIdleMinutes: Int32, s: ComputerState, now: Long, interrupted: bool)
    requires IsIdleForTooLong(maxIdleMinutes, s.idleStartMilliseconds, now)
    ensures var o := CheckOutcome(maxIdleMinutes, s, now, interrupted);
            !o.after.acceptingTasks &&
            o.after.idleStartMilliseconds == s.idleStartMilliseconds &&
            o.after.node == s.node
  {
  }

  // ---------------------------------------------------------------------------
  // Disconnect and terminate

  /** Requests with no termination among them terminate nothing. */
  lemma NoTerminations(calls: seq<Call>)
    requires forall j :: 0 <= j < |calls| ==> !calls[j].TerminateInstance?
    ensures Terminations(calls) == []
  {
  }

  /** Requests with exactly one termination terminate that node only. */
  lemma {:induction false} OneTermination(calls: seq<Call>, i: nat, id: string)
    requires i < |calls| && calls[i] == TerminateInstance(id)
    requires forall j :: 0 <= j < |calls| && j != i ==> !calls[j].TerminateInstance?
    ensures Terminations(calls) == [id]
  {
    if i == 0 {
      NoTerminations(calls[1..]);
    } else {
      OneTermination(calls[1..], i - 1, id);
    }
  }

  /** The terminations a check requests: the computer's node, once, exactly
      when it is idle too long, has a node, and is offline or its wait completes. */
  lemma TerminationsOfCheck(maxIdleMinutes: Int32, s: ComputerState, now: Long, interrupted: bool)
    ensures Terminations(CheckOutcome(maxIdleMinutes, s, now, interrupted).calls) ==
            if IsIdleForTooLong(maxIdleMinutes, s.idleStartMilliseconds, now) && s.node.Some? &&
               (!s.online || !interrupted)
            then [s.node.value.nodeName] else []
  {
    var c := CheckOutcome(maxIdleMinutes, s, now, interrupted).calls;
    if !IsIdleForTooLong(maxIdleMinutes, s.idleStartMilliseconds, now) || s.node.None? ||
       (s.online && interrupted) {
      NoTerminations(c);
    } else if !s.online {
      OneTermination(c, 1, s.node.value.nodeName);
    } else {
      OneTermination(c, 3, s.node.value.nodeName);
    }
  }

  /** An idle computer whose node is gone: the check returns 0 and asks for
      nothing but the gate. */
  lemma MissingNodeIsNoop(maxIdleMinutes: Int32, s: ComputerState, now: Long, interrupted: bool)
    requires IsIdleForTooLong(maxIdleMinutes, s.idleStartMilliseconds, now)
    requires s.node.None?
    ensures var o := CheckOutcome(maxIdleMinutes, s, now, interrupted);
            o.code == 0 && o.after == s.(acceptingTasks := false) &&
            Terminations(o.calls) == [] &&
            Disconnect(OfflineIdle) !in o.calls && WaitUntilOffline !in o.calls
  {
    TerminationsOfCheck(maxIdleMinutes, s, now, interrupted);
  }

  /** An idle computer with a node whose wait is not interrupted: its node is
      terminated exactly once, by name, whether it was online or not; it is
      disconnected once if it was online and not at all otherwise. */
  lemma TerminatesExactlyOnce(maxIdleMinutes: Int32, s: ComputerState, now: Long, interrupted: bool)
    requires IsIdleForTooLong(maxIdleMinutes, s.idleStartMilliseconds, now)
    requires s.node.Some?
    requires !s.online || !interrupted
    ensures var o := CheckOutcome(maxIdleMinutes, s, now, interrupted);
            Terminations(o.calls) == [s.node.value.nodeName] &&
            multiset(o.calls)[Disconnect(OfflineIdle)] == (if s.online then 1 else 0) &&
            multiset(o.calls)[WaitUntilOffline] == (if s.online then 1 else 0) &&
            !o.after.online && o.code == 1
  {
    TerminationsOfCheck(maxIdleMinutes, s, now, interrupted);
  }

  /** An interrupted wait: the exception does not escape, the termination that
      follows the wait in the same try block is skipped, the gate stays closed
      and the check returns 1. */
  lemma InterruptedWaitSkipsTermination(maxIdleMinutes: Int32, s: ComputerState, now: Long)
    requires IsIdleForTooLong(maxIdleMinutes, s.idleStartMilliseconds, now)
    requires s.node.Some? && s.online
    ensures var o := CheckOutcome(maxIdleMinutes, s, now, true);
            Terminations(o.calls) == [] &&
            multiset(o.calls)[Disconnect(OfflineIdle)] == 1 &&
            !o.after.acceptingTasks &&
            o.code == 1
  {
  }

  /** Termination is never requested before the disconnect and the wait, and
      a computer that was online is terminated only after a wait. */
  lemma TerminateFollowsWait(maxIdleMinutes: Int32, s: ComputerState, now: Long, interrupted: bool)
    ensures var o := CheckOutcome(maxIdleMinutes, s, now, interrupted);
            (forall i, j :: 0 <= i < j < |o.calls| && o.calls[i].TerminateInstance? ==>
               o.calls[j] != Disconnect(OfflineIdle) && o.calls[j] != WaitUntilOffline) &&
            (s.online && Terminations(o.calls) != [] ==> WaitUntilOffline in o.calls)
  {
    TerminationsOfCheck(maxIdleMinutes, s, now, interrupted);
  }

  /** The check returns 0 exactly on the missing-node path and 1 otherwise. */
  lemma ResultCode(maxIdleMinutes: Int32, s: ComputerState, now: Long, interrupted: bool)
    ensures var o := CheckOutcome(maxIdleMinutes, s, now, interrupted);
            (o.code == 0 <==> IsIdleForTooLong(maxIdleMinutes, s.idleStartMilliseconds, now) && s.node.None?) &&
            (o.code == 0 || o.code == 1)
  {
  }

  // ---------------------------------------------------------------------------
  // Repeated checks

  /** Once the fleet has detached the node, a second check requests no second
      termination: over the two checks at most one is requested. */
  lemma DetachedNodeTerminatedAtMostOnce(maxIdleMinutes: Int32, s: ComputerState,
                                         now: Long, later: Long, first: bool, second: bool)
    ensures var o1 := CheckOutcome(maxIdleMinutes, s, now, first);
            var o2 := CheckOutcome(maxIdleMinutes, o1.after.(node := None), later, second);
            |Terminations(o1.calls)| + |Terminations(o2.calls)| <= 1
  {
    var o1 := CheckOutcome(maxIdleMinutes, s, now, first);
    TerminationsOfCheck(maxIdleMinutes, s, now, first);
    TerminationsOfCheck(maxIdleMinutes, o1.after.(node := None), later, second);
  }

  /** The check itself does not remember a termination: while the node is still
      attached, a later check of the same idle computer asks again (without a
      second disconnect, the computer being offline by then). */
  lemma RecheckBeforeDetachTerminatesAgain(maxIdleMinutes: Int32, s: ComputerState,
                                           now: Long, later: Long, first: bool, second: bool)
    requires IsIdleForTooLong(maxIdleMinutes, s.idleStartMilliseconds, now)
    requires now <= later
    requires FitsLong(now - s.idleStartMilliseconds) && FitsLong(later - s.idleStartMilliseconds)
    requires s.node.Some? && (!s.online || !first)
    ensures var o1 := CheckOutcome(maxIdleMinutes, s, now, first);
            var o2 := CheckOutcome(maxIdleMinutes, o1.after, later, second);
            Terminations(o1.calls) == [s.node.value.nodeName] &&
            Terminations(o2.calls) == [s.node.value.nodeName] &&
            Disconnect(OfflineIdle) !in o2.calls
  {
    var o1 := CheckOutcome(maxIdleMinutes, s, now, first);
    IdleStaysIdle(maxIdleMinutes, s.idleStartMilliseconds, now, later);
    TerminationsOfCheck(maxIdleMinutes, s, now, first);
    TerminationsOfCheck(maxIdleMinutes, o1.after, later, second);
  }

  // ---------------------------------------------------------------------------
  // A client

  /** A ten-minute timeout, an online computer idle for fifteen minutes whose
      wait completes: one disconnect, one wait, one termination of its node, in
      that order between closing the gate and leaving it closed. A check right
      after starting another computer sees only its own requests appended. */
  method ReclaimIdleOnlineComputer()
  {
    var journal := new Journal();
    var fleet := new EC2FleetCloud(journal);
    var strategy := new IdleRetentionStrategy(10, fleet);
    var idleStart := 1_000_000;
    var now := idleStart + 15 * MILLIS_PER_MINUTE;
    var c := new SlaveComputer(ComputerState(true, true, idleStart, Some(Node("fleet-worker-1"))), journal);
    var r := strategy.Check(c, now, false);
    assert r == 1 && !c.acceptingTasks && !c.online;
    assert journal.entries ==
      [SetAcceptingTasks(false), Disconnect(OfflineIdle), WaitUntilOffline,
       TerminateInstance("fleet-worker-1"), SetAcceptingTasks(false)];

    var d := new SlaveComputer(ComputerState(false, false, now, None), journal);
    strategy.Start(d);
    assert journal.entries[5..] == [Connect(false)];
    assert d.State() == ComputerState(false, false, now, None);
  }
}
