/** The retention strategy for one idle worker of an EC2 fleet: the idle-age
    test, the periodic check that gates task acceptance and, once the worker has
    been idle too long, disconnects it and asks the fleet to terminate its node,
    and the start hook that asks for a connection. */
module IdleRetention {
  import opened JavaInt
  import opened Host

  /** Milliseconds per minute; the source multiplies by 60 and then by 1000. */
  const MILLIS_PER_MINUTE: int := 60 * 1000

  /** The largest timeout, in minutes, whose conversion to milliseconds fits in an `int`. */
  const MAX_EXACT_MINUTES: int := 35791

  /** The timeout in milliseconds as the source computes it: `maxIdleMinutes*60*1000`
      in 32-bit `int` arithmetic, then widened to `long`. It is the wrapped
      exact product, and the exact product whenever that fits. */
  function MaxAge(maxIdleMinutes: Int32): (r: Int32)
    ensures r == WrapInt(maxIdleMinutes * MILLIS_PER_MINUTE)
    ensures -MAX_EXACT_MINUTES <= maxIdleMinutes <= MAX_EXACT_MINUTES ==>
              r == maxIdleMinutes * MILLIS_PER_MINUTE
  {
    WrapIntMulAssoc(maxIdleMinutes, 60, 1000);
    WrapInt(WrapInt(maxIdleMinutes * 60) * 1000)
  }

  /** Whether a computer idle since `idleStartMilliseconds` has, at time `now`,
      been idle for longer than the timeout. The age is a `long` difference and
      the comparison is strict. When neither the age nor the timeout overflows,
      this is exactly "idle for more than maxIdleMinutes minutes". */
  function IsIdleForTooLong(maxIdleMinutes: Int32, idleStartMilliseconds: Long, now: Long): (r: bool)
    ensures -MAX_EXACT_MINUTES <= maxIdleMinutes <= MAX_EXACT_MINUTES &&
            FitsLong(now - idleStartMilliseconds) ==>
              (r <==> now - idleStartMilliseconds > maxIdleMinutes * MILLIS_PER_MINUTE)
  {
    var age := WrapLong(now - idleStartMilliseconds);
    var maxAge := MaxAge(maxIdleMinutes);
    age > maxAge
  }

  /** The gate value after a sequence of requests: the last `SetAcceptingTasks`
      wins, and with none the gate keeps its initial value. */
  function GateAfter(initial: bool, calls: seq<Call>): (gate: bool)
    ensures gate == initial || SetAcceptingTasks(gate) in calls
    decreases |calls|
  {
    if calls == [] then initial
    else match calls[|calls| - 1]
      case SetAcceptingTasks(accepting) => accepting
      case _ => GateAfter(initial, calls[..|calls| - 1])
  }

  /** The node names the fleet was asked to terminate, in order. */
  function Terminations(calls: seq<Call>): (ids: seq<string>)
    ensures |ids| <= |calls|
    ensures forall id :: id in ids <==> TerminateInstance(id) in calls
  {
    if calls == [] then []
    else
      var rest := Terminations(calls[1..]);
      assert forall id :: TerminateInstance(id) in calls <==>
        calls[0] == TerminateInstance(id) || TerminateInstance(id) in calls[1..];
      match calls[0]
      case TerminateInstance(id) => [id] + rest
      case _ => rest
  }

  /** What one check does: the computer's state afterwards, the requests it
      made in order, and the value it returns. */
  datatype Outcome = Outcome(after: ComputerState, calls: seq<Call>, code: int)

  /** The outcome of a check, case by case. `interrupted` says whether the wait
      for the computer to go offline would be interrupted. */
  function CheckOutcome(maxIdleMinutes: Int32, s: ComputerState, now: Long, interrupted: bool): Outcome
  {
    if !IsIdleForTooLong(maxIdleMinutes, s.idleStartMilliseconds, now) then
      Outcome(s, [SetAcceptingTasks(false), SetAcceptingTasks(s.acceptingTasks)], 1)
    else
      var closed := s.(acceptingTasks := false);
      match s.node
      case None =>
        Outcome(closed, [SetAcceptingTasks(false), SetAcceptingTasks(false)], 0)
      case Some(n) =>
        if !s.online then
          Outcome(closed,
            [SetAcceptingTasks(false), TerminateInstance(n.nodeName), SetAcceptingTasks(false)], 1)
        else if interrupted then
          Outcome(closed,
            [SetAcceptingTasks(false), Disconnect(OfflineIdle), WaitUntilOffline, SetAcceptingTasks(false)], 1)
        else
          Outcome(closed.(online := false),
            [SetAcceptingTasks(false), Disconnect(OfflineIdle), WaitUntilOffline,
             TerminateInstance(n.nodeName), SetAcceptingTasks(false)], 1)
  }

  class IdleRetentionStrategy {
    const maxIdleMinutes: Int32
    const parent: EC2FleetCloud

    constructor (maxIdleMinutes: Int32, parent: EC2FleetCloud)
      ensures this.maxIdleMinutes == maxIdleMinutes && this.parent == parent
    {
      this.maxIdleMinutes := maxIdleMinutes;
      this.parent := parent;
    }

    /** The periodic check of one computer. `now` is the current time in
        milliseconds; `interrupted` decides whether the wait for the computer
        to go offline is interrupted. */
    method Check(c: SlaveComputer, now: Long, interrupted: bool) returns (r: int)
      requires c.journal == parent.journal
      modifies c, c.journal
      ensures var o := CheckOutcome(maxIdleMinutes, old(c.State()), now, interrupted);
              c.State() == o.after &&
              c.journal.entries == old(c.journal.entries) + o.calls &&
              r == o.code
    {
      var shouldAcceptTasks := c.acceptingTasks;
      c.SetAcceptingTasks(false);
      r := 1;
      label tryBlock: {
        if IsIdleForTooLong(maxIdleMinutes, c.idleStartMilliseconds, now) {
          shouldAcceptTasks := false;
          var compNode := c.node;
          if compNode.None? {
            r := 0;
            break tryBlock;
          }
          var nodeId := compNode.value.nodeName;
          if c.online {
            c.Disconnect(OfflineIdle);
            var completed := c.WaitUntilOffline(interrupted);
            if !completed {
              // the InterruptedException is caught: the rest of the try block is skipped
              break tryBlock;
            }
          }
          parent.TerminateInstance(nodeId);
        }
      }
      // finally
      c.SetAcceptingTasks(shouldAcceptTasks);
    }

    /** The start hook: one connection request, nothing else. */
    method Start(c: SlaveComputer)
      modifies c.journal
      ensures c.journal.entries == old(c.journal.entries) + [Connect(false)]
    {
      c.Connect(false);
    }
  }
}
