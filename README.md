# Idle retention for EC2 fleet workers

This project models the retention strategy of the EC2 Fleet plugin for Jenkins
(`IdleRetentionStrategy`). The strategy decides when an idle worker can be
reclaimed. It has three parts:

- **The idle test.** The time since the computer became idle is a `long`
  difference. It is compared strictly with the timeout `maxIdleMinutes*60*1000`,
  which is computed in 32-bit `int` arithmetic.
- **The periodic check.** The check saves the computer's accepting-tasks flag and
  closes it. If the computer is not idle too long, the check writes the saved flag
  back and returns 1. If it is idle too long:
  - the flag stays closed;
  - a missing node makes the check return 0;
  - an online computer is disconnected, and the check waits for it to go offline;
  - the fleet is asked to terminate the node by name;
  - a `finally` block writes the flag back on every exit path;
  - an interrupted wait is caught, and the termination that follows it in the
    same `try` block is skipped.
- **The start hook.** It requests a connection and does nothing else.

Modules:

- `JavaInt` (`java_int.dfy`) holds Java's `int` and `long` wrap-around.
- `Host` (`host.dfy`) holds stand-ins for the computer handle (`SlaveComputer`)
  and the fleet (`EC2FleetCloud`). Both are classes. Their fields are exactly
  the state the strategy reads or writes. Every request made of either object is
  appended to one shared `Journal`. That journal gives the order of the requests
  across both objects.
- `IdleRetention` (`idle_retention.dfy`) holds the idle test and the strategy
  class. `Check` is an imperative method. The `try` block is a labelled block:
  `return 0` and the caught interruption `break` out of it. The `finally` write
  comes after the block, so it runs on every path. `Check` is proved to produce
  exactly the state, the journal entries and the return value given by
  `CheckOutcome`, a case table.
- `IdleRetentionProperties` (`idle_retention_properties.dfy`) holds the
  guarantees, proved about `CheckOutcome` and the idle test.

The current time `now` is a parameter. Whether `waitUntilOffline` completes or is
interrupted is the boolean parameter `interrupted`. A wait that completes leaves
the computer offline. `Check` requires the computer and the fleet to share one
journal. This is how the calls are observed; the source places no such demand on
its callers.

An interrupted wait has two consequences in the code:

- `terminateInstance` (line 62) is skipped. It sits in the same `try` as
  `waitUntilOffline` (line 60), so the caught interruption jumps past it.
- The flag stays `false`. `shouldAcceptTasks` was already set to `false` at
  line 49, so the `finally` block writes `false` back.

Both are stated in `InterruptedWaitSkipsTermination`.

Two more facts come from the proofs:

- The timeout conversion is exact only for at most 35791 minutes
  (`MaxAgeExactIff`). For 35792 to 71582 minutes it wraps to a negative timeout.
  A computer is then idle too long as soon as it becomes idle
  (`OverflowReclaimsAtOnce`).
- The check keeps no memory of a termination it requested. At most one
  termination per idle episode depends on the fleet detaching the node
  (`DetachedNodeTerminatedAtMostOnce`). Until the node is detached, a later
  check asks again (`RecheckBeforeDetachTerminatesAgain`).

## Model

| member | source | states |
|---|---|---|
| `JavaInt.WrapInt` | src/main/java/com/amazon/jenkins/ec2fleet/IdleRetentionStrategy.java:33 | the `int` produced by Java multiplication is in range, differs from the exact value by a multiple of 2^32, and is the exact value when that fits |
| `JavaInt.WrapLong` | src/main/java/com/amazon/jenkins/ec2fleet/IdleRetentionStrategy.java:32 | the `long` produced by the age subtraction is in range, differs from the exact value by a multiple of 2^64, and is the exact value when that fits |
| `JavaInt.WrapIntMulAssoc` | src/main/java/com/amazon/jenkins/ec2fleet/IdleRetentionStrategy.java:33 | wrapping after each of the two multiplications gives the same `int` as wrapping the exact product once |
| `IdleRetention.MaxAge` | src/main/java/com/amazon/jenkins/ec2fleet/IdleRetentionStrategy.java:33 | the timeout in milliseconds is the 32-bit wrap of `maxIdleMinutes*60000`, and equals it for at most 35791 minutes either way |
| `IdleRetention.IsIdleForTooLong` | src/main/java/com/amazon/jenkins/ec2fleet/IdleRetentionStrategy.java:31-36 | without overflow, the test holds iff the idle age in milliseconds is strictly greater than `maxIdleMinutes*60000` |
| `IdleRetention.Terminations` | src/main/java/com/amazon/jenkins/ec2fleet/IdleRetentionStrategy.java:62 | the node names the fleet is asked to terminate are exactly those of the termination requests in the journal |
| `Host.SlaveComputer.SetAcceptingTasks` | src/main/java/com/amazon/jenkins/ec2fleet/IdleRetentionStrategy.java:45 | the gate write used at lines 45 and 67: the computer's accepting-tasks flag becomes the given value, nothing else of its state changes, and one `SetAcceptingTasks` request is appended to the journal |
| `Host.SlaveComputer.Disconnect` | src/main/java/com/amazon/jenkins/ec2fleet/IdleRetentionStrategy.java:58-59 | a disconnect request with the idle cause is appended to the journal; the computer's state is not changed |
| `Host.SlaveComputer.Connect` | src/main/java/com/amazon/jenkins/ec2fleet/IdleRetentionStrategy.java:76 | a connect request with the given `forceReconnect` is appended to the journal; the computer's state is not changed |
| `Host.SlaveComputer.WaitUntilOffline` | src/main/java/com/amazon/jenkins/ec2fleet/IdleRetentionStrategy.java:60 | the wait completes iff it is not interrupted; a completed wait leaves the computer offline; the wait is journaled |
| `Host.EC2FleetCloud.TerminateInstance` | src/main/java/com/amazon/jenkins/ec2fleet/IdleRetentionStrategy.java:62 | a termination request for the given node name is appended to the journal |
| `IdleRetention.IdleRetentionStrategy.constructor` | src/main/java/com/amazon/jenkins/ec2fleet/IdleRetentionStrategy.java:25-29 | the strategy keeps the timeout in minutes and its fleet |
| `IdleRetention.IdleRetentionStrategy.Check` | src/main/java/com/amazon/jenkins/ec2fleet/IdleRetentionStrategy.java:38-72 | the computer's new state, the requests appended to the journal and the returned value are exactly those of `CheckOutcome` for the old state |
| `IdleRetention.IdleRetentionStrategy.Start` | src/main/java/com/amazon/jenkins/ec2fleet/IdleRetentionStrategy.java:74-77 | exactly one `connect(false)` request is made; no computer or fleet state changes |
| `IdleRetentionProperties.MaxAgeExactIff` | src/main/java/com/amazon/jenkins/ec2fleet/IdleRetentionStrategy.java:33 | the timeout conversion is exact iff `-35791 <= maxIdleMinutes <= 35791` |
| `IdleRetentionProperties.MaxAgeOverflowIsNegative` | src/main/java/com/amazon/jenkins/ec2fleet/IdleRetentionStrategy.java:33 | for 35792 to 71582 minutes the timeout is `maxIdleMinutes*60000 - 2^32`, a negative number |
| `IdleRetentionProperties.OverflowReclaimsAtOnce` | src/main/java/com/amazon/jenkins/ec2fleet/IdleRetentionStrategy.java:31-36 | with such a timeout, every computer with a non-negative idle age is idle too long |
| `IdleRetentionProperties.StrictBoundary` | src/main/java/com/amazon/jenkins/ec2fleet/IdleRetentionStrategy.java:35 | idle for exactly the timeout is not too long; one millisecond more is |
| `IdleRetentionProperties.IdleStaysIdle` | src/main/java/com/amazon/jenkins/ec2fleet/IdleRetentionStrategy.java:31-36 | without overflow, a computer idle too long at one time is still idle too long later, for the same idle start |
| `IdleRetentionProperties.GateStaysClosed` | src/main/java/com/amazon/jenkins/ec2fleet/IdleRetentionStrategy.java:45 | requests that begin by closing the gate and never open it leave it closed |
| `IdleRetentionProperties.GateClosedDuringCheck` | src/main/java/com/amazon/jenkins/ec2fleet/IdleRetentionStrategy.java:44-68 | the first request closes the gate, and the gate stays closed after every request before the last. The last request writes the final flag. Replaying the requests gives the computer's final flag |
| `IdleRetentionProperties.NotIdleRestoresGate` | src/main/java/com/amazon/jenkins/ec2fleet/IdleRetentionStrategy.java:44-71 | not idle too long: the computer's state, flag included, is unchanged; there is no disconnect, no wait and no termination; the result is 1 |
| `IdleRetentionProperties.IdleClosesGate` | src/main/java/com/amazon/jenkins/ec2fleet/IdleRetentionStrategy.java:45-67 | idle too long: the flag ends `false` on every path, whatever it was; idle start and node are untouched |
| `IdleRetentionProperties.NoTerminations` | src/main/java/com/amazon/jenkins/ec2fleet/IdleRetentionStrategy.java:62 | a journal without termination requests terminates nothing |
| `IdleRetentionProperties.OneTermination` | src/main/java/com/amazon/jenkins/ec2fleet/IdleRetentionStrategy.java:62 | a journal with exactly one termination request terminates exactly that node |
| `IdleRetentionProperties.TerminationsOfCheck` | src/main/java/com/amazon/jenkins/ec2fleet/IdleRetentionStrategy.java:47-63 | a check terminates its node's name once iff the computer is idle too long, has a node, and is offline or its wait completes; otherwise it terminates nothing |
| `IdleRetentionProperties.MissingNodeIsNoop` | src/main/java/com/amazon/jenkins/ec2fleet/IdleRetentionStrategy.java:51-54 | idle too long with no node: the result is 0, only the flag changes (to `false`), and there is no disconnect, no wait and no termination |
| `IdleRetentionProperties.TerminatesExactlyOnce` | src/main/java/com/amazon/jenkins/ec2fleet/IdleRetentionStrategy.java:55-62 | idle too long, node present, wait not interrupted: the node's name is terminated exactly once, online or not; one disconnect and one wait iff it was online; it ends offline; the result is 1 |
| `IdleRetentionProperties.InterruptedWaitSkipsTermination` | src/main/java/com/amazon/jenkins/ec2fleet/IdleRetentionStrategy.java:57-71 | interrupted wait: one disconnect, no termination, flag `false`, result 1 |
| `IdleRetentionProperties.TerminateFollowsWait` | src/main/java/com/amazon/jenkins/ec2fleet/IdleRetentionStrategy.java:57-62 | no disconnect or wait comes after a termination; an online computer is terminated only after a wait |
| `IdleRetentionProperties.ResultCode` | src/main/java/com/amazon/jenkins/ec2fleet/IdleRetentionStrategy.java:38-72 | the result is 0 iff the computer is idle too long and has no node; otherwise it is 1 |
| `IdleRetentionProperties.DetachedNodeTerminatedAtMostOnce` | src/main/java/com/amazon/jenkins/ec2fleet/IdleRetentionStrategy.java:51-62 | once the node is detached after a check, the two checks together request at most one termination |
| `IdleRetentionProperties.RecheckBeforeDetachTerminatesAgain` | src/main/java/com/amazon/jenkins/ec2fleet/IdleRetentionStrategy.java:47-62 | while the node stays attached, a later check of the same idle computer terminates it again, without a second disconnect |

## Left out

- The `synchronized(parent)` block (line 41): mutual exclusion between concurrent checks is not modelled. Each check is one sequential, atomic call.
- `Host.SlaveComputer.Disconnect`: a disconnect request never changes `online` in the model, and an interrupted `WaitUntilOffline` leaves `online` as it was. In the host the disconnect runs asynchronously, so after an interrupted wait the computer may already be offline; the model promises nothing about `online` on that path.
- `System.currentTimeMillis()`: the current time is the parameter `now`.
- The blocking inside `waitUntilOffline`: only its two outcomes are modelled, completion or interruption, chosen by the parameter `interrupted`.
- Jenkins' own types and protocols (`Computer`, `RetentionStrategy`, `Messages`, `SimpleOfflineCause`, the disconnect and connect handshakes): disconnect and connect are journal entries. The offline cause is the single value `OfflineIdle`.
- `EC2FleetCloud.terminateInstance` is not part of this model beyond the request it receives. Whether and when the node is detached is not modelled, so repeated checks are stated with the detachment as an assumption.
- Logging (`LOGGER`) and the display name it prints.
- The check's return value is a scheduling hint in the host. Only the value (0 or 1) is modelled.
