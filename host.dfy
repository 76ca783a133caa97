/** Stand-ins for the host objects the retention strategy talks to: the worker's
    computer handle (Jenkins' `SlaveComputer`) and the fleet (`EC2FleetCloud`).
    Only the state the strategy reads or writes is kept. Every request made of
    either object is appended to one shared journal, so the order of the calls
    across both objects can be stated. */
module Host {
  import opened JavaInt

  datatype Option<T> = None | Some(value: T)

  /** The node backing a computer; only its name is used. */
  datatype Node = Node(nodeName: string)

  /** Why a computer was taken offline; the strategy only ever gives the idle cause. */
  datatype OfflineCause = OfflineIdle

  /** One request made of the computer or of the fleet. */
  datatype Call =
    | SetAcceptingTasks(accepting: bool)
    | Disconnect(cause: OfflineCause)
    | WaitUntilOffline
    | Connect(forceReconnect: bool)
    | TerminateInstance(nodeId: string)

  /** The order in which requests reached the host. */
  class Journal {
    var entries: seq<Call>

    constructor ()
      ensures entries == []
    {
      entries := [];
    }

    method Record(call: Call)
      modifies this
      ensures entries == old(entries) + [call]
    {
      entries := entries + [call];
    }
  }

  /** What the strategy can observe of a computer. */
  datatype ComputerState = ComputerState(
    acceptingTasks: bool,
    online: bool,
    idleStartMilliseconds: Long,
    node: Option<Node>)

  /** A worker's computer handle. */
  class SlaveComputer {
    var acceptingTasks: bool
    var online: bool
    var idleStartMilliseconds: Long
    var node: Option<Node>
    const journal: Journal

    function State(): ComputerState
      reads this
    {
      ComputerState(acceptingTasks, online, idleStartMilliseconds, node)
    }

    constructor (s: ComputerState, journal: Journal)
      ensures State() == s && this.journal == journal
    {
      acceptingTasks := s.acceptingTasks;
      online := s.online;
      idleStartMilliseconds := s.idleStartMilliseconds;
      node := s.node;
      this.journal := journal;
    }

    /** Opens or closes the gate through which the scheduler hands out tasks. */
    method SetAcceptingTasks(accepting: bool)
      modifies this`acceptingTasks, journal
      ensures State() == old(State()).(acceptingTasks := accepting)
      ensures journal.entries == old(journal.entries) + [Call.SetAcceptingTasks(accepting)]
    {
      acceptingTasks := accepting;
      journal.Record(Call.SetAcceptingTasks(accepting));
    }

    /** Requests a disconnect; the handshake itself happens elsewhere. */
    method Disconnect(cause: OfflineCause)
      modifies journal
      ensures journal.entries == old(journal.entries) + [Call.Disconnect(cause)]
    {
      journal.Record(Call.Disconnect(cause));
    }

    /** Blocks until the computer is offline. Whether the wait completes or is
        interrupted (Java's `InterruptedException`) is the caller-supplied
        `interrupted`; a completed wait leaves the computer offline. */
    method WaitUntilOffline(interrupted: bool) returns (completed: bool)
      modifies this`online, journal
      ensures completed == !interrupted
      ensures State() == if completed then old(State()).(online := false) else old(State())
      ensures journal.entries == old(journal.entries) + [Call.WaitUntilOffline]
    {
      journal.Record(Call.WaitUntilOffline);
      completed := !interrupted;
      if completed {
        online := false;
      }
    }

    /** Requests a connection without waiting for the handshake. */
    method Connect(forceReconnect: bool)
      modifies journal
      ensures journal.entries == old(journal.entries) + [Call.Connect(forceReconnect)]
    {
      journal.Record(Call.Connect(forceReconnect));
    }
  }

  /** The fleet that owns the computers; only its termination request is used. */
  class EC2FleetCloud {
    const journal: Journal

    constructor (journal: Journal)
      ensures this.journal == journal
    {
      this.journal := journal;
    }

    method TerminateInstance(nodeId: string)
      modifies journal
      ensures journal.entries == old(journal.entries) + [Call.TerminateInstance(nodeId)]
    {
      journal.Record(Call.TerminateInstance(nodeId));
    }
  }
}
