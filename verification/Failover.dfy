/** Availability-zone failover: any number of monitors share one ZooKeeper node naming the failed zone. Every remote
    call and every write to a monitor's published fields is one event, and monitors interleave freely. */
module Failover {
  import opened Options

  const LOCK_PATH := "/hailo-2-api-az-failover"

  datatype Cause = NoFailure | ConnectivityFailure | MonitoringFailure

  /** Where a monitor stands in its loop. `poll` tells whether the monitoring service is still to be asked in this
      tick; `unlocked` whether this recovery has called `unlock`. */
  datatype Phase =
    | Resting                                       // about to check the connection to raven
    | Polling                                       // about to ask the monitoring service
    | Creating(cause: Cause)                        // failing over: about to create the node
    | Created(cause: Cause, path: string, ok: bool) // about to store the handle
    | ReadingLock(cause: Cause)                     // no lock: about to read whose it is
    | LeavingPool(cause: Cause)                     // about to clear IsHealthy
    | NotingCause(cause: Cause)                     // about to set FailureType
    | Deleting(poll: bool)                          // recovering: about to delete the node
    | DroppingHandle(poll: bool)                    // about to forget the handle
    | RejoiningPool(poll: bool, unlocked: bool)     // about to set IsHealthy
    | ClearingCause(poll: bool)                     // about to clear FailureType

  datatype Monitor = Monitor(az: string, healthy: bool, failure: Cause, handle: string, phase: Phase)

  datatype System = System(node: Option<string>, monitors: seq<Monitor>)

  datatype Report = Healthy | Unhealthy | Unreachable

  /** A refused Create returns an empty handle; it may all the same have been applied. */
  datatype Event =
    | Raven(connected: bool)
    | Poll(report: Report)
    | CreateGranted
    | CreateRefused(applied: bool)
    | StoreHandle
    | ReadLock(ok: bool)
    | LeavePool
    | NoteCause
    | Delete(applied: bool)
    | DropHandle
    | RejoinPool
    | ClearCause

  datatype Action = Action(i: nat, e: Event)

  function Start(azs: seq<string>): System {
    System(None, seq(|azs|, i requires 0 <= i < |azs| => Monitor(azs[i], true, NoFailure, "", Resting)))
  }

  function BeginRecovery(m: Monitor, poll: bool): Phase {
    if m.handle != "" then Deleting(poll) else RejoiningPool(poll, false)
  }

  predicate Possible(node: Option<string>, m: Monitor, e: Event) {
    match e
    case Raven(_) => m.phase.Resting?
    case Poll(_) => m.phase.Polling?
    case CreateGranted => m.phase.Creating? && node.None?
    case CreateRefused(applied) => m.phase.Creating? && (applied ==> node.None?)
    case StoreHandle => m.phase.Created?
    case ReadLock(ok) => m.phase.ReadingLock? && (ok ==> node.Some?)
    case LeavePool => m.phase.LeavingPool?
    case NoteCause => m.phase.NotingCause?
    case Delete(_) => m.phase.Deleting?
    case DropHandle => m.phase.DroppingHandle?
    case RejoinPool => m.phase.RejoiningPool?
    case ClearCause => m.phase.ClearingCause?
  }

  function NodeAfter(node: Option<string>, m: Monitor, e: Event): Option<string> {
    match e
    case CreateGranted => Some(m.az)
    case CreateRefused(true) => Some(m.az)
    case Delete(true) => None
    case _ => node
  }

  function MonitorAfter(node: Option<string>, m: Monitor, e: Event): Monitor
    requires Possible(node, m, e)
  {
    match e
    case Raven(connected) =>
      m.(phase := if !connected then Creating(ConnectivityFailure)
                  else if !m.healthy && m.failure == ConnectivityFailure then BeginRecovery(m, true)
                  else Polling)
    case Poll(report) =>
      m.(phase := if report.Unhealthy? && m.healthy then Creating(MonitoringFailure)
                  else if report.Healthy? && !m.healthy then BeginRecovery(m, false)
                  else Resting)
    case CreateGranted => m.(phase := Created(m.phase.cause, LOCK_PATH, true))
    case CreateRefused(_) => m.(phase := Created(m.phase.cause, "", false))
    case StoreHandle =>
      m.(handle := m.phase.path,
         phase := if m.phase.ok then LeavingPool(m.phase.cause) else ReadingLock(m.phase.cause))
    case ReadLock(ok) =>
      m.(phase := if ok && node == Some(m.az) then LeavingPool(m.phase.cause) else Resting)
    case LeavePool => m.(healthy := false, phase := NotingCause(m.phase.cause))
    case NoteCause => m.(failure := m.phase.cause, phase := Resting)
    case Delete(_) => m.(phase := DroppingHandle(m.phase.poll))
    case DropHandle => m.(handle := "", phase := RejoiningPool(m.phase.poll, true))
    case RejoinPool => m.(healthy := true, phase := ClearingCause(m.phase.poll))
    case ClearCause => m.(failure := NoFailure, phase := if m.phase.poll then Polling else Resting)
  }

  predicate Enabled(s: System, a: Action) {
    a.i < |s.monitors| && Possible(s.node, s.monitors[a.i], a.e)
  }

  function Step(s: System, a: Action): System
    requires Enabled(s, a)
  {
    var m := s.monitors[a.i];
    System(NodeAfter(s.node, m, a.e), s.monitors[a.i := MonitorAfter(s.node, m, a.e)])
  }

  predicate ValidRun(s: System, run: seq<Action>)
    decreases |run|
  {
    run == [] || (Enabled(s, run[0]) && ValidRun(Step(s, run[0]), run[1..]))
  }

  function Final(s: System, run: seq<Action>): System
    requires ValidRun(s, run)
    decreases |run|
  {
    if run == [] then s else Final(Step(s, run[0]), run[1..])
  }

  /** What one monitor does while no other monitor takes a step. */
  predicate ValidAlone(node: Option<string>, m: Monitor, es: seq<Event>)
    decreases |es|
  {
    es == [] || (Possible(node, m, es[0])
                 && ValidAlone(NodeAfter(node, m, es[0]), MonitorAfter(node, m, es[0]), es[1..]))
  }

  function Alone(node: Option<string>, m: Monitor, es: seq<Event>): (Option<string>, Monitor)
    requires ValidAlone(node, m, es)
    decreases |es|
  {
    if es == [] then (node, m) else Alone(NodeAfter(node, m, es[0]), MonitorAfter(node, m, es[0]), es[1..])
  }
}
