/** The status monitor as an object updated in place by its loop, against the shared lock service. Whatever a call or a
    whole loop does is proved to be a run of the failover protocol in which the other monitors stand still. */
module StatusMonitors {
  import opened Options
  import opened Failover
  import opened FailoverInvariants
  import opened FailoverRuns

  /** How a Create fares: it is answered truthfully, or fails for another reason, applied or not. */
  datatype CreateFault = Works | Fails(applied: bool)

  /** The node after a Create for zone `az`. */
  function CreatedBy(node: Option<string>, az: string, fault: CreateFault): Option<string> {
    if node.None? && (fault.Works? || fault.applied) then Some(az) else node
  }

  class LockService {
    var node: Option<string>

    constructor ()
      ensures node == None
    {
      node := None;
    }

    method Create(az: string, fault: CreateFault) returns (path: string, ok: bool)
      modifies this
      ensures ok <==> fault.Works? && old(node).None?
      ensures path == if ok then "/hailo-2-api-az-failover" else ""
      ensures node == CreatedBy(old(node), az, fault)
    {
      path, ok := "", false;
      if node.None? && (fault.Works? || fault.applied) {
        node := Some(az);
        if fault.Works? { path, ok := LOCK_PATH, true; }
      }
    }

    method Get(fails: bool) returns (data: string, ok: bool)
      ensures ok <==> !fails && node.Some?
      ensures ok ==> node == Some(data)
    {
      data, ok := "", false;
      if !fails && node.Some? { data, ok := node.value, true; }
    }

    method Delete(applied: bool)
      modifies this
      ensures node == if applied then None else old(node)
    {
      if applied { node := None; }
    }
  }

  /** What one tick meets: the state of the connection, the monitoring service's report, and how calls fare. */
  datatype Tick = Tick(connected: bool, report: Report, createFault: CreateFault, getFails: bool, deleted: bool)

  /** What a tick tells the monitor: the state of the connection, and what the monitoring service reports if there is
      one. */
  function TickTells(t: Tick): seq<Event> {
    [Raven(t.connected)] + if t.connected then [Poll(t.report)] else []
  }

  function AllTold(ticks: seq<Tick>): seq<Event> {
    if ticks == [] then [] else AllTold(ticks[..|ticks| - 1]) + TickTells(ticks[|ticks| - 1])
  }

  class StatusMonitor {
    const azName: string
    const service: LockService
    var isHealthy: bool
    var failureType: Cause
    var lockHandle: string

    ghost function Self(phase: Phase): Failover.Monitor
      reads this
    {
      Failover.Monitor.Monitor(azName, isHealthy, failureType, lockHandle, phase)
    }

    constructor (azName: string, service: LockService)
      ensures this.azName == azName && this.service == service
      ensures Self(Resting) == Failover.Monitor.Monitor(azName, true, NoFailure, "", Resting)
    {
      this.azName, this.service := azName, service;
      isHealthy, failureType, lockHandle := true, NoFailure, "";
    }

    /** Leaves the pool if the lock is granted, or if the node can be read and names this zone already; overwrites the
        handle in every case. */
    method FailoverAZ(failure: Cause, createFault: CreateFault, getFails: bool) returns (ghost es: seq<Event>)
      modifies this, service
      ensures var granted := createFault.Works? && old(service.node).None?;
              var leaves := granted || (!getFails && service.node == Some(azName));
              && lockHandle == (if granted then LOCK_PATH else "")
              && isHealthy == (!leaves && old(isHealthy))
              && failureType == (if leaves then failure else old(failureType))
      ensures service.node == CreatedBy(old(service.node), azName, createFault)
      ensures Told(es) == []
      ensures ValidAlone(old(service.node), old(Self(Creating(failure))), es)
      ensures Alone(old(service.node), old(Self(Creating(failure))), es) == (service.node, Self(Resting))
    {
      ghost var node, m := service.node, Self(Creating(failure));
      ghost var n, o := node, m;
      es := [];
      var path, ok := service.Create(azName, createFault);
      es, n, o := ThenAlone(node, m, es, n, o,
        if ok then CreateGranted else CreateRefused(createFault.Fails? && createFault.applied && node.None?));
      lockHandle := path;
      es, n, o := ThenAlone(node, m, es, n, o, StoreHandle);
      if !ok {
        var failedAZ, read := service.Get(getFails);
        es, n, o := ThenAlone(node, m, es, n, o, ReadLock(read));
        if !read { return; }
        if failedAZ != azName { return; }
      }
      isHealthy := false;
      es, n, o := ThenAlone(node, m, es, n, o, LeavePool);
      failureType := failure;
      es, n, o := ThenAlone(node, m, es, n, o, NoteCause);
    }

    /** Rejoins the pool in every case, but takes the node away only if a handle is held, and the Delete is applied. */
    method RecoverAZ(poll: bool, deleted: bool) returns (ghost es: seq<Event>)
      modifies this, service
      ensures isHealthy && failureType == NoFailure && lockHandle == ""
      ensures service.node == if old(lockHandle) != "" && deleted then None else old(service.node)
      ensures Told(es) == []
      ensures ValidAlone(old(service.node), old(Self(BeginRecovery(Self(Resting), poll))), es)
      ensures Alone(old(service.node), old(Self(BeginRecovery(Self(Resting), poll))), es)
           == (service.node, Self(if poll then Polling else Resting))
    {
      ghost var node, m := service.node, Self(BeginRecovery(Self(Resting), poll));
      ghost var n, o := node, m;
      es := [];
      if lockHandle != "" {
        service.Delete(deleted);
        es, n, o := ThenAlone(node, m, es, n, o, Event.Delete(deleted));
        lockHandle := "";
        es, n, o := ThenAlone(node, m, es, n, o, DropHandle);
      }
      isHealthy := true;
      es, n, o := ThenAlone(node, m, es, n, o, RejoinPool);
      failureType := NoFailure;
      es, n, o := ThenAlone(node, m, es, n, o, ClearCause);
    }

    /** Disconnected, the monitor tries to leave the pool, also if it has left already; connected again after a
        disconnection it rejoins; otherwise nothing happens. */
    method InterpretRavenStatus(t: Tick) returns (ghost es: seq<Event>)
      modifies this, service
      ensures var granted := t.createFault.Works? && old(service.node).None?;
              var leaves := !t.connected && (granted || (!t.getFails && service.node == Some(azName)));
              var rejoins := t.connected && !old(isHealthy) && old(failureType) == ConnectivityFailure;
              && isHealthy == ((old(isHealthy) || rejoins) && !leaves)
              && failureType == (if leaves then ConnectivityFailure
                                 else if rejoins then NoFailure else old(failureType))
              && lockHandle == (if !t.connected then (if granted then LOCK_PATH else "")
                                else if rejoins then "" else old(lockHandle))
              && service.node == (if !t.connected then CreatedBy(old(service.node), azName, t.createFault)
                                  else if rejoins && old(lockHandle) != "" && t.deleted then None
                                  else old(service.node))
      ensures Told(es) == [Raven(t.connected)]
      ensures ValidAlone(old(service.node), old(Self(Resting)), es)
      ensures Alone(old(service.node), old(Self(Resting)), es)
           == (service.node, Self(if t.connected then Polling else Resting))
    {
      ghost var node, m := service.node, Self(Resting);
      ghost var more := [];
      if !t.connected {
        more := FailoverAZ(ConnectivityFailure, t.createFault, t.getFails);
      } else if !isHealthy && failureType == ConnectivityFailure {
        more := RecoverAZ(true, t.deleted);
      }
      FirstThen(node, m, Raven(t.connected), more);
      es := [Raven(t.connected)] + more;
    }

    /** Reported unhealthy, a healthy monitor tries to leave the pool; reported healthy, an unhealthy one rejoins;
        otherwise nothing happens. */
    method InterpretAZStatus(t: Tick) returns (ghost es: seq<Event>)
      modifies this, service
      ensures var granted := t.createFault.Works? && old(service.node).None?;
              var tries := t.report.Unhealthy? && old(isHealthy);
              var leaves := tries && (granted || (!t.getFails && service.node == Some(azName)));
              var rejoins := t.report.Healthy? && !old(isHealthy);
              && isHealthy == ((old(isHealthy) || rejoins) && !leaves)
              && failureType == (if leaves then MonitoringFailure else if rejoins then NoFailure else old(failureType))
              && lockHandle == (if tries then (if granted then LOCK_PATH else "")
                                else if rejoins then "" else old(lockHandle))
              && service.node == (if tries then CreatedBy(old(service.node), azName, t.createFault)
                                  else if rejoins && old(lockHandle) != "" && t.deleted then None
                                  else old(service.node))
      ensures Told(es) == [Poll(t.report)]
      ensures ValidAlone(old(service.node), old(Self(Polling)), es)
      ensures Alone(old(service.node), old(Self(Polling)), es) == (service.node, Self(Resting))
    {
      ghost var node, m := service.node, Self(Polling);
      ghost var more := [];
      if t.report.Unhealthy? && isHealthy {
        more := FailoverAZ(MonitoringFailure, t.createFault, t.getFails);
      }
      if t.report.Healthy? && !isHealthy {
        more := RecoverAZ(false, t.deleted);
      }
      FirstThen(node, m, Poll(t.report), more);
      es := [Poll(t.report)] + more;
    }

    /** One round of the loop. */
    method Round(t: Tick) returns (ghost es: seq<Event>)
      modifies this, service
      ensures Told(es) == TickTells(t)
      ensures ValidAlone(old(service.node), old(Self(Resting)), es)
      ensures Alone(old(service.node), old(Self(Resting)), es) == (service.node, Self(Resting))
    {
      ghost var node, m := service.node, Self(Resting);
      es := InterpretRavenStatus(t);
      if t.connected {
        ghost var more;
        if !t.report.Unreachable? {
          more := InterpretAZStatus(t);
        } else {
          ghost var n, o;
          more, n, o := ThenAlone(service.node, Self(Polling), [], service.node, Self(Polling), Poll(Unreachable));
        }
        AloneCompose(node, m, es, more);
        ToldCompose(es, more);
        es := es + more;
      }
    }

    /** The loop, over the ticks it lives through: a run of the protocol in which the monitor is told just what the
        ticks say, and at whose end it is healthy exactly when it records no failure, and holds a handle only if
        unhealthy. */
    method Monitor(ticks: seq<Tick>) returns (ghost es: seq<Event>)
      requires LocalInv(Self(Resting))
      modifies this, service
      ensures Told(es) == AllTold(ticks)
      ensures ValidAlone(old(service.node), old(Self(Resting)), es)
      ensures Alone(old(service.node), old(Self(Resting)), es) == (service.node, Self(Resting))
      ensures isHealthy <==> failureType == NoFailure
      ensures lockHandle != "" ==> !isHealthy
    {
      ghost var node, m := service.node, Self(Resting);
      es := [];
      for i := 0 to |ticks|
        invariant Told(es) == AllTold(ticks[..i])
        invariant ValidAlone(node, m, es) && Alone(node, m, es) == (service.node, Self(Resting))
      {
        ghost var more := Round(ticks[i]);
        AloneCompose(node, m, es, more);
        ToldCompose(es, more);
        assert ticks[..i + 1][..i] == ticks[..i];
        es := es + more;
      }
      assert ticks[..|ticks|] == ticks;
      AloneLocal(node, m, es);
    }
  }

  lemma {:induction false} AloneLocal(node: Option<string>, m: Monitor, es: seq<Event>)
    requires ValidAlone(node, m, es) && LocalInv(m)
    ensures LocalInv(Alone(node, m, es).1)
    decreases |es|
  {
    if es != [] {
      LocalKept(node, m, es[0]);
      AloneLocal(NodeAfter(node, m, es[0]), MonitorAfter(node, m, es[0]), es[1..]);
    }
  }
}
