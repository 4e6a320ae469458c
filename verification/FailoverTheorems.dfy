/** What the failover protocol guarantees, and exactly when. */
module FailoverTheorems {
  import opened Options
  import opened Failover
  import opened FailoverInvariants
  import opened FailoverRuns

  predicate Reaches(azs: seq<string>, run: seq<Action>, s: System) {
    ValidRun(Start(azs), run) && s == Final(Start(azs), run)
  }

  predicate OnePerZone(azs: seq<string>) {
    forall i, j :: 0 <= i < j < |azs| ==> azs[i] != azs[j]
  }

  lemma {:induction false} OwnerAlways(s: System, run: seq<Action>)
    requires ValidRun(s, run) && OwnerInv(s)
    ensures OwnerInv(Final(s, run))
    decreases |run|
  {
    if run != [] {
      OwnerKept(s, run[0]);
      OwnerAlways(Step(s, run[0]), run[1..]);
    }
  }

  lemma {:induction false} ZoneAlways(s: System, run: seq<Action>)
    requires ValidRun(s, run) && ZoneInv(s) && Distinct(s)
    ensures ZoneInv(Final(s, run)) && Distinct(Final(s, run))
    decreases |run|
  {
    if run != [] {
      ZoneKept(s, run[0]);
      ZoneAlways(Step(s, run[0]), run[1..]);
    }
  }

  lemma {:induction false} ZonesFixed(s: System, run: seq<Action>)
    requires ValidRun(s, run)
    ensures var t := Final(s, run);
            |t.monitors| == |s.monitors| && forall i :: 0 <= i < |s.monitors| ==> t.monitors[i].az == s.monitors[i].az
    decreases |run|
  {
    if run != [] { ZonesFixed(Step(s, run[0]), run[1..]); }
  }

  // ---------------------------------------------------------------- the lock handle

  /** The monitor holds a handle, and has not just deleted the node. */
  predicate Holds(m: Monitor) {
    m.handle != "" && !m.phase.DroppingHandle?
  }

  /** Any number of monitors per zone: outside the window after a Delete at most one monitor holds a handle, and the
      node then exists and names its zone; so nobody ever deletes a node naming another zone. */
  lemma HandleNamesHolder(azs: seq<string>, run: seq<Action>, s: System)
    requires Reaches(azs, run, s)
    ensures forall i :: 0 <= i < |s.monitors| && Holds(s.monitors[i]) ==> s.node == Some(s.monitors[i].az)
    ensures forall i, j :: 0 <= i < j < |s.monitors| ==> !(Holds(s.monitors[i]) && Holds(s.monitors[j]))
    ensures forall i :: 0 <= i < |s.monitors| && s.monitors[i].phase.Deleting? ==> s.node == Some(s.monitors[i].az)
  {
    OwnerAlways(Start(azs), run);
    assert forall i :: 0 <= i < |s.monitors| ==> LocalInv(s.monitors[i]);
  }

  predicate InFailover(p: Phase) {
    p.Created? || p.ReadingLock? || p.LeavingPool?
  }

  predicate FailingOver(s: System, i: nat) {
    i < |s.monitors| && InFailover(s.monitors[i].phase)
  }

  ghost function StateAt(azs: seq<string>, run: seq<Action>, k: nat): System
    requires ValidRun(Start(azs), run) && k <= |run|
  {
    RunsSplit(Start(azs), run, k);
    Final(Start(azs), run[..k])
  }

  lemma {:induction false} StateAtPrefix(azs: seq<string>, run: seq<Action>, n: nat, k: nat)
    requires ValidRun(Start(azs), run) && k <= n <= |run|
    ensures ValidRun(Start(azs), run[..n]) && StateAt(azs, run[..n], k) == StateAt(azs, run, k)
  {
    RunsSplit(Start(azs), run, n);
    assert run[..n][..k] == run[..k];
  }

  /** From step `n` to the end of the run monitor `i` has been in one call of failoverAZ, and at step `n` the node named
      the monitor's own zone. */
  ghost predicate NamedWithinCall(azs: seq<string>, run: seq<Action>, i: nat, n: nat)
    requires ValidRun(Start(azs), run) && i < |azs|
  {
    && n <= |run| && StateAt(azs, run, n).node == Some(azs[i])
    && forall k :: n <= k <= |run| ==> FailingOver(StateAt(azs, run, k), i)
  }

  lemma {:induction false} NamedLonger(azs: seq<string>, run: seq<Action>, i: nat, n: nat, m: nat)
    requires ValidRun(Start(azs), run) && i < |azs| && |run| == m + 1
    requires ValidRun(Start(azs), run[..m]) && NamedWithinCall(azs, run[..m], i, n)
    requires FailingOver(Final(Start(azs), run), i)
    ensures NamedWithinCall(azs, run, i, n)
  {
    StateAtPrefix(azs, run, m, n);
    forall k | n <= k <= |run| ensures FailingOver(StateAt(azs, run, k), i) {
      if k <= m { StateAtPrefix(azs, run, m, k); } else { assert run[..k] == run; }
    }
  }

  lemma {:induction false} NamedNow(azs: seq<string>, run: seq<Action>, i: nat)
    requires ValidRun(Start(azs), run) && i < |azs|
    requires var s := Final(Start(azs), run); s.node == Some(azs[i]) && FailingOver(s, i)
    ensures NamedWithinCall(azs, run, i, |run|)
  {
    assert run[..|run|] == run;
  }

  /** Leaving the pool is decided where the node names the monitor's zone. */
  lemma DecidesUnderOwnName(s: System, a: Action)
    requires Enabled(s, a) && OwnerInv(s)
    requires !s.monitors[a.i].phase.LeavingPool? && Step(s, a).monitors[a.i].phase.LeavingPool?
    ensures s.node == Some(s.monitors[a.i].az) && InFailover(s.monitors[a.i].phase)
  {
  }

  /** A monitor about to leave the pool has, within the same call of failoverAZ, been at a point where the node named
      its own zone. */
  lemma {:induction false} LeavesUnderOwnName(azs: seq<string>, run: seq<Action>, i: nat) returns (n: nat)
    requires ValidRun(Start(azs), run) && i < |azs|
    requires i < |Final(Start(azs), run).monitors| && Final(Start(azs), run).monitors[i].phase.LeavingPool?
    ensures NamedWithinCall(azs, run, i, n)
    decreases |run|
  {
    assert run != [];
    var m := |run| - 1;
    LastStep(Start(azs), run);
    var a, p := run[m], Final(Start(azs), run[..m]);
    ZonesFixed(Start(azs), run[..m]);
    if a.i != i {
      n := LeavesUnderOwnName(azs, run[..m], i);
    } else {
      n := m;
      OwnerAlways(Start(azs), run[..m]);
      DecidesUnderOwnName(p, a);
      NamedNow(azs, run[..m], i);
    }
    NamedLonger(azs, run, i, n, m);
  }

  // ---------------------------------------------------------------- at most one zone out

  /** One monitor per zone: at most one is out of the pool, and the node names its zone. */
  lemma OneMonitorOut(azs: seq<string>, run: seq<Action>, s: System)
    requires Reaches(azs, run, s) && OnePerZone(azs)
    ensures forall i :: 0 <= i < |s.monitors| && Out(s.monitors[i]) ==> s.node == Some(s.monitors[i].az)
    ensures forall i, j :: 0 <= i < j < |s.monitors| ==> !(Out(s.monitors[i]) && Out(s.monitors[j]))
  {
    ZoneAlways(Start(azs), run);
  }

  predicate OneZoneOut(s: System) {
    forall i, j :: 0 <= i < |s.monitors| && 0 <= j < |s.monitors| && Out(s.monitors[i]) && Out(s.monitors[j])
               ==> s.monitors[i].az == s.monitors[j].az
  }

  ghost predicate OneZoneOutAlways(azs: seq<string>) {
    forall run, s :: Reaches(azs, run, s) ==> OneZoneOut(s)
  }

  /** Reported unhealthy with no node about, a monitor takes the lock and leaves the pool. */
  lemma TakesLock(m: Monitor) returns (es: seq<Event>)
    requires m.phase == Resting && m.healthy
    ensures ValidAlone(None, m, es) && Only(es, {})
    ensures Alone(None, m, es)
         == (Some(m.az), m.(healthy := false, failure := MonitoringFailure, handle := LOCK_PATH))
  {
    var n, o := None, m;
    var allowed: set<Event> := {};
    es := [];
    es, n, o := ThenCalmly(None, m, es, n, o, allowed, Raven(true));
    es, n, o := ThenCalmly(None, m, es, n, o, allowed, Poll(Unhealthy));
    es, n, o := ThenCalmly(None, m, es, n, o, allowed, CreateGranted);
    es, n, o := ThenCalmly(None, m, es, n, o, allowed, StoreHandle);
    es, n, o := ThenCalmly(None, m, es, n, o, allowed, LeavePool);
    es, n, o := ThenCalmly(None, m, es, n, o, allowed, NoteCause);
  }

  /** Reported unhealthy while the node names its zone already, a monitor leaves the pool without the lock. */
  lemma FollowsNode(m: Monitor) returns (es: seq<Event>)
    requires m.phase == Resting && m.healthy
    ensures ValidAlone(Some(m.az), m, es)
    ensures Alone(Some(m.az), m, es) == (Some(m.az), m.(healthy := false, failure := MonitoringFailure, handle := ""))
  {
    var node := Some(m.az);
    var n, o := node, m;
    es := [];
    es, n, o := ThenAlone(node, m, es, n, o, Raven(true));
    es, n, o := ThenAlone(node, m, es, n, o, Poll(Unhealthy));
    es, n, o := ThenAlone(node, m, es, n, o, CreateRefused(false));
    es, n, o := ThenAlone(node, m, es, n, o, StoreHandle);
    es, n, o := ThenAlone(node, m, es, n, o, ReadLock(true));
    es, n, o := ThenAlone(node, m, es, n, o, LeavePool);
    es, n, o := ThenAlone(node, m, es, n, o, NoteCause);
  }

  /** Reported healthy again, the holder of the handle rejoins; its node goes if the Delete is applied. */
  lemma GivesUpLock(node: Option<string>, m: Monitor, applied: bool) returns (es: seq<Event>)
    requires m.phase == Resting && !m.healthy && m.failure == MonitoringFailure && m.handle != ""
    ensures ValidAlone(node, m, es) && Only(es, {Delete(applied)})
    ensures Alone(node, m, es)
         == (if applied then None else node, m.(healthy := true, failure := NoFailure, handle := ""))
  {
    var n, o := node, m;
    var allowed: set<Event> := {Delete(applied)};
    es := [];
    es, n, o := ThenCalmly(node, m, es, n, o, allowed, Raven(true));
    es, n, o := ThenCalmly(node, m, es, n, o, allowed, Poll(Healthy));
    es, n, o := ThenCalmly(node, m, es, n, o, allowed, Delete(applied));
    es, n, o := ThenCalmly(node, m, es, n, o, allowed, DropHandle);
    es, n, o := ThenCalmly(node, m, es, n, o, allowed, RejoinPool);
    es, n, o := ThenCalmly(node, m, es, n, o, allowed, ClearCause);
  }

  lemma ThenRuns(azs: seq<string>, run: seq<Action>, s: System, i: nat, es: seq<Event>)
    returns (run': seq<Action>, s': System)
    requires Reaches(azs, run, s) && i < |s.monitors| && ValidAlone(s.node, s.monitors[i], es)
    ensures Reaches(azs, run', s')
    ensures run' == run + By(i, es)
    ensures var (node, m) := Alone(s.node, s.monitors[i], es); s' == System(node, s.monitors[i := m])
  {
    AloneIsRun(s, i, es);
    RunsCompose(Start(azs), run, By(i, es));
    run', s' := run + By(i, es), Final(s, By(i, es));
  }

  predicate Within(run: seq<Action>, allowed: set<Event>) {
    forall n :: 0 <= n < |run| ==> Calm(run[n].e) || run[n].e in allowed
  }

  lemma ThenWithin(azs: seq<string>, run: seq<Action>, s: System, i: nat, es: seq<Event>, allowed: set<Event>)
    returns (run': seq<Action>, s': System)
    requires Reaches(azs, run, s) && i < |s.monitors| && ValidAlone(s.node, s.monitors[i], es)
    requires Within(run, allowed) && Only(es, allowed)
    ensures Reaches(azs, run', s') && Within(run', allowed)
    ensures var (node, m) := Alone(s.node, s.monitors[i], es); s' == System(node, s.monitors[i := m])
  {
    run', s' := ThenRuns(azs, run, s, i, es);
  }

  /** Two monitors `i`, `j` in one zone and a third, `k`, in another: `j` stays out on the strength of `i`'s node, which
      `i` deletes when it recovers, and `k` is free to leave too. */
  lemma TwoZonesOut(azs: seq<string>, i: nat, j: nat, k: nat) returns (run: seq<Action>, s: System)
    requires i < |azs| && j < |azs| && k < |azs| && i != j && azs[i] == azs[j] && azs[k] != azs[i]
    ensures Reaches(azs, run, s) && !OneZoneOut(s)
  {
    run, s := [], Start(azs);
    var es := TakesLock(s.monitors[i]);
    run, s := ThenRuns(azs, run, s, i, es);
    es := FollowsNode(s.monitors[j]);
    run, s := ThenRuns(azs, run, s, j, es);
    es := GivesUpLock(s.node, s.monitors[i], true);
    run, s := ThenRuns(azs, run, s, i, es);
    es := TakesLock(s.monitors[k]);
    run, s := ThenRuns(azs, run, s, k, es);
    assert Out(s.monitors[j]) && Out(s.monitors[k]);
  }

  /** Exactly when the protocol keeps all but one zone in the pool, not counting monitors in the window between their
      Delete and their write of IsHealthy: with one monitor per zone, or with one zone. */
  lemma OneZoneOutExactly(azs: seq<string>)
    ensures OneZoneOutAlways(azs)
       <==> OnePerZone(azs) || forall i, j :: 0 <= i < |azs| && 0 <= j < |azs| ==> azs[i] == azs[j]
  {
    if OnePerZone(azs) {
      forall run, s | Reaches(azs, run, s) ensures OneZoneOut(s) { OneMonitorOut(azs, run, s); }
    } else if k: nat, l: nat :| k < |azs| && l < |azs| && azs[k] != azs[l] {
      var i, j :| 0 <= i < j < |azs| && azs[i] == azs[j];
      var run, s := TwoZonesOut(azs, i, j, if azs[k] != azs[i] then k else l);
    } else {
      forall run, s | Reaches(azs, run, s) ensures OneZoneOut(s) { ZonesFixed(Start(azs), run); }
    }
  }

  /** The pool as it is seen from outside, by `IsHealthy` alone. */
  predicate OneZoneUnhealthy(s: System) {
    forall i, j :: 0 <= i < |s.monitors| && 0 <= j < |s.monitors| && !s.monitors[i].healthy && !s.monitors[j].healthy
               ==> s.monitors[i].az == s.monitors[j].az
  }

  ghost predicate OneZoneUnhealthyAlways(azs: seq<string>) {
    forall run, s :: Reaches(azs, run, s) ==> OneZoneUnhealthy(s)
  }

  /** A monitor takes the lock, leaves the pool, is reported healthy again and deletes the node: it is still out, and
      the lock is free. */
  lemma OutWithoutLock(m: Monitor) returns (es: seq<Event>)
    requires m.phase == Resting && m.healthy
    ensures ValidAlone(None, m, es) && Only(es, {})
    ensures Alone(None, m, es).0 == None && !Alone(None, m, es).1.healthy
  {
    es := TakesLock(m);
    var n, o := Some(m.az), m.(healthy := false, failure := MonitoringFailure, handle := LOCK_PATH);
    es, n, o := ThenCalmly(None, m, es, n, o, {}, Raven(true));
    es, n, o := ThenCalmly(None, m, es, n, o, {}, Poll(Healthy));
    es, n, o := ThenCalmly(None, m, es, n, o, {}, Delete(true));
  }

  /** Through the window the lock passes on, until every monitor is out of the pool at once: without any failing call,
      and one monitor per zone or not. */
  lemma {:induction false} EveryoneOut(azs: seq<string>, n: nat) returns (run: seq<Action>, s: System)
    requires n <= |azs|
    ensures Reaches(azs, run, s) && Within(run, {}) && s.node == None && |s.monitors| == |azs|
    ensures forall i :: 0 <= i < n ==> !s.monitors[i].healthy
    ensures forall i :: n <= i < |azs| ==> s.monitors[i] == Start(azs).monitors[i]
  {
    if n == 0 {
      run, s := [], Start(azs);
    } else {
      run, s := EveryoneOut(azs, n - 1);
      var es := OutWithoutLock(s.monitors[n - 1]);
      run, s := ThenWithin(azs, run, s, n - 1, es, {});
    }
  }

  /** By `IsHealthy` alone the protocol keeps all but one zone in the pool exactly when there is only one zone. */
  lemma OneZoneUnhealthyExactly(azs: seq<string>)
    ensures OneZoneUnhealthyAlways(azs) <==> forall i, j :: 0 <= i < |azs| && 0 <= j < |azs| ==> azs[i] == azs[j]
  {
    if i, j :| 0 <= i < |azs| && 0 <= j < |azs| && azs[i] != azs[j] {
      var run, s := EveryoneOut(azs, |azs|);
      ZonesFixed(Start(azs), run);
      assert s.monitors[i].az == azs[i] && s.monitors[j].az == azs[j];
      assert !OneZoneUnhealthy(s);
    } else {
      forall run, s | Reaches(azs, run, s) ensures OneZoneUnhealthy(s) { ZonesFixed(Start(azs), run); }
    }
  }

  // ---------------------------------------------------------------- a node without an owner

  /** The node exists and nobody holds the handle that would delete it. */
  predicate Orphaned(s: System) {
    OwnerInv(s) && s.node.Some? && forall i :: 0 <= i < |s.monitors| ==> !Owns(s.monitors[i])
  }

  /** In the pool and not about to leave it. */
  predicate Staying(m: Monitor) {
    m.healthy && !m.phase.LeavingPool?
  }

  /** A node without an owner stays for good, whatever anyone does, and monitors of other zones stay in the pool. */
  lemma {:induction false} OrphanStays(s: System, run: seq<Action>)
    requires ValidRun(s, run) && Orphaned(s)
    ensures var t := Final(s, run);
            && Orphaned(t) && t.node == s.node && |t.monitors| == |s.monitors|
            && forall i :: 0 <= i < |s.monitors| && Some(s.monitors[i].az) != s.node && Staying(s.monitors[i])
                       ==> Staying(t.monitors[i])
    decreases |run|
  {
    if run != [] {
      var a := run[0];
      OwnerKept(s, a);
      OwnershipMoves(s.node, s.monitors[a.i], a.e);
      OrphanStays(Step(s, a), run[1..]);
    }
  }

  // ---------------------------------------------------------------- one monitor over its ticks

  /** Between calls, a monitor is healthy exactly when it records no failure, and holds a handle only if unhealthy. */
  lemma HealthMatchesCause(azs: seq<string>, run: seq<Action>, s: System, i: nat)
    requires Reaches(azs, run, s) && i < |s.monitors|
    requires s.monitors[i].phase.Resting? || s.monitors[i].phase.Polling?
    ensures s.monitors[i].healthy <==> s.monitors[i].failure == NoFailure
    ensures s.monitors[i].handle != "" ==> !s.monitors[i].healthy
  {
    OwnerAlways(Start(azs), run);
    assert LocalInv(s.monitors[i]);
  }

  /** A monitor failed over on the monitoring service's word stays as it is, whatever the others do, for as long as
      raven is connected and the service does not report its zone healthy. */
  lemma {:induction false} MonitoringFailureStays(s: System, run: seq<Action>, i: nat)
    requires ValidRun(s, run) && i < |s.monitors|
    requires s.monitors[i].phase.Resting? || s.monitors[i].phase.Polling?
    requires !s.monitors[i].healthy && s.monitors[i].failure == MonitoringFailure
    requires forall n :: 0 <= n < |run| && run[n].i == i ==> run[n].e != Raven(false) && run[n].e != Poll(Healthy)
    ensures i < |Final(s, run).monitors|
    ensures Final(s, run).monitors[i] == s.monitors[i].(phase := Final(s, run).monitors[i].phase)
    decreases |run|
  {
    if run != [] {
      assert run[0].i == i ==> run[0].e != Raven(false) && run[0].e != Poll(Healthy);
      MonitoringFailureStays(Step(s, run[0]), run[1..], i);
    }
  }

  // ---------------------------------------------------------------- calm runs

  /** Away from the window and from the calls that create, a monitor is unhealthy only as owner of the node. */
  predicate CalmLocal(m: Monitor) {
    && (m.phase.Creating? || m.phase.Created? || m.phase.ReadingLock? ==> m.healthy)
    && (m.phase.RejoiningPool? ==> m.phase.unlocked)
    && (Out(m) ==> Owns(m))
  }

  predicate CalmInv(s: System) {
    && ZoneInv(s) && Distinct(s)
    && (forall i :: 0 <= i < |s.monitors| ==> CalmLocal(s.monitors[i]))
    && (s.node.Some? ==> exists i :: 0 <= i < |s.monitors| && Owns(s.monitors[i]))
  }

  /** In calm runs a monitor refused the lock never finds its own name on the node. */
  lemma CalmReadsOther(s: System, i: nat)
    requires CalmInv(s) && i < |s.monitors| && s.monitors[i].phase.ReadingLock?
    ensures s.node != Some(s.monitors[i].az)
  {
  }

  lemma CalmKept(s: System, a: Action)
    requires Enabled(s, a) && CalmInv(s) && Calm(a.e)
    ensures CalmInv(Step(s, a))
  {
    var t := Step(s, a);
    var m := s.monitors[a.i];
    ZoneKept(s, a);
    if s.node.Some? {
      var i :| 0 <= i < |s.monitors| && Owns(s.monitors[i]);
      assert t.node.Some? ==> Owns(t.monitors[i]);
    } else {
      assert t.node.Some? ==> Owns(t.monitors[a.i]);
    }
    assert LocalInv(m) && CalmLocal(m);
    if m.phase.ReadingLock? { CalmReadsOther(s, a.i); }
  }

  lemma {:induction false} CalmAlways(s: System, run: seq<Action>)
    requires ValidRun(s, run) && CalmInv(s) && forall n :: 0 <= n < |run| ==> Calm(run[n].e)
    ensures CalmInv(Final(s, run))
    decreases |run|
  {
    if run != [] {
      CalmKept(s, run[0]);
      CalmAlways(Step(s, run[0]), run[1..]);
    }
  }

  predicate Quiescent(s: System) {
    forall i :: 0 <= i < |s.monitors| ==> s.monitors[i].phase.Resting? || s.monitors[i].phase.Polling?
  }

  /** The node exists exactly when a monitor is unhealthy, which is then the only one, and names its zone. */
  predicate NodeMatches(s: System) {
    && (s.node.Some? <==> exists i :: 0 <= i < |s.monitors| && !s.monitors[i].healthy)
    && (forall i :: 0 <= i < |s.monitors| ==> (!s.monitors[i].healthy <==> s.node == Some(s.monitors[i].az)))
    && forall i, j :: 0 <= i < j < |s.monitors| ==> s.monitors[i].healthy || s.monitors[j].healthy
  }

  /** One monitor per zone, raven connected throughout, Deletes that work and refused Creates that leave nothing: at
      rest the node exists exactly when a monitor is unhealthy, which is then the only one, and names its zone. */
  lemma NodeMeansUnhealthy(azs: seq<string>, run: seq<Action>, s: System)
    requires Reaches(azs, run, s) && OnePerZone(azs) && forall n :: 0 <= n < |run| ==> Calm(run[n].e)
    requires Quiescent(s)
    ensures NodeMatches(s)
  {
    CalmAlways(Start(azs), run);
    assert forall i :: 0 <= i < |s.monitors| ==> LocalInv(s.monitors[i]) && CalmLocal(s.monitors[i]);
  }

  /** Disconnected from raven, a monitor takes the lock and leaves the pool. */
  lemma Disconnects(m: Monitor) returns (es: seq<Event>)
    requires m.phase == Resting && m.healthy && m.failure == NoFailure
    ensures ValidAlone(None, m, es) && Only(es, {Raven(false)})
    ensures Alone(None, m, es)
         == (Some(m.az), m.(healthy := false, failure := ConnectivityFailure, handle := LOCK_PATH))
  {
    var n, o := None, m;
    var allowed: set<Event> := {Raven(false)};
    es := [];
    es, n, o := ThenCalmly(None, m, es, n, o, allowed, Raven(false));
    es, n, o := ThenCalmly(None, m, es, n, o, allowed, CreateGranted);
    es, n, o := ThenCalmly(None, m, es, n, o, allowed, StoreHandle);
    es, n, o := ThenCalmly(None, m, es, n, o, allowed, LeavePool);
    es, n, o := ThenCalmly(None, m, es, n, o, allowed, NoteCause);
  }

  /** Still disconnected, it tries again and loses the handle to a refused Create. */
  lemma LosesHandle(m: Monitor) returns (es: seq<Event>)
    requires m.phase == Resting && !m.healthy && m.failure == ConnectivityFailure
    ensures ValidAlone(Some(m.az), m, es) && Only(es, {Raven(false)})
    ensures Alone(Some(m.az), m, es) == (Some(m.az), m.(handle := ""))
  {
    var node := Some(m.az);
    var n, o := node, m;
    var allowed: set<Event> := {Raven(false)};
    es := [];
    es, n, o := ThenCalmly(node, m, es, n, o, allowed, Raven(false));
    es, n, o := ThenCalmly(node, m, es, n, o, allowed, CreateRefused(false));
    es, n, o := ThenCalmly(node, m, es, n, o, allowed, StoreHandle);
    es, n, o := ThenCalmly(node, m, es, n, o, allowed, ReadLock(true));
    es, n, o := ThenCalmly(node, m, es, n, o, allowed, LeavePool);
    es, n, o := ThenCalmly(node, m, es, n, o, allowed, NoteCause);
  }

  /** Connected again, a monitor without a handle rejoins and leaves the node as it is. */
  lemma Reconnects(node: Option<string>, m: Monitor) returns (es: seq<Event>)
    requires m.phase == Resting && !m.healthy && m.failure == ConnectivityFailure && m.handle == ""
    ensures ValidAlone(node, m, es) && Only(es, {})
    ensures Alone(node, m, es) == (node, m.(healthy := true, failure := NoFailure, phase := Polling))
  {
    var n, o := node, m;
    var allowed: set<Event> := {};
    es := [];
    es, n, o := ThenCalmly(node, m, es, n, o, allowed, Raven(true));
    es, n, o := ThenCalmly(node, m, es, n, o, allowed, RejoinPool);
    es, n, o := ThenCalmly(node, m, es, n, o, allowed, ClearCause);
  }

  /** A Create that was applied although it failed leaves a node whose creator may not even leave the pool. */
  lemma CreateSlipsThrough(m: Monitor) returns (es: seq<Event>)
    requires m.phase == Resting && m.healthy && m.failure == NoFailure && m.handle == ""
    ensures ValidAlone(None, m, es) && Only(es, {CreateRefused(true)})
    ensures Alone(None, m, es) == (Some(m.az), m)
  {
    var n, o := None, m;
    var allowed: set<Event> := {CreateRefused(true)};
    es := [];
    es, n, o := ThenCalmly(None, m, es, n, o, allowed, Raven(true));
    es, n, o := ThenCalmly(None, m, es, n, o, allowed, Poll(Unhealthy));
    es, n, o := ThenCalmly(None, m, es, n, o, allowed, CreateRefused(true));
    es, n, o := ThenCalmly(None, m, es, n, o, allowed, StoreHandle);
    es, n, o := ThenCalmly(None, m, es, n, o, allowed, ReadLock(false));
  }

  /** Any one of the uncalm events, among calm ones, lets a monitor end up healthy with its node still there. */
  lemma LeavesNode(azs: seq<string>, i: nat, e: Event) returns (run: seq<Action>, s: System)
    requires i < |azs| && !Calm(e)
    ensures Reaches(azs, run, s) && Within(run, {e})
    ensures s.node == Some(azs[i]) && |s.monitors| == |azs|
    ensures forall j :: 0 <= j < |azs| ==> var m := s.monitors[j];
              m == Monitor(azs[j], true, NoFailure, "", m.phase) && (m.phase.Resting? || m.phase.Polling?)
  {
    run, s := [], Start(azs);
    var es;
    match e {
      case Raven(_) =>
        es := Disconnects(s.monitors[i]);
        run, s := ThenWithin(azs, run, s, i, es, {e});
        es := LosesHandle(s.monitors[i]);
        run, s := ThenWithin(azs, run, s, i, es, {e});
        es := Reconnects(s.node, s.monitors[i]);
        run, s := ThenWithin(azs, run, s, i, es, {e});
      case Delete(_) =>
        es := TakesLock(s.monitors[i]);
        run, s := ThenWithin(azs, run, s, i, es, {e});
        es := GivesUpLock(s.node, s.monitors[i], false);
        run, s := ThenWithin(azs, run, s, i, es, {e});
      case CreateRefused(_) =>
        es := CreateSlipsThrough(s.monitors[i]);
        run, s := ThenWithin(azs, run, s, i, es, {e});
    }
  }

  /** With any one of the uncalm events, and calm ones otherwise, monitor `i` leaves the node behind: everyone is
      healthy, nobody will ever delete the node, and no monitor of another zone will ever leave the pool again. */
  lemma NodeLeftBehind(azs: seq<string>, i: nat, e: Event) returns (run: seq<Action>, s: System)
    requires i < |azs| && !Calm(e)
    ensures Reaches(azs, run, s) && Within(run, {e}) && Quiescent(s) && |s.monitors| == |azs|
    ensures s.node == Some(azs[i]) && forall j :: 0 <= j < |azs| ==> s.monitors[j].healthy
    ensures forall later :: ValidRun(s, later) ==>
              var t := Final(s, later);
              && t.node == Some(azs[i]) && |t.monitors| == |azs|
              && forall j :: 0 <= j < |azs| && azs[j] != azs[i] ==> t.monitors[j].healthy
  {
    run, s := LeavesNode(azs, i, e);
    OwnerAlways(Start(azs), run);
    forall later | ValidRun(s, later)
      ensures var t := Final(s, later);
              && t.node == Some(azs[i]) && |t.monitors| == |azs|
              && forall j :: 0 <= j < |azs| && azs[j] != azs[i] ==> t.monitors[j].healthy
    {
      OrphanStays(s, later);
    }
  }

  ghost predicate NodeMatchesAlways(azs: seq<string>, allowed: set<Event>) {
    forall run, s :: Reaches(azs, run, s) && Within(run, allowed) && Quiescent(s) ==> NodeMatches(s)
  }

  /** Each of the three assumptions is needed: with one monitor per zone the node matches the health at rest over all
      runs of calm events and of those in `allowed` exactly when all of `allowed` are calm too. */
  lemma NodeMatchesExactly(azs: seq<string>, allowed: set<Event>)
    requires OnePerZone(azs) && azs != []
    ensures NodeMatchesAlways(azs, allowed) <==> forall e :: e in allowed ==> Calm(e)
  {
    if e :| e in allowed && !Calm(e) {
      var run, s := NodeLeftBehind(azs, 0, e);
      assert Within(run, allowed) && !NodeMatches(s);
    } else {
      forall run, s | Reaches(azs, run, s) && Within(run, allowed) && Quiescent(s) ensures NodeMatches(s) {
        NodeMeansUnhealthy(azs, run, s);
      }
    }
  }
}
