/** Invariants of the failover protocol, for any number of monitors, any zone names and failing calls. */
module FailoverInvariants {
  import opened Options
  import opened Failover

  /** The monitor owns the node: Create granted it and it has neither deleted it nor overwritten the handle. */
  predicate Owns(m: Monitor) {
    (m.handle != "" && !m.phase.DroppingHandle?) || (m.phase.Created? && m.phase.ok)
  }

  /** What one monitor keeps whatever the others do. */
  predicate LocalInv(m: Monitor) {
    match m.phase
    case Resting => m.healthy == (m.failure == NoFailure) && (m.handle != "" ==> !m.healthy)
    case Polling => m.healthy == (m.failure == NoFailure) && (m.handle != "" ==> !m.healthy)
    case Creating(c) => c != NoFailure && m.healthy == (m.failure == NoFailure) && (m.handle != "" ==> !m.healthy)
    case Created(c, path, ok) =>
      && c != NoFailure && m.healthy == (m.failure == NoFailure) && (m.handle != "" ==> !m.healthy)
      && path == if ok then LOCK_PATH else ""
    case ReadingLock(c) => c != NoFailure && m.healthy == (m.failure == NoFailure) && m.handle == ""
    case LeavingPool(c) => c != NoFailure && m.healthy == (m.failure == NoFailure)
    case NotingCause(c) => c != NoFailure && !m.healthy
    case Deleting(_) => !m.healthy && m.failure != NoFailure && m.handle != ""
    case DroppingHandle(_) => !m.healthy && m.failure != NoFailure && m.handle != ""
    case RejoiningPool(_, _) => !m.healthy && m.failure != NoFailure && m.handle == ""
    case ClearingCause(_) => m.healthy && m.handle == ""
  }

  /** At most one monitor owns the node, and then the node names its zone. */
  predicate OwnerInv(s: System) {
    && (forall i :: 0 <= i < |s.monitors| ==> LocalInv(s.monitors[i]))
    && (forall i :: 0 <= i < |s.monitors| && Owns(s.monitors[i]) ==> s.node == Some(s.monitors[i].az))
    && (forall i, j :: 0 <= i < j < |s.monitors| ==> !(Owns(s.monitors[i]) && Owns(s.monitors[j])))
  }

  lemma LocalKept(node: Option<string>, m: Monitor, e: Event)
    requires Possible(node, m, e) && LocalInv(m)
    ensures LocalInv(MonitorAfter(node, m, e))
  {
  }

  /** Only a granted Create makes an owner, and only its owner's Delete can take the node away or change it. */
  lemma OwnershipMoves(node: Option<string>, m: Monitor, e: Event)
    requires Possible(node, m, e) && LocalInv(m) && (Owns(m) ==> node == Some(m.az))
    ensures var n := MonitorAfter(node, m, e);
            && n.az == m.az
            && (Owns(n) ==> NodeAfter(node, m, e) == Some(m.az) && (Owns(m) || node.None?))
            && (node.Some? && NodeAfter(node, m, e) != node ==> Owns(m) && !Owns(n) && node == Some(m.az))
  {
  }

  lemma OwnerKept(s: System, a: Action)
    requires Enabled(s, a) && OwnerInv(s)
    ensures OwnerInv(Step(s, a))
  {
    LocalKept(s.node, s.monitors[a.i], a.e);
    OwnershipMoves(s.node, s.monitors[a.i], a.e);
  }

  predicate Distinct(s: System) {
    forall i, j :: 0 <= i < j < |s.monitors| ==> s.monitors[i].az != s.monitors[j].az
  }

  /** Between its Delete and its write of IsHealthy a monitor still looks unhealthy. */
  predicate InWindow(m: Monitor) {
    m.phase.DroppingHandle? || (m.phase.RejoiningPool? && m.phase.unlocked)
  }

  /** Out of the pool, or about to leave it, and not in the window. */
  predicate Out(m: Monitor) {
    !InWindow(m) && (!m.healthy || m.phase.LeavingPool?)
  }

  predicate ZoneInv(s: System) {
    OwnerInv(s) && forall i :: 0 <= i < |s.monitors| && Out(s.monitors[i]) ==> s.node == Some(s.monitors[i].az)
  }

  lemma ZoneKept(s: System, a: Action)
    requires Enabled(s, a) && ZoneInv(s) && Distinct(s)
    ensures ZoneInv(Step(s, a)) && Distinct(Step(s, a))
  {
    OwnerKept(s, a);
  }
}
