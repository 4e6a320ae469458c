/** Composing and taking apart runs of the failover protocol. */
module FailoverRuns {
  import opened Options
  import opened Failover

  lemma {:induction false} RunsCompose(s: System, run: seq<Action>, more: seq<Action>)
    requires ValidRun(s, run) && ValidRun(Final(s, run), more)
    ensures ValidRun(s, run + more) && Final(s, run + more) == Final(Final(s, run), more)
    decreases |run|
  {
    if run == [] {
      assert run + more == more;
    } else {
      RunsCompose(Step(s, run[0]), run[1..], more);
      assert (run + more)[1..] == run[1..] + more;
    }
  }

  lemma {:induction false} RunsSplit(s: System, run: seq<Action>, n: nat)
    requires ValidRun(s, run) && n <= |run|
    ensures ValidRun(s, run[..n]) && ValidRun(Final(s, run[..n]), run[n..])
    ensures Final(s, run) == Final(Final(s, run[..n]), run[n..])
    decreases |run|
  {
    if n == 0 {
      assert run[..0] == [] && run[0..] == run;
    } else {
      RunsSplit(Step(s, run[0]), run[1..], n - 1);
      assert run[..n][0] == run[0] && run[..n][1..] == run[1..][..n - 1] && run[n..] == run[1..][n - 1..];
    }
  }

  lemma LastStep(s: System, run: seq<Action>)
    requires ValidRun(s, run) && run != []
    ensures var n := |run| - 1;
            ValidRun(s, run[..n]) && Enabled(Final(s, run[..n]), run[n])
            && Final(s, run) == Step(Final(s, run[..n]), run[n])
  {
    var n := |run| - 1;
    RunsSplit(s, run, n);
    assert run[n..] == [run[n]] && run[n..][1..] == [];
  }

  function By(i: nat, es: seq<Event>): seq<Action> {
    seq(|es|, n requires 0 <= n < |es| => Action(i, es[n]))
  }

  /** What a monitor does alone is a run of the whole system that leaves the other monitors as they are. */
  lemma {:induction false} AloneIsRun(s: System, i: nat, es: seq<Event>)
    requires i < |s.monitors| && ValidAlone(s.node, s.monitors[i], es)
    ensures ValidRun(s, By(i, es))
    ensures var (node, m) := Alone(s.node, s.monitors[i], es); Final(s, By(i, es)) == System(node, s.monitors[i := m])
    decreases |es|
  {
    if es == [] {
      assert s.monitors == s.monitors[i := s.monitors[i]];
    } else {
      var a := Action(i, es[0]);
      AloneIsRun(Step(s, a), i, es[1..]);
      assert By(i, es)[1..] == By(i, es[1..]);
      var (node, m) := Alone(s.node, s.monitors[i], es);
      assert Step(s, a).monitors[i := m] == s.monitors[i := m];
    }
  }

  lemma {:induction false} AloneExtends(node: Option<string>, m: Monitor, es: seq<Event>, e: Event)
    requires ValidAlone(node, m, es) && Possible(Alone(node, m, es).0, Alone(node, m, es).1, e)
    ensures ValidAlone(node, m, es + [e])
    ensures var (n, o) := Alone(node, m, es); Alone(node, m, es + [e]) == (NodeAfter(n, o, e), MonitorAfter(n, o, e))
    decreases |es|
  {
    if es == [] {
      assert (es + [e])[1..] == [];
    } else {
      AloneExtends(NodeAfter(node, m, es[0]), MonitorAfter(node, m, es[0]), es[1..], e);
      assert (es + [e])[1..] == es[1..] + [e];
    }
  }

  predicate Tells(e: Event) {
    e.Raven? || e.Poll?
  }

  /** What the monitor was told by raven and by the monitoring service. */
  function Told(es: seq<Event>): seq<Event> {
    if es == [] then []
    else if Tells(es[|es| - 1]) then Told(es[..|es| - 1]) + [es[|es| - 1]]
    else Told(es[..|es| - 1])
  }

  lemma ToldNext(es: seq<Event>, e: Event)
    ensures Told(es + [e]) == if Tells(e) then Told(es) + [e] else Told(es)
  {
    assert (es + [e])[..|es|] == es;
  }

  lemma {:induction false} ToldCompose(es: seq<Event>, more: seq<Event>)
    ensures Told(es + more) == Told(es) + Told(more)
  {
    if more == [] {
      assert es + more == es;
    } else {
      var front, last := more[..|more| - 1], more[|more| - 1];
      ToldCompose(es, front);
      assert more == front + [last] && es + more == (es + front) + [last];
      ToldNext(front, last);
      ToldNext(es + front, last);
      assert Told(es) + (Told(front) + [last]) == (Told(es) + Told(front)) + [last];
    }
  }

  /** One event, and then what follows on it. */
  lemma FirstThen(node: Option<string>, m: Monitor, e: Event, more: seq<Event>)
    requires Possible(node, m, e) && ValidAlone(NodeAfter(node, m, e), MonitorAfter(node, m, e), more)
    ensures ValidAlone(node, m, [e] + more)
    ensures Alone(node, m, [e] + more) == Alone(NodeAfter(node, m, e), MonitorAfter(node, m, e), more)
    ensures Told([e] + more) == if Tells(e) then [e] + Told(more) else Told(more)
  {
    assert ([e] + more)[1..] == more;
    ToldCompose([e], more);
    assert [e][..0] == [];
  }

  lemma ThenAlone(node: Option<string>, m: Monitor, es: seq<Event>, n: Option<string>, o: Monitor, e: Event)
    returns (es': seq<Event>, n': Option<string>, o': Monitor)
    requires ValidAlone(node, m, es) && Alone(node, m, es) == (n, o) && Possible(n, o, e)
    ensures ValidAlone(node, m, es') && Alone(node, m, es') == (n', o')
    ensures n' == NodeAfter(n, o, e) && o' == MonitorAfter(n, o, e) && es' == es + [e]
    ensures Told(es') == if Tells(e) then Told(es) + [e] else Told(es)
  {
    AloneExtends(node, m, es, e);
    ToldNext(es, e);
    es', n', o' := es + [e], NodeAfter(n, o, e), MonitorAfter(n, o, e);
  }

  /** Raven connected, Deletes applied, and refused Creates not applied. */
  predicate Calm(e: Event) {
    e != Raven(false) && e != Delete(false) && e != CreateRefused(true)
  }

  predicate Only(es: seq<Event>, allowed: set<Event>) {
    forall n :: 0 <= n < |es| ==> Calm(es[n]) || es[n] in allowed
  }

  lemma ThenCalmly(node: Option<string>, m: Monitor, es: seq<Event>, n: Option<string>, o: Monitor,
                   allowed: set<Event>, e: Event)
    returns (es': seq<Event>, n': Option<string>, o': Monitor)
    requires ValidAlone(node, m, es) && Alone(node, m, es) == (n, o) && Possible(n, o, e)
    requires Only(es, allowed) && (Calm(e) || e in allowed)
    ensures ValidAlone(node, m, es') && Alone(node, m, es') == (n', o') && Only(es', allowed)
    ensures n' == NodeAfter(n, o, e) && o' == MonitorAfter(n, o, e)
  {
    es', n', o' := ThenAlone(node, m, es, n, o, e);
  }

  lemma {:induction false} AloneCompose(node: Option<string>, m: Monitor, es: seq<Event>, more: seq<Event>)
    requires ValidAlone(node, m, es) && ValidAlone(Alone(node, m, es).0, Alone(node, m, es).1, more)
    ensures ValidAlone(node, m, es + more)
    ensures var (n, o) := Alone(node, m, es); Alone(node, m, es + more) == Alone(n, o, more)
    decreases |es|
  {
    if es == [] {
      assert es + more == more;
    } else {
      AloneCompose(NodeAfter(node, m, es[0]), MonitorAfter(node, m, es[0]), es[1..], more);
      assert (es + more)[1..] == es[1..] + more;
    }
  }
}
