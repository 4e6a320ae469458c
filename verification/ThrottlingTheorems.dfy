/** What the throttling counter guarantees in every reachable state, whatever the interleaving. */
module ThrottlingTheorems {
  import opened Throttling
  import opened ThrottlingInvariants

  /** `s` is reachable: it ends a run from the initial state, whose empty buffer is `b`. */
  ghost predicate Ends<B, C>(b: B, run: seq<Action<B, C>>, s: State<B, C>) {
    ValidRun(Init<B, C>(b), run) && s == Final(Init<B, C>(b), run)
  }

  lemma ReachableInv<B, C>(b: B, run: seq<Action<B, C>>, s: State<B, C>)
    requires Ends(b, run, s)
    ensures Inv(s)
  {
    InitInv<B, C>(b);
    RunKeeps(Init<B, C>(b), run);
  }

  // ---------------------------------------------------------------- conservation

  /** The counts for `k` in those outcomes that were, or were not, handed over to the throttling service. */
  ghost function Collected(outcomes: seq<Outcome>, delivered: bool, k: string): nat {
    if outcomes == [] then 0 else
      var last := outcomes[|outcomes| - 1];
      Collected(outcomes[..|outcomes| - 1], delivered, k)
      + if last.fate.Delivered? == delivered then At(last.counts, k) else 0
  }

  lemma {:induction false} FinishedGenerations<B, C>(s: State<B, C>, n: nat, k: string)
    requires Inv(s) && n <= |s.h.outcomes|
    ensures Total(s.h.made[..n])[k]
         == Collected(s.h.outcomes[..n], true, k) + Collected(s.h.outcomes[..n], false, k) + Total(s.h.lost[..n])[k]
  {
    if n > 0 {
      FinishedGenerations(s, n - 1, k);
      assert Balanced(s, n - 1, k);
      assert s.h.made[..n][..n - 1] == s.h.made[..n - 1];
      assert s.h.lost[..n][..n - 1] == s.h.lost[..n - 1];
      assert s.h.outcomes[..n][..n - 1] == s.h.outcomes[..n - 1];
    }
  }

  lemma TotalSnoc(ms: seq<multiset<string>>, m: multiset<string>)
    ensures Total(ms + [m]) == Total(ms) + m
  {
  }

  lemma TotalOfLast(ms: seq<multiset<string>>, n: nat)
    requires n < |ms| <= n + 2
    ensures Total(ms) == Total(ms[..n]) + (if |ms| == n + 2 then ms[n] else multiset{}) + ms[|ms| - 1]
  {
    var m := |ms| - 1;
    assert ms == ms[..m] + [ms[m]];
    if n < m {
      assert ms[..m] == ms[..n] + [ms[n]];
      TotalSnoc(ms[..n], ms[n]);
    }
  }

  /** The generations that are not finished: the live one, and the retired one if a synchronisation is under way. */
  lemma OpenGenerations<B, C>(s: State<B, C>, k: string)
    requires Inv(s)
    ensures var n := |s.h.outcomes|;
            && n <= |s.h.made| && n <= |s.h.lost|
            && Total(s.h.made)[k] + Total(s.h.lost[..n])[k]
               == Total(s.h.made[..n])[k] + Total(s.h.lost)[k] + CountIn(s, s.live, k) + Unread(s, k) + Held(s, k)
  {
    var n, m := |s.h.outcomes|, |s.h.retired|;
    TotalOfLast(s.h.made, n);
    TotalOfLast(s.h.lost, n);
    assert Balanced(s, m, k);
    if n < m { assert Balanced(s, n, k); }
  }

  lemma AllGenerations<B, C>(s: State<B, C>, k: string)
    requires Inv(s)
    ensures Total(s.h.made)[k]
         == CountIn(s, s.live, k) + Unread(s, k) + Held(s, k)
            + Collected(s.h.outcomes, true, k) + Collected(s.h.outcomes, false, k) + Total(s.h.lost)[k]
  {
    var n := |s.h.outcomes|;
    FinishedGenerations(s, n, k);
    OpenGenerations(s, k);
    assert s.h.outcomes[..n] == s.h.outcomes;
  }

  /** Conservation, key by key: every push the channel accepted is still queued, in the ingester's hands, counted in
      the live buffer, waiting in the retired buffer, read but not yet accounted for, handed over to the service,
      dropped with a disabled or failed synchronisation, or lost to a swap. */
  lemma Conservation<B, C>(b: B, run: seq<Action<B, C>>, s: State<B, C>, k: string)
    requires Ends(b, run, s)
    ensures s.h.pushed[k]
         == multiset(s.queue)[k] + InFlight(s, k) + CountIn(s, s.live, k) + Unread(s, k) + Held(s, k)
            + Collected(s.h.outcomes, true, k) + Collected(s.h.outcomes, false, k) + Total(s.h.lost)[k]
  {
    ReachableInv(b, run, s);
    AllGenerations(s, k);
  }

  // ---------------------------------------------------------------- losses

  lemma {:induction false} SmallTotal(ms: seq<multiset<string>>)
    requires forall g :: 0 <= g < |ms| ==> |ms[g]| <= 1
    ensures |Total(ms)| <= |ms|
  {
    if ms != [] { SmallTotal(ms[..|ms| - 1]); }
  }

  /** At most one increment is lost per swap, and so never more in all than there were swaps. */
  lemma LossesBounded<B, C>(b: B, run: seq<Action<B, C>>, s: State<B, C>)
    requires Ends(b, run, s)
    ensures forall g :: 0 <= g < |s.h.lost| ==> |s.h.lost[g]| <= 1
    ensures |Total(s.h.lost)| <= |s.h.retired|
  {
    ReachableInv(b, run, s);
    var m := |s.h.retired|;
    SmallTotal(s.h.lost[..m]);
    assert s.h.lost == s.h.lost[..m] + [s.h.lost[m]];
    assert s.h.lost[..m + 1][..m] == s.h.lost[..m];
  }

  /** What a completed synchronisation collected is what was counted in its generation, short by at most one increment
      over all keys together, and never in excess. */
  lemma ReportExact<B, C>(b: B, run: seq<Action<B, C>>, s: State<B, C>, g: nat)
    requires Ends(b, run, s) && g < |s.h.outcomes|
    ensures g < |s.h.made| && g < |s.h.lost| && |s.h.lost[g]| <= 1
    ensures forall k :: s.h.made[g][k] == At(s.h.outcomes[g].counts, k) + s.h.lost[g][k]
  {
    ReachableInv(b, run, s);
    forall k ensures s.h.made[g][k] == At(s.h.outcomes[g].counts, k) + s.h.lost[g][k] {
      assert Balanced(s, g, k);
    }
  }

  /** The synchroniser is past the count for `k` in generation `g`: it has read it or will never read it. */
  ghost predicate PastReading<B, C>(s: State<B, C>, g: nat, k: string) {
    || g < |s.h.outcomes|
    || s.synchroniser.Answered?
    || (s.synchroniser.Reading? && k !in s.synchroniser.rest)
  }

  /** Exactly which increments are lost: those made to a buffer that has been retired and already read at that key. */
  lemma LostExactlyWhen<B, C>(b: B, run: seq<Action<B, C>>, s: State<B, C>)
    requires Ends(b, run, s) && s.ingester.AddPending?
    ensures var late := s.ingester.at != s.live && PastReading(s, Epoch(s, s.ingester.at), s.ingester.key);
            Total(AddStep(s).h.lost) == Total(s.h.lost) + if late then multiset{s.ingester.key} else multiset{}
  {
    ReachableInv(b, run, s);
    var AddPending(k, at, c) := s.ingester;
    TotalBump(s.h.lost, Epoch(s, at), k);
    assert WillBeRead(s, k, c) <==> at == s.live || !PastReading(s, Epoch(s, at), k);
  }

  /** Cell `c` counts for `k` and no synchronisation will read it. */
  ghost predicate Dead<B, C>(s: State<B, C>, k: string, c: C) {
    && c in s.counts && !WillBeRead(s, k, c)
    && (s.ingester.CasPending? && s.ingester.at == s.live ==> !Maps(s, s.ingester.copy, k, c))
  }

  lemma {:induction false} DeadForGood<B, C>(s: State<B, C>, run: seq<Action<B, C>>, k: string, c: C)
    requires ValidRun(s, run) && Inv(s) && Dead(s, k, c)
    ensures Dead(Final(s, run), k, c)
    decreases |run|
  {
    if run != [] {
      StepKeeps(s, run[0]);
      DeadKept(s, run[0], k, c);
      DeadForGood(Step(s, run[0]), run[1..], k, c);
    }
  }

  lemma IngestKeepsDead<B, C>(s: State<B, C>, a: IngesterAction<B, C>, k: string, c: C)
    requires IngestEnabled(s, a) && HeapInv(s) && IngesterInv(s) && SynchroniserInv(s) && Dead(s, k, c)
    ensures Dead(IngestStep(s, a), k, c)
  {
    match a {
      case Receive =>
      case Load =>
      case Lookup =>
      case Copy(_, _) =>
      case CompareAndSwap =>
      case Add =>
    }
  }

  lemma SynchroniseKeepsDead<B, C>(s: State<B, C>, a: SynchroniserAction<B>, k: string, c: C)
    requires SynchroniseEnabled(s, a) && HeapInv(s) && IngesterInv(s) && SynchroniserInv(s) && Dead(s, k, c)
    ensures Dead(SynchroniseStep(s, a), k, c)
  {
    match a {
      case Swap(_) =>
      case Consult(_) =>
      case ReadCell(_) =>
      case Checkin(_, _) =>
      case Publish =>
    }
  }

  lemma DeadKept<B, C>(s: State<B, C>, a: Action<B, C>, k: string, c: C)
    requires Enabled(s, a) && Inv(s) && Dead(s, k, c)
    ensures Dead(Step(s, a), k, c)
  {
    match a {
      case Handle(r) => HandleKeepsCore(s, r);
      case Ingest(i) => IngestKeepsDead(s, i, k, c);
      case Synchronise(y) => SynchroniseKeepsDead(s, y, k, c);
    }
  }

  /** The ledger of losses is honest: an increment charged to it goes to a cell no later synchronisation reads. */
  lemma LostIsNeverRead<B, C>(b: B, run: seq<Action<B, C>>, s: State<B, C>, later: seq<Action<B, C>>)
    requires Ends(b, run, s) && s.ingester.AddPending? && ValidRun(AddStep(s), later)
    requires !WillBeRead(s, s.ingester.key, s.ingester.cell)
    ensures !WillBeRead(Final(AddStep(s), later), s.ingester.key, s.ingester.cell)
  {
    ReachableInv(b, run, s);
    IngestKeeps(s, IngesterAction<B, C>.Add);
    DeadForGood(AddStep(s), later, s.ingester.key, s.ingester.cell);
  }

  // ---------------------------------------------------------------- sharing

  /** Copies share cells, yet two keys of one buffer never do, and no cell of the live buffer, or of a buffer retired
      later, can be reached from a buffer retired earlier. */
  lemma CellsSeparated<B, C>(b: B, run: seq<Action<B, C>>, s: State<B, C>)
    requires Ends(b, run, s)
    ensures forall m, k, l :: m in s.buffers && k in s.buffers[m] && l in s.buffers[m] && k != l
                          ==> s.buffers[m][k] != s.buffers[m][l]
    ensures forall i :: 0 <= i < |s.h.retired| ==> Cells(s, s.live).Values !! Cells(s, s.h.retired[i]).Values
    ensures forall i, j :: 0 <= i < j < |s.h.retired|
                       ==> Cells(s, s.h.retired[i]).Values !! Cells(s, s.h.retired[j]).Values
  {
    ReachableInv(b, run, s);
  }

  /** No step changes a buffer that exists, so a map once published is never written to. */
  lemma {:induction false} BuffersImmutable<B, C>(s: State<B, C>, run: seq<Action<B, C>>)
    requires ValidRun(s, run)
    ensures forall b :: b in s.buffers ==> b in Final(s, run).buffers && Final(s, run).buffers[b] == s.buffers[b]
    decreases |run|
  {
    if run != [] {
      BuffersImmutable(Step(s, run[0]), run[1..]);
    }
  }

  /** Whenever the ingester maps a key to a cell of count one, the map being copied does not have the key, also after
      a failed swap, when the key is not looked up again; failed swaps are no more than the synchroniser's swaps. */
  lemma NeverOverwrites<B, C>(b: B, run: seq<Action<B, C>>, s: State<B, C>)
    requires Ends(b, run, s)
    ensures s.ingester.Copying? ==> s.ingester.key !in Cells(s, s.ingester.at)
    ensures s.h.casFailures <= |s.h.retired|
  {
    ReachableInv(b, run, s);
  }

  // ---------------------------------------------------------------- throttling

  /** The throttled set is the answer of the latest completed synchronisation, and empty if that one failed or was
      disabled or none has completed. */
  lemma ThrottledIsLatest<B, C>(b: B, run: seq<Action<B, C>>, s: State<B, C>)
    requires Ends(b, run, s)
    ensures s.h.outcomes == [] ==> s.throttled == {}
    ensures s.h.outcomes != [] ==>
              var last := s.h.outcomes[|s.h.outcomes| - 1];
              s.throttled == if last.fate.Delivered? then last.buckets else {}
  {
    ReachableInv(b, run, s);
  }

  // ---------------------------------------------------------------- the bound is met

  lemma {:induction false} ValidExtend<B, C>(s: State<B, C>, run: seq<Action<B, C>>, a: Action<B, C>)
    requires ValidRun(s, run) && Enabled(Final(s, run), a)
    ensures ValidRun(s, run + [a]) && Final(s, run + [a]) == Step(Final(s, run), a)
    decreases |run|
  {
    if run == [] {
      assert ValidRun(Step(s, a), []);
      assert [] + [a] == [a] && [a][1..] == [];
    } else {
      ValidExtend(Step(s, run[0]), run[1..], a);
      assert (run + [a])[1..] == run[1..] + [a];
    }
  }

  lemma Extend<B, C>(b: B, run: seq<Action<B, C>>, s: State<B, C>, a: Action<B, C>)
    returns (run': seq<Action<B, C>>, s': State<B, C>)
    requires Ends(b, run, s) && Enabled(s, a)
    ensures Ends(b, run', s') && s' == Step(s, a)
  {
    run', s' := run + [a], Step(s, a);
    ValidExtend(Init<B, C>(b), run, a);
  }

  /** Two pushes of one key, the first of which has been counted. */
  lemma FirstCounted() returns (r: seq<Action<nat, nat>>, s: State<nat, nat>)
    ensures Ends(0, r, s)
    ensures s.queue == ["k"] && s.live == 1 && s.buffers == map[0 := map[], 1 := map["k" := 0]]
    ensures s.counts == map[0 := 1]
    ensures s.ingester.Idle? && s.synchroniser.Waiting?
    ensures s.h.pushed["k"] == 2 && s.h.epoch == map[0 := 0, 1 := 0] && s.h.retired == [] && s.h.outcomes == []
    ensures s.h.lost == [multiset{}]
  {
    r, s := [], Init<nat, nat>(0);
    r, s := Extend(0, r, s, Handle(Arrive(0, ["k", "k"])));
    r, s := Extend(0, r, s, Handle(Offer(0)));
    r, s := Extend(0, r, s, Handle(Offer(0)));
    r, s := Extend(0, r, s, Ingest(Receive));
    r, s := Extend(0, r, s, Ingest(Load));
    r, s := Extend(0, r, s, Ingest(Lookup));
    assert s.queue == ["k"] && s.ingester == Copying("k", 0) && s.buffers == map[0 := map[]] && s.counts == map[];
    r, s := Extend(0, r, s, Ingest(Copy(1, 0)));
    r, s := Extend(0, r, s, Ingest(CompareAndSwap));
  }

  /** The second push is about to be added to the cell of the first. */
  lemma SecondPending() returns (r: seq<Action<nat, nat>>, s: State<nat, nat>)
    ensures Ends(0, r, s)
    ensures s.ingester == AddPending("k", 1, 0) && s.synchroniser.Waiting? && s.live == 1 && s.counts == map[0 := 1]
    ensures s.buffers == map[0 := map[], 1 := map["k" := 0]] && s.h.epoch == map[0 := 0, 1 := 0]
    ensures s.h.retired == [] && s.h.outcomes == [] && s.h.lost == [multiset{}] && s.h.pushed["k"] == 2
  {
    r, s := FirstCounted();
    r, s := Extend(0, r, s, Ingest(Receive));
    r, s := Extend(0, r, s, Ingest(Load));
    r, s := Extend(0, r, s, Ingest(Lookup));
  }

  /** That cell has just been retired and read. */
  lemma SecondRaces() returns (r: seq<Action<nat, nat>>, s: State<nat, nat>)
    ensures Ends(0, r, s)
    ensures s.ingester == AddPending("k", 1, 0) && s.synchroniser == Reading(1, {}, map["k" := 1])
    ensures s.live == 2 && Cells(s, 2) == map[] && Epoch(s, 1) == 0
    ensures |s.h.retired| == 1 && s.h.outcomes == [] && s.h.lost == [multiset{}, multiset{}] && s.h.pushed["k"] == 2
  {
    r, s := SecondPending();
    r, s := Extend(0, r, s, Synchronise(Swap(2)));
    r, s := Extend(0, r, s, Synchronise(Consult(true)));
    assert s.synchroniser == Reading(1, {"k"}, map[]);
    r, s := Extend(0, r, s, Synchronise(ReadCell("k")));
  }

  /** The bound on losses is met: two pushes, one swap while the second is being added, one increment lost. */
  lemma OneIncrementCanBeLost() returns (r: seq<Action<nat, nat>>, s: State<nat, nat>)
    ensures Ends(0, r, s)
    ensures |s.h.retired| == |s.h.outcomes| == 1 && |s.h.lost| == 2
    ensures s.h.pushed["k"] == 2 && At(s.h.outcomes[0].counts, "k") == 1 && s.h.lost[0]["k"] == 1
  {
    r, s := SecondRaces();
    assert !WillBeRead(s, "k", 0);
    assert AddStep(s).h.lost == Bump(s.h.lost, 0, "k");
    r, s := Extend(0, r, s, Ingest(Add));
    assert s.h.lost[0] == multiset{"k"};
    r, s := Extend(0, r, s, Synchronise(Checkin(true, {})));
    r, s := Extend(0, r, s, Synchronise(Publish));
  }
}
