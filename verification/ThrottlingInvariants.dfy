/** Invariants of every reachable state of the throttling counter, each kept by every step. */
module ThrottlingInvariants {
  import opened Throttling

  /** Buffers and cells are typed: a buffer maps a key to a cell allocated for that key in the buffer's generation, so
      sharing happens only along one key within one generation. */
  ghost predicate HeapInv<B, C>(s: State<B, C>) {
    && s.buffers.Keys == s.h.epoch.Keys
    && s.counts.Keys == s.h.origin.Keys
    && (forall b, k :: b in s.buffers && k in s.buffers[b] ==>
          s.buffers[b][k] in s.h.origin && s.h.origin[s.buffers[b][k]] == (k, s.h.epoch[b]))
    && s.live in s.buffers && s.h.epoch[s.live] == |s.h.retired|
    && (forall b :: b in s.h.epoch ==> s.h.epoch[b] <= |s.h.retired|)
    && (forall i :: 0 <= i < |s.h.retired| ==> s.h.retired[i] in s.h.epoch && s.h.epoch[s.h.retired[i]] == i)
  }

  ghost predicate Holding<B, C>(s: State<B, C>) {
    s.ingester.Loaded? || s.ingester.Copying? || s.ingester.CasPending? || s.ingester.AddPending?
  }

  /** The ingester still works on a buffer that a swap has retired. */
  ghost predicate Stale<B, C>(s: State<B, C>) {
    Holding(s) && s.ingester.at != s.live
  }

  /** The buffer the ingester holds is the live one, or was retired by a swap; in that case, as nobody else adds keys,
      the live buffer is empty and the retired generation has lost nothing so far. */
  ghost predicate IngesterInv<B, C>(s: State<B, C>) {
    && |s.h.lost| == |s.h.retired| + 1
    && s.h.lost[|s.h.retired|] == multiset{}
    && (forall g :: 0 <= g < |s.h.lost| ==> |s.h.lost[g]| <= 1)
    && (Holding(s) ==> s.ingester.at in s.buffers)
    && (Stale(s) ==>
          && Epoch(s, s.ingester.at) < |s.h.retired|
          && s.h.retired[Epoch(s, s.ingester.at)] == s.ingester.at
          && s.h.lost[Epoch(s, s.ingester.at)] == multiset{}
          && Cells(s, s.live) == map[])
    && (s.ingester.Reloading? ==> Cells(s, s.live) == map[])
    && (s.ingester.Copying? || s.ingester.CasPending? ==> s.ingester.key !in Cells(s, s.ingester.at))
    && (s.ingester.AddPending? ==> Maps(s, s.ingester.at, s.ingester.key, s.ingester.cell))
    && (s.ingester.CasPending? ==> CopyInv(s, s.ingester.key, s.ingester.at, s.ingester.copy))
    && s.h.casFailures + (if Stale(s) then 1 else 0) <= |s.h.retired|
  }

  ghost predicate CopyInv<B, C>(s: State<B, C>, k: string, at: B, copy: B) {
    && copy in s.buffers && copy != s.live && copy !in s.h.retired
    && Epoch(s, copy) == Epoch(s, at)
    && k in Cells(s, copy)
    && Cells(s, copy) == Cells(s, at)[k := Cells(s, copy)[k]]
    && Count(s, Cells(s, copy)[k]) == 1
  }

  /** The synchroniser works on the buffer retired last, and its report covers exactly the keys already read. */
  ghost predicate SynchroniserInv<B, C>(s: State<B, C>) {
    && |s.h.outcomes| + (if s.synchroniser.Waiting? then 0 else 1) == |s.h.retired|
    && (s.synchroniser.Swapped? || s.synchroniser.Reading? ==>
          s.synchroniser.retired == s.h.retired[|s.h.retired| - 1])
    && (s.synchroniser.Reading? ==>
          && s.synchroniser.rest <= Cells(s, s.synchroniser.retired).Keys
          && s.synchroniser.report.Keys == Cells(s, s.synchroniser.retired).Keys - s.synchroniser.rest)
  }

  /** Where the increments of generation `g` for key `k` are to be found. */
  ghost function Located<B, C>(s: State<B, C>, g: nat, k: string): nat {
    if g >= |s.h.retired| then CountIn(s, s.live, k)
    else if g < |s.h.outcomes| then At(s.h.outcomes[g].counts, k)
    else Unread(s, k) + Held(s, k)
  }

  /** Each generation accounts for every increment made to it, bar the lost ones. */
  ghost predicate LedgerInv<B, C>(s: State<B, C>) {
    && |s.h.made| == |s.h.lost| == |s.h.retired| + 1
    && forall g, k :: 0 <= g < |s.h.made| ==> Balanced(s, g, k)
  }

  ghost predicate Balanced<B, C>(s: State<B, C>, g: nat, k: string) {
    g < |s.h.made| && g < |s.h.lost| && s.h.made[g][k] == Located(s, g, k) + s.h.lost[g][k]
  }

  ghost function Total(ms: seq<multiset<string>>): multiset<string> {
    if ms == [] then multiset{} else Total(ms[..|ms| - 1]) + ms[|ms| - 1]
  }

  /** Every accepted push is queued, in the ingester's hands, or has been made. */
  ghost predicate FlowInv<B, C>(s: State<B, C>) {
    && |s.h.made| == |s.h.retired| + 1
    && forall k :: s.h.pushed[k] == multiset(s.queue)[k] + InFlight(s, k) + Total(s.h.made)[k]
  }

  ghost function ThrottledAfter(outcomes: seq<Outcome>): set<string> {
    if outcomes == [] then {} else outcomes[|outcomes| - 1].buckets
  }

  /** The throttled set is the answer of the latest completed synchronisation, and only a delivered report is
      answered. */
  ghost predicate ThrottledInv<B, C>(s: State<B, C>) {
    && s.throttled == ThrottledAfter(s.h.outcomes)
    && (s.synchroniser.Answered? && !s.synchroniser.answer.fate.Delivered? ==> s.synchroniser.answer.buckets == {})
    && (forall i :: 0 <= i < |s.h.outcomes| && !s.h.outcomes[i].fate.Delivered? ==> s.h.outcomes[i].buckets == {})
  }

  ghost predicate Inv<B, C>(s: State<B, C>) {
    HeapInv(s) && IngesterInv(s) && SynchroniserInv(s) && LedgerInv(s) && FlowInv(s) && ThrottledInv(s)
  }

  // ---------------------------------------------------------------- preservation by request handlers

  /** A request handler touches only the channel, its own state and the ledgers of pushes. */
  ghost predicate SameCore<B, C>(s: State<B, C>, t: State<B, C>) {
    && t.live == s.live && t.buffers == s.buffers && t.counts == s.counts
    && t.ingester == s.ingester && t.synchroniser == s.synchroniser && t.throttled == s.throttled
    && t.h.epoch == s.h.epoch && t.h.origin == s.h.origin && t.h.retired == s.h.retired
    && t.h.made == s.h.made && t.h.lost == s.h.lost
    && t.h.outcomes == s.h.outcomes && t.h.casFailures == s.h.casFailures
  }

  lemma HandleKeepsCore<B, C>(s: State<B, C>, a: RequestAction)
    requires HandleEnabled(s, a)
    ensures SameCore(s, HandleStep(s, a))
  {
  }

  lemma CoreHeap<B, C>(s: State<B, C>, t: State<B, C>)
    requires SameCore(s, t) && HeapInv(s)
    ensures HeapInv(t)
  {
  }

  lemma CoreIngester<B, C>(s: State<B, C>, t: State<B, C>)
    requires SameCore(s, t) && IngesterInv(s)
    ensures IngesterInv(t)
  {
  }

  lemma CoreSynchroniser<B, C>(s: State<B, C>, t: State<B, C>)
    requires SameCore(s, t) && SynchroniserInv(s)
    ensures SynchroniserInv(t)
  {
  }

  lemma CoreLedger<B, C>(s: State<B, C>, t: State<B, C>)
    requires SameCore(s, t) && LedgerInv(s)
    ensures LedgerInv(t)
  {
    forall g, k | 0 <= g < |t.h.made| ensures Balanced(t, g, k) { assert Balanced(s, g, k); }
  }

  lemma HandleKeepsFlow<B, C>(s: State<B, C>, a: RequestAction)
    requires HandleEnabled(s, a) && FlowInv(s)
    ensures FlowInv(HandleStep(s, a))
  {
  }

  lemma CoreThrottled<B, C>(s: State<B, C>, t: State<B, C>)
    requires SameCore(s, t) && ThrottledInv(s)
    ensures ThrottledInv(t)
  {
  }

  lemma HandleKeeps<B, C>(s: State<B, C>, a: RequestAction)
    requires HandleEnabled(s, a) && Inv(s)
    ensures Inv(HandleStep(s, a))
  {
    var t := HandleStep(s, a);
    HandleKeepsCore(s, a);
    CoreHeap(s, t);
    CoreIngester(s, t);
    CoreSynchroniser(s, t);
    CoreLedger(s, t);
    CoreThrottled(s, t);
    HandleKeepsFlow(s, a);
  }

  // ---------------------------------------------------------------- preservation by the ingester

  lemma CopyKeepsHeap<B, C>(s: State<B, C>, b: B, c: C)
    requires IngestEnabled(s, Copy(b, c)) && HeapInv(s) && IngesterInv(s)
    ensures HeapInv(CopyStep(s, b, c))
  {
  }

  lemma CasKeepsHeap<B, C>(s: State<B, C>)
    requires s.ingester.CasPending? && HeapInv(s) && IngesterInv(s)
    ensures HeapInv(CasStep(s))
  {
  }

  lemma AddKeepsHeap<B, C>(s: State<B, C>)
    requires s.ingester.AddPending? && HeapInv(s) && IngesterInv(s)
    ensures HeapInv(AddStep(s))
  {
  }

  lemma IngestKeepsHeap<B, C>(s: State<B, C>, a: IngesterAction<B, C>)
    requires IngestEnabled(s, a) && HeapInv(s) && IngesterInv(s)
    ensures HeapInv(IngestStep(s, a))
  {
    match a {
      case Receive =>
      case Load =>
      case Lookup =>
      case Copy(b, c) => CopyKeepsHeap(s, b, c);
      case CompareAndSwap => CasKeepsHeap(s);
      case Add => AddKeepsHeap(s);
    }
  }

  lemma CopyKeepsIngester<B, C>(s: State<B, C>, b: B, c: C)
    requires IngestEnabled(s, Copy(b, c)) && HeapInv(s) && IngesterInv(s)
    ensures IngesterInv(CopyStep(s, b, c))
  {
  }

  lemma CasKeepsIngester<B, C>(s: State<B, C>)
    requires s.ingester.CasPending? && HeapInv(s) && IngesterInv(s)
    ensures IngesterInv(CasStep(s))
  {
  }

  lemma AddKeepsIngester<B, C>(s: State<B, C>)
    requires s.ingester.AddPending? && HeapInv(s) && IngesterInv(s)
    ensures IngesterInv(AddStep(s))
  {
  }

  lemma IngestKeepsIngester<B, C>(s: State<B, C>, a: IngesterAction<B, C>)
    requires IngestEnabled(s, a) && HeapInv(s) && IngesterInv(s)
    ensures IngesterInv(IngestStep(s, a))
  {
    match a {
      case Receive =>
      case Load =>
      case Lookup =>
      case Copy(b, c) => CopyKeepsIngester(s, b, c);
      case CompareAndSwap => CasKeepsIngester(s);
      case Add => AddKeepsIngester(s);
    }
  }

  /** All the synchroniser's part of the invariant is about. */
  ghost predicate SameSynchroniser<B, C>(s: State<B, C>, t: State<B, C>) {
    && t.synchroniser == s.synchroniser && t.h.retired == s.h.retired && t.h.outcomes == s.h.outcomes
    && forall b :: b in s.buffers ==> b in t.buffers && t.buffers[b] == s.buffers[b]
  }

  lemma IngestSameSynchroniser<B, C>(s: State<B, C>, a: IngesterAction<B, C>)
    requires IngestEnabled(s, a)
    ensures SameSynchroniser(s, IngestStep(s, a))
  {
    match a {
      case Receive =>
      case Load =>
      case Lookup =>
      case Copy(_, _) =>
      case CompareAndSwap =>
      case Add =>
    }
  }

  lemma IngestKeepsSynchroniser<B, C>(s: State<B, C>, a: IngesterAction<B, C>)
    requires IngestEnabled(s, a) && HeapInv(s) && SynchroniserInv(s)
    ensures SynchroniserInv(IngestStep(s, a))
  {
    IngestSameSynchroniser(s, a);
  }

  lemma AddElsewhere<B, C>(s: State<B, C>, g: nat, k: string)
    requires s.ingester.AddPending? && HeapInv(s) && IngesterInv(s) && SynchroniserInv(s)
    requires Balanced(s, g, k) && (g != Epoch(s, s.ingester.at) || k != s.ingester.key)
    ensures Balanced(AddStep(s), g, k)
  {
  }

  lemma AddBalances<B, C>(s: State<B, C>, g: nat, k: string)
    requires s.ingester.AddPending? && HeapInv(s) && IngesterInv(s) && SynchroniserInv(s)
    requires Balanced(s, g, k)
    ensures Balanced(AddStep(s), g, k)
  {
    if g != Epoch(s, s.ingester.at) || k != s.ingester.key { AddElsewhere(s, g, k); }
  }

  lemma CopyBalances<B, C>(s: State<B, C>, b: B, c: C, g: nat, k: string)
    requires IngestEnabled(s, Copy(b, c)) && HeapInv(s) && IngesterInv(s) && SynchroniserInv(s)
    requires Balanced(s, g, k)
    ensures Balanced(CopyStep(s, b, c), g, k)
  {
  }

  lemma CasBalances<B, C>(s: State<B, C>, g: nat, k: string)
    requires s.ingester.CasPending? && HeapInv(s) && IngesterInv(s) && SynchroniserInv(s)
    requires Balanced(s, g, k)
    ensures Balanced(CasStep(s), g, k)
  {
  }

  lemma IngestKeepsLedger<B, C>(s: State<B, C>, a: IngesterAction<B, C>)
    requires IngestEnabled(s, a) && HeapInv(s) && IngesterInv(s) && SynchroniserInv(s) && LedgerInv(s)
    ensures LedgerInv(IngestStep(s, a))
  {
    var t := IngestStep(s, a);
    forall g: nat, k | g < |t.h.made| ensures Balanced(t, g, k) {
      assert Balanced(s, g, k);
      match a {
        case Add => AddBalances(s, g, k);
        case Copy(b, c) => CopyBalances(s, b, c, g, k);
        case CompareAndSwap => CasBalances(s, g, k);
        case _ =>
      }
    }
  }

  lemma {:induction false} TotalBump(ms: seq<multiset<string>>, g: nat, k: string)
    requires g < |ms|
    ensures Total(Bump(ms, g, k)) == Total(ms) + multiset{k}
  {
    var n := |ms| - 1;
    if g < n {
      TotalBump(ms[..n], g, k);
      assert Bump(ms, g, k)[..n] == Bump(ms[..n], g, k);
    } else {
      assert Bump(ms, g, k)[..n] == ms[..n];
    }
  }

  lemma AddKeepsFlow<B, C>(s: State<B, C>)
    requires s.ingester.AddPending? && HeapInv(s) && IngesterInv(s) && FlowInv(s)
    ensures FlowInv(AddStep(s))
  {
    TotalBump(s.h.made, Epoch(s, s.ingester.at), s.ingester.key);
  }

  lemma CasKeepsFlow<B, C>(s: State<B, C>)
    requires s.ingester.CasPending? && HeapInv(s) && IngesterInv(s) && FlowInv(s)
    ensures FlowInv(CasStep(s))
  {
    if s.live == s.ingester.at { TotalBump(s.h.made, Epoch(s, s.ingester.copy), s.ingester.key); }
  }

  lemma ReceiveKeepsFlow<B, C>(s: State<B, C>)
    requires IngestEnabled(s, Receive) && FlowInv(s)
    ensures FlowInv(IngestStep(s, Receive))
  {
    assert s.queue == [s.queue[0]] + s.queue[1..];
  }

  lemma IngestKeepsFlow<B, C>(s: State<B, C>, a: IngesterAction<B, C>)
    requires IngestEnabled(s, a) && HeapInv(s) && IngesterInv(s) && FlowInv(s)
    ensures FlowInv(IngestStep(s, a))
  {
    match a {
      case Add => AddKeepsFlow(s);
      case CompareAndSwap => CasKeepsFlow(s);
      case Receive => ReceiveKeepsFlow(s);
      case _ =>
    }
  }

  /** Throttling is no business of the ingester. */
  lemma IngestKeepsThrottled<B, C>(s: State<B, C>, a: IngesterAction<B, C>)
    requires IngestEnabled(s, a) && ThrottledInv(s)
    ensures ThrottledInv(IngestStep(s, a))
  {
    match a {
      case Receive =>
      case Load =>
      case Lookup =>
      case Copy(_, _) =>
      case CompareAndSwap =>
      case Add =>
    }
  }

  lemma IngestKeeps<B, C>(s: State<B, C>, a: IngesterAction<B, C>)
    requires IngestEnabled(s, a) && Inv(s)
    ensures Inv(IngestStep(s, a))
  {
    IngestKeepsHeap(s, a);
    IngestKeepsIngester(s, a);
    IngestKeepsSynchroniser(s, a);
    IngestKeepsLedger(s, a);
    IngestKeepsFlow(s, a);
    IngestKeepsThrottled(s, a);
  }

  // ---------------------------------------------------------------- preservation by the synchroniser

  lemma SynchroniseKeepsHeap<B, C>(s: State<B, C>, a: SynchroniserAction<B>)
    requires SynchroniseEnabled(s, a) && HeapInv(s)
    ensures HeapInv(SynchroniseStep(s, a))
  {
  }

  lemma SynchroniseKeepsIngester<B, C>(s: State<B, C>, a: SynchroniserAction<B>)
    requires SynchroniseEnabled(s, a) && HeapInv(s) && IngesterInv(s)
    ensures IngesterInv(SynchroniseStep(s, a))
  {
    match a {
      case Swap(_) =>
      case Consult(_) =>
      case ReadCell(_) =>
      case Checkin(_, _) =>
      case Publish =>
    }
  }

  lemma SynchroniseKeepsSynchroniser<B, C>(s: State<B, C>, a: SynchroniserAction<B>)
    requires SynchroniseEnabled(s, a) && HeapInv(s) && SynchroniserInv(s)
    ensures SynchroniserInv(SynchroniseStep(s, a))
  {
  }

  lemma SwapBalances<B, C>(s: State<B, C>, b: B, g: nat, k: string)
    requires SynchroniseEnabled(s, Swap(b)) && HeapInv(s) && SynchroniserInv(s) && LedgerInv(s)
    requires g <= |s.h.made|
    ensures Balanced(SwapStep(s, b), g, k)
  {
    if g < |s.h.made| { assert Balanced(s, g, k); }
  }

  lemma ConsultBalances<B, C>(s: State<B, C>, enabled: bool, g: nat, k: string)
    requires s.synchroniser.Swapped? && SynchroniserInv(s) && Balanced(s, g, k)
    ensures Balanced(SynchroniseStep(s, Consult(enabled)), g, k)
  {
  }

  lemma ReadBalances<B, C>(s: State<B, C>, key: string, g: nat, k: string)
    requires SynchroniseEnabled(s, ReadCell(key)) && SynchroniserInv(s) && Balanced(s, g, k)
    ensures Balanced(SynchroniseStep(s, ReadCell(key)), g, k)
  {
  }

  lemma CheckinBalances<B, C>(s: State<B, C>, accepted: bool, buckets: set<string>, g: nat, k: string)
    requires SynchroniseEnabled(s, Checkin(accepted, buckets)) && SynchroniserInv(s) && Balanced(s, g, k)
    ensures Balanced(SynchroniseStep(s, Checkin(accepted, buckets)), g, k)
  {
  }

  lemma PublishBalances<B, C>(s: State<B, C>, g: nat, k: string)
    requires SynchroniseEnabled(s, Publish) && SynchroniserInv(s) && Balanced(s, g, k)
    ensures Balanced(SynchroniseStep(s, Publish), g, k)
  {
  }

  lemma SynchroniseBalances<B, C>(s: State<B, C>, a: SynchroniserAction<B>, g: nat, k: string)
    requires SynchroniseEnabled(s, a) && !a.Swap? && SynchroniserInv(s) && Balanced(s, g, k)
    ensures Balanced(SynchroniseStep(s, a), g, k)
  {
    match a {
      case Consult(enabled) => ConsultBalances(s, enabled, g, k);
      case ReadCell(key) => ReadBalances(s, key, g, k);
      case Checkin(accepted, buckets) => CheckinBalances(s, accepted, buckets, g, k);
      case Publish => PublishBalances(s, g, k);
    }
  }

  lemma SynchroniseKeepsLedger<B, C>(s: State<B, C>, a: SynchroniserAction<B>)
    requires SynchroniseEnabled(s, a) && HeapInv(s) && SynchroniserInv(s) && LedgerInv(s)
    ensures LedgerInv(SynchroniseStep(s, a))
  {
    var t := SynchroniseStep(s, a);
    if a.Swap? {
      forall g: nat, k | g < |t.h.made| ensures Balanced(t, g, k) { SwapBalances(s, a.empty, g, k); }
    } else {
      forall g: nat, k | g < |t.h.made| ensures Balanced(t, g, k) {
        assert Balanced(s, g, k);
        SynchroniseBalances(s, a, g, k);
      }
    }
  }

  lemma SynchroniseKeepsFlow<B, C>(s: State<B, C>, a: SynchroniserAction<B>)
    requires SynchroniseEnabled(s, a) && FlowInv(s)
    ensures FlowInv(SynchroniseStep(s, a))
  {
    if a.Swap? { assert (s.h.made + [multiset{}])[..|s.h.made|] == s.h.made; }
  }

  lemma SynchroniseKeepsThrottled<B, C>(s: State<B, C>, a: SynchroniserAction<B>)
    requires SynchroniseEnabled(s, a) && ThrottledInv(s)
    ensures ThrottledInv(SynchroniseStep(s, a))
  {
  }

  lemma SynchroniseKeeps<B, C>(s: State<B, C>, a: SynchroniserAction<B>)
    requires SynchroniseEnabled(s, a) && Inv(s)
    ensures Inv(SynchroniseStep(s, a))
  {
    SynchroniseKeepsHeap(s, a);
    SynchroniseKeepsIngester(s, a);
    SynchroniseKeepsSynchroniser(s, a);
    SynchroniseKeepsLedger(s, a);
    SynchroniseKeepsFlow(s, a);
    SynchroniseKeepsThrottled(s, a);
  }

  /** Every atomic step of every goroutine keeps the invariant. */
  lemma StepKeeps<B, C>(s: State<B, C>, a: Action<B, C>)
    requires Enabled(s, a) && Inv(s)
    ensures Inv(Step(s, a))
  {
    match a {
      case Handle(r) => HandleKeeps(s, r);
      case Ingest(i) => IngestKeeps(s, i);
      case Synchronise(y) => SynchroniseKeeps(s, y);
    }
  }

  lemma InitInv<B, C>(b: B)
    ensures Inv(Init<B, C>(b))
  {
  }

  /** From `s` to `t` the live buffer's count goes up by one for `key` and stays what it was for every other key. */
  ghost predicate Counted<B, C>(s: State<B, C>, t: State<B, C>, key: string) {
    forall k :: CountIn(t, t.live, k) == CountIn(s, s.live, k) + if k == key then 1 else 0
  }

  /** An increment of the live buffer counts its own key once, and no other. */
  lemma IncrementCounts<B, C>(s: State<B, C>)
    requires s.ingester.AddPending? && s.ingester.at == s.live && HeapInv(s)
    requires Maps(s, s.live, s.ingester.key, s.ingester.cell)
    ensures Counted(s, AddStep(s), s.ingester.key)
  {
  }

  /** So does a copy that is installed at once. */
  lemma InsertCounts<B, C>(s: State<B, C>, b: B, c: C)
    requires IngestEnabled(s, Copy(b, c)) && s.ingester.at == s.live && HeapInv(s)
    requires s.ingester.key !in Cells(s, s.live)
    ensures Counted(s, CasStep(CopyStep(s, b, c)), s.ingester.key)
  {
  }

  /** Nor does it matter what the ingester did before that changed no buffer and no count. */
  lemma CountedSince<B, C>(s: State<B, C>, mid: State<B, C>, t: State<B, C>, key: string)
    requires mid == s.(queue := mid.queue, ingester := mid.ingester) && Counted(mid, t, key)
    ensures Counted(s, t, key)
  {
    forall k ensures CountIn(t, t.live, k) == CountIn(s, s.live, k) + if k == key then 1 else 0 {
      assert CountIn(mid, mid.live, k) == CountIn(s, s.live, k);
    }
  }

  lemma SwapKeepsCounts<B, C>(s: State<B, C>, b: B)
    requires s.live in s.buffers && b !in s.buffers
    ensures CountsOf(SwapStep(s, b), s.live) == CountsOf(s, s.live)
  {
  }

  lemma {:induction false} RunKeeps<B, C>(s: State<B, C>, run: seq<Action<B, C>>)
    requires ValidRun(s, run) && Inv(s)
    ensures Inv(Final(s, run))
    decreases |run|
  {
    if run != [] {
      StepKeeps(s, run[0]);
      RunKeeps(Step(s, run[0]), run[1..]);
    }
  }
}
