/** What becomes of requests over whole runs: everything here is told from the actions of the run. */
module ThrottlingRequests {
  import opened Throttling
  import opened ThrottlingInvariants
  import opened ThrottlingTheorems

  // ---------------------------------------------------------------- taking the last step off a run

  lemma {:induction false} RunsSplit<B, C>(s: State<B, C>, run: seq<Action<B, C>>, n: nat)
    requires ValidRun(s, run) && n <= |run|
    ensures ValidRun(s, run[..n]) && ValidRun(Final(s, run[..n]), run[n..])
    ensures Final(s, run) == Final(Final(s, run[..n]), run[n..])
    decreases |run|
  {
    if n == 0 {
      assert run[..0] == [] && run[0..] == run;
    } else {
      RunsSplit(Step(s, run[0]), run[1..], n - 1);
      assert run[..n][0] == run[0] && run[..n][1..] == run[1..][..n - 1] && run[n..] == run[1..][n - 1..];
    }
  }

  lemma LastStep<B, C>(b: B, run: seq<Action<B, C>>, s: State<B, C>) returns (p: State<B, C>)
    requires Ends(b, run, s) && run != []
    ensures Ends(b, run[..|run| - 1], p) && Enabled(p, run[|run| - 1]) && s == Step(p, run[|run| - 1])
  {
    var n := |run| - 1;
    RunsSplit(Init<B, C>(b), run, n);
    p := Final(Init<B, C>(b), run[..n]);
    assert run[n..] == [run[n]] && run[n..][1..] == [];
  }

  // ---------------------------------------------------------------- requests are those that arrived

  ghost predicate Arrived<B, C>(run: seq<Action<B, C>>, id: nat, bucks: seq<string>) {
    Handle(Arrive(id, bucks)) in run
  }

  lemma Later<B, C>(run: seq<Action<B, C>>, a: Action<B, C>)
    requires run != []
    ensures a in run <==> a in run[..|run| - 1] || a == run[|run| - 1]
  {
    assert run == run[..|run| - 1] + [run[|run| - 1]];
  }

  /** A step of anyone but a request handler leaves requests and the ledgers of pushes alone. */
  ghost predicate SameRequests<B, C>(s: State<B, C>, t: State<B, C>) {
    t.requests == s.requests && t.h.pushed == s.h.pushed && t.h.refused == s.h.refused
  }

  lemma OthersKeepRequests<B, C>(s: State<B, C>, a: Action<B, C>)
    requires Enabled(s, a) && !a.Handle?
    ensures SameRequests(s, Step(s, a))
  {
    match a {
      case Ingest(i) =>
        match i {
          case Receive =>
          case Load =>
          case Lookup =>
          case Copy(_, _) =>
          case CompareAndSwap =>
          case Add =>
        }
      case Synchronise(_) =>
    }
  }

  ghost predicate Carries<B, C>(s: State<B, C>, id: nat, bucks: seq<string>) {
    id in s.requests && s.requests[id].bucks == bucks
  }

  /** Requests keep their buckets; only an arrival adds one. */
  lemma StepBucks<B, C>(s: State<B, C>, a: Action<B, C>, id: nat, bucks: seq<string>)
    requires Enabled(s, a)
    ensures Carries(Step(s, a), id, bucks) <==> Carries(s, id, bucks) || a == Handle(Arrive(id, bucks))
  {
    if !a.Handle? { OthersKeepRequests(s, a); }
  }

  /** The requests are exactly those that arrived, with the buckets they arrived with. */
  lemma {:induction false} RequestsArrived<B, C>(b: B, run: seq<Action<B, C>>, s: State<B, C>, id: nat,
                                                 bucks: seq<string>)
    requires Ends(b, run, s)
    ensures Arrived(run, id, bucks) <==> id in s.requests && s.requests[id].bucks == bucks
    decreases |run|
  {
    if run != [] {
      var p := LastStep(b, run, s);
      RequestsArrived(b, run[..|run| - 1], p, id, bucks);
      StepBucks(p, run[|run| - 1], id, bucks);
      Later(run, Handle(Arrive(id, bucks)));
    }
  }

  // ---------------------------------------------------------------- every bucket of every request is accounted for

  ghost function With<B, C>(ids: seq<nat>, a: Action<B, C>): seq<nat> {
    match a
    case Handle(Arrive(id, _)) => ids + [id]
    case _ => ids
  }

  /** The ids of the requests, in order of arrival. */
  ghost function Newcomers<B, C>(run: seq<Action<B, C>>): seq<nat> {
    if run == [] then [] else With(Newcomers(run[..|run| - 1]), run[|run| - 1])
  }

  ghost function BroughtBy<B, C>(a: Action<B, C>, k: string): nat {
    match a
    case Handle(Arrive(_, bucks)) => multiset(bucks)[k]
    case _ => 0
  }

  /** How often requests arrived with the bucket. */
  ghost function Brought<B, C>(run: seq<Action<B, C>>, k: string): nat {
    if run == [] then 0 else Brought(run[..|run| - 1], k) + BroughtBy(run[|run| - 1], k)
  }

  ghost function Remaining<B, C>(s: State<B, C>, id: nat, k: string): nat {
    if id in s.requests && s.requests[id].offered <= |s.requests[id].bucks|
    then multiset(s.requests[id].bucks[s.requests[id].offered..])[k] else 0
  }

  /** How often these requests have still to offer the bucket. */
  ghost function ToOffer<B, C>(s: State<B, C>, ids: seq<nat>, k: string): nat {
    if ids == [] then 0 else ToOffer(s, ids[..|ids| - 1], k) + Remaining(s, ids[|ids| - 1], k)
  }

  lemma {:induction false} ToOfferSame<B, C>(s: State<B, C>, t: State<B, C>, ids: seq<nat>, k: string)
    requires forall id :: id in ids ==> Remaining(t, id, k) == Remaining(s, id, k)
    ensures ToOffer(t, ids, k) == ToOffer(s, ids, k)
  {
    if ids != [] { ToOfferSame(s, t, ids[..|ids| - 1], k); }
  }

  ghost predicate AllDistinct(ids: seq<nat>) {
    forall i, j :: 0 <= i < j < |ids| ==> ids[i] != ids[j]
  }

  /** If one of the requests has `n` less to offer, so have all together. */
  lemma {:induction false} ToOfferLess<B, C>(s: State<B, C>, t: State<B, C>, ids: seq<nat>, id: nat, k: string, n: nat)
    requires AllDistinct(ids) && id in ids && Remaining(s, id, k) == Remaining(t, id, k) + n
    requires forall other :: other != id ==> Remaining(t, other, k) == Remaining(s, other, k)
    ensures ToOffer(s, ids, k) == ToOffer(t, ids, k) + n
  {
    var m := |ids| - 1;
    if ids[m] == id {
      ToOfferSame(s, t, ids[..m], k);
    } else {
      ToOfferLess(s, t, ids[..m], id, k, n);
    }
  }

  function One(k: string, l: string): nat {
    if k == l then 1 else 0
  }

  lemma RestTakesOne(bucks: seq<string>, n: nat, k: string)
    requires n < |bucks|
    ensures multiset(bucks[n..])[k] == multiset(bucks[n + 1..])[k] + One(k, bucks[n])
  {
    assert bucks[n..] == [bucks[n]] + bucks[n + 1..];
  }

  lemma OfferTakesOne<B, C>(s: State<B, C>, id: nat, k: string)
    requires HandleEnabled(s, Offer(id))
    ensures var t, r := OfferStep(s, id), s.requests[id];
            && Remaining(s, id, k) == Remaining(t, id, k) + One(k, r.bucks[r.offered])
            && forall other :: other != id ==> Remaining(t, other, k) == Remaining(s, other, k)
  {
    var r := s.requests[id];
    RestTakesOne(r.bucks, r.offered, k);
    assert OfferStep(s, id).requests == s.requests[id := r.(offered := r.offered + 1)];
  }

  lemma OfferLedgers<B, C>(s: State<B, C>, id: nat, k: string)
    requires HandleEnabled(s, Offer(id))
    ensures var t, r := OfferStep(s, id), s.requests[id];
            t.h.pushed[k] + t.h.refused[k] == s.h.pushed[k] + s.h.refused[k] + One(k, r.bucks[r.offered])
  {
  }

  ghost predicate Known<B, C>(run: seq<Action<B, C>>, s: State<B, C>) {
    AllDistinct(Newcomers(run)) && forall id :: id in Newcomers(run) <==> id in s.requests
  }

  ghost predicate Accounted<B, C>(run: seq<Action<B, C>>, s: State<B, C>, k: string) {
    s.h.pushed[k] + s.h.refused[k] + ToOffer(s, Newcomers(run), k) == Brought(run, k)
  }

  lemma Append<B, C>(run: seq<Action<B, C>>, a: Action<B, C>, k: string)
    ensures Newcomers(run + [a]) == With(Newcomers(run), a)
    ensures Brought(run + [a], k) == Brought(run, k) + BroughtBy(a, k)
  {
    assert (run + [a])[..|run|] == run;
  }

  lemma ToOfferOneMore<B, C>(s: State<B, C>, ids: seq<nat>, id: nat, k: string)
    ensures ToOffer(s, ids + [id], k) == ToOffer(s, ids, k) + Remaining(s, id, k)
  {
    assert (ids + [id])[..|ids|] == ids;
  }

  lemma ArriveAccounted<B, C>(run: seq<Action<B, C>>, s: State<B, C>, id: nat, bucks: seq<string>, k: string)
    requires HandleEnabled(s, Arrive(id, bucks)) && Known(run, s) && Accounted(run, s, k)
    ensures Accounted(run + [Handle(Arrive(id, bucks))], HandleStep(s, Arrive(id, bucks)), k)
  {
    var t, ids := HandleStep(s, Arrive(id, bucks)), Newcomers(run);
    Append(run, Handle(Arrive(id, bucks)), k);
    ToOfferSame(s, t, ids, k);
    ToOfferOneMore(t, ids, id, k);
    assert bucks[0..] == bucks && Remaining(t, id, k) == multiset(bucks)[k];
  }

  lemma OfferAccounted<B, C>(run: seq<Action<B, C>>, s: State<B, C>, id: nat, k: string)
    requires HandleEnabled(s, Offer(id)) && Known(run, s) && Accounted(run, s, k)
    ensures Accounted(run + [Handle(Offer(id))], OfferStep(s, id), k)
  {
    var b := s.requests[id].bucks[s.requests[id].offered];
    Append(run, Handle(Offer(id)), k);
    OfferTakesOne(s, id, k);
    OfferLedgers(s, id, k);
    ToOfferLess(s, OfferStep(s, id), Newcomers(run), id, k, One(k, b));
  }

  lemma DecideAccounted<B, C>(run: seq<Action<B, C>>, s: State<B, C>, id: nat, k: string)
    requires HandleEnabled(s, Decide(id)) && Accounted(run, s, k)
    ensures Accounted(run + [Handle(Decide(id))], HandleStep(s, Decide(id)), k)
  {
    Append(run, Handle(Decide(id)), k);
    ToOfferSame(s, HandleStep(s, Decide(id)), Newcomers(run), k);
  }

  lemma OthersAccounted<B, C>(run: seq<Action<B, C>>, s: State<B, C>, a: Action<B, C>, k: string)
    requires Enabled(s, a) && !a.Handle? && Accounted(run, s, k)
    ensures Accounted(run + [a], Step(s, a), k)
  {
    Append(run, a, k);
    OthersKeepRequests(s, a);
    ToOfferSame(s, Step(s, a), Newcomers(run), k);
  }

  lemma StepKnown<B, C>(run: seq<Action<B, C>>, s: State<B, C>, a: Action<B, C>)
    requires Enabled(s, a) && Known(run, s)
    ensures Known(run + [a], Step(s, a))
  {
    Append(run, a, "");
    if !a.Handle? { OthersKeepRequests(s, a); }
  }

  lemma StepAccounted<B, C>(run: seq<Action<B, C>>, s: State<B, C>, a: Action<B, C>, k: string)
    requires Enabled(s, a) && Known(run, s) && Accounted(run, s, k)
    ensures Accounted(run + [a], Step(s, a), k)
  {
    match a {
      case Handle(Arrive(id, bucks)) => ArriveAccounted(run, s, id, bucks, k);
      case Handle(Offer(id)) => OfferAccounted(run, s, id, k);
      case Handle(Decide(id)) => DecideAccounted(run, s, id, k);
      case _ => OthersAccounted(run, s, a, k);
    }
  }

  lemma {:induction false} AlwaysKnown<B, C>(b: B, run: seq<Action<B, C>>, s: State<B, C>)
    requires Ends(b, run, s)
    ensures Known(run, s)
    decreases |run|
  {
    if run != [] {
      var n := |run| - 1;
      var p := LastStep(b, run, s);
      AlwaysKnown(b, run[..n], p);
      StepKnown(run[..n], p, run[n]);
      assert run == run[..n] + [run[n]];
    }
  }

  lemma {:induction false} AlwaysAccounted<B, C>(b: B, run: seq<Action<B, C>>, s: State<B, C>, k: string)
    requires Ends(b, run, s)
    ensures Accounted(run, s, k)
    decreases |run|
  {
    if run != [] {
      var n := |run| - 1;
      var p := LastStep(b, run, s);
      AlwaysAccounted(b, run[..n], p, k);
      AlwaysKnown(b, run[..n], p);
      StepAccounted(run[..n], p, run[n], k);
      assert run == run[..n] + [run[n]];
    }
  }

  /** A request is decided only after it has offered all its buckets. */
  ghost predicate OfferedFirst<B, C>(s: State<B, C>) {
    forall id :: id in s.requests ==>
      && s.requests[id].offered <= |s.requests[id].bucks|
      && (s.requests[id].verdict.Decided? ==> s.requests[id].offered == |s.requests[id].bucks|)
  }

  lemma {:induction false} AlwaysOfferedFirst<B, C>(s: State<B, C>, run: seq<Action<B, C>>)
    requires ValidRun(s, run) && OfferedFirst(s)
    ensures OfferedFirst(Final(s, run))
    decreases |run|
  {
    if run != [] {
      if !run[0].Handle? { OthersKeepRequests(s, run[0]); }
      AlwaysOfferedFirst(Step(s, run[0]), run[1..]);
    }
  }

  lemma {:induction false} NothingToOffer<B, C>(s: State<B, C>, ids: seq<nat>, k: string)
    requires forall id :: id in ids && id in s.requests ==> s.requests[id].offered == |s.requests[id].bucks|
    ensures ToOffer(s, ids, k) == 0
  {
    if ids != [] { NothingToOffer(s, ids[..|ids| - 1], k); }
  }

  /** Every bucket that requests arrived with was accepted or refused, the one or the other and once, or is still to be
      offered; and once all requests are decided none is. */
  lemma OffersAccounted<B, C>(b: B, run: seq<Action<B, C>>, s: State<B, C>, k: string)
    requires Ends(b, run, s)
    ensures s.h.pushed[k] + s.h.refused[k] + ToOffer(s, Newcomers(run), k) == Brought(run, k)
    ensures (forall id :: id in s.requests ==> s.requests[id].verdict.Decided?)
        ==> s.h.pushed[k] + s.h.refused[k] == Brought(run, k)
  {
    AlwaysAccounted(b, run, s, k);
    AlwaysOfferedFirst(Init<B, C>(b), run);
    if forall id :: id in s.requests ==> s.requests[id].verdict.Decided? { NothingToOffer(s, Newcomers(run), k); }
  }

  // ---------------------------------------------------------------- the channel

  /** The channel holds 500000 buckets at most, and refuses none before that many were accepted. */
  ghost predicate ChannelInv<B, C>(s: State<B, C>) {
    && |s.queue| <= 500000 && |s.queue| <= |s.h.pushed|
    && (s.h.refused != multiset{} ==> |s.h.pushed| >= 500000)
  }

  lemma ChannelKept<B, C>(s: State<B, C>, a: Action<B, C>)
    requires Enabled(s, a) && ChannelInv(s)
    ensures ChannelInv(Step(s, a))
  {
    match a {
      case Handle(_) =>
      case Ingest(i) =>
        match i {
          case Receive =>
          case _ => assert IngestStep(s, i).queue == s.queue && SameRequests(s, Step(s, a));
        }
      case Synchronise(_) =>
    }
  }

  lemma {:induction false} ChannelBounded<B, C>(s: State<B, C>, run: seq<Action<B, C>>)
    requires ValidRun(s, run) && ChannelInv(s)
    ensures ChannelInv(Final(s, run))
    decreases |run|
  {
    if run != [] {
      ChannelKept(s, run[0]);
      ChannelBounded(Step(s, run[0]), run[1..]);
    }
  }

  /** In every reachable state. */
  lemma RefusedOnlyWhenFull<B, C>(b: B, run: seq<Action<B, C>>, s: State<B, C>)
    requires Ends(b, run, s)
    ensures |s.queue| <= 500000
    ensures |s.h.pushed| < 500000 ==> s.h.refused == multiset{}
  {
    ChannelBounded(Init<B, C>(b), run);
  }

  ghost function Receipts<B, C>(run: seq<Action<B, C>>): nat {
    if run == [] then 0 else Receipts(run[1..]) + if run[0] == Ingest(Receive) then 1 else 0
  }

  lemma StepQueue<B, C>(s: State<B, C>, a: Action<B, C>)
    requires Enabled(s, a)
    ensures if a == Ingest(Receive) then s.queue != [] && Step(s, a).queue == s.queue[1..]
            else s.queue <= Step(s, a).queue
  {
    match a {
      case Handle(_) =>
      case Ingest(i) =>
        match i {
          case Receive =>
          case _ => assert IngestStep(s, i).queue == s.queue;
        }
      case Synchronise(_) =>
    }
  }

  lemma DropKeepsPrefix(q: seq<string>, r: seq<string>, n: nat)
    requires q <= r && n <= |q|
    ensures q[n..] <= r[n..]
  {
  }

  /** What is queued is received in the order in which it was queued: `n` receipts later the rest of it comes first. */
  lemma {:induction false} FirstInFirstOut<B, C>(s: State<B, C>, run: seq<Action<B, C>>)
    requires ValidRun(s, run) && Receipts(run) <= |s.queue|
    ensures s.queue[Receipts(run)..] <= Final(s, run).queue
    decreases |run|
  {
    if run != [] {
      var t, n := Step(s, run[0]), Receipts(run[1..]);
      StepQueue(s, run[0]);
      FirstInFirstOut(t, run[1..]);
      if run[0] == Ingest(Receive) {
        assert s.queue[1..][n..] == s.queue[n + 1..];
      } else {
        DropKeepsPrefix(s.queue, t.queue, n);
      }
    }
  }

  ghost function Lookups<B, C>(run: seq<Action<B, C>>): nat {
    if run == [] then 0 else Lookups(run[1..]) + if run[0] == Ingest(Lookup) then 1 else 0
  }

  function Awaited<B, C>(i: Ingester<B, C>): nat {
    if i.Received? || i.Loaded? then 1 else 0
  }

  /** Every key received is looked up once, however often the swap fails. */
  lemma {:induction false} LookedUpOnce<B, C>(s: State<B, C>, run: seq<Action<B, C>>)
    requires ValidRun(s, run)
    ensures Lookups(run) + Awaited(Final(s, run).ingester) == Receipts(run) + Awaited(s.ingester)
    decreases |run|
  {
    if run != [] {
      var t := Step(s, run[0]);
      LookedUpOnce(t, run[1..]);
      match run[0] {
        case Handle(r) => HandleKeepsCore(s, r);
        case Ingest(_) =>
        case Synchronise(_) => assert t.ingester == s.ingester;
      }
    }
  }

  // ---------------------------------------------------------------- verdicts

  /** How many synchronisations the run completed. */
  ghost function Completed<B, C>(run: seq<Action<B, C>>): nat {
    if run == [] then 0 else
      Completed(run[..|run| - 1]) + match run[|run| - 1] case Synchronise(Publish) => 1 case _ => 0
  }

  lemma StepOutcomes<B, C>(s: State<B, C>, a: Action<B, C>)
    requires Enabled(s, a)
    ensures s.h.outcomes <= Step(s, a).h.outcomes
    ensures |Step(s, a).h.outcomes| == |s.h.outcomes| + match a case Synchronise(Publish) => 1 case _ => 0
  {
    match a {
      case Handle(r) => HandleKeepsCore(s, r);
      case Ingest(i) =>
        match i {
          case Receive =>
          case Load =>
          case Lookup =>
          case Copy(_, _) =>
          case CompareAndSwap =>
          case Add =>
        }
      case Synchronise(_) =>
    }
  }

  lemma {:induction false} OutcomesCompleted<B, C>(b: B, run: seq<Action<B, C>>, s: State<B, C>)
    requires Ends(b, run, s)
    ensures |s.h.outcomes| == Completed(run)
    decreases |run|
  {
    if run != [] {
      var p := LastStep(b, run, s);
      OutcomesCompleted(b, run[..|run| - 1], p);
      StepOutcomes(p, run[|run| - 1]);
    }
  }

  lemma StepVerdict<B, C>(s: State<B, C>, a: Action<B, C>, id: nat)
    requires Enabled(s, a) && id in Step(s, a).requests && Step(s, a).requests[id].verdict.Decided?
    ensures id in s.requests && Step(s, a).requests[id].bucks == s.requests[id].bucks
    ensures if a == Handle(Decide(id)) then
              Step(s, a).requests[id].verdict.throttle == AnyIn(s.requests[id].bucks, s.throttled)
            else s.requests[id].verdict == Step(s, a).requests[id].verdict
  {
    if !a.Handle? { OthersKeepRequests(s, a); }
  }

  /** The request arrived with `bucks` in step `i` and was decided in step `j`, by whether one of these was in the
      answer of the synchronisation completed last before. */
  ghost predicate Justified<B, C>(run: seq<Action<B, C>>, outcomes: seq<Outcome>, id: nat, bucks: seq<string>,
                                  throttle: bool, i: nat, j: nat)
  {
    && i < j < |run| && run[i] == Handle(Arrive(id, bucks)) && run[j] == Handle(Decide(id))
    && Completed(run[..j]) <= |outcomes|
    && (throttle <==> exists k :: k in bucks && k in ThrottledAfter(outcomes[..Completed(run[..j])]))
  }

  lemma JustifiedLonger<B, C>(run: seq<Action<B, C>>, n: nat, outcomes: seq<Outcome>, longer: seq<Outcome>, id: nat,
                              bucks: seq<string>, throttle: bool, i: nat, j: nat)
    requires n <= |run| && Justified(run[..n], outcomes, id, bucks, throttle, i, j) && outcomes <= longer
    ensures Justified(run, longer, id, bucks, throttle, i, j)
  {
    assert run[..n][..j] == run[..j];
    assert longer[..Completed(run[..j])] == outcomes[..Completed(run[..j])];
  }

  lemma JustifiedNow<B, C>(b: B, run: seq<Action<B, C>>, p: State<B, C>, id: nat) returns (i: nat)
    requires run != [] && Ends(b, run[..|run| - 1], p) && run[|run| - 1] == Handle(Decide(id)) && id in p.requests
    ensures var bucks := p.requests[id].bucks;
            Justified(run, p.h.outcomes, id, bucks, AnyIn(bucks, p.throttled), i, |run| - 1)
  {
    var n := |run| - 1;
    ReachableInv(b, run[..n], p);
    OutcomesCompleted(b, run[..n], p);
    RequestsArrived(b, run[..n], p, id, p.requests[id].bucks);
    i :| 0 <= i < n && run[..n][i] == Handle(Arrive(id, p.requests[id].bucks));
    assert p.h.outcomes[..|p.h.outcomes|] == p.h.outcomes;
  }

  /** A request that was decided is throttled iff one of the buckets it arrived with is in the answer of the
      synchronisation completed last before the decision; whether its pushes were accepted plays no part. */
  lemma {:induction false} VerdictJustified<B, C>(b: B, run: seq<Action<B, C>>, s: State<B, C>, id: nat)
    returns (i: nat, j: nat)
    requires Ends(b, run, s) && id in s.requests && s.requests[id].verdict.Decided?
    ensures Justified(run, s.h.outcomes, id, s.requests[id].bucks, s.requests[id].verdict.throttle, i, j)
    decreases |run|
  {
    var n := |run| - 1;
    var p := LastStep(b, run, s);
    StepVerdict(p, run[n], id);
    StepOutcomes(p, run[n]);
    if run[n] == Handle(Decide(id)) {
      i := JustifiedNow(b, run, p, id);
      j := n;
    } else {
      i, j := VerdictJustified(b, run[..n], p, id);
      var r := s.requests[id];
      JustifiedLonger(run, n, p.h.outcomes, s.h.outcomes, id, r.bucks, r.verdict.throttle, i, j);
    }
  }
}
