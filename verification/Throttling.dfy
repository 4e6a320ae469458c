/** The throttling counter as a step relation: request handlers, one ingester and one synchroniser share a buffer of
    per-bucket counter cells, each of their atomic operations is one action, and any interleaving is a run.
    `B` and `C` are the identities (pointers) of buffers and of counter cells. */
module Throttling {

  const CHANNEL_CAPACITY: nat := 500000

  /** Where the ingester goroutine stands, with the locals it still needs. */
  datatype Ingester<B, C> =
    | Idle                                        // blocked on the channel
    | Received(key: string)                       // about to load the buffer pointer
    | Loaded(key: string, at: B)                  // about to look the key up
    | Copying(key: string, at: B)                 // top of the copy loop
    | CasPending(key: string, at: B, copy: B)     // about to compare-and-swap `at` for `copy`
    | Reloading(key: string)                      // the swap failed
    | AddPending(key: string, at: B, cell: C)     // about to increment a cell found in `at`

  datatype Fate = Delivered | Failed | Disabled

  /** How one synchronisation ended: what became of the counts it collected, and which buckets to throttle. */
  datatype Outcome = Outcome(fate: Fate, counts: map<string, nat>, buckets: set<string>)

  datatype Synchroniser<B> =
    | Waiting                                                                   // blocked on the ticker
    | Swapped(retired: B)                                                       // about to consult the config
    | Reading(retired: B, rest: set<string>, report: map<string, nat>)          // reading cells, then checking in
    | Answered(answer: Outcome)                                                 // about to publish the answer

  datatype Verdict = Undecided | Decided(throttle: bool)

  datatype Request = Request(bucks: seq<string>, offered: nat, verdict: Verdict)

  /** Variables no goroutine reads. `made[g]` and `lost[g]` count the increments made to cells of generation g, and
      those of them made once nobody would read the cell again; generation g ends with the g-th swap. */
  datatype History<B, C> = History(
    pushed: multiset<string>,
    refused: multiset<string>,
    epoch: map<B, nat>,
    origin: map<C, (string, nat)>,
    retired: seq<B>,
    made: seq<multiset<string>>,
    lost: seq<multiset<string>>,
    outcomes: seq<Outcome>,
    casFailures: nat)

  datatype State<B, C> = State(
    queue: seq<string>,
    live: B,
    buffers: map<B, map<string, C>>,
    counts: map<C, nat>,
    ingester: Ingester<B, C>,
    synchroniser: Synchroniser<B>,
    throttled: set<string>,
    requests: map<nat, Request>,
    h: History<B, C>)

  /** The atomic steps of request handlers, of the ingester and of the synchroniser. The parameters are the identities
      of freshly allocated objects and the choices made elsewhere: map order, configuration, the service's answer. */
  datatype RequestAction =
    | Arrive(id: nat, bucks: seq<string>)
    | Offer(id: nat)
    | Decide(id: nat)

  datatype IngesterAction<B, C> =
    | Receive
    | Load
    | Lookup
    | Copy(copy: B, cell: C)
    | CompareAndSwap
    | Add

  datatype SynchroniserAction<B> =
    | Swap(empty: B)
    | Consult(enabled: bool)
    | ReadCell(key: string)
    | Checkin(accepted: bool, buckets: set<string>)
    | Publish

  datatype Action<B, C> =
    | Handle(r: RequestAction)
    | Ingest(i: IngesterAction<B, C>)
    | Synchronise(y: SynchroniserAction<B>)

  // ---------------------------------------------------------------- reading the heap

  ghost function Cells<B, C>(s: State<B, C>, b: B): map<string, C> {
    if b in s.buffers then s.buffers[b] else map[]
  }

  ghost function Count<B, C>(s: State<B, C>, c: C): nat {
    if c in s.counts then s.counts[c] else 0
  }

  ghost function CountIn<B, C>(s: State<B, C>, b: B, k: string): nat {
    var cells := Cells(s, b);
    if k in cells then Count(s, cells[k]) else 0
  }

  ghost function CountsOf<B, C>(s: State<B, C>, b: B): map<string, nat> {
    map k | k in Cells(s, b) :: Count(s, Cells(s, b)[k])
  }

  ghost function At(m: map<string, nat>, k: string): nat {
    if k in m then m[k] else 0
  }

  /** The part of the retired buffer's count for `k` that the synchroniser has still to read. */
  ghost function Unread<B, C>(s: State<B, C>, k: string): nat {
    match s.synchroniser
    case Swapped(b) => CountIn(s, b, k)
    case Reading(b, rest, _) => if k in rest then CountIn(s, b, k) else 0
    case _ => 0
  }

  /** The count for `k` that the synchroniser has read and not yet accounted for. */
  ghost function Held<B, C>(s: State<B, C>, k: string): nat {
    match s.synchroniser
    case Reading(_, _, report) => At(report, k)
    case Answered(answer) => At(answer.counts, k)
    case _ => 0
  }

  ghost function InFlight<B, C>(s: State<B, C>, k: string): nat {
    if !s.ingester.Idle? && s.ingester.key == k then 1 else 0
  }

  /** Will the synchroniser, in this or its next synchronisation, read cell `c` as the count for `k`? */
  ghost predicate WillBeRead<B, C>(s: State<B, C>, k: string, c: C) {
    || Maps(s, s.live, k, c)
    || (s.synchroniser.Swapped? && Maps(s, s.synchroniser.retired, k, c))
    || (s.synchroniser.Reading? && k in s.synchroniser.rest && Maps(s, s.synchroniser.retired, k, c))
  }

  ghost predicate Maps<B, C>(s: State<B, C>, b: B, k: string, c: C) {
    k in Cells(s, b) && Cells(s, b)[k] == c
  }

  ghost function Epoch<B, C>(s: State<B, C>, b: B): nat {
    if b in s.h.epoch then s.h.epoch[b] else 0
  }

  ghost function Bump(ms: seq<multiset<string>>, g: nat, k: string): seq<multiset<string>> {
    if g < |ms| then ms[g := ms[g] + multiset{k}] else ms
  }

  ghost function AnyIn(bucks: seq<string>, throttled: set<string>): bool {
    exists b :: b in bucks && b in throttled
  }

  // ---------------------------------------------------------------- the steps

  ghost function Init<B, C>(b: B): State<B, C> {
    State([], b, map[b := map[]], map[], Idle, Waiting, {}, map[],
          History(multiset{}, multiset{}, map[b := 0], map[], [], [multiset{}], [multiset{}], [], 0))
  }

  ghost predicate Enabled<B, C>(s: State<B, C>, a: Action<B, C>) {
    match a
    case Handle(r) => HandleEnabled(s, r)
    case Ingest(i) => IngestEnabled(s, i)
    case Synchronise(y) => SynchroniseEnabled(s, y)
  }

  ghost function Step<B, C>(s: State<B, C>, a: Action<B, C>): State<B, C>
    requires Enabled(s, a)
  {
    match a
    case Handle(r) => HandleStep(s, r)
    case Ingest(i) => IngestStep(s, i)
    case Synchronise(y) => SynchroniseStep(s, y)
  }

  ghost predicate HandleEnabled<B, C>(s: State<B, C>, a: RequestAction) {
    match a
    case Arrive(id, _) => id !in s.requests
    case Offer(id) => id in s.requests && s.requests[id].offered < |s.requests[id].bucks|
    case Decide(id) =>
      id in s.requests && s.requests[id].offered == |s.requests[id].bucks| && s.requests[id].verdict.Undecided?
  }

  ghost function HandleStep<B, C>(s: State<B, C>, a: RequestAction): State<B, C>
    requires HandleEnabled(s, a)
  {
    match a
    case Arrive(id, bucks) =>
      s.(requests := s.requests[id := Request(bucks, 0, Undecided)])
    case Offer(id) => OfferStep(s, id)
    case Decide(id) =>
      var r := s.requests[id];
      s.(requests := s.requests[id := r.(verdict := Decided(AnyIn(r.bucks, s.throttled)))])
  }

  /** A non-blocking send: the key is queued, or refused if the channel is full. */
  ghost function OfferStep<B, C>(s: State<B, C>, id: nat): State<B, C>
    requires HandleEnabled(s, Offer(id))
  {
    var r := s.requests[id];
    var k, accepted := r.bucks[r.offered], |s.queue| < CHANNEL_CAPACITY;
    s.(requests := s.requests[id := r.(offered := r.offered + 1)],
       queue := if accepted then s.queue + [k] else s.queue,
       h := s.h.(pushed := if accepted then s.h.pushed + multiset{k} else s.h.pushed,
                 refused := if accepted then s.h.refused else s.h.refused + multiset{k}))
  }

  ghost predicate IngestEnabled<B, C>(s: State<B, C>, a: IngesterAction<B, C>) {
    match a
    case Receive => s.ingester.Idle? && s.queue != []
    case Load => s.ingester.Received? || s.ingester.Reloading?
    case Lookup => s.ingester.Loaded?
    case Copy(b, c) => s.ingester.Copying? && b !in s.buffers && c !in s.counts
    case CompareAndSwap => s.ingester.CasPending?
    case Add => s.ingester.AddPending?
  }

  /** After a failed swap the ingester copies the reloaded buffer without looking the key up again. */
  ghost function IngestStep<B, C>(s: State<B, C>, a: IngesterAction<B, C>): State<B, C>
    requires IngestEnabled(s, a)
  {
    match a
    case Receive =>
      s.(queue := s.queue[1..], ingester := Received(s.queue[0]))
    case Load =>
      s.(ingester := if s.ingester.Received? then Loaded(s.ingester.key, s.live) else Copying(s.ingester.key, s.live))
    case Lookup =>
      var Loaded(k, b) := s.ingester;
      s.(ingester := if k in Cells(s, b) then AddPending(k, b, Cells(s, b)[k]) else Copying(k, b))
    case Copy(b, c) => CopyStep(s, b, c)
    case CompareAndSwap => CasStep(s)
    case Add => AddStep(s)
  }

  /** The copy shares every cell pointer of the buffer it was made from and maps the new key to a fresh cell. */
  ghost function CopyStep<B, C>(s: State<B, C>, b: B, c: C): State<B, C>
    requires s.ingester.Copying?
  {
    var Copying(k, at) := s.ingester;
    s.(buffers := s.buffers[b := Cells(s, at)[k := c]],
       counts := s.counts[c := 1],
       ingester := CasPending(k, at, b),
       h := s.h.(epoch := s.h.epoch[b := Epoch(s, at)], origin := s.h.origin[c := (k, Epoch(s, at))]))
  }

  ghost function CasStep<B, C>(s: State<B, C>): State<B, C>
    requires s.ingester.CasPending?
  {
    var CasPending(k, at, copy) := s.ingester;
    if s.live == at
    then s.(live := copy, ingester := Idle, h := s.h.(made := Bump(s.h.made, Epoch(s, copy), k)))
    else s.(ingester := Reloading(k), h := s.h.(casFailures := s.h.casFailures + 1))
  }

  ghost function AddStep<B, C>(s: State<B, C>): State<B, C>
    requires s.ingester.AddPending?
  {
    var AddPending(k, at, c) := s.ingester;
    var g := Epoch(s, at);
    s.(counts := s.counts[c := Count(s, c) + 1],
       ingester := Idle,
       h := s.h.(made := Bump(s.h.made, g, k),
                 lost := if WillBeRead(s, k, c) then s.h.lost else Bump(s.h.lost, g, k)))
  }

  ghost predicate SynchroniseEnabled<B, C>(s: State<B, C>, a: SynchroniserAction<B>) {
    match a
    case Swap(b) => s.synchroniser.Waiting? && b !in s.buffers
    case Consult(_) => s.synchroniser.Swapped?
    case ReadCell(k) => s.synchroniser.Reading? && k in s.synchroniser.rest
    case Checkin(_, _) => s.synchroniser.Reading? && s.synchroniser.rest == {}
    case Publish => s.synchroniser.Answered?
  }

  ghost function SynchroniseStep<B, C>(s: State<B, C>, a: SynchroniserAction<B>): State<B, C>
    requires SynchroniseEnabled(s, a)
  {
    match a
    case Swap(b) => SwapStep(s, b)
    case Consult(enabled) =>
      var b := s.synchroniser.retired;
      s.(synchroniser :=
           if enabled then Reading(b, Cells(s, b).Keys, map[]) else Answered(Outcome(Disabled, CountsOf(s, b), {})))
    case ReadCell(k) =>
      var Reading(b, rest, report) := s.synchroniser;
      s.(synchroniser := Reading(b, rest - {k}, report[k := CountIn(s, b, k)]))
    case Checkin(accepted, buckets) =>
      var report := s.synchroniser.report;
      s.(synchroniser :=
           Answered(if accepted then Outcome(Delivered, report, buckets) else Outcome(Failed, report, {})))
    case Publish =>
      var answer := s.synchroniser.answer;
      s.(synchroniser := Waiting, throttled := answer.buckets, h := s.h.(outcomes := s.h.outcomes + [answer]))
  }

  ghost function SwapStep<B, C>(s: State<B, C>, b: B): State<B, C> {
    s.(live := b,
       buffers := s.buffers[b := map[]],
       synchroniser := Swapped(s.live),
       h := s.h.(epoch := s.h.epoch[b := |s.h.retired| + 1],
                 retired := s.h.retired + [s.live],
                 made := s.h.made + [multiset{}],
                 lost := s.h.lost + [multiset{}]))
  }

  // ---------------------------------------------------------------- runs

  ghost predicate ValidRun<B, C>(s: State<B, C>, run: seq<Action<B, C>>)
    decreases |run|
  {
    run == [] || (Enabled(s, run[0]) && ValidRun(Step(s, run[0]), run[1..]))
  }

  ghost function Final<B, C>(s: State<B, C>, run: seq<Action<B, C>>): State<B, C>
    requires ValidRun(s, run)
    decreases |run|
  {
    if run == [] then s else Final(Step(s, run[0]), run[1..])
  }
}
