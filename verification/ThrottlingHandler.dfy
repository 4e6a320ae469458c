/** The handler itself, with its counter cells and buffers as mutable objects shared by pointer. Every method up to
    `Publish` is one atomic step of a goroutine and is proved to be the step of the same name in `Throttling`. */
module ThrottlingHandler {
  import opened Throttling
  import opened ThrottlingInvariants

  class Cell {
    var count: nat

    constructor (count: nat)
      ensures this.count == count
    {
      this.count := count;
    }
  }

  class Buffer {
    var cells: map<string, Cell>

    constructor ()
      ensures cells == map[]
    {
      cells := map[];
    }
  }

  class Handler {
    var bucketBuffer: Buffer
    var throttledBuckets: set<string>
    var ingesterChan: seq<string>
    var ingester: Ingester<Buffer, Cell>
    var synchroniser: Synchroniser<Buffer>
    var requests: map<nat, Request>
    ghost var buffers: set<Buffer>
    ghost var counters: set<Cell>
    ghost var history: History<Buffer, Cell>

    ghost function Maps(): map<Buffer, map<string, Cell>>
      reads `buffers, buffers
    {
      map b | b in buffers :: b.cells
    }

    ghost function Counts(): map<Cell, nat>
      reads `counters, counters
    {
      map c | c in counters :: c.count
    }

    ghost function View(): State<Buffer, Cell>
      reads this, buffers, counters
    {
      State(ingesterChan, bucketBuffer, Maps(), Counts(), ingester, synchroniser, throttledBuckets, requests, history)
    }

    /** Every object the goroutines can reach is one of `buffers` and `counters`. */
    ghost predicate Valid()
      reads this, buffers, counters
    {
      && bucketBuffer in buffers
      && (forall b, k :: b in buffers && k in b.cells ==> b.cells[k] in counters)
      && (ingester.Loaded? || ingester.Copying? || ingester.CasPending? || ingester.AddPending? ==>
            ingester.at in buffers)
      && (ingester.CasPending? ==> ingester.copy in buffers)
      && (ingester.AddPending? ==> ingester.cell in counters)
      && (synchroniser.Swapped? || synchroniser.Reading? ==> synchroniser.retired in buffers)
      && (synchroniser.Reading? ==> synchroniser.rest <= synchroniser.retired.cells.Keys)
    }

    constructor ()
      ensures Valid() && fresh(buffers) && fresh(counters)
      ensures View() == Init<Buffer, Cell>(bucketBuffer)
    {
      var empty := new Buffer();
      bucketBuffer, throttledBuckets, ingesterChan := empty, {}, [];
      ingester, synchroniser, requests := Idle, Waiting, map[];
      buffers, counters := {empty}, {};
      history := Init<Buffer, Cell>(empty).h;
      new;
      assert View().buffers == map[empty := map[]];
      assert View() == Init<Buffer, Cell>(empty);
    }

    ghost method TrackBuffer(b: Buffer)
      modifies `buffers
      ensures buffers == old(buffers) + {b} && Maps() == old(Maps())[b := b.cells]
    {
      buffers := buffers + {b};
    }

    /** The bookkeeping for a copy of `at` with a new cell for `key`. */
    ghost method TrackCopy(key: string, at: Buffer, copy: Buffer, cell: Cell)
      modifies `buffers, `counters, `history
      ensures buffers == old(buffers) + {copy} && Maps() == old(Maps())[copy := copy.cells]
      ensures counters == old(counters) + {cell} && Counts() == old(Counts())[cell := cell.count]
      ensures var g := Epoch(old(View()), at);
              history == old(history).(epoch := old(history).epoch[copy := g],
                                      origin := old(history).origin[cell := (key, g)])
    {
      var g := Epoch(View(), at);
      buffers, counters := buffers + {copy}, counters + {cell};
      history := history.(epoch := history.epoch[copy := g], origin := history.origin[cell := (key, g)]);
    }

    // ---------------------------------------------------------------- request handlers

    method Arrive(id: nat, bucks: seq<string>)
      requires Valid() && id !in requests
      modifies `requests
      ensures Valid() && View() == HandleStep(old(View()), RequestAction.Arrive(id, bucks))
    {
      requests := requests[id := Request(bucks, 0, Undecided)];
    }

    /** A send that never blocks: if the channel is full the bucket is dropped. */
    method Send(b: string)
      modifies `ingesterChan, `history
      ensures var accepted := |old(ingesterChan)| < CHANNEL_CAPACITY;
              && ingesterChan == (if accepted then old(ingesterChan) + [b] else old(ingesterChan))
              && history == old(history).(
                              pushed := if accepted then old(history).pushed + multiset{b} else old(history).pushed,
                              refused := if accepted then old(history).refused
                                         else old(history).refused + multiset{b})
    {
      if |ingesterChan| < CHANNEL_CAPACITY {
        ingesterChan := ingesterChan + [b];
        history := history.(pushed := history.pushed + multiset{b});
      } else {
        history := history.(refused := history.refused + multiset{b});
      }
    }

    method Offer(id: nat)
      requires Valid() && HandleEnabled(View(), RequestAction.Offer(id))
      modifies `requests, `ingesterChan, `history
      ensures Valid() && View() == OfferStep(old(View()), id)
    {
      var r := requests[id];
      var b := r.bucks[r.offered];
      requests := requests[id := r.(offered := r.offered + 1)];
      Send(b);
      assert Maps() == old(Maps()) && Counts() == old(Counts());
    }

    method AnyThrottled(bucks: seq<string>) returns (found: bool)
      ensures found <==> exists b :: b in bucks && b in throttledBuckets
    {
      for i := 0 to |bucks|
        invariant forall j :: 0 <= j < i ==> bucks[j] !in throttledBuckets
      {
        if bucks[i] in throttledBuckets { return true; }
      }
      return false;
    }

    method Decide(id: nat)
      requires Valid() && HandleEnabled(View(), RequestAction.Decide(id))
      modifies `requests
      ensures Valid() && View() == HandleStep(old(View()), RequestAction.Decide(id))
    {
      var found := AnyThrottled(requests[id].bucks);
      requests := requests[id := requests[id].(verdict := Decided(found))];
    }

    // ---------------------------------------------------------------- the ingester

    method Receive()
      requires Valid() && ingester.Idle? && ingesterChan != []
      modifies `ingester, `ingesterChan
      ensures Valid() && View() == IngestStep(old(View()), IngesterAction.Receive)
    {
      ingester := Received(ingesterChan[0]);
      ingesterChan := ingesterChan[1..];
    }

    method Load()
      requires Valid() && (ingester.Received? || ingester.Reloading?)
      modifies `ingester
      ensures Valid() && View() == IngestStep(old(View()), IngesterAction.Load)
    {
      match ingester {
        case Received(key) => ingester := Loaded(key, bucketBuffer);
        case Reloading(key) => ingester := Copying(key, bucketBuffer);
      }
    }

    method Lookup()
      requires Valid() && ingester.Loaded?
      modifies `ingester
      ensures Valid() && View() == IngestStep(old(View()), IngesterAction.Lookup)
    {
      var Loaded(key, at) := ingester;
      if key in at.cells {
        ingester := AddPending(key, at, at.cells[key]);
      } else {
        ingester := Copying(key, at);
      }
    }

    /** Copies the map entry by entry, sharing its cells, and adds the new key with a count of one. */
    static method CopyWith(buf: Buffer, key: string) returns (newBuf: Buffer, one: Cell)
      ensures fresh(newBuf) && fresh(one) && one.count == 1
      ensures newBuf.cells == buf.cells[key := one]
    {
      newBuf := new Buffer();
      var rest := buf.cells.Keys;
      while rest != {}
        invariant rest <= buf.cells.Keys && newBuf.cells.Keys == buf.cells.Keys - rest
        invariant forall k :: k in newBuf.cells ==> newBuf.cells[k] == buf.cells[k]
        decreases |rest|
        modifies newBuf
      {
        var k :| k in rest;
        newBuf.cells := newBuf.cells[k := buf.cells[k]];
        rest := rest - {k};
      }
      assert newBuf.cells == buf.cells;
      one := new Cell(1);
      newBuf.cells := newBuf.cells[key := one];
    }

    method Copy()
      requires Valid() && ingester.Copying?
      modifies `ingester, `history, `buffers, `counters
      ensures Valid() && ingester.CasPending? && fresh(ingester.copy)
      ensures ingester.key in ingester.copy.cells && fresh(ingester.copy.cells[ingester.key])
      ensures View() == CopyStep(old(View()), ingester.copy, ingester.copy.cells[ingester.key])
    {
      var Copying(key, at) := ingester;
      var newBuf, one := CopyWith(at, key);
      ingester := CasPending(key, at, newBuf);
      TrackCopy(key, at, newBuf, one);
    }

    method CompareAndSwap()
      requires Valid() && ingester.CasPending?
      modifies `bucketBuffer, `ingester, `history
      ensures Valid() && View() == CasStep(old(View()))
    {
      var CasPending(key, at, copy) := ingester;
      if bucketBuffer == at {
        bucketBuffer, ingester := copy, Idle;
        history := history.(made := Bump(history.made, Epoch(old(View()), copy), key));
      } else {
        ingester := Reloading(key);
        history := history.(casFailures := history.casFailures + 1);
      }
      assert Maps() == old(Maps()) && Counts() == old(Counts());
    }

    method Add()
      requires Valid() && ingester.AddPending?
      modifies `ingester, `history, ingester.cell
      ensures Valid() && View() == AddStep(old(View()))
    {
      var AddPending(key, at, cell) := ingester;
      cell.count := cell.count + 1;
      ingester := Idle;
      history := AddStep(old(View())).h;
      assert Counts() == old(Counts())[cell := old(Counts())[cell] + 1];
    }

    /** Copying and swapping with nobody in between counts the new key once. */
    method Insert()
      requires Valid() && Inv(View()) && ingester.Copying? && ingester.at == bucketBuffer
      modifies `bucketBuffer, `ingester, `history, `buffers, `counters
      ensures Valid() && Inv(View()) && ingester.Idle?
      ensures Counted(old(View()), View(), old(ingester.key))
    {
      Copy();
      InsertCounts(old(View()), ingester.copy, ingester.copy.cells[ingester.key]);
      IngestKeeps(old(View()), IngesterAction.Copy(ingester.copy, ingester.copy.cells[ingester.key]));
      IngestKeeps(View(), IngesterAction<Buffer, Cell>.CompareAndSwap);
      CompareAndSwap();
    }

    method Increment()
      requires Valid() && Inv(View()) && ingester.AddPending? && ingester.at == bucketBuffer
      modifies `ingester, `history, ingester.cell
      ensures Valid() && Inv(View()) && ingester.Idle?
      ensures Counted(old(View()), View(), old(ingester.key))
    {
      IncrementCounts(View());
      IngestKeeps(View(), IngesterAction<Buffer, Cell>.Add);
      Add();
    }

    /** Taking the key at the head of the channel and looking it up, with nobody in between, changes no count. */
    method Fetch()
      requires Valid() && Inv(View()) && ingester.Idle? && ingesterChan != []
      modifies `ingester, `ingesterChan
      ensures Valid() && Inv(View()) && ingesterChan == old(ingesterChan[1..])
      ensures (ingester.Copying? || ingester.AddPending?) && ingester.at == bucketBuffer
      ensures ingester.key == old(ingesterChan[0])
      ensures View() == old(View()).(queue := ingesterChan, ingester := ingester)
    {
      IngestKeeps(View(), IngesterAction<Buffer, Cell>.Receive);
      Receive();
      IngestKeeps(View(), IngesterAction<Buffer, Cell>.Load);
      Load();
      IngestKeeps(View(), IngesterAction<Buffer, Cell>.Lookup);
      Lookup();
    }

    /** One iteration of the ingester's loop that nothing interrupts: the key at the head of the channel is counted
        once more in the live buffer, and no other key is. */
    method IngestOne()
      requires Valid() && Inv(View()) && ingester.Idle? && ingesterChan != []
      modifies this, counters
      ensures Valid() && Inv(View()) && ingester.Idle? && ingesterChan == old(ingesterChan[1..])
      ensures Counted(old(View()), View(), old(ingesterChan[0]))
    {
      Fetch();
      ghost var mid := View();
      if ingester.Copying? {
        Insert();
      } else {
        Increment();
      }
      CountedSince(old(View()), mid, View(), old(ingesterChan[0]));
    }

    // ---------------------------------------------------------------- the synchroniser

    method Swap()
      requires Valid() && synchroniser.Waiting?
      modifies `bucketBuffer, `synchroniser, `history, `buffers
      ensures Valid() && fresh(bucketBuffer)
      ensures View() == SwapStep(old(View()), bucketBuffer)
      ensures fresh(buffers - old(buffers))
    {
      var newBuf := new Buffer();
      synchroniser := Swapped(bucketBuffer);
      bucketBuffer := newBuf;
      TrackBuffer(newBuf);
      history := history.(epoch := history.epoch[newBuf := |history.retired| + 1],
                          retired := history.retired + [old(bucketBuffer)],
                          made := history.made + [multiset{}],
                          lost := history.lost + [multiset{}]);
    }

    /** With reporting disabled the retired buffer is dropped unread. */
    method Consult(enabled: bool)
      requires Valid() && synchroniser.Swapped?
      modifies `synchroniser
      ensures Valid() && View() == SynchroniseStep(old(View()), SynchroniserAction.Consult(enabled))
    {
      var retired := synchroniser.retired;
      if enabled {
        synchroniser := Reading(retired, retired.cells.Keys, map[]);
      } else {
        synchroniser := Answered(Outcome(Disabled, map k | k in retired.cells :: retired.cells[k].count, {}));
        assert (map k | k in retired.cells :: retired.cells[k].count) == CountsOf(old(View()), retired);
      }
    }

    method ReadCell() returns (key: string)
      requires Valid() && synchroniser.Reading? && synchroniser.rest != {}
      modifies `synchroniser
      ensures Valid() && key in old(synchroniser.rest)
      ensures View() == SynchroniseStep(old(View()), SynchroniserAction.ReadCell(key))
    {
      var Reading(retired, rest, report) := synchroniser;
      key :| key in rest;
      synchroniser := Reading(retired, rest - {key}, report[key := retired.cells[key].count]);
    }

    /** `rsp` is the list of buckets the service answered with, if it answered. */
    method Checkin(accepted: bool, rsp: seq<string>)
      requires Valid() && synchroniser.Reading? && synchroniser.rest == {}
      modifies `synchroniser
      ensures Valid()
      ensures View() == SynchroniseStep(old(View()), SynchroniserAction.Checkin(accepted, set b | b in rsp))
    {
      var report := synchroniser.report;
      if accepted {
        var result: set<string> := {};
        for i := 0 to |rsp|
          invariant result == set b | b in rsp[..i]
        {
          result := result + {rsp[i]};
          assert rsp[..i + 1] == rsp[..i] + [rsp[i]];
        }
        assert rsp[..|rsp|] == rsp;
        synchroniser := Answered(Outcome(Delivered, report, result));
      } else {
        synchroniser := Answered(Outcome(Failed, report, {}));
      }
    }

    method Publish()
      requires Valid() && synchroniser.Answered?
      modifies `throttledBuckets, `synchroniser, `history
      ensures Valid() && View() == SynchroniseStep(old(View()), SynchroniserAction.Publish)
    {
      var answer := synchroniser.answer;
      throttledBuckets, synchroniser := answer.buckets, Waiting;
      history := history.(outcomes := history.outcomes + [answer]);
    }

    /** The loop over the retired buffer, in whatever order the map is ranged over. */
    method ReadAll()
      requires Valid() && synchroniser.Reading?
      requires synchroniser.rest == synchroniser.retired.cells.Keys && synchroniser.report == map[]
      modifies `synchroniser
      ensures Valid()
      ensures synchroniser == Reading(old(synchroniser.retired), {}, old(CountsOf(View(), synchroniser.retired)))
    {
      ghost var was := View();
      ghost var retired := synchroniser.retired;
      while synchroniser.rest != {}
        invariant Valid() && synchroniser.Reading? && synchroniser.retired == retired
        invariant View() == was.(synchroniser := synchroniser)
        invariant unchanged(`buffers, `counters)
        invariant synchroniser.report.Keys == Cells(was, retired).Keys - synchroniser.rest
        invariant forall k :: k in synchroniser.report ==> synchroniser.report[k] == CountIn(was, retired, k)
        decreases |synchroniser.rest|
      {
        ghost var before := View();
        var key := ReadCell();
        assert CountIn(before, retired, key) == CountIn(was, retired, key);
      }
      assert synchroniser.report == CountsOf(was, retired);
    }

    /** Reports the retired buffer, with nothing incremented meanwhile. */
    method ReportIncrements(enabled: bool, accepted: bool, rsp: seq<string>)
      requires Valid() && synchroniser.Swapped?
      modifies `synchroniser
      ensures Valid()
      ensures synchroniser.Answered?
      ensures synchroniser.answer
           == Outcome(if !enabled then Disabled else if accepted then Delivered else Failed,
                      old(CountsOf(View(), synchroniser.retired)),
                      if enabled && accepted then set b | b in rsp else {})
    {
      Consult(enabled);
      if enabled {
        ReadAll();
        Checkin(accepted, rsp);
      }
    }

    /** A whole synchronisation that nothing interrupts: everything counted in the live buffer is collected, counting
        starts afresh, and exactly the buckets answered are throttled, none if there is no answer. */
    method SynchroniseOnce(enabled: bool, accepted: bool, rsp: seq<string>)
      requires Valid() && synchroniser.Waiting?
      modifies this
      ensures Valid() && synchroniser.Waiting?
      ensures CountsOf(View(), View().live) == map[]
      ensures throttledBuckets == if enabled && accepted then set b | b in rsp else {}
      ensures |history.outcomes| == |old(history.outcomes)| + 1
      ensures history.outcomes[|old(history.outcomes)|].counts == old(CountsOf(View(), View().live))
    {
      Swap();
      SwapKeepsCounts(old(View()), bucketBuffer);
      ReportIncrements(enabled, accepted, rsp);
      Publish();
    }
  }
}
