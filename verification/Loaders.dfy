/** The two loaders of the configuration, step by step: New loads once while the goroutine it has started reloads on
    every change, and nothing keeps the two apart. */
module Loaders {
  import opened Options
  import opened Regions
  import opened ControlPlanes

  datatype Loader = First | Reloader

  /** Where a call of tryLoad stands. Reading, parsing and sorting are over before the hash is compared. */
  datatype Phase =
    | Ready
    | Comparing(raw: string, content: Content) // about to compare with the current hash
    | Storing(raw: string, content: Content)   // the hashes differ: about to store
    | Finished                                 // the first load is not repeated

  /** `latest` is the usable raw configuration read last, by either loader; no loader looks at it. */
  datatype System = System(live: LoadedConfig, first: Phase, reload: Phase, latest: Option<string>)

  const START := System(ZERO, Ready, Ready, None)

  /** `content` is what sorting made of `raw` if it is usable. */
  datatype Move = Read(l: Loader, raw: string, content: Content) | Compare(l: Loader) | Store(l: Loader)

  function At(s: System, l: Loader): Phase {
    if l == First then s.first else s.reload
  }

  function Goes(s: System, l: Loader, p: Phase): System {
    if l == First then s.(first := p) else s.(reload := p)
  }

  /** The end of a call: the goroutine waits for the next change, or tries again. */
  function Ends(s: System, l: Loader): System {
    Goes(s, l, if l == First then Finished else Ready)
  }

  predicate UnderWay(p: Phase) {
    p.Comparing? || p.Storing?
  }

  predicate AtRest(s: System) {
    !UnderWay(s.first) && !UnderWay(s.reload)
  }

  /** With `apart`, no load starts while another is under way. The code does not see to that. */
  ghost predicate CanMove(parse: Parser, apart: bool, s: System, m: Move) {
    match m
    case Read(l, raw, content) =>
      At(s, l).Ready? && (apart ==> AtRest(s)) && (Usable(parse, raw) ==> CompilesTo(parse(raw).value, content))
    case Compare(l) => At(s, l).Comparing?
    case Store(l) => At(s, l).Storing?
  }

  ghost function Moved(parse: Parser, hash: Hasher, apart: bool, s: System, m: Move): System
    requires CanMove(parse, apart, s, m)
  {
    match m
    case Read(l, raw, content) =>
      if Usable(parse, raw) then Goes(s, l, Comparing(raw, content)).(latest := Some(raw)) else Ends(s, l)
    case Compare(l) =>
      var Comparing(raw, content) := At(s, l);
      if hash(content) == s.live.configHash then Ends(s, l) else Goes(s, l, Storing(raw, content))
    case Store(l) =>
      var content := At(s, l).content;
      Ends(s, l).(live := LoadedConfig(content, hash(content)))
  }

  ghost predicate ValidRun(parse: Parser, hash: Hasher, apart: bool, s: System, ms: seq<Move>)
    decreases |ms|
  {
    ms == [] || (CanMove(parse, apart, s, ms[0])
                 && ValidRun(parse, hash, apart, Moved(parse, hash, apart, s, ms[0]), ms[1..]))
  }

  ghost function Final(parse: Parser, hash: Hasher, apart: bool, s: System, ms: seq<Move>): System
    requires ValidRun(parse, hash, apart, s, ms)
    decreases |ms|
  {
    if ms == [] then s else Final(parse, hash, apart, Moved(parse, hash, apart, s, ms[0]), ms[1..])
  }

  // ---------------------------------------------------------------- what every load keeps

  ghost predicate PhaseInv(parse: Parser, p: Phase) {
    UnderWay(p) ==> Gives(parse, p.raw, p.content)
  }

  ghost predicate Inv(parse: Parser, hash: Hasher, s: System) {
    && PhaseInv(parse, s.first) && PhaseInv(parse, s.reload) && Consistent(parse, hash, s.live)
    && (s.latest.None? ==> s.live == ZERO && AtRest(s))
    && (s.latest.Some? ==> (exists c :: Gives(parse, s.latest.value, c)) && (s.live != ZERO || !AtRest(s)))
  }

  lemma CompareKeeps(parse: Parser, hash: Hasher, apart: bool, s: System, l: Loader)
    requires At(s, l).Comparing? && Inv(parse, hash, s) && GoodHash(parse, hash)
    ensures Inv(parse, hash, Moved(parse, hash, apart, s, Compare(l)))
  {
    SameHash(parse, hash, s.live, At(s, l).raw, At(s, l).content);
  }

  lemma StoreKeeps(parse: Parser, hash: Hasher, apart: bool, s: System, l: Loader)
    requires At(s, l).Storing? && Inv(parse, hash, s) && GoodHash(parse, hash)
    ensures Inv(parse, hash, Moved(parse, hash, apart, s, Store(l)))
  {
    var t := Moved(parse, hash, apart, s, Store(l));
    assert Gives(parse, At(s, l).raw, t.live.content);
    assert t.live.configHash != "";
  }

  lemma InvKept(parse: Parser, hash: Hasher, apart: bool, s: System, m: Move)
    requires CanMove(parse, apart, s, m) && Inv(parse, hash, s) && GoodHash(parse, hash)
    ensures Inv(parse, hash, Moved(parse, hash, apart, s, m))
  {
    match m {
      case Read(_, raw, content) => assert Usable(parse, raw) ==> Gives(parse, raw, content);
      case Compare(l) => CompareKeeps(parse, hash, apart, s, l);
      case Store(l) => StoreKeeps(parse, hash, apart, s, l);
    }
  }

  /** While loads keep apart, the only one under way is of the configuration read last. */
  ghost predicate ApartInv(parse: Parser, hash: Hasher, s: System) {
    && (!UnderWay(s.first) || !UnderWay(s.reload))
    && (UnderWay(s.first) ==> s.latest == Some(s.first.raw))
    && (UnderWay(s.reload) ==> s.latest == Some(s.reload.raw))
    && (AtRest(s) ==> Fresh(parse, hash, s.latest, s.live))
  }

  lemma CompareKeepsApart(parse: Parser, hash: Hasher, s: System, l: Loader)
    requires At(s, l).Comparing? && ApartInv(parse, hash, s) && Inv(parse, hash, s) && GoodHash(parse, hash)
    ensures ApartInv(parse, hash, Moved(parse, hash, true, s, Compare(l)))
  {
    SameHash(parse, hash, s.live, At(s, l).raw, At(s, l).content);
  }

  lemma ApartKept(parse: Parser, hash: Hasher, s: System, m: Move)
    requires CanMove(parse, true, s, m) && ApartInv(parse, hash, s) && Inv(parse, hash, s) && GoodHash(parse, hash)
    ensures ApartInv(parse, hash, Moved(parse, hash, true, s, m))
  {
    match m {
      case Read(_, _, _) =>
      case Compare(l) => CompareKeepsApart(parse, hash, s, l);
      case Store(_) =>
    }
  }

  lemma {:induction false} InvAlways(parse: Parser, hash: Hasher, apart: bool, s: System, ms: seq<Move>)
    requires ValidRun(parse, hash, apart, s, ms) && Inv(parse, hash, s) && GoodHash(parse, hash)
    requires apart ==> ApartInv(parse, hash, s)
    ensures Inv(parse, hash, Final(parse, hash, apart, s, ms))
    ensures apart ==> ApartInv(parse, hash, Final(parse, hash, apart, s, ms))
    decreases |ms|
  {
    if ms != [] {
      InvKept(parse, hash, apart, s, ms[0]);
      if apart { ApartKept(parse, hash, s, ms[0]); }
      InvAlways(parse, hash, apart, Moved(parse, hash, apart, s, ms[0]), ms[1..]);
    }
  }

  lemma {:induction false} StaysBusy(parse: Parser, hash: Hasher, apart: bool, s: System, ms: seq<Move>, j: nat)
    requires ValidRun(parse, hash, apart, s, ms) && !s.first.Ready? && j < |ms|
    ensures !(ms[j].Read? && ms[j].l == First)
    decreases |ms|
  {
    if j > 0 { StaysBusy(parse, hash, apart, Moved(parse, hash, apart, s, ms[0]), ms[1..], j - 1); }
  }

  /** New loads once: after its first read there is no other by the first loader, whatever it met. */
  lemma {:induction false} FirstReadsOnce(parse: Parser, hash: Hasher, apart: bool, s: System, ms: seq<Move>,
                                          i: nat, j: nat)
    requires ValidRun(parse, hash, apart, s, ms) && i < j < |ms| && ms[i].Read? && ms[i].l == First
    ensures !(ms[j].Read? && ms[j].l == First)
    decreases |ms|
  {
    var t := Moved(parse, hash, apart, s, ms[0]);
    if i > 0 {
      FirstReadsOnce(parse, hash, apart, t, ms[1..], i - 1, j - 1);
    } else {
      StaysBusy(parse, hash, apart, t, ms[1..], j - 1);
    }
  }

  // ---------------------------------------------------------------- when the live configuration is the last usable one

  ghost predicate Reaches(parse: Parser, hash: Hasher, apart: bool, ms: seq<Move>, s: System) {
    ValidRun(parse, hash, apart, START, ms) && s == Final(parse, hash, apart, START, ms)
  }

  ghost predicate AlwaysFresh(parse: Parser, hash: Hasher, apart: bool) {
    forall ms, s :: Reaches(parse, hash, apart, ms, s) && AtRest(s) ==> Fresh(parse, hash, s.latest, s.live)
  }

  /** No usable raw configuration can be told from another by what it gives. */
  ghost predicate Alike(parse: Parser) {
    forall a, b, c, d :: Gives(parse, a, c) && Gives(parse, b, d) ==> Gives(parse, b, c)
  }

  lemma {:induction false} ValidExtend(parse: Parser, hash: Hasher, s: System, ms: seq<Move>, m: Move)
    requires ValidRun(parse, hash, false, s, ms) && CanMove(parse, false, Final(parse, hash, false, s, ms), m)
    ensures ValidRun(parse, hash, false, s, ms + [m])
    ensures Final(parse, hash, false, s, ms + [m]) == Moved(parse, hash, false, Final(parse, hash, false, s, ms), m)
    decreases |ms|
  {
    if ms == [] {
      assert (ms + [m])[1..] == [];
    } else {
      ValidExtend(parse, hash, Moved(parse, hash, false, s, ms[0]), ms[1..], m);
      assert (ms + [m])[1..] == ms[1..] + [m];
    }
  }

  lemma Then(parse: Parser, hash: Hasher, ms: seq<Move>, s: System, m: Move) returns (ms': seq<Move>, s': System)
    requires Reaches(parse, hash, false, ms, s) && CanMove(parse, false, s, m)
    ensures Reaches(parse, hash, false, ms', s') && s' == Moved(parse, hash, false, s, m)
  {
    ms', s' := ms + [m], Moved(parse, hash, false, s, m);
    ValidExtend(parse, hash, START, ms, m);
  }

  /** A reload that starts and ends while the first load is about to store is overwritten by the older configuration. */
  lemma StaleOverwrite(parse: Parser, hash: Hasher, a: string, b: string, c: Content, d: Content)
    returns (ms: seq<Move>, s: System)
    requires Gives(parse, a, c) && Gives(parse, b, d) && hash(c) != "" && hash(d) != ""
    ensures Reaches(parse, hash, false, ms, s) && s == System(LoadedConfig(c, hash(c)), Finished, Ready, Some(b))
  {
    ms, s := [], START;
    ms, s := Then(parse, hash, ms, s, Read(First, a, c));
    ms, s := Then(parse, hash, ms, s, Compare(First));
    ms, s := Then(parse, hash, ms, s, Read(Reloader, b, d));
    ms, s := Then(parse, hash, ms, s, Compare(Reloader));
    ms, s := Then(parse, hash, ms, s, Store(Reloader));
    ms, s := Then(parse, hash, ms, s, Store(First));
  }

  /** With no load under way the live configuration is always that of the usable one read last exactly if loads keep
      apart, or if no two usable configurations can be told apart anyway. */
  lemma LastUsableExactly(parse: Parser, hash: Hasher, apart: bool)
    requires GoodHash(parse, hash)
    ensures AlwaysFresh(parse, hash, apart) <==> apart || Alike(parse)
  {
    if apart || Alike(parse) {
      forall ms, s | Reaches(parse, hash, apart, ms, s) && AtRest(s) ensures Fresh(parse, hash, s.latest, s.live) {
        InvAlways(parse, hash, apart, START, ms);
      }
    } else {
      var a, b, c, d :| Gives(parse, a, c) && Gives(parse, b, d) && !Gives(parse, b, c);
      var ms, s := StaleOverwrite(parse, hash, a, b, c, d);
      assert AtRest(s) && !Fresh(parse, hash, s.latest, s.live);
    }
  }
}
