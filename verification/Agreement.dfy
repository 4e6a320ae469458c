/** Which configurations may replace each other under a request: exactly when every request that looks at the live
    configuration several times is still answered as by one of them. */
module Agreement {
  import opened Options
  import opened Text
  import opened Rules
  import opened Regions
  import opened ControlPlanes
  import opened Snapshots
  import Router

  // ---------------------------------------------------------------- every query has exactly one answer

  lemma FirstOrNone(xs: seq<Rule>, a: Asker, n: nat)
    requires n <= |xs|
    ensures (exists i: nat :: Router.FirstAt(xs, a.req, a.hash, a.rolls, i))
         || forall j: nat :: j < n ==> !Matches(xs[j], a.req, a.hash, a.rolls(j))
  {
    if n > 0 {
      FirstOrNone(xs, a, n - 1);
      if (forall j: nat :: j < n - 1 ==> !Matches(xs[j], a.req, a.hash, a.rolls(j)))
         && Matches(xs[n - 1], a.req, a.hash, a.rolls(n - 1))
      {
        assert Router.FirstAt(xs, a.req, a.hash, a.rolls, n - 1);
      }
    }
  }

  lemma RuleExists(xs: seq<Rule>, a: Asker) returns (rule: Option<Rule>)
    ensures Router.Follows(xs, a.req, a.hash, a.rolls, rule)
  {
    FirstOrNone(xs, a, |xs|);
    if i: nat :| Router.FirstAt(xs, a.req, a.hash, a.rolls, i) { rule := Some(xs[i]); } else { rule := None; }
  }

  lemma {:induction false} LeastExists(keys: set<string>) returns (k: string)
    requires keys != {}
    ensures IsLeast(k, keys)
    decreases keys
  {
    var x :| x in keys;
    LessTotal(x, x);
    if keys == {x} {
      k := x;
    } else {
      k := LeastExists(keys - {x});
      LessTotal(x, k);
      if Less(x, k) {
        forall l | l in keys ensures !Less(l, x) { if l != x { LessTransitive(x, k, l); } }
        k := x;
      }
    }
  }

  lemma {:induction false} OnlineExists(candidates: seq<Option<Region>>, n: nat) returns (r: Option<Region>)
    requires candidates != [] && n <= |candidates| && forall i :: 0 <= i < n ==> !IsOnline(candidates[i])
    ensures FirstOnline(candidates, r)
    decreases |candidates| - n
  {
    if n == |candidates| {
      r := candidates[0];
    } else if IsOnline(candidates[n]) {
      r := candidates[n];
    } else {
      r := OnlineExists(candidates, n + 1);
    }
  }

  lemma RegionExists(c: Content, hob: string) returns (r: Option<Region>)
    ensures Chosen(c, hob, r)
  {
    var p := Lookup(c.regions, Find(c.hobRegions, hob));
    if p.None? && c.regions != map[] {
      var k := LeastExists(c.regions.Keys);
      p := c.regions[k];
    }
    assert Primary(c, hob, p);
    if p.Some? { r := OnlineExists(Candidates(c, p.value), 0); } else { r := None; }
  }

  lemma AnswerExists(c: Content, a: Asker, q: Query) returns (x: Answer)
    ensures Answers(c, a, q, x)
  {
    match q {
      case WhichRule =>
        var rule := RuleExists(c.rules, a);
        x := RuleIs(rule);
      case WhichRegion(hob) =>
        var region := RegionExists(c, hob);
        x := RegionIs(region, c.version);
      case WhichMode => x := ModeIs(Router.HobMode(a.req, c.hobModes));
    }
  }

  lemma AnswerUnique(c: Content, a: Asker, q: Query, x: Answer, y: Answer)
    requires Answers(c, a, q, x) && Answers(c, a, q, y)
    ensures x == y
  {
    if q.WhichRegion? { ChoiceDeterministic(c, q.hob, x.region, y.region); }
  }

  ghost predicate SameAnswer(a: Asker, q: Query, c: Content, d: Content) {
    forall x :: Answers(c, a, q, x) <==> Answers(d, a, q, x)
  }

  lemma SharedAnswer(a: Asker, q: Query, c: Content, d: Content, x: Answer)
    requires Answers(c, a, q, x) && Answers(d, a, q, x)
    ensures SameAnswer(a, q, c, d)
  {
    forall y ensures Answers(c, a, q, y) <==> Answers(d, a, q, y) {
      if Answers(c, a, q, y) { AnswerUnique(c, a, q, x, y); }
      if Answers(d, a, q, y) { AnswerUnique(d, a, q, x, y); }
    }
  }

  /** The configurations answer all the request's queries alike but at most one. */
  ghost predicate AgreeButOne(a: Asker, c: Content, d: Content) {
    forall k, l :: 0 <= k < l < |Queries(a)|
               ==> SameAnswer(a, Queries(a)[k], c, d) || SameAnswer(a, Queries(a)[l], c, d)
  }

  lemma AgreeAtOther(a: Asker, c: Content, d: Content, k: nat, l: nat)
    requires AgreeButOne(a, c, d) && k < |Queries(a)| && l < |Queries(a)| && k != l
    requires !SameAnswer(a, Queries(a)[k], c, d)
    ensures SameAnswer(a, Queries(a)[l], c, d)
  {
  }

  // ---------------------------------------------------------------- if they agree but for one query, one answers all

  /** What the call read at its k-th look. */
  function Seen(installed: seq<LoadedConfig>, c: Call, k: nat): Content {
    if k < |c.looks| && 1 <= c.looks[k].at <= |installed| then installed[c.looks[k].at - 1].content else ZERO.content
  }

  ghost predicate AllAgree(a: Asker, installed: seq<LoadedConfig>) {
    forall i, j :: 0 <= i < |installed| && 0 <= j < |installed|
               ==> AgreeButOne(a, installed[i].content, installed[j].content)
  }

  /** If two configurations differ on query `k`, a third that agrees with either but for one query agrees with one of
      them on any other query, and so, as these two do there, with both. */
  lemma ThirdAgrees(a: Asker, first: Content, at: Content, other: Content, k: nat, l: nat)
    requires AgreeButOne(a, at, first) && AgreeButOne(a, other, first) && AgreeButOne(a, other, at)
    requires k < |Queries(a)| && l < |Queries(a)| && k != l && !SameAnswer(a, Queries(a)[k], at, first)
    ensures SameAnswer(a, Queries(a)[l], other, at)
  {
    AgreeAtOther(a, at, first, k, l);
    if SameAnswer(a, Queries(a)[k], other, first) {
      assert !SameAnswer(a, Queries(a)[k], other, at);
      AgreeAtOther(a, other, at, k, l);
    } else {
      AgreeAtOther(a, other, first, k, l);
    }
  }

  lemma LooksGiven(installed: seq<LoadedConfig>, c: Call, k: nat, l: nat)
    requires CallInv(installed, c) && k < |c.looks| && l < |c.looks|
    ensures GivenBy(installed, c, k, c.looks[k].at) && GivenBy(installed, c, l, c.looks[l].at)
  {
  }

  /** If looks `k` and 0 differ in their configurations' answers to query `k`, the configuration of look `k` answers any
      other query as the configuration read for it does. */
  lemma AnswersToo(installed: seq<LoadedConfig>, c: Call, k: nat, l: nat)
    requires CallInv(installed, c) && AllAgree(c.asker, installed) && k < |c.looks| && l < |c.looks|
    requires |c.looks| <= |Queries(c.asker)|
    requires !SameAnswer(c.asker, Queries(c.asker)[k], Seen(installed, c, k), Seen(installed, c, 0))
    ensures SameAnswer(c.asker, Queries(c.asker)[l], Seen(installed, c, l), Seen(installed, c, k))
  {
    if k != l {
      LooksGiven(installed, c, 0, k);
      LooksGiven(installed, c, l, l);
      ThirdAgrees(c.asker, Seen(installed, c, 0), Seen(installed, c, k), Seen(installed, c, l), k, l);
    }
  }

  ghost predicate OneForAll(installed: seq<LoadedConfig>, c: Call) {
    exists n: nat :: c.began <= n <= |installed| && AllGivenBy(installed, c, n)
  }

  lemma GivenToo(installed: seq<LoadedConfig>, c: Call, k: nat, m: nat, n: nat)
    requires GivenBy(installed, c, k, m) && 1 <= n <= |installed|
    requires SameAnswer(c.asker, Queries(c.asker)[k], installed[m - 1].content, installed[n - 1].content)
    ensures GivenBy(installed, c, k, n)
  {
  }

  lemma GivesAll(installed: seq<LoadedConfig>, c: Call, k: nat)
    requires CallInv(installed, c) && k < |c.looks| <= |Queries(c.asker)|
    requires forall l: nat :: l < |c.looks|
                          ==> SameAnswer(c.asker, Queries(c.asker)[l], Seen(installed, c, l), Seen(installed, c, k))
    ensures OneForAll(installed, c)
  {
    var n := c.looks[k].at;
    LooksGiven(installed, c, k, k);
    forall l: nat | l < |c.looks| ensures GivenBy(installed, c, l, n) {
      LooksGiven(installed, c, l, l);
      GivenToo(installed, c, l, c.looks[l].at, n);
    }
    assert AllGivenBy(installed, c, n);
  }

  lemma OneGivesAll(installed: seq<LoadedConfig>, c: Call)
    requires CallInv(installed, c) && AllAgree(c.asker, installed) && |c.looks| <= |Queries(c.asker)|
    ensures OneForAll(installed, c)
  {
    if c.looks == [] {
      assert AllGivenBy(installed, c, c.began);
    } else if k: nat :| k < |c.looks|
                        && !SameAnswer(c.asker, Queries(c.asker)[k], Seen(installed, c, k), Seen(installed, c, 0))
    {
      forall l: nat | l < |c.looks|
        ensures SameAnswer(c.asker, Queries(c.asker)[l], Seen(installed, c, l), Seen(installed, c, k))
      {
        AnswersToo(installed, c, k, l);
      }
      GivesAll(installed, c, k);
    } else {
      GivesAll(installed, c, 0);
    }
  }

  /** Every configuration that may be installed, and the zero one. */
  ghost function Possible(can: iset<LoadedConfig>): iset<LoadedConfig> {
    can + iset{ZERO}
  }

  ghost predicate Installs(ms: seq<Move>, can: iset<LoadedConfig>) {
    forall k :: 0 <= k < |ms| && ms[k].Install? ==> ms[k].next in can
  }

  ghost predicate Bounded(s: Plane, can: iset<LoadedConfig>) {
    && (forall i :: 0 <= i < |s.installed| ==> s.installed[i] in Possible(can))
    && forall id :: id in s.calls ==> |s.calls[id].looks| <= |Queries(s.calls[id].asker)|
  }

  lemma {:induction false} BoundedAlways(s: Plane, ms: seq<Move>, can: iset<LoadedConfig>)
    requires ValidRun(s, ms) && Installs(ms, can) && Bounded(s, can)
    ensures Bounded(Final(s, ms), can)
    decreases |ms|
  {
    if ms != [] {
      assert Installs(ms[1..], can) by { assert forall k :: 0 <= k < |ms[1..]| ==> ms[1..][k] == ms[k + 1]; }
      BoundedAlways(Moved(s, ms[0]), ms[1..], can);
    }
  }

  // ---------------------------------------------------------------- if two do not, a request can get a mixture

  lemma ThenInstalls(ms: seq<Move>, s: Plane, m: Move, can: iset<LoadedConfig>) returns (ms': seq<Move>, s': Plane)
    requires ValidRun(START, ms) && s == Final(START, ms) && CanMove(s, m) && Installs(ms, can)
    requires m.Install? ==> m.next in can
    ensures ValidRun(START, ms') && s' == Final(START, ms') && s' == Moved(s, m) && Installs(ms', can)
  {
    ms', s' := ms + [m], Moved(s, m);
    ValidExtend(START, ms, m);
  }

  /** The request's looks `from` on up to `n`, all at the live configuration. */
  ghost predicate AskedOn(s: Plane, t: Plane, n: nat) {
    && 0 in s.calls && 0 in t.calls && t.installed == s.installed
    && t.calls[0].asker == s.calls[0].asker && t.calls[0].began == s.calls[0].began
    && |s.calls[0].looks| <= n == |t.calls[0].looks|
    && (forall k :: 0 <= k < |s.calls[0].looks| ==> t.calls[0].looks[k] == s.calls[0].looks[k])
    && forall k :: |s.calls[0].looks| <= k < n ==> t.calls[0].looks[k].at == |s.installed|
  }

  lemma {:induction false} AskOn(ms: seq<Move>, s: Plane, n: nat, can: iset<LoadedConfig>)
    returns (ms': seq<Move>, t: Plane)
    requires ValidRun(START, ms) && s == Final(START, ms) && Installs(ms, can) && s.installed != []
    requires 0 in s.calls && |s.calls[0].looks| <= n <= |Queries(s.calls[0].asker)|
    ensures ValidRun(START, ms') && t == Final(START, ms') && Installs(ms', can) && AskedOn(s, t, n)
    decreases n
  {
    if n == |s.calls[0].looks| {
      ms', t := ms, s;
    } else {
      ms', t := AskOn(ms, s, n - 1, can);
      var a := t.calls[0].asker;
      var x := AnswerExists(t.installed[|t.installed| - 1].content, a, Queries(a)[n - 1]);
      ms', t := ThenInstalls(ms', t, Ask(0, x), can);
    }
  }

  ghost predicate Told(can: iset<LoadedConfig>) {
    forall c, d :: c in Possible(can) && d in Possible(can) && c.configHash == d.configHash ==> c == d
  }

  /** The request begins under `c`. */
  lemma BeginUnder(a: Asker, can: iset<LoadedConfig>, c: LoadedConfig) returns (ms: seq<Move>, s: Plane)
    requires Told(can) && c in Possible(can)
    ensures ValidRun(START, ms) && s == Final(START, ms) && Installs(ms, can)
    ensures s.installed != [] && s.installed[|s.installed| - 1] == c
    ensures 0 in s.calls && s.calls[0] == Call(a, |s.installed|, [])
  {
    ms, s := [], START;
    if c != ZERO { ms, s := ThenInstalls(ms, s, Install(c), can); }
    ms, s := ThenInstalls(ms, s, Begin(0, a), can);
  }

  /** The first looks are at `c`, the later ones at `d`, up to one look each on which the two differ. */
  lemma MixesTwo(a: Asker, can: iset<LoadedConfig>, c: LoadedConfig, d: LoadedConfig, k: nat, l: nat)
    returns (ms: seq<Move>, s: Plane)
    requires Told(can) && c in Possible(can) && d in can && c != d && k < l < |Queries(a)|
    ensures ValidRun(START, ms) && s == Final(START, ms) && Installs(ms, can)
    ensures 0 in s.calls && s.calls[0].asker == a && |s.calls[0].looks| == l + 1
    ensures var n := s.calls[0].began;
            1 <= n && |s.installed| == n + 1 && s.installed[n - 1] == c && s.installed[n] == d
    ensures s.calls[0].looks[k].at == s.calls[0].began && s.calls[0].looks[l].at == s.calls[0].began + 1
  {
    ms, s := BeginUnder(a, can, c);
    ms, s := AskOn(ms, s, k + 1, can);
    ms, s := ThenInstalls(ms, s, Install(d), can);
    ms, s := AskOn(ms, s, l + 1, can);
  }

  lemma GivenByBoth(installed: seq<LoadedConfig>, c: Call, k: nat, m: nat, n: nat)
    requires GivenBy(installed, c, k, m) && GivenBy(installed, c, k, n)
    ensures SameAnswer(c.asker, Queries(c.asker)[k], installed[m - 1].content, installed[n - 1].content)
  {
    SharedAnswer(c.asker, Queries(c.asker)[k], installed[m - 1].content, installed[n - 1].content, c.looks[k].answer);
  }

  /** If look `k` was at the configuration installed first, look `l` at the next one, and one of the two gives all
      answers, they agree on query `k` or on query `l`. */
  lemma OneAgrees(installed: seq<LoadedConfig>, c: Call, k: nat, l: nat) returns (q: nat)
    requires CallInv(installed, c) && k < |c.looks| && l < |c.looks| && OneForAll(installed, c)
    requires c.looks[k].at == c.began && c.looks[l].at == c.began + 1 && 1 <= c.began && |installed| == c.began + 1
    ensures (q == k || q == l) && q < |Queries(c.asker)|
    ensures SameAnswer(c.asker, Queries(c.asker)[q], installed[c.began - 1].content, installed[c.began].content)
  {
    LooksGiven(installed, c, k, l);
    var n: nat :| c.began <= n <= |installed| && AllGivenBy(installed, c, n);
    if n == c.began {
      q := l;
    } else {
      q := k;
    }
    assert GivenBy(installed, c, q, n);
    GivenByBoth(installed, c, q, c.began, c.began + 1);
  }

  // ---------------------------------------------------------------- exactly when

  /** However the configurations of `can` replace each other, one that was live during the request gives all its
      answers. */
  ghost predicate AlwaysOne(a: Asker, can: iset<LoadedConfig>) {
    forall ms, s, id :: ValidRun(START, ms) && s == Final(START, ms) && Installs(ms, can) && id in s.calls
                        && s.calls[id].asker == a
                    ==> OneForAll(s.installed, s.calls[id])
  }

  lemma SomeMixture(a: Asker, can: iset<LoadedConfig>, c: LoadedConfig, d: LoadedConfig, k: nat, l: nat)
    returns (ms: seq<Move>, s: Plane)
    requires Told(can) && c in Possible(can) && d in can && c != d && k < l < |Queries(a)|
    requires !SameAnswer(a, Queries(a)[k], c.content, d.content) && !SameAnswer(a, Queries(a)[l], c.content, d.content)
    ensures ValidRun(START, ms) && s == Final(START, ms) && Installs(ms, can)
    ensures 0 in s.calls && s.calls[0].asker == a && !OneForAll(s.installed, s.calls[0])
  {
    ms, s := MixesTwo(a, can, c, d, k, l);
    InvAlways(START, ms);
    if OneForAll(s.installed, s.calls[0]) {
      var q := OneAgrees(s.installed, s.calls[0], k, l);
    }
  }

  /** A good hash tells apart all the configurations that can be loaded. */
  lemma LoadableTold(parse: Parser, hash: Hasher)
    requires GoodHash(parse, hash)
    ensures Told(iset cfg: LoadedConfig |
                 cfg.configHash == hash(cfg.content) && exists raw :: Gives(parse, raw, cfg.content))
  {
  }

  /** A request's answers are always those of one configuration exactly if any two configurations that can be live, the
      zero one included, answer all its queries alike but at most one. */
  lemma OneConfigurationExactly(a: Asker, can: iset<LoadedConfig>)
    requires Told(can)
    ensures AlwaysOne(a, can)
       <==> forall c, d :: c in Possible(can) && d in Possible(can) ==> AgreeButOne(a, c.content, d.content)
  {
    if c, d :| c in Possible(can) && d in Possible(can) && !AgreeButOne(a, c.content, d.content) {
      var k: nat, l: nat :| k < l < |Queries(a)| && !SameAnswer(a, Queries(a)[k], c.content, d.content)
                            && !SameAnswer(a, Queries(a)[l], c.content, d.content);
      var ms, s;
      if d in can { ms, s := SomeMixture(a, can, c, d, k, l); } else { ms, s := SomeMixture(a, can, d, c, k, l); }
    } else {
      forall ms, s, id | ValidRun(START, ms) && s == Final(START, ms) && Installs(ms, can) && id in s.calls
                         && s.calls[id].asker == a
        ensures OneForAll(s.installed, s.calls[id])
      {
        InvAlways(START, ms);
        BoundedAlways(START, ms, can);
        assert CallInv(s.installed, s.calls[id]);
        assert AllAgree(a, s.installed);
        OneGivesAll(s.installed, s.calls[id]);
      }
    }
  }
}
