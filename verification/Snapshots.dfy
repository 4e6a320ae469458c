/** Requests looking at the live configuration while it is being replaced. Every look reads one whole configuration, but
    the handler looks afresh for the rule, for the region and for the mode. */
module Snapshots {
  import opened Options
  import opened Rules
  import opened Regions
  import opened ControlPlanes
  import Router

  /** A request as its handler meets it: `carried` is the HOB header the response bears already, `pinned` the HOB that
      the service's answer asks to pin the client to, if any. */
  datatype Asker = Asker(req: Request, carried: string, pinned: string,
                         hash: string -> Hash, rolls: nat -> real)

  datatype Query = WhichRule | WhichRegion(hob: string) | WhichMode

  datatype Answer =
    | RuleIs(rule: Option<Rule>)
    | RegionIs(region: Option<Region>, version: int)
    | ModeIs(mode: string)

  /** What the handler asks of the control plane, in this order: a forced route or mode is not looked up, nor the region
      of a request without HOB. */
  function Queries(a: Asker): seq<Query> {
    (if Router.Forced(a.req).Some? then [] else [WhichRule])
    + (if a.req.hob == "" && a.carried == "" then [] else [WhichRegion(a.req.hob)])
    + (if Router.ForcedMode(a.req).Some? then [] else [WhichMode])
    + (if a.pinned != "" then [WhichRegion(a.pinned)] else [])
  }

  lemma Concatenated(p: seq<Query>, q: seq<Query>, r: seq<Query>, s: seq<Query>, x: Query)
    ensures x in p + q + r + s <==> x in p || x in q || x in r || x in s
  {
  }

  /** Exactly what is asked for: the rule and the mode unless they are forced, the region of the HOB if there is one,
      and the region to pin to. */
  lemma QueriesExactly(a: Asker, q: Query)
    ensures q in Queries(a)
       <==> match q
            case WhichRule => Router.Forced(a.req).None?
            case WhichMode => Router.ForcedMode(a.req).None?
            case WhichRegion(hob) =>
              (hob == a.req.hob && (hob != "" || a.carried != "")) || (hob == a.pinned && hob != "")
  {
    Concatenated(if Router.Forced(a.req).Some? then [] else [WhichRule],
                 if a.req.hob == "" && a.carried == "" then [] else [WhichRegion(a.req.hob)],
                 if Router.ForcedMode(a.req).Some? then [] else [WhichMode],
                 if a.pinned != "" then [WhichRegion(a.pinned)] else [], q);
  }

  /** Is this an answer that configuration `c` gives? */
  ghost predicate Answers(c: Content, a: Asker, q: Query, answer: Answer) {
    match q
    case WhichRule => answer.RuleIs? && Router.Follows(c.rules, a.req, a.hash, a.rolls, answer.rule)
    case WhichRegion(hob) => answer.RegionIs? && Chosen(c, hob, answer.region) && answer.version == c.version
    case WhichMode => answer.ModeIs? && answer.mode == Router.HobMode(a.req, c.hobModes)
  }

  /** `at` is the number of configurations that had been live up to the look, the last of which it read. */
  datatype Look = Look(at: nat, answer: Answer)

  datatype Call = Call(asker: Asker, began: nat, looks: seq<Look>)

  /** `installed` are the configurations in the order in which they became live, the zero one first. */
  datatype Plane = Plane(installed: seq<LoadedConfig>, calls: map<nat, Call>)

  const START := Plane([ZERO], map[])

  datatype Move = Install(next: LoadedConfig) | Begin(id: nat, asker: Asker) | Ask(id: nat, answer: Answer)

  /** A configuration whose hash is the current one is not stored. */
  ghost predicate CanMove(s: Plane, m: Move) {
    s.installed != [] &&
    var live := s.installed[|s.installed| - 1];
    match m
    case Install(next) => next.configHash != live.configHash
    case Begin(id, _) => id !in s.calls
    case Ask(id, answer) =>
      && id in s.calls && |s.calls[id].looks| < |Queries(s.calls[id].asker)|
      && Answers(live.content, s.calls[id].asker, Queries(s.calls[id].asker)[|s.calls[id].looks|], answer)
  }

  ghost function Moved(s: Plane, m: Move): Plane
    requires CanMove(s, m)
  {
    match m
    case Install(next) => s.(installed := s.installed + [next])
    case Begin(id, asker) => s.(calls := s.calls[id := Call(asker, |s.installed|, [])])
    case Ask(id, answer) =>
      var c := s.calls[id];
      s.(calls := s.calls[id := c.(looks := c.looks + [Look(|s.installed|, answer)])])
  }

  ghost predicate ValidRun(s: Plane, ms: seq<Move>)
    decreases |ms|
  {
    ms == [] || (CanMove(s, ms[0]) && ValidRun(Moved(s, ms[0]), ms[1..]))
  }

  ghost function Final(s: Plane, ms: seq<Move>): Plane
    requires ValidRun(s, ms)
    decreases |ms|
  {
    if ms == [] then s else Final(Moved(s, ms[0]), ms[1..])
  }

  // ---------------------------------------------------------------- every look is sound

  /** The call's k-th answer is the n-th live configuration's. */
  ghost predicate GivenBy(installed: seq<LoadedConfig>, c: Call, k: nat, n: nat) {
    && 1 <= n <= |installed| && k < |c.looks| && k < |Queries(c.asker)|
    && Answers(installed[n - 1].content, c.asker, Queries(c.asker)[k], c.looks[k].answer)
  }

  ghost predicate CallInv(installed: seq<LoadedConfig>, c: Call) {
    && c.began <= |installed|
    && (forall k :: 0 <= k < |c.looks| ==> c.began <= c.looks[k].at && GivenBy(installed, c, k, c.looks[k].at))
    && (forall k, l :: 0 <= k <= l < |c.looks| ==> c.looks[k].at <= c.looks[l].at)
  }

  ghost predicate Inv(s: Plane) {
    s.installed != [] && forall id :: id in s.calls ==> CallInv(s.installed, s.calls[id])
  }

  lemma CallInvStays(installed: seq<LoadedConfig>, c: Call, next: LoadedConfig)
    requires CallInv(installed, c)
    ensures CallInv(installed + [next], c)
  {
  }

  lemma CallInvAsked(installed: seq<LoadedConfig>, c: Call, answer: Answer)
    requires CallInv(installed, c) && installed != [] && |c.looks| < |Queries(c.asker)|
    requires Answers(installed[|installed| - 1].content, c.asker, Queries(c.asker)[|c.looks|], answer)
    ensures CallInv(installed, c.(looks := c.looks + [Look(|installed|, answer)]))
  {
    var d := c.(looks := c.looks + [Look(|installed|, answer)]);
    forall k | 0 <= k < |d.looks| ensures c.began <= d.looks[k].at && GivenBy(installed, d, k, d.looks[k].at) {
      if k < |c.looks| { assert GivenBy(installed, c, k, c.looks[k].at); }
    }
  }

  lemma InvKept(s: Plane, m: Move)
    requires CanMove(s, m) && Inv(s)
    ensures Inv(Moved(s, m))
  {
    match m {
      case Install(next) =>
        forall id | id in s.calls ensures CallInv(s.installed + [next], s.calls[id]) {
          CallInvStays(s.installed, s.calls[id], next);
        }
      case Begin(_, _) =>
      case Ask(id, answer) => CallInvAsked(s.installed, s.calls[id], answer);
    }
  }

  lemma {:induction false} InvAlways(s: Plane, ms: seq<Move>)
    requires ValidRun(s, ms) && Inv(s)
    ensures Inv(Final(s, ms))
    decreases |ms|
  {
    if ms != [] {
      InvKept(s, ms[0]);
      InvAlways(Moved(s, ms[0]), ms[1..]);
    }
  }

  /** However reloads interleave, each answer a request gets is that of one whole configuration which was live at some
      moment of the request; a region and the version it comes with are of the same one, and no other region is. */
  lemma LookFromOneSnapshot(ms: seq<Move>, s: Plane, id: nat, k: nat)
    requires ValidRun(START, ms) && s == Final(START, ms) && id in s.calls && k < |s.calls[id].looks|
    ensures var c := s.calls[id];
            && c.began <= c.looks[k].at <= |s.installed| && GivenBy(s.installed, c, k, c.looks[k].at)
            && (Queries(c.asker)[k].WhichRegion? ==>
                  var content := s.installed[c.looks[k].at - 1].content;
                  && c.looks[k].answer.version == content.version
                  && forall r :: Chosen(content, Queries(c.asker)[k].hob, r) <==> r == c.looks[k].answer.region)
  {
    InvAlways(START, ms);
    var c := s.calls[id];
    assert CallInv(s.installed, c) && GivenBy(s.installed, c, k, c.looks[k].at);
    if Queries(c.asker)[k].WhichRegion? {
      var content, hob := s.installed[c.looks[k].at - 1].content, Queries(c.asker)[k].hob;
      forall r | Chosen(content, hob, r) ensures r == c.looks[k].answer.region {
        ChoiceDeterministic(content, hob, r, c.looks[k].answer.region);
      }
    }
  }

  ghost predicate Differ(installed: seq<LoadedConfig>) {
    forall i, j :: 0 <= i < |installed| && j == i + 1 && j < |installed|
               ==> installed[i].configHash != installed[j].configHash
  }

  /** No configuration is ever replaced by one of the same hash. */
  lemma {:induction false} InstalledDiffer(s: Plane, ms: seq<Move>)
    requires ValidRun(s, ms) && Differ(s.installed)
    ensures Differ(Final(s, ms).installed)
    decreases |ms|
  {
    if ms != [] { InstalledDiffer(Moved(s, ms[0]), ms[1..]); }
  }

  /** Before anything is installed no rule matches, there is no region, and no mode but a forced one. */
  lemma NothingAtFirst(a: Asker, q: Query, x: Answer)
    requires Answers(START.installed[0].content, a, q, x)
    ensures match q
            case WhichRule => x == RuleIs(None)
            case WhichRegion(_) => x == RegionIs(None, 0)
            case WhichMode => Router.ForcedMode(a.req).None? ==> x == ModeIs("")
  {
  }

  // ---------------------------------------------------------------- but a request makes several

  /** All the call's answers come from one installation. */
  predicate OneInstallation(c: Call) {
    forall k, l :: 0 <= k < |c.looks| && 0 <= l < |c.looks| ==> c.looks[k].at == c.looks[l].at
  }

  ghost predicate AllGivenBy(installed: seq<LoadedConfig>, c: Call, n: nat) {
    forall k :: 0 <= k < |c.looks| ==> GivenBy(installed, c, k, n)
  }

  /** Moves `i` and `j` of the run are the first and the last look of the request. */
  predicate Looking(ms: seq<Move>, id: nat, i: nat, j: nat) {
    && i <= j < |ms| && ms[i].Ask? && ms[i].id == id && ms[j].Ask? && ms[j].id == id
    && forall k :: 0 <= k < |ms| && ms[k].Ask? && ms[k].id == id ==> i <= k <= j
  }

  lemma {:induction false} RunsSplit(s: Plane, ms: seq<Move>, n: nat)
    requires ValidRun(s, ms) && n <= |ms|
    ensures ValidRun(s, ms[..n]) && ValidRun(Final(s, ms[..n]), ms[n..])
    ensures Final(s, ms) == Final(Final(s, ms[..n]), ms[n..])
    decreases |ms|
  {
    if n == 0 {
      assert ms[..0] == [] && ms[0..] == ms;
    } else {
      RunsSplit(Moved(s, ms[0]), ms[1..], n - 1);
      assert ms[..n][0] == ms[0] && ms[..n][1..] == ms[1..][..n - 1] && ms[n..] == ms[1..][n - 1..];
    }
  }

  /** Configurations are only added; and none is exactly if no move installs one. */
  lemma {:induction false} InstalledGrows(s: Plane, ms: seq<Move>)
    requires ValidRun(s, ms)
    ensures |s.installed| <= |Final(s, ms).installed|
    ensures |s.installed| == |Final(s, ms).installed| <==> forall k :: 0 <= k < |ms| ==> !ms[k].Install?
    decreases |ms|
  {
    if ms != [] {
      InstalledGrows(Moved(s, ms[0]), ms[1..]);
      if forall k :: 0 <= k < |ms| ==> !ms[k].Install? {
        assert forall k :: 0 <= k < |ms[1..]| ==> ms[1..][k] == ms[k + 1];
      } else if !ms[0].Install? {
        var k :| 0 <= k < |ms| && ms[k].Install?;
        assert ms[1..][k - 1].Install?;
      }
    }
  }

  predicate Quiet(ms: seq<Move>, id: nat) {
    forall k :: 0 <= k < |ms| && ms[k].Ask? ==> ms[k].id != id
  }

  function LooksOf(s: Plane, id: nat): seq<Look> {
    if id in s.calls then s.calls[id].looks else []
  }

  lemma {:induction false} QuietKeeps(s: Plane, ms: seq<Move>, id: nat)
    requires ValidRun(s, ms) && Quiet(ms, id)
    ensures LooksOf(Final(s, ms), id) == LooksOf(s, id)
    decreases |ms|
  {
    if ms != [] {
      assert Quiet(ms[1..], id) by { assert forall k :: 0 <= k < |ms[1..]| ==> ms[1..][k] == ms[k + 1]; }
      QuietKeeps(Moved(s, ms[0]), ms[1..], id);
    }
  }

  lemma {:induction false} LooksGrow(s: Plane, ms: seq<Move>, id: nat)
    requires ValidRun(s, ms)
    ensures LooksOf(s, id) <= LooksOf(Final(s, ms), id)
    decreases |ms|
  {
    if ms != [] { LooksGrow(Moved(s, ms[0]), ms[1..], id); }
  }

  ghost function StateAt(ms: seq<Move>, n: nat): Plane
    requires ValidRun(START, ms) && n <= |ms|
  {
    RunsSplit(START, ms, n);
    Final(START, ms[..n])
  }

  lemma Between(ms: seq<Move>, i: nat, j: nat)
    requires ValidRun(START, ms) && i <= j <= |ms|
    ensures ValidRun(StateAt(ms, i), ms[i..j]) && Final(StateAt(ms, i), ms[i..j]) == StateAt(ms, j)
  {
    RunsSplit(START, ms, j);
    RunsSplit(START, ms[..j], i);
    assert ms[..j][..i] == ms[..i] && ms[..j][i..] == ms[i..j];
  }

  lemma OneStep(ms: seq<Move>, n: nat)
    requires ValidRun(START, ms) && n < |ms|
    ensures CanMove(StateAt(ms, n), ms[n]) && StateAt(ms, n + 1) == Moved(StateAt(ms, n), ms[n])
  {
    Between(ms, n, n + 1);
    assert ms[n..n + 1] == [ms[n]] && [ms[n]][1..] == [];
  }

  lemma FirstLook(ms: seq<Move>, id: nat, i: nat, j: nat)
    requires ValidRun(START, ms) && Looking(ms, id, i, j)
    ensures var looks := LooksOf(Final(START, ms), id);
            looks != [] && looks[0].at == |StateAt(ms, i).installed|
  {
    RunsSplit(START, ms, i);
    QuietKeeps(START, ms[..i], id);
    OneStep(ms, i);
    RunsSplit(START, ms, i + 1);
    LooksGrow(StateAt(ms, i + 1), ms[i + 1..], id);
  }

  lemma LastLook(ms: seq<Move>, id: nat, i: nat, j: nat)
    requires ValidRun(START, ms) && Looking(ms, id, i, j)
    ensures var looks := LooksOf(Final(START, ms), id);
            looks != [] && looks[|looks| - 1].at == |StateAt(ms, j).installed|
  {
    OneStep(ms, j);
    RunsSplit(START, ms, j + 1);
    var rest := ms[j + 1..];
    forall k | 0 <= k < |rest| && rest[k].Ask? ensures rest[k].id != id { assert rest[k] == ms[j + 1 + k]; }
    QuietKeeps(StateAt(ms, j + 1), rest, id);
  }

  lemma AllBetween(installed: seq<LoadedConfig>, c: Call)
    requires CallInv(installed, c) && c.looks != []
    ensures OneInstallation(c) <==> c.looks[0].at == c.looks[|c.looks| - 1].at
    ensures OneInstallation(c) ==> AllGivenBy(installed, c, c.looks[0].at)
  {
  }

  lemma InstalledBetween(ms: seq<Move>, i: nat, j: nat)
    requires ValidRun(START, ms) && i <= j < |ms| && ms[j].Ask?
    ensures |StateAt(ms, i).installed| == |StateAt(ms, j).installed| <==> forall k :: i <= k <= j ==> !ms[k].Install?
  {
    Between(ms, i, j);
    InstalledGrows(StateAt(ms, i), ms[i..j]);
    assert forall k :: 0 <= k < j - i ==> ms[i..j][k] == ms[i + k];
    assert forall k :: i <= k < j ==> ms[i..j][k - i] == ms[k];
  }

  /** All a request's answers come from one installation exactly when no configuration is installed between its first
      and its last look; and then one configuration gives them all. */
  lemma OneInstallationExactly(ms: seq<Move>, s: Plane, id: nat, i: nat, j: nat)
    requires ValidRun(START, ms) && s == Final(START, ms) && Looking(ms, id, i, j)
    ensures id in s.calls && s.calls[id].looks != []
    ensures OneInstallation(s.calls[id]) <==> forall k :: i <= k <= j ==> !ms[k].Install?
    ensures OneInstallation(s.calls[id]) ==> AllGivenBy(s.installed, s.calls[id], s.calls[id].looks[0].at)
  {
    FirstLook(ms, id, i, j);
    LastLook(ms, id, i, j);
    InstalledBetween(ms, i, j);
    InvAlways(START, ms);
    AllBetween(s.installed, s.calls[id]);
  }

  // ---------------------------------------------------------------- a request served by three configurations

  lemma {:induction false} ValidExtend(s: Plane, ms: seq<Move>, m: Move)
    requires ValidRun(s, ms) && CanMove(Final(s, ms), m)
    ensures ValidRun(s, ms + [m]) && Final(s, ms + [m]) == Moved(Final(s, ms), m)
    decreases |ms|
  {
    if ms == [] {
      assert (ms + [m])[1..] == [];
    } else {
      ValidExtend(Moved(s, ms[0]), ms[1..], m);
      assert (ms + [m])[1..] == ms[1..] + [m];
    }
  }

  lemma Then(ms: seq<Move>, s: Plane, m: Move) returns (ms': seq<Move>, s': Plane)
    requires ValidRun(START, ms) && s == Final(START, ms) && CanMove(s, m)
    ensures ValidRun(START, ms') && s' == Final(START, ms') && s' == Moved(s, m)
  {
    ms', s' := ms + [m], Moved(s, m);
    ValidExtend(START, ms, m);
  }

  /** One configuration is installed and looked at next. */
  lemma InstallAndAsk(ms: seq<Move>, s: Plane, id: nat, next: LoadedConfig, answer: Answer)
    returns (ms': seq<Move>, s': Plane)
    requires ValidRun(START, ms) && s == Final(START, ms) && CanMove(s, Install(next))
    requires id in s.calls && |s.calls[id].looks| < |Queries(s.calls[id].asker)|
    requires Answers(next.content, s.calls[id].asker, Queries(s.calls[id].asker)[|s.calls[id].looks|], answer)
    ensures ValidRun(START, ms') && s' == Final(START, ms') && s'.installed == s.installed + [next]
    ensures id in s'.calls && s'.calls[id].asker == s.calls[id].asker
    ensures s'.calls[id].looks == s.calls[id].looks + [Look(|s.installed| + 1, answer)]
  {
    ms', s' := Then(ms, s, Install(next));
    ms', s' := Then(ms', s', Ask(id, answer));
  }

  /** Each of the answers so far was looked up in a configuration of its own. */
  ghost predicate Mixed(s: Plane, asker: Asker, cfgs: seq<LoadedConfig>, answers: seq<Answer>, n: nat) {
    && n <= |cfgs| && n <= |answers| && s.installed == [ZERO] + cfgs[..n]
    && 0 in s.calls && s.calls[0].asker == asker && |s.calls[0].looks| == n
    && forall k :: 0 <= k < n ==> s.calls[0].looks[k] == Look(k + 2, answers[k])
  }

  lemma MixOneMore(ms: seq<Move>, s: Plane, asker: Asker, cfgs: seq<LoadedConfig>, answers: seq<Answer>, n: nat)
    returns (ms': seq<Move>, s': Plane)
    requires ValidRun(START, ms) && s == Final(START, ms) && Mixed(s, asker, cfgs, answers, n)
    requires n < |cfgs| && n < |answers| && n < |Queries(asker)|
    requires Answers(cfgs[n].content, asker, Queries(asker)[n], answers[n])
    requires cfgs[n].configHash != ([ZERO] + cfgs)[n].configHash
    ensures ValidRun(START, ms') && s' == Final(START, ms') && Mixed(s', asker, cfgs, answers, n + 1)
  {
    assert s.installed[|s.installed| - 1] == ([ZERO] + cfgs)[n];
    ms', s' := InstallAndAsk(ms, s, 0, cfgs[n], answers[n]);
    assert cfgs[..n + 1] == cfgs[..n] + [cfgs[n]];
  }

  /** The looks of one request, each at a configuration of its own, can be at any configurations that can follow each
      other. */
  lemma {:induction false} AnyMix(asker: Asker, cfgs: seq<LoadedConfig>, answers: seq<Answer>, n: nat)
    returns (ms: seq<Move>, s: Plane)
    requires n <= |cfgs| == |answers| <= |Queries(asker)|
    requires forall k :: 0 <= k < |cfgs| ==> Answers(cfgs[k].content, asker, Queries(asker)[k], answers[k])
    requires forall k :: 0 <= k < |cfgs| ==> cfgs[k].configHash != ([ZERO] + cfgs)[k].configHash
    ensures ValidRun(START, ms) && s == Final(START, ms) && Mixed(s, asker, cfgs, answers, n)
  {
    if n == 0 {
      ms, s := Then([], START, Begin(0, asker));
    } else {
      ms, s := AnyMix(asker, cfgs, answers, n - 1);
      ms, s := MixOneMore(ms, s, asker, cfgs, answers, n - 1);
    }
  }

  const EU := Region("eu", "ONLINE", [], map[])

  /** A valid configuration that treats every request with one action, and counts as version `n`. */
  function Uniform(n: int, action: int, mode: string, configHash: string): LoadedConfig {
    LoadedConfig(Content([Rule(Some(Match("", "", "", 1.0, 0)), action, None, 0)], map["eu" := Some(EU)],
                         map["default" := "eu"], n, map["default" := mode]), configHash)
  }

  function Plainly(): Asker {
    Asker(Request("LON", "/v1/neardrivers", "customer", map[], map[]), "", "", v => 0, i => 0.0)
  }

  lemma UniformRule(n: int, action: int, mode: string, configHash: string, answer: Answer)
    ensures var c := Uniform(n, action, mode, configHash).content;
            Answers(c, Plainly(), WhichRule, answer) <==> answer == RuleIs(Some(c.rules[0]))
  {
  }

  lemma UniformRegion(n: int, action: int, mode: string, configHash: string)
    ensures Answers(Uniform(n, action, mode, configHash).content, Plainly(), WhichRegion("LON"), RegionIs(Some(EU), n))
  {
  }

  function Three(): seq<LoadedConfig> {
    [Uniform(1, ACTION_PROXY_TO_H1, "h1", "a"), Uniform(2, ACTION_SEND_TO_H2, "h2", "b"),
     Uniform(3, ACTION_SEND_TO_H2, "h2", "c")]
  }

  function Mixture(): seq<Answer> {
    [RuleIs(Some(Three()[0].content.rules[0])), RegionIs(Some(EU), 2), ModeIs("h2")]
  }

  /** The rule is the first configuration's only, the version the second's only. */
  lemma NoneGivesMixture(c: Content)
    requires c == ZERO.content || exists n :: 0 <= n < 3 && c == Three()[n].content
    ensures !(Answers(c, Plainly(), WhichRule, Mixture()[0]) && Answers(c, Plainly(), WhichRegion("LON"), Mixture()[1]))
  {
  }

  /** A request routed by one configuration, sent to the region and version of the next, and given the mode of a third:
      no configuration there ever was gives all three answers. */
  lemma MixedAnswers() returns (ms: seq<Move>, s: Plane)
    ensures ValidRun(START, ms) && s == Final(START, ms) && 0 in s.calls && |s.calls[0].looks| == 3
    ensures forall n: nat :: !AllGivenBy(s.installed, s.calls[0], n)
  {
    assert Queries(Plainly()) == [WhichRule, WhichRegion("LON"), WhichMode];
    UniformRule(1, ACTION_PROXY_TO_H1, "h1", "a", Mixture()[0]);
    UniformRegion(2, ACTION_SEND_TO_H2, "h2", "b");
    ms, s := AnyMix(Plainly(), Three(), Mixture(), 3);
    forall n: nat ensures !AllGivenBy(s.installed, s.calls[0], n) {
      if 1 <= n <= |s.installed| { NoneGivesMixture(s.installed[n - 1].content); }
      assert AllGivenBy(s.installed, s.calls[0], n)
         ==> GivenBy(s.installed, s.calls[0], 0, n) && GivenBy(s.installed, s.calls[0], 1, n);
    }
  }
}
