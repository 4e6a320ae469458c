/** Loading the configuration: validated, skipped if its hash is the current one, and replaced as a whole. Parsing and
    hashing are given functions, and the hash tells apart what can be loaded. */
module ControlPlanes {
  import opened Options
  import opened Rules
  import opened Regions
  import Router
  import Sorting

  datatype Parsed = Parsed(rules: map<string, Rule>, regions: RegionMap, hobRegions: map<string, string>,
                           configVersion: real, hobModes: map<string, string>)

  datatype LoadedConfig = LoadedConfig(content: Content, configHash: string)

  const ZERO := LoadedConfig(Content([], map[], map[], 0, map[]), "")

  datatype LoadError = ZeroLength | BadJson | NoRules | NoRegions

  type Parser = string -> Option<Parsed>
  type Hasher = Content -> string

  /** The conversion of a float to an integer, towards zero. */
  function Truncate(x: real): (n: int)
    ensures x >= 0.0 ==> 0.0 <= n as real <= x < n as real + 1.0
    ensures x < 0.0 ==> n as real - 1.0 < x <= n as real <= 0.0
  {
    if x >= 0.0 then x.Floor else -(-x).Floor
  }

  predicate Usable(parse: Parser, raw: string) {
    && raw != "" && parse(raw).Some?
    && parse(raw).value.rules != map[] && parse(raw).value.regions != map[]
  }

  /** `c` holds what was parsed, its rules sorted in one of the orders the ranking allows. */
  ghost predicate CompilesTo(p: Parsed, c: Content) {
    && (exists ks :: SortingOf(p.rules, ks, c.rules))
    && c.regions == p.regions && c.hobRegions == p.hobRegions && c.hobModes == p.hobModes
    && c.version == Truncate(p.configVersion)
  }

  /** `raw` is usable, and `c` is what loading can make of it. */
  ghost predicate Gives(parse: Parser, raw: string, c: Content) {
    Usable(parse, raw) && CompilesTo(parse(raw).value, c)
  }

  /** One call of tryLoad. */
  ghost predicate Loads(parse: Parser, hash: Hasher, before: LoadedConfig, raw: string, after: LoadedConfig) {
    if !Usable(parse, raw) then after == before
    else exists c :: Gives(parse, raw, c)
                  && after == if hash(c) == before.configHash then before else LoadedConfig(c, hash(c))
  }

  /** The same without the shortcut: every usable configuration is stored. */
  ghost predicate Stores(parse: Parser, hash: Hasher, before: LoadedConfig, raw: string, after: LoadedConfig) {
    if !Usable(parse, raw) then after == before
    else exists c :: Gives(parse, raw, c) && after == LoadedConfig(c, hash(c))
  }

  /** The hash is never blank and tells apart whatever can be loaded. */
  ghost predicate GoodHash(parse: Parser, hash: Hasher) {
    && (forall raw, c :: Gives(parse, raw, c) ==> hash(c) != "")
    && forall a, b, c, d :: Gives(parse, a, c) && Gives(parse, b, d) && hash(c) == hash(d) ==> c == d
  }

  ghost predicate Consistent(parse: Parser, hash: Hasher, cfg: LoadedConfig) {
    cfg == ZERO || (cfg.configHash == hash(cfg.content) && exists raw :: Gives(parse, raw, cfg.content))
  }

  method Compile(p: Parsed) returns (c: Content)
    ensures CompilesTo(p, c)
    ensures c.rules == [] <==> p.rules == map[]
  {
    var sorted, ks := Rules.Sort(p.rules);
    c := Content(sorted[..], p.regions, p.hobRegions, Truncate(p.configVersion), p.hobModes);
    NoRulesListed(p.rules, ks, c.rules);
  }

  class ControlPlane {
    var loaded: Option<LoadedConfig>

    constructor ()
      ensures Live() == ZERO
    {
      loaded := None;
    }

    function Live(): LoadedConfig
      reads this
    {
      if loaded.Some? then loaded.value else ZERO
    }

    method TryLoad(raw: string, parse: Parser, hash: Hasher) returns (err: Option<LoadError>)
      modifies this
      ensures Loads(parse, hash, old(Live()), raw, Live())
      ensures err.None? <==> Usable(parse, raw)
      ensures err == Some(ZeroLength) <==> raw == ""
      ensures err == Some(BadJson) <==> raw != "" && parse(raw).None?
      ensures err == Some(NoRules) <==> raw != "" && parse(raw).Some? && parse(raw).value.rules == map[]
      ensures err == Some(NoRegions)
         <==> raw != "" && parse(raw).Some? && parse(raw).value.rules != map[] && parse(raw).value.regions == map[]
    {
      if raw == "" { return Some(ZeroLength); }
      var parsed := parse(raw);
      if parsed.None? { return Some(BadJson); }
      var p := parsed.value;
      var c := Compile(p);
      if |c.rules| == 0 { return Some(NoRules); }
      if p.regions == map[] { return Some(NoRegions); }
      var newHash := hash(c);
      if newHash != Live().configHash {
        loaded := Some(LoadedConfig(c, newHash));
      }
      err := None;
    }

    /** One look at the live configuration decides both the region and the version. */
    method Region(hob: string) returns (region: Option<Regions.Region>, version: int)
      ensures Chosen(Live().content, hob, region) && version == Live().content.version
    {
      var cfg := Live();
      region, version := ChooseRegion(cfg.content, hob);
    }
  }

  lemma NoRulesListed(rs: map<string, Rule>, ks: seq<string>, xs: seq<Rule>)
    requires Lists(rs, ks, xs)
    ensures rs == map[] <==> xs == []
  {
    if rs != map[] {
      var k :| k in rs;
      assert k in ks;
    }
    if xs != [] { assert ks[0] in rs; }
  }

  // ---------------------------------------------------------------- histories

  lemma SameHash(parse: Parser, hash: Hasher, live: LoadedConfig, raw: string, c: Content)
    requires GoodHash(parse, hash) && Consistent(parse, hash, live) && Gives(parse, raw, c)
    ensures hash(c) != "" && (hash(c) == live.configHash <==> live == LoadedConfig(c, hash(c)))
  {
  }

  /** The shortcut is harmless: skipping a configuration that hashes to the current one is storing it. */
  lemma ShortcutIsStore(parse: Parser, hash: Hasher, before: LoadedConfig, raw: string, after: LoadedConfig)
    requires GoodHash(parse, hash) && Consistent(parse, hash, before)
    ensures Loads(parse, hash, before, raw, after) <==> Stores(parse, hash, before, raw, after)
    ensures Loads(parse, hash, before, raw, after) ==> Consistent(parse, hash, after)
  {
    forall c | Gives(parse, raw, c)
      ensures hash(c) == before.configHash <==> before == LoadedConfig(c, hash(c))
    {
      SameHash(parse, hash, before, raw, c);
    }
  }

  /** `cfgs` are the live configurations over a history of loads, one after the other, of `raws`. */
  ghost predicate History(parse: Parser, hash: Hasher, raws: seq<string>, cfgs: seq<LoadedConfig>) {
    && |cfgs| == |raws| + 1 && cfgs[0] == ZERO
    && forall i :: 0 <= i < |raws| ==> Loads(parse, hash, cfgs[i], raws[i], cfgs[i + 1])
  }

  function LastUsable(parse: Parser, raws: seq<string>): (last: Option<string>)
    ensures last.Some? ==> Usable(parse, last.value)
  {
    if raws == [] then None
    else if Usable(parse, raws[|raws| - 1]) then Some(raws[|raws| - 1])
    else LastUsable(parse, raws[..|raws| - 1])
  }

  /** `live` is the configuration that `last` gives, and the zero configuration if there is none. */
  ghost predicate Fresh(parse: Parser, hash: Hasher, last: Option<string>, live: LoadedConfig) {
    match last
    case None => live == ZERO
    case Some(raw) => Gives(parse, raw, live.content) && live.configHash == hash(live.content)
  }

  lemma FreshAfterLoad(parse: Parser, hash: Hasher, last: Option<string>, before: LoadedConfig,
                       raw: string, after: LoadedConfig)
    requires GoodHash(parse, hash) && Fresh(parse, hash, last, before) && Loads(parse, hash, before, raw, after)
    ensures Fresh(parse, hash, if Usable(parse, raw) then Some(raw) else last, after)
  {
    if last.Some? { assert Gives(parse, last.value, before.content); }
    ShortcutIsStore(parse, hash, before, raw, after);
  }

  /** The live configuration is that of the last usable raw one, and the zero configuration if there was none. */
  lemma {:induction false} LiveIsLastUsable(parse: Parser, hash: Hasher, raws: seq<string>, cfgs: seq<LoadedConfig>)
    requires GoodHash(parse, hash) && History(parse, hash, raws, cfgs)
    ensures Fresh(parse, hash, LastUsable(parse, raws), cfgs[|raws|])
  {
    if raws != [] {
      var n := |raws| - 1;
      LiveIsLastUsable(parse, hash, raws[..n], cfgs[..n + 1]);
      FreshAfterLoad(parse, hash, LastUsable(parse, raws[..n]), cfgs[n], raws[n], cfgs[n + 1]);
    }
  }

  /** Every configuration that was ever live is the zero one or has regions, and rules in order of rank. */
  lemma LiveIsValid(parse: Parser, hash: Hasher, raws: seq<string>, cfgs: seq<LoadedConfig>, i: nat)
    requires GoodHash(parse, hash) && History(parse, hash, raws, cfgs) && i < |cfgs|
    ensures var c := cfgs[i].content;
            cfgs[i] == ZERO || (c.rules != [] && Sorting.Sorted(Before, c.rules) && c.regions != map[])
  {
    LiveIsLastUsable(parse, hash, raws[..i], cfgs[..i + 1]);
    var last := LastUsable(parse, raws[..i]);
    if last.Some? {
      var p, c := parse(last.value).value, cfgs[i].content;
      var ks :| SortingOf(p.rules, ks, c.rules);
      NoRulesListed(p.rules, ks, c.rules);
    }
  }

  /** After any history with a usable configuration, what is live is, part by part, what was parsed from the last usable
      one: its rules in order, its regions and HOBs, and its version without the fraction. */
  lemma LiveIsWhatWasParsed(parse: Parser, hash: Hasher, raws: seq<string>, cfgs: seq<LoadedConfig>)
    requires GoodHash(parse, hash) && History(parse, hash, raws, cfgs) && LastUsable(parse, raws).Some?
    ensures var p, c := parse(LastUsable(parse, raws).value).value, cfgs[|raws|].content;
            && c.regions == p.regions && c.hobRegions == p.hobRegions && c.hobModes == p.hobModes
            && (p.configVersion >= 0.0 ==> c.version as real <= p.configVersion < c.version as real + 1.0)
            && (exists ks :: Lists(p.rules, ks, c.rules))
            && forall i, j :: 0 <= i < j < |c.rules| ==> MayPrecede(c.rules[i], c.rules[j])
  {
    LiveIsLastUsable(parse, hash, raws, cfgs);
    var p, c := parse(LastUsable(parse, raws).value).value, cfgs[|raws|].content;
    var ks :| SortingOf(p.rules, ks, c.rules);
    SortedExactly(p.rules, ks, c.rules);
  }

  /** End to end: after any history with a usable configuration, the rule a request follows is one of the last usable
      configuration's rules, and none of them that matches outranks it. */
  lemma RoutedByLastUsable(parse: Parser, hash: Hasher, raws: seq<string>, cfgs: seq<LoadedConfig>,
                           req: Request, valueHash: string -> Hash, rolls: nat -> real, i: nat)
    requires GoodHash(parse, hash) && History(parse, hash, raws, cfgs) && LastUsable(parse, raws).Some?
    requires Router.FirstAt(cfgs[|raws|].content.rules, req, valueHash, rolls, i)
    ensures var rules, xs := parse(LastUsable(parse, raws).value).value.rules, cfgs[|raws|].content.rules;
            && (exists ks :: Lists(rules, ks, xs))
            && forall j: nat :: j < |xs| && Matches(xs[j], req, valueHash, rolls(j)) ==> MayPrecede(xs[i], xs[j])
  {
    LiveIsLastUsable(parse, hash, raws, cfgs);
    var rules, xs := parse(LastUsable(parse, raws).value).value.rules, cfgs[|raws|].content.rules;
    var ks :| SortingOf(rules, ks, xs);
    assert Lists(rules, ks, xs);
    Router.FirstIsMaximal(xs, req, valueHash, rolls, i);
    forall j: nat | j < |xs| && Matches(xs[j], req, valueHash, rolls(j)) ensures MayPrecede(xs[i], xs[j]) {
      SpecificityPoints(xs[i]);
      SpecificityPoints(xs[j]);
    }
  }
}
