/** The assumption on the hash of configurations can be met: for every parser there is a hash that tells apart whatever
    can be loaded. What is loaded is told by the raw configuration and the order its rules were sorted in, both of which
    can be written down as one string. */
module Hashes {
  import opened Options
  import opened Rules
  import opened Regions
  import opened ControlPlanes
  import Loaders
  import Sorting

  // ---------------------------------------------------------------- writing strings down as one

  function Quote(s: string): string {
    if s == "" then "." else [',', s[0]] + Quote(s[1..])
  }

  function QuoteAll(parts: seq<string>): string {
    if parts == [] then "" else Quote(parts[0]) + QuoteAll(parts[1..])
  }

  lemma {:induction false} QuoteReadable(s: string, x: string, t: string, y: string)
    requires Quote(s) + x == Quote(t) + y
    ensures s == t && x == y
  {
    assert (Quote(s) + x)[0] == Quote(s)[0] && (Quote(t) + y)[0] == Quote(t)[0];
    if s == "" {
      assert (Quote(s) + x)[1..] == x && (Quote(t) + y)[1..] == y;
    } else {
      assert (Quote(s) + x)[1] == s[0] && (Quote(t) + y)[1] == t[0];
      assert (Quote(s) + x)[2..] == Quote(s[1..]) + x && (Quote(t) + y)[2..] == Quote(t[1..]) + y;
      QuoteReadable(s[1..], x, t[1..], y);
      assert s == [s[0]] + s[1..] && t == [t[0]] + t[1..];
    }
  }

  lemma {:induction false} QuotesReadable(xs: seq<string>, ys: seq<string>)
    requires QuoteAll(xs) == QuoteAll(ys)
    ensures xs == ys
  {
    if xs != [] && ys != [] {
      QuoteReadable(xs[0], QuoteAll(xs[1..]), ys[0], QuoteAll(ys[1..]));
      QuotesReadable(xs[1..], ys[1..]);
      assert xs == [xs[0]] + xs[1..] && ys == [ys[0]] + ys[1..];
    }
  }

  // ---------------------------------------------------------------- the hash

  /** Loading `raw` and sorting its rules in the order `ks` makes `c`. */
  ghost predicate MadeFrom(parse: Parser, c: Content, raw: string, ks: seq<string>) {
    Gives(parse, raw, c) && SortingOf(parse(raw).value.rules, ks, c.rules)
  }

  ghost predicate Loadable(parse: Parser, c: Content) {
    exists raw, ks :: MadeFrom(parse, c, raw, ks)
  }

  ghost function Origin(parse: Parser, c: Content): (from: (string, seq<string>))
    requires Loadable(parse, c)
    ensures MadeFrom(parse, c, from.0, from.1)
  {
    var raw, ks :| MadeFrom(parse, c, raw, ks);
    (raw, ks)
  }

  ghost function HashOf(parse: Parser, c: Content): string {
    if Loadable(parse, c) then QuoteAll([Origin(parse, c).0] + Origin(parse, c).1) else ""
  }

  lemma MadeFromTells(parse: Parser, c: Content, d: Content, raw: string, ks: seq<string>)
    requires MadeFrom(parse, c, raw, ks) && MadeFrom(parse, d, raw, ks)
    ensures c == d
  {
    assert forall i :: 0 <= i < |ks| ==> c.rules[i] == d.rules[i];
  }

  lemma GivenLoadable(parse: Parser, raw: string, c: Content)
    requires Gives(parse, raw, c)
    ensures Loadable(parse, c)
  {
    var ks :| SortingOf(parse(raw).value.rules, ks, c.rules);
    assert MadeFrom(parse, c, raw, ks);
  }

  lemma HashTells(parse: Parser, c: Content, d: Content)
    requires Loadable(parse, c) && Loadable(parse, d) && HashOf(parse, c) == HashOf(parse, d)
    ensures c == d
  {
    var (raw, ks) := Origin(parse, c);
    var (raw', ks') := Origin(parse, d);
    QuotesReadable([raw] + ks, [raw'] + ks');
    assert raw == ([raw] + ks)[0] == ([raw'] + ks')[0] == raw';
    assert ks == ([raw] + ks)[1..] == ([raw'] + ks')[1..] == ks';
    MadeFromTells(parse, c, d, raw, ks);
  }

  /** For every parser there is a hash that is never blank and tells apart whatever can be loaded. */
  lemma GoodHashExists(parse: Parser) returns (hash: Hasher)
    ensures GoodHash(parse, hash)
  {
    hash := c => HashOf(parse, c);
    forall raw, c | Gives(parse, raw, c) ensures hash(c) != "" {
      GivenLoadable(parse, raw, c);
    }
    forall a, b, c, d | Gives(parse, a, c) && Gives(parse, b, d) && hash(c) == hash(d) ensures c == d {
      GivenLoadable(parse, a, c);
      GivenLoadable(parse, b, d);
      HashTells(parse, c, d);
    }
  }

  // ---------------------------------------------------------------- stale configurations do occur

  function OneRule(action: int): Rule {
    Rule(Some(Match("", "", "", 1.0, 0)), action, None, 0)
  }

  function OneRuleParsed(action: int): Parsed {
    Parsed(map["all" := OneRule(action)], map["eu" := Some(Region("eu", "ONLINE", [], map[]))], map[], 1.0, map[])
  }

  function OneRuleContent(action: int): Content {
    var p := OneRuleParsed(action);
    Content([OneRule(action)], p.regions, p.hobRegions, 1, p.hobModes)
  }

  /** Reads each of two inputs as a configuration of one rule, and nothing else. */
  function TwoInputs(raw: string): Option<Parsed> {
    if raw == "h1" then Some(OneRuleParsed(ACTION_PROXY_TO_H1))
    else if raw == "h2" then Some(OneRuleParsed(ACTION_SEND_TO_H2))
    else None
  }

  lemma OneRuleSorted(r: Rule)
    ensures SortingOf(map["all" := r], ["all"], [r])
    ensures forall ks, q :: SortingOf(map["all" := r], ks, [q]) ==> q == r
  {
    forall ks, q | SortingOf(map["all" := r], ks, [q]) ensures q == r {
      assert ks[0] == "all";
    }
  }

  lemma OneRuleGiven(raw: string, action: int)
    requires TwoInputs(raw) == Some(OneRuleParsed(action))
    ensures Gives(TwoInputs, raw, OneRuleContent(action))
  {
    var p := OneRuleParsed(action);
    OneRuleSorted(OneRule(action));
    assert "all" in p.rules && "eu" in p.regions;
    assert SortingOf(p.rules, ["all"], OneRuleContent(action).rules);
  }

  lemma OtherNotGiven(raw: string, action: int, other: int)
    requires TwoInputs(raw) == Some(OneRuleParsed(action)) && action != other
    ensures !Gives(TwoInputs, raw, OneRuleContent(other))
  {
    OneRuleSorted(OneRule(action));
  }

  /** There are a parser and a good hash with which overlapping loads do leave a stale configuration. */
  lemma StaleOccurs() returns (parse: Parser, hash: Hasher)
    ensures GoodHash(parse, hash) && !Loaders.Alike(parse) && !Loaders.AlwaysFresh(parse, hash, false)
  {
    parse := TwoInputs;
    hash := GoodHashExists(parse);
    OneRuleGiven("h1", ACTION_PROXY_TO_H1);
    OneRuleGiven("h2", ACTION_SEND_TO_H2);
    OtherNotGiven("h2", ACTION_SEND_TO_H2, ACTION_PROXY_TO_H1);
    Loaders.LastUsableExactly(parse, hash, false);
  }
}
