/** Routing rules: what they match, how requests are sampled, and how rules are ranked. */
module Rules {
  import opened Options
  import opened Text
  import Sorting

  const CUSTOMER_SAMPLER := 1
  const DRIVER_SAMPLER := 2
  const DEVICE_SAMPLER := 3
  const SESSION_SAMPLER := 4

  const ACTION_PROXY_TO_H1 := 1
  const ACTION_SEND_TO_H2 := 2
  const ACTION_THROTTLE := 3
  const ACTION_DEPRECATE := 4

  const BUCKETS := 1000000
  const TWO_TO_64 := 0x1_0000_0000_0000_0000

  type Hash = h: nat | h < TWO_TO_64

  datatype Payload = Payload(body: string, httpStatus: int, headers: map<string, string>)

  datatype Match = Match(hob: string, path: string, source: string, proportion: real, sampler: int)

  datatype Rule = Rule(criteria: Option<Match>, action: int, payload: Option<Payload>, weight: int)

  /** What the extractor finds in a request. */
  datatype Request = Request(hob: string, path: string, source: string,
                             values: map<string, string>, headers: map<string, string>)
  {
    function Value(name: string): string {
      if name in values then values[name] else ""
    }

    function Header(name: string): string {
      if name in headers then headers[name] else ""
    }
  }

  // ---------------------------------------------------------------- matching

  predicate WithinCsv(csv: string, test: string) {
    test in Split(csv, ',')
  }

  /** Does a hash fall into the sampled buckets? For 0 < p <= 1 only. */
  predicate Sampled(h: nat, p: real) {
    h % BUCKETS <= (p * BUCKETS as real).Floor
  }

  predicate HashSample(v: string, p: real, hash: string -> Hash) {
    v == "" || (p > 0.0 && Sampled(hash(v), p))
  }

  /** `roll` is the draw made if this match samples at random. */
  predicate Sample(m: Match, req: Request, hash: string -> Hash, roll: real) {
    if m.sampler == CUSTOMER_SAMPLER then HashSample(req.Value("customer"), m.proportion, hash)
    else if m.sampler == DRIVER_SAMPLER then HashSample(req.Value("driver"), m.proportion, hash)
    else if m.sampler == DEVICE_SAMPLER then HashSample(req.Value("device"), m.proportion, hash)
    else if m.sampler == SESSION_SAMPLER then HashSample(req.Value("session_id"), m.proportion, hash)
    else roll <= m.proportion
  }

  predicate Matches(r: Rule, req: Request, hash: string -> Hash, roll: real) {
    match r.criteria
    case None => false
    case Some(m) =>
      && m.path <= req.path
      && (m.source != "" ==> req.source == m.source)
      && (m.hob != "" ==> WithinCsv(m.hob, req.hob))
      && Sample(m, req, hash, roll)
  }

  /** `test` stands in `s` from position `i` + 1, with separators right before and after it. */
  predicate Delimited(s: string, sep: char, test: string, i: nat) {
    && i + |test| + 1 < |s| && s[i] == sep && s[i + 1 + |test|] == sep
    && s[i + 1..i + 1 + |test|] == test
  }

  lemma DelimitedShift(w: string, sep: char, test: string, c: nat, i: nat)
    requires c + i <= |w|
    ensures Delimited(w, sep, test, c + i) <==> Delimited(w[c..], sep, test, i)
  {
  }

  function Fenced(parts: seq<string>, sep: char): string {
    [sep] + Join(parts, sep) + [sep]
  }

  lemma FirstDelimited(a: string, sep: char, b: string, c: string)
    ensures var w := [sep] + a + [sep] + b + c; Delimited(w, sep, a, 0) && w[1 + |a|..] == [sep] + b + c
  {
    var w := [sep] + a + [sep] + b + c;
    assert w[1..1 + |a|] == a;
  }

  lemma {:induction false} FencedRest(parts: seq<string>, sep: char)
    requires parts != []
    ensures Delimited(Fenced(parts, sep), sep, parts[0], 0)
    ensures var c := 1 + |parts[0]|;
            Fenced(parts, sep)[c..] == if |parts| == 1 then [sep] else Fenced(parts[1..], sep)
  {
    if |parts| == 1 {
      FirstDelimited(parts[0], sep, "", "");
      assert Fenced(parts, sep) == [sep] + parts[0] + [sep] + "" + "";
    } else {
      var rest := Join(parts[1..], sep);
      FirstDelimited(parts[0], sep, rest, [sep]);
      assert Fenced(parts, sep) == [sep] + parts[0] + [sep] + rest + [sep];
    }
  }

  /** Beyond the first part, a value is delimited where it is delimited among the other parts, and nowhere else. */
  lemma {:induction false} BeyondFirst(parts: seq<string>, sep: char, test: string, i: nat)
    requires parts != [] && Free(parts[0], sep)
    ensures var c := 1 + |parts[0]|;
            && (i > 0 && Delimited(Fenced(parts, sep), sep, test, i) ==> i >= c && |parts| > 1)
            && (i >= c && |parts| > 1 ==>
                  (Delimited(Fenced(parts, sep), sep, test, i)
                   <==> Delimited(Fenced(parts[1..], sep), sep, test, i - c)))
  {
    FencedRest(parts, sep);
    var w := Fenced(parts, sep);
    BeyondPart(w, sep, parts[0], test, i, w[1 + |parts[0]|..]);
  }

  lemma BeyondPart(w: string, sep: char, part: string, test: string, i: nat, v: string)
    requires Free(part, sep) && Delimited(w, sep, part, 0) && v == w[1 + |part|..]
    ensures var c := 1 + |part|;
            && (i > 0 && Delimited(w, sep, test, i) ==> i >= c && |v| > 1)
            && (i >= c ==> (Delimited(w, sep, test, i) <==> Delimited(v, sep, test, i - c)))
  {
    FreeInside(w, sep, part);
    if 1 + |part| <= i <= |w| { DelimitedShift(w, sep, test, 1 + |part|, i - 1 - |part|); }
  }

  lemma {:induction false} PartDelimited(parts: seq<string>, sep: char, test: string) returns (i: nat)
    requires AllFree(parts, sep) && test in parts
    ensures Delimited(Fenced(parts, sep), sep, test, i)
  {
    if parts[0] == test {
      FencedRest(parts, sep);
      i := 0;
    } else {
      i := PartDelimited(parts[1..], sep, test);
      i := 1 + |parts[0]| + i;
      BeyondFirst(parts, sep, test, i);
    }
  }

  lemma {:induction false} DelimitedPart(parts: seq<string>, sep: char, test: string, i: nat)
    requires parts != [] && AllFree(parts, sep) && Free(test, sep) && Delimited(Fenced(parts, sep), sep, test, i)
    ensures test in parts
  {
    assert Free(parts[0], sep);
    if i == 0 {
      FencedRest(parts, sep);
      FirstPart(Fenced(parts, sep), sep, parts[0], test);
    } else {
      BeyondFirst(parts, sep, test, i);
      DelimitedPart(parts[1..], sep, test, i - 1 - |parts[0]|);
    }
  }

  /** A value without separators has none where it stands. */
  lemma FreeInside(w: string, sep: char, part: string)
    requires Free(part, sep) && Delimited(w, sep, part, 0)
    ensures forall k :: 1 <= k < 1 + |part| ==> w[k] != sep
  {
  }

  lemma FirstPart(w: string, sep: char, part: string, test: string)
    requires Free(part, sep) && Free(test, sep) && Delimited(w, sep, part, 0) && Delimited(w, sep, test, 0)
    ensures part == test
  {
  }

  /** A value is within a list exactly when it has no comma and stands between two commas of the list put in commas. */
  lemma WithinCsvExactly(csv: string, test: string)
    ensures WithinCsv(csv, test) <==> Free(test, ',') && exists i: nat :: Delimited("," + csv + ",", ',', test, i)
  {
    var parts := Split(csv, ',');
    JoinSplit(csv, ',');
    assert Fenced(parts, ',') == "," + csv + ",";
    if test in parts {
      var i := PartDelimited(parts, ',', test);
    }
    if i: nat :| Free(test, ',') && Delimited("," + csv + ",", ',', test, i) {
      DelimitedPart(parts, ',', test, i);
    }
  }

  /** A rule matches exactly the requests whose path begins with its path, whose source is its source if it has one,
      whose HOB stands in its list if it has one, and which fall into its sample. */
  lemma MatchesExactly(r: Rule, req: Request, hash: string -> Hash, roll: real)
    ensures Matches(r, req, hash, roll)
       <==> (r.criteria.Some? &&
             var m := r.criteria.value;
             && (exists rest :: req.path == m.path + rest)
             && (m.source == "" || m.source == req.source)
             && (m.hob == "" || (Free(req.hob, ',') && exists i: nat :: Delimited("," + m.hob + ",", ',', req.hob, i)))
             && Sample(m, req, hash, roll))
  {
    if r.criteria.Some? {
      var m := r.criteria.value;
      WithinCsvExactly(m.hob, req.hob);
      if m.path <= req.path { assert req.path == m.path + req.path[|m.path|..]; }
    }
  }

  /** The request value a sampler hashes. */
  function HashedValue(sampler: int): Option<string> {
    match sampler
    case 1 => Some("customer")
    case 2 => Some("driver")
    case 3 => Some("device")
    case 4 => Some("session_id")
    case _ => None
  }

  /** A hashing sampler treats requests with the same value alike, whatever else is in them and whatever is drawn, and a
      blank value always as sampled; the others look at nothing but the draw. */
  lemma SamplersSticky(m: Match, req: Request, other: Request, hash: string -> Hash, roll: real, draw: real)
    ensures var name := HashedValue(m.sampler);
            if name.Some? then
              && (req.Value(name.value) == other.Value(name.value)
                  ==> Sample(m, req, hash, roll) == Sample(m, other, hash, draw))
              && (req.Value(name.value) == "" || name.value !in req.values ==> Sample(m, req, hash, roll))
            else Sample(m, req, hash, roll) == Sample(m, other, hash, roll)
  {
  }

  // ---------------------------------------------------------------- ranking

  function Specificity(r: Rule): nat {
    match r.criteria
    case None => 0
    case Some(m) =>
      (if m.hob != "" then 5 else 0) + (if m.source != "" then 5 else 0) + (if m.path != "" then 10 else 0)
  }

  /** `Less` of the sort: `r` is considered before `s`. */
  predicate Before(r: Rule, s: Rule) {
    if r.weight != s.weight then r.weight > s.weight else Specificity(r) > Specificity(s)
  }

  predicate SameRank(r: Rule, s: Rule) {
    r.weight == s.weight && Specificity(r) == Specificity(s)
  }

  ghost function Constrained(r: Rule): set<string> {
    match r.criteria
    case None => {}
    case Some(m) =>
      (if m.hob != "" then {"hob"} else {}) + (if m.source != "" then {"source"} else {})
      + (if m.path != "" then {"path"} else {})
  }

  /** The most specific come first: of two rules of the same weight, one that constrains all the other does and more is
      considered before it; a path counts for as much as the other two criteria together, and those count the same. */
  lemma MoreSpecificFirst(r: Rule, s: Rule)
    requires r.weight == s.weight
    ensures Constrained(s) < Constrained(r) ==> Before(r, s)
    ensures Constrained(r) == {"path"} && Constrained(s) == {"hob", "source"} ==> SameRank(r, s)
    ensures Constrained(r) == {"hob"} && Constrained(s) == {"source"} ==> SameRank(r, s)
  {
  }

  lemma BeforeRanks()
    ensures Sorting.Ranks(Before)
  {
  }

  /** `xs` are the rules of the map, each once, in the order of the keys `ks`. */
  ghost predicate Lists(rs: map<string, Rule>, ks: seq<string>, xs: seq<Rule>) {
    && |xs| == |ks|
    && (forall i :: 0 <= i < |ks| ==> ks[i] in rs && xs[i] == rs[ks[i]])
    && (forall i, j :: 0 <= i < j < |ks| ==> ks[i] != ks[j])
    && forall k :: k in rs ==> k in ks
  }

  ghost predicate SortingOf(rs: map<string, Rule>, ks: seq<string>, xs: seq<Rule>) {
    Lists(rs, ks, xs) && Sorting.Sorted(Before, xs)
  }

  /** How many criteria are constrained, a path counting twice. */
  ghost function Points(criteria: set<string>): nat {
    |criteria| + if "path" in criteria then 1 else 0
  }

  lemma SizeOfUnion(a: set<string>, b: set<string>, c: set<string>)
    requires a !! b && a !! c && b !! c
    ensures |a + b + c| == |a| + |b| + |c|
  {
    assert |a + b| == |a| + |b| && |(a + b) + c| == |a + b| + |c|;
  }

  lemma SpecificityPoints(r: Rule)
    ensures Specificity(r) == 5 * Points(Constrained(r))
  {
    if r.criteria.Some? {
      var m := r.criteria.value;
      var hob: set<string>, source: set<string>, path: set<string> := if m.hob != "" then {"hob"} else {},
          if m.source != "" then {"source"} else {}, if m.path != "" then {"path"} else {};
      assert "hob"[0] != "source"[0] && "hob"[0] != "path"[0] && "source"[0] != "path"[0];
      SizeOfUnion(hob, source, path);
      assert Constrained(r) == hob + source + path;
    }
  }

  /** `r` may stand before `s`: it is heavier, or as heavy and constrains at least as much. */
  ghost predicate MayPrecede(r: Rule, s: Rule) {
    r.weight > s.weight || (r.weight == s.weight && Points(Constrained(r)) >= Points(Constrained(s)))
  }

  /** Sorted means: the heaviest first, and among those the ones that constrain the most. */
  lemma SortedExactly(rs: map<string, Rule>, ks: seq<string>, xs: seq<Rule>)
    requires Lists(rs, ks, xs)
    ensures SortingOf(rs, ks, xs) <==> forall i, j :: 0 <= i < j < |xs| ==> MayPrecede(xs[i], xs[j])
  {
    forall r: Rule, s: Rule ensures MayPrecede(r, s) <==> !Before(s, r) {
      SpecificityPoints(r);
      SpecificityPoints(s);
    }
  }

  lemma RearrangedLists(rs: map<string, Rule>, ks: seq<string>, xs: seq<Rule>, perm: seq<nat>, ys: seq<Rule>)
    returns (ls: seq<string>)
    requires Lists(rs, ks, xs) && Sorting.Rearranges(perm, ys, xs)
    ensures Lists(rs, ls, ys)
  {
    ls := seq(|ys|, i requires 0 <= i < |ys| => ks[perm[i]]);
    forall k | k in rs ensures k in ls {
      var i :| 0 <= i < |ks| && ks[i] == k;
      var j := Sorting.Preimage(perm, |xs|, i);
      assert ls[j] == k;
    }
  }

  /** Collects the map's rules in whatever order the map is ranged over, and sorts them in place. */
  method Sort(rs: map<string, Rule>) returns (ret: array<Rule>, ghost ks: seq<string>)
    ensures fresh(ret) && SortingOf(rs, ks, ret[..])
  {
    ret := new Rule[|rs|];
    ks := [];
    var rest, i := rs.Keys, 0;
    while rest != {}
      invariant rest <= rs.Keys && i == |ks| && i + |rest| == |rs|
      invariant forall j :: 0 <= j < i ==> ks[j] in rs && ks[j] !in rest && ret[j] == rs[ks[j]]
      invariant forall j, l :: 0 <= j < l < i ==> ks[j] != ks[l]
      invariant forall k :: k in rs ==> k in rest || k in ks
      decreases rest
    {
      var k :| k in rest;
      ret[i] := rs[k];
      ks := ks + [k];
      rest, i := rest - {k}, i + 1;
    }
    assert ret[..] == ret[..i];
    BeforeRanks();
    ghost var xs := ret[..];
    ghost var perm := Sorting.Sort(ret, Before);
    ks := RearrangedLists(rs, ks, xs, perm, ret[..]);
  }
}
