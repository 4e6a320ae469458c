/** The router: which rule a request follows and which region it is sent to. */
module Router {
  import opened Options
  import opened Text
  import opened Rules
  import Regions
  import Sorting

  // ---------------------------------------------------------------- routing

  const ROUTE_HEADER := "X-Hailo-Route"

  /** Upper-casing as far as the forced routes can tell: only letters a to z become letters of theirs. */
  function ToUpper(s: string): string {
    if s == "" then "" else
      [if 'a' <= s[0] <= 'z' then (s[0] as int - 'a' as int + 'A' as int) as char else s[0]] + ToUpper(s[1..])
  }

  /** The name of an action. */
  function ActionName(action: int): string {
    match action
    case 1 => "H1"
    case 2 => "H2"
    case 3 => "Throttle"
    case 4 => "Deprecate"
    case _ => "?"
  }

  function ForceRoute(routeStr: string): Option<Rule> {
    var route := ToUpper(routeStr);
    if route == "H2" then Some(Rule(None, ACTION_SEND_TO_H2, None, 0))
    else if route == "H1" then Some(Rule(None, ACTION_PROXY_TO_H1, None, 0))
    else if route == "DEPRECATE" then Some(Rule(None, ACTION_DEPRECATE, None, 0))
    else if route == "THROTTLE" then Some(Rule(None, ACTION_THROTTLE, None, 0))
    else None
  }

  function Forced(req: Request): Option<Rule> {
    if req.Header(ROUTE_HEADER) != "" then ForceRoute(req.Header(ROUTE_HEADER)) else None
  }

  /** The characters are the same but for the case of letters a to z. */
  predicate SameLetters(s: string, t: string) {
    |s| == |t| && forall i :: 0 <= i < |s| ==>
      s[i] == t[i] || ('a' <= s[i] <= 'z' && s[i] as int == t[i] as int + 32)
      || ('a' <= t[i] <= 'z' && t[i] as int == s[i] as int + 32)
  }

  lemma {:induction false} SameWhenUpper(s: string, t: string)
    ensures ToUpper(s) == ToUpper(t) <==> SameLetters(s, t)
    decreases |s|
  {
    if s != "" && t != "" {
      SameWhenUpper(s[1..], t[1..]);
      var u, v := ToUpper(s), ToUpper(t);
      assert u[1..] == ToUpper(s[1..]) && v[1..] == ToUpper(t[1..]) && u == [u[0]] + u[1..] && v == [v[0]] + v[1..];
      assert SameLetters(s, t) ==> SameLetters(s[1..], t[1..]);
      assert SameLetters(s[1..], t[1..]) ==>
          forall i :: 1 <= i < |s| ==> s[i] == s[1..][i - 1] && t[i] == t[1..][i - 1];
    }
  }

  lemma {:induction false} UpperStays(s: string)
    requires forall i :: 0 <= i < |s| ==> !('a' <= s[i] <= 'z')
    ensures ToUpper(s) == s
  {
    if s != "" {
      UpperStays(s[1..]);
      assert s == [s[0]] + s[1..];
    }
  }

  lemma UpperIs(text: string, name: string, upper: string)
    requires SameLetters(name, upper) && forall i :: 0 <= i < |upper| ==> !('a' <= upper[i] <= 'z')
    ensures ToUpper(text) == upper <==> SameLetters(text, name)
  {
    UpperStays(upper);
    SameWhenUpper(text, upper);
  }

  /** A text forces exactly the action it names, in any case, without criteria, payload or weight. */
  lemma ForceExactly(text: string, action: int)
    ensures ForceRoute(text) == Some(Rule(None, action, None, 0))
       <==> 1 <= action <= 4 && SameLetters(text, ActionName(action))
    ensures ForceRoute(text).Some? ==> ForceRoute(text).value == Rule(None, ForceRoute(text).value.action, None, 0)
  {
    UpperIs(text, "H1", "H1");
    UpperIs(text, "H2", "H2");
    UpperIs(text, "Throttle", "THROTTLE");
    UpperIs(text, "Deprecate", "DEPRECATE");
  }

  /** The header forces the action it names; without the header, or with any other text in it, nothing is forced. */
  lemma ForcedExactly(req: Request, action: int)
    ensures Forced(req) == Some(Rule(None, action, None, 0))
       <==> "X-Hailo-Route" in req.headers && 1 <= action <= 4
            && SameLetters(req.headers["X-Hailo-Route"], ActionName(action))
    ensures Forced(req).Some? ==> Forced(req).value == Rule(None, Forced(req).value.action, None, 0)
  {
    ForceExactly(req.Header(ROUTE_HEADER), action);
  }

  /** The mode that GetHobMode reads off the header, without upper-casing it. */
  function ForcedMode(req: Request): Option<string> {
    var routeStr := req.Header(ROUTE_HEADER);
    if routeStr == "H1" then Some("h1") else if routeStr == "H2" then Some("h2") else None
  }

  function HobMode(req: Request, hobModes: map<string, string>): string {
    if ForcedMode(req).Some? then ForcedMode(req).value else Regions.Find(hobModes, req.hob)
  }

  predicate ForcedInUpper(req: Request, action: int) {
    Forced(req).Some? && Forced(req).value.action == action
    && ToUpper(req.Header(ROUTE_HEADER)) == req.Header(ROUTE_HEADER)
  }

  /** A forced mode goes with the route that is forced. A header that forces a route to H1 or H2 forces the mode too if
      and only if it is in upper case. */
  lemma ForcedRouteAndMode(req: Request)
    ensures ForcedMode(req) == Some("h1") <==> ForcedInUpper(req, ACTION_PROXY_TO_H1)
    ensures ForcedMode(req) == Some("h2") <==> ForcedInUpper(req, ACTION_SEND_TO_H2)
    ensures ForcedMode(req).Some? ==> ForcedMode(req).value in {"h1", "h2"}
  {
    assert ToUpper("H1") == "H1" && ToUpper("H2") == "H2";
  }

  /** The mode is the one forced, and unless one is, the one set for the HOB, and failing that the default one. */
  lemma ModeSet(req: Request, hobModes: map<string, string>, mode: string)
    ensures ForcedMode(req).Some? ==> HobMode(req, hobModes) == ForcedMode(req).value
    ensures ForcedMode(req).None? ==> HobMode(req, hobModes[req.hob := mode]) == mode
    ensures ForcedMode(req).None? && req.hob !in hobModes ==> HobMode(req, hobModes["default" := mode]) == mode
    ensures ForcedMode(req).None? && req.hob !in hobModes && "default" !in hobModes ==> HobMode(req, hobModes) == ""
  {
  }

  /** The first position whose rule matches; `rolls(i)` is the random draw made on reaching position `i`. */
  ghost predicate FirstAt(xs: seq<Rule>, req: Request, hash: string -> Hash, rolls: nat -> real, i: nat) {
    && i < |xs| && Matches(xs[i], req, hash, rolls(i))
    && forall j: nat :: j < i ==> !Matches(xs[j], req, hash, rolls(j))
  }

  ghost predicate NoneMatches(xs: seq<Rule>, req: Request, hash: string -> Hash, rolls: nat -> real) {
    forall j: nat :: j < |xs| ==> !Matches(xs[j], req, hash, rolls(j))
  }

  /** What a look at the sorted rules yields. */
  ghost predicate Follows(xs: seq<Rule>, req: Request, hash: string -> Hash, rolls: nat -> real, rule: Option<Rule>) {
    || (exists i: nat :: FirstAt(xs, req, hash, rolls, i) && rule == Some(xs[i]))
    || (NoneMatches(xs, req, hash, rolls) && rule == None)
  }

  /** Among sorted rules no rule that matches outranks the first one that does. */
  lemma FirstIsMaximal(xs: seq<Rule>, req: Request, hash: string -> Hash, rolls: nat -> real, i: nat)
    requires Sorting.Sorted(Before, xs) && FirstAt(xs, req, hash, rolls, i)
    ensures forall j: nat :: j < |xs| && Matches(xs[j], req, hash, rolls(j)) ==> !Before(xs[j], xs[i])
  {
  }

  method Route(rules: array<Rule>, req: Request, hash: string -> Hash, rolls: nat -> real) returns (rule: Option<Rule>)
    ensures Forced(req).Some? ==> rule == Forced(req)
    ensures Forced(req).None? ==> Follows(rules[..], req, hash, rolls, rule)
  {
    var routeStr := req.Header(ROUTE_HEADER);
    if routeStr != "" {
      rule := ForceRoute(routeStr);
      if rule.Some? { return; }
    }
    for i := 0 to rules.Length
      invariant forall j: nat :: j < i ==> !Matches(rules[j], req, hash, rolls(j))
    {
      if Matches(rules[i], req, hash, rolls(i)) {
        assert FirstAt(rules[..], req, hash, rolls, i);
        return Some(rules[i]);
      }
    }
    rule := None;
  }

  // What follows is about rules by their key in the configured map, with `draw` giving the random draw for each key, so
  // that two orders of the same rules can be compared.

  ghost predicate KeyMatches(rs: map<string, Rule>, k: string, req: Request, hash: string -> Hash,
                             draw: string -> real)
  {
    k in rs && Matches(rs[k], req, hash, draw(k))
  }

  /** The rule under key `k` is the one a request follows when the rules are sorted in the order `ks`. */
  ghost predicate Winner(rs: map<string, Rule>, ks: seq<string>, req: Request, hash: string -> Hash,
                         draw: string -> real, k: string) {
    exists i: nat :: i < |ks| && ks[i] == k && KeyMatches(rs, k, req, hash, draw)
                  && forall j: nat :: j < i ==> !KeyMatches(rs, ks[j], req, hash, draw)
  }

  lemma WinnerIsFirst(rs: map<string, Rule>, ks: seq<string>, xs: seq<Rule>, req: Request, hash: string -> Hash,
                      draw: string -> real, rolls: nat -> real, i: nat)
    requires Lists(rs, ks, xs) && forall j: nat :: j < |ks| ==> rolls(j) == draw(ks[j])
    requires FirstAt(xs, req, hash, rolls, i)
    ensures Winner(rs, ks, req, hash, draw, ks[i]) && rs[ks[i]] == xs[i]
  {
  }

  lemma WinnerOrNone(rs: map<string, Rule>, ks: seq<string>, n: nat, req: Request, hash: string -> Hash,
                     draw: string -> real)
    requires n <= |ks|
    ensures (exists k :: Winner(rs, ks, req, hash, draw, k))
         || forall j: nat :: j < n ==> !KeyMatches(rs, ks[j], req, hash, draw)
    decreases n
  {
    if n > 0 {
      WinnerOrNone(rs, ks, n - 1, req, hash, draw);
      if KeyMatches(rs, ks[n - 1], req, hash, draw) && !exists k :: Winner(rs, ks, req, hash, draw, k) {
        assert Winner(rs, ks, req, hash, draw, ks[n - 1]);
      }
    }
  }

  /** A request follows some rule exactly when some configured rule matches, and no matching rule then outranks the one
      it follows; by weight first, then by specificity, whatever the order of the map and of rules ranked the same. */
  lemma RouteIsMaximal(rs: map<string, Rule>, ks: seq<string>, xs: seq<Rule>, req: Request, hash: string -> Hash,
                       draw: string -> real)
    requires SortingOf(rs, ks, xs)
    ensures (exists k :: Winner(rs, ks, req, hash, draw, k)) <==> exists k :: KeyMatches(rs, k, req, hash, draw)
    ensures forall k, l :: Winner(rs, ks, req, hash, draw, k) && KeyMatches(rs, l, req, hash, draw)
                       ==> !Before(rs[l], rs[k])
  {
    forall k, l | Winner(rs, ks, req, hash, draw, k) && KeyMatches(rs, l, req, hash, draw)
      ensures !Before(rs[l], rs[k])
    {
      var i: nat :| i < |ks| && ks[i] == k && forall j: nat :: j < i ==> !KeyMatches(rs, ks[j], req, hash, draw);
      var j: nat :| j < |ks| && ks[j] == l;
      assert xs[i] == rs[k] && xs[j] == rs[l];
    }
    WinnerOrNone(rs, ks, |ks|, req, hash, draw);
    if k :| KeyMatches(rs, k, req, hash, draw) { assert k in ks; }
  }

  /** No matching rule is heavier than the one followed, and none of the same weight constrains more, a path counting
      twice. */
  lemma HeaviestWins(rs: map<string, Rule>, ks: seq<string>, xs: seq<Rule>, req: Request, hash: string -> Hash,
                     draw: string -> real, k: string, l: string)
    requires SortingOf(rs, ks, xs) && Winner(rs, ks, req, hash, draw, k) && KeyMatches(rs, l, req, hash, draw)
    ensures MayPrecede(rs[k], rs[l])
  {
    RouteIsMaximal(rs, ks, xs, req, hash, draw);
    SpecificityPoints(rs[k]);
    SpecificityPoints(rs[l]);
  }

  /** For any two orders of the map and of the sort: both route the request or neither does, to rules of the same rank,
      and to the same rule if only one matching rule has that rank. */
  lemma OrderIrrelevant(rs: map<string, Rule>, ks: seq<string>, xs: seq<Rule>, ls: seq<string>, ys: seq<Rule>,
                        req: Request, hash: string -> Hash, draw: string -> real)
    requires SortingOf(rs, ks, xs) && SortingOf(rs, ls, ys)
    ensures (exists k :: Winner(rs, ks, req, hash, draw, k)) <==> exists l :: Winner(rs, ls, req, hash, draw, l)
    ensures forall k, l :: Winner(rs, ks, req, hash, draw, k) && Winner(rs, ls, req, hash, draw, l)
                       ==> SameRank(rs[k], rs[l])
    ensures forall k, l :: Winner(rs, ks, req, hash, draw, k) && Winner(rs, ls, req, hash, draw, l)
                        && (forall o :: KeyMatches(rs, o, req, hash, draw) && SameRank(rs[o], rs[k]) ==> o == k)
                       ==> k == l
  {
    RouteIsMaximal(rs, ks, xs, req, hash, draw);
    RouteIsMaximal(rs, ls, ys, req, hash, draw);
    forall k, l | Winner(rs, ks, req, hash, draw, k) && Winner(rs, ls, req, hash, draw, l)
      ensures SameRank(rs[k], rs[l])
    {
      assert KeyMatches(rs, k, req, hash, draw) && KeyMatches(rs, l, req, hash, draw);
    }
  }

  /** The rules with the proportion of one of them set to `p`. */
  ghost function Raise(rs: map<string, Rule>, raised: string, p: real): map<string, Rule>
    requires raised in rs && rs[raised].criteria.Some?
  {
    rs[raised := rs[raised].(criteria := Some(rs[raised].criteria.value.(proportion := p)))]
  }

  ghost predicate Raises(rs: map<string, Rule>, raised: string, p: real) {
    raised in rs && rs[raised].criteria.Some? && rs[raised].criteria.value.proportion <= p
  }

  /** Raising a proportion makes no rule stop matching, and none but the raised one start. */
  lemma RaisedMatches(rs: map<string, Rule>, raised: string, p: real, k: string,
                      req: Request, hash: string -> Hash, draw: string -> real)
    requires Raises(rs, raised, p)
    ensures KeyMatches(rs, k, req, hash, draw) ==> KeyMatches(Raise(rs, raised, p), k, req, hash, draw)
    ensures k != raised && KeyMatches(Raise(rs, raised, p), k, req, hash, draw) ==> KeyMatches(rs, k, req, hash, draw)
  {
  }

  /** The ranking ignores the proportion: a sorting of the rules still sorts them with one of them raised, and the other
      way round. */
  lemma RaisingKeepsOrder(rs: map<string, Rule>, raised: string, p: real, ks: seq<string>, xs: seq<Rule>, ys: seq<Rule>)
    requires raised in rs && rs[raised].criteria.Some?
    requires Lists(rs, ks, xs) && Lists(Raise(rs, raised, p), ks, ys)
    ensures SortingOf(rs, ks, xs) <==> SortingOf(Raise(rs, raised, p), ks, ys)
  {
    assert forall i :: 0 <= i < |ks| ==> SameRank(xs[i], ys[i]);
  }

  /** Raising the proportion of one rule, the order of the rules staying as it is, moves a request nowhere but to that
      rule: one routed before is still routed, and one routed after follows the raised rule or the rule it followed. */
  lemma RaisingProportion(rs: map<string, Rule>, raised: string, p: real, ks: seq<string>,
                          req: Request, hash: string -> Hash, draw: string -> real)
    requires Raises(rs, raised, p)
    ensures (exists k :: Winner(rs, ks, req, hash, draw, k))
        ==> exists l :: Winner(Raise(rs, raised, p), ks, req, hash, draw, l)
    ensures forall l :: Winner(Raise(rs, raised, p), ks, req, hash, draw, l)
                    ==> l == raised || Winner(rs, ks, req, hash, draw, l)
  {
    var rs' := Raise(rs, raised, p);
    if k :| Winner(rs, ks, req, hash, draw, k) {
      var i: nat :| i < |ks| && ks[i] == k && KeyMatches(rs, k, req, hash, draw);
      RaisedMatches(rs, raised, p, k, req, hash, draw);
      WinnerOrNone(rs', ks, |ks|, req, hash, draw);
    }
  }

  /** And whatever the orders before and after: a request routed before is routed after, to the raised rule or to one of
      the rank it had; a request not routed before is routed after only to the raised rule. */
  lemma RaisingInAnyOrder(rs: map<string, Rule>, raised: string, p: real,
                          ks: seq<string>, xs: seq<Rule>, ls: seq<string>, ys: seq<Rule>,
                          req: Request, hash: string -> Hash, draw: string -> real)
    requires Raises(rs, raised, p) && SortingOf(rs, ks, xs) && SortingOf(Raise(rs, raised, p), ls, ys)
    ensures (exists k :: Winner(rs, ks, req, hash, draw, k))
        ==> exists l :: Winner(Raise(rs, raised, p), ls, req, hash, draw, l)
    ensures forall l :: Winner(Raise(rs, raised, p), ls, req, hash, draw, l) && l != raised
                    ==> exists k :: Winner(rs, ks, req, hash, draw, k) && SameRank(rs[k], rs[l])
  {
    var rs' := Raise(rs, raised, p);
    RouteIsMaximal(rs, ks, xs, req, hash, draw);
    RouteIsMaximal(rs', ls, ys, req, hash, draw);
    if k :| Winner(rs, ks, req, hash, draw, k) {
      RaisedMatches(rs, raised, p, k, req, hash, draw);
    }
    forall l | Winner(rs', ls, req, hash, draw, l) && l != raised
      ensures exists k :: Winner(rs, ks, req, hash, draw, k) && SameRank(rs[k], rs[l])
    {
      RaisedMatches(rs, raised, p, l, req, hash, draw);
      var k :| Winner(rs, ks, req, hash, draw, k);
      RaisedMatches(rs, raised, p, k, req, hash, draw);
      assert !Before(rs[l], rs[k]) && !Before(rs'[k], rs'[l]);
    }
  }
}
