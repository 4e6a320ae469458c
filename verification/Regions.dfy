/** Regions, and the choice of the region a request is pinned to. */
module Regions {
  import opened Options
  import opened Text
  import opened Rules
  import Sorting

  datatype Region = Region(id: string, status: string, failover: seq<string>, apps: map<string, map<string, string>>)

  type RegionMap = map<string, Option<Region>>

  /** What a configuration holds, apart from its hash. */
  datatype Content = Content(rules: seq<Rule>, regions: RegionMap, hobRegions: map<string, string>, version: int,
                             hobModes: map<string, string>)

  /** HobRegions.Find and HobModes.Find. */
  function Find(m: map<string, string>, hob: string): string {
    if hob in m then m[hob] else if "default" in m then m["default"] else ""
  }

  function Lookup(regions: RegionMap, id: string): Option<Region> {
    if id in regions then regions[id] else None
  }

  predicate IsOnline(r: Option<Region>) {
    r.Some? && r.value.status != "OFFLINE"
  }

  ghost predicate IsLeast(k: string, keys: set<string>) {
    k in keys && forall l :: l in keys ==> !Less(l, k)
  }

  /** The region a HOB resolves to, up or not: its own, or else the one with the least id. */
  ghost predicate Primary(c: Content, hob: string, r: Option<Region>) {
    var named := Lookup(c.regions, Find(c.hobRegions, hob));
    if named.Some? || c.regions == map[] then r == named
    else exists k :: IsLeast(k, c.regions.Keys) && r == c.regions[k]
  }

  ghost function Candidates(c: Content, primary: Region): seq<Option<Region>> {
    [Some(primary)] + seq(|primary.failover|,
                          i requires 0 <= i < |primary.failover| => Lookup(c.regions, primary.failover[i]))
  }

  /** The first candidate that is online, or failing that the first of all. */
  ghost predicate FirstOnline(candidates: seq<Option<Region>>, r: Option<Region>) {
    || (exists i :: 0 <= i < |candidates| && IsOnline(candidates[i]) && r == candidates[i]
                 && forall j :: 0 <= j < i ==> !IsOnline(candidates[j]))
    || (candidates != [] && r == candidates[0] && forall i :: 0 <= i < |candidates| ==> !IsOnline(candidates[i]))
  }

  ghost predicate Chosen(c: Content, hob: string, r: Option<Region>) {
    exists p :: Primary(c, hob, p) && if p.Some? then FirstOnline(Candidates(c, p.value), r) else r == None
  }

  lemma LessRanks()
    ensures Sorting.Ranks(Less)
  {
    forall x, y | Less(x, y) ensures !Less(y, x) { LessTotal(x, y); }
    forall x, y, z | !Less(y, x) && !Less(z, y) ensures !Less(z, x) { LessTransitive(x, y, z); }
  }

  /** The ids of the regions, in the order the map is ranged over. */
  method Keys(regions: RegionMap) returns (keys: array<string>)
    ensures fresh(keys) && keys.Length == |regions|
    ensures forall k :: k in keys[..] <==> k in regions
  {
    keys := new string[|regions|];
    var rest, i := regions.Keys, 0;
    while rest != {}
      invariant rest <= regions.Keys && 0 <= i && i + |rest| == |regions|
      invariant forall k :: k in keys[..i] <==> k in regions && k !in rest
      decreases rest
    {
      var k :| k in rest;
      keys[i] := k;
      assert keys[..i + 1] == keys[..i] + [k];
      rest, i := rest - {k}, i + 1;
    }
    assert keys[..i] == keys[..];
  }

  lemma FirstIsLeast(perm: seq<nat>, xs: seq<string>, ys: seq<string>, l: string)
    requires Sorting.Rearranges(perm, xs, ys) && Sorting.Sorted(Less, xs) && l in ys
    ensures !Less(l, xs[0])
  {
    var a :| 0 <= a < |ys| && ys[a] == l;
    var b := Sorting.Preimage(perm, |ys|, a);
    assert xs[b] == l;
    LessTotal(l, l);
  }

  /** The least id, by sorting all of them. */
  method LeastKey(regions: RegionMap) returns (least: string)
    requires regions != map[]
    ensures IsLeast(least, regions.Keys)
  {
    var keys := Keys(regions);
    LessRanks();
    ghost var was := keys[..];
    ghost var perm := Sorting.Sort(keys, Less);
    least := keys[0];
    assert least == was[perm[0]] && was[perm[0]] in was;
    forall l | l in regions.Keys ensures !Less(l, least) {
      FirstIsLeast(perm, keys[..], was, l);
    }
  }

  /** The region itself if it is online, or the first of its failovers that is, or the region anyway. */
  method FirstOnlineOf(c: Content, primary: Region) returns (region: Option<Region>)
    ensures FirstOnline(Candidates(c, primary), region)
  {
    ghost var candidates := Candidates(c, primary);
    region := Some(primary);
    if IsOnline(region) {
      assert candidates[0] == region;
      return;
    }
    for i := 0 to |primary.failover|
      invariant region == Some(primary)
      invariant forall j :: 0 <= j <= i ==> !IsOnline(candidates[j])
    {
      var failover := Lookup(c.regions, primary.failover[i]);
      assert candidates[i + 1] == failover;
      if IsOnline(failover) {
        region := failover;
        return;
      }
    }
  }

  /** The region a request with this HOB is sent to, and the version of the configuration that says so. */
  method ChooseRegion(c: Content, hob: string) returns (region: Option<Region>, version: int)
    ensures Chosen(c, hob, region) && version == c.version
  {
    region := Lookup(c.regions, Find(c.hobRegions, hob));
    version := c.version;
    if region.None? && c.regions != map[] {
      var least := LeastKey(c.regions);
      region := c.regions[least];
    }
    assert Primary(c, hob, region);
    if region.Some? {
      region := FirstOnlineOf(c, region.value);
    }
  }

  lemma LeastUnique(k: string, l: string, keys: set<string>)
    requires IsLeast(k, keys) && IsLeast(l, keys)
    ensures k == l
  {
    LessTotal(k, l);
  }

  lemma FirstOnlineUnique(candidates: seq<Option<Region>>, r: Option<Region>, s: Option<Region>)
    requires FirstOnline(candidates, r) && FirstOnline(candidates, s)
    ensures r == s
  {
  }

  /** Whatever order the maps are ranged over in, the choice is the same. */
  lemma ChoiceDeterministic(c: Content, hob: string, r: Option<Region>, s: Option<Region>)
    requires Chosen(c, hob, r) && Chosen(c, hob, s)
    ensures r == s
  {
    var p :| Primary(c, hob, p) && if p.Some? then FirstOnline(Candidates(c, p.value), r) else r == None;
    var q :| Primary(c, hob, q) && if q.Some? then FirstOnline(Candidates(c, q.value), s) else s == None;
    if p != q {
      var k :| IsLeast(k, c.regions.Keys) && p == c.regions[k];
      var l :| IsLeast(l, c.regions.Keys) && q == c.regions[l];
      LeastUnique(k, l, c.regions.Keys);
    }
    if p.Some? { FirstOnlineUnique(Candidates(c, p.value), r, s); }
  }

  predicate FailoversOffline(c: Content, r: Region) {
    forall i :: 0 <= i < |r.failover| ==> !IsOnline(Lookup(c.regions, r.failover[i]))
  }

  /** With regions and no nil entry among them there always is a choice, and it is offline only if the region the HOB
      resolves to and all its failovers are. */
  lemma ChoiceExists(c: Content, hob: string, r: Option<Region>)
    requires Chosen(c, hob, r) && c.regions != map[] && forall k :: k in c.regions ==> c.regions[k].Some?
    ensures r.Some?
    ensures !IsOnline(r) ==> Primary(c, hob, r) && FailoversOffline(c, r.value)
  {
    var p :| Primary(c, hob, p) && if p.Some? then FirstOnline(Candidates(c, p.value), r) else r == None;
    var cs := Candidates(c, p.value);
    if !IsOnline(r) {
      forall i | 0 <= i < |r.value.failover| ensures !IsOnline(Lookup(c.regions, r.value.failover[i])) {
        assert cs[i + 1] == Lookup(c.regions, r.value.failover[i]);
      }
    }
  }

  // ---------------------------------------------------------------- the choice in terms of ids and status

  /** What is found for a HOB is what is set for it, and failing that what is set for "default", and failing that
      blank. */
  lemma FindsWhatIsSet(m: map<string, string>, hob: string, x: string)
    ensures Find(m[hob := x], hob) == x
    ensures hob !in m ==> Find(m["default" := x], hob) == x
    ensures hob !in m && "default" !in m ==> Find(m, hob) == ""
  {
  }

  /** There is a region of this id. */
  predicate Known(c: Content, id: string) {
    id in c.regions && c.regions[id].Some?
  }

  predicate Up(c: Content, id: string) {
    Known(c, id) && c.regions[id].value.status != "OFFLINE"
  }

  /** The id that stands for the HOB: the one set for it, or by default, if that is a region's; otherwise the least. */
  ghost predicate StandsFor(c: Content, hob: string, id: string) {
    var named := if hob in c.hobRegions then c.hobRegions[hob]
                 else if "default" in c.hobRegions then c.hobRegions["default"] else "";
    if Known(c, named) then id == named
    else id in c.regions && forall other :: other in c.regions && other != id ==> Less(id, other)
  }

  lemma FirstUp(c: Content, ids: seq<string>) returns (n: nat)
    ensures n <= |ids| && (n < |ids| ==> Up(c, ids[n])) && forall j :: 0 <= j < n ==> !Up(c, ids[j])
  {
    n := 0;
    while n < |ids| && !Up(c, ids[n])
      invariant n <= |ids| && forall j :: 0 <= j < n ==> !Up(c, ids[j])
    {
      n := n + 1;
    }
  }

  lemma StandsForPrimary(c: Content, hob: string, id: string)
    requires StandsFor(c, hob, id) && Known(c, id)
    ensures Primary(c, hob, c.regions[id])
  {
    if Lookup(c.regions, Find(c.hobRegions, hob)).None? {
      forall l | l in c.regions ensures !Less(l, id) { LessTotal(l, id); }
      assert IsLeast(id, c.regions.Keys);
    }
  }

  /** The region that is chosen for an id, going by status, if `n` is the position of its first failover that is up. */
  ghost function ByStatus(c: Content, id: string, n: nat): Option<Region>
    requires Known(c, id)
  {
    var failover := c.regions[id].value.failover;
    if !Up(c, id) && n < |failover| && Up(c, failover[n]) then c.regions[failover[n]] else c.regions[id]
  }

  lemma ByStatusFirstOnline(c: Content, id: string, n: nat)
    requires Known(c, id) && n <= |c.regions[id].value.failover|
    requires n < |c.regions[id].value.failover| ==> Up(c, c.regions[id].value.failover[n])
    requires forall j :: 0 <= j < n ==> !Up(c, c.regions[id].value.failover[j])
    ensures FirstOnline(Candidates(c, c.regions[id].value), ByStatus(c, id, n))
  {
    var cs, failover := Candidates(c, c.regions[id].value), c.regions[id].value.failover;
    assert forall i :: 0 < i < |cs| ==> (IsOnline(cs[i]) <==> Up(c, failover[i - 1]));
    if Up(c, id) {
      assert cs[0] == c.regions[id] && IsOnline(cs[0]);
    } else if n < |failover| {
      assert cs[n + 1] == c.regions[failover[n]] && IsOnline(cs[n + 1]);
    }
  }

  /** The region chosen, told by ids and status: the one that stands for the HOB unless it is offline, otherwise the
      first of its failovers that is not, and itself only if all of these are offline or unknown. */
  lemma ChoiceByStatus(c: Content, hob: string, r: Option<Region>, id: string) returns (n: nat)
    requires Chosen(c, hob, r) && StandsFor(c, hob, id) && Known(c, id)
    ensures var failover := c.regions[id].value.failover;
            && n <= |failover| && (n < |failover| ==> Up(c, failover[n]))
            && (forall j :: 0 <= j < n ==> !Up(c, failover[j]))
            && r == if !Up(c, id) && n < |failover| then c.regions[failover[n]] else c.regions[id]
  {
    StandsForPrimary(c, hob, id);
    n := FirstUp(c, c.regions[id].value.failover);
    ByStatusFirstOnline(c, id, n);
    assert Chosen(c, hob, ByStatus(c, id, n));
    ChoiceDeterministic(c, hob, r, ByStatus(c, id, n));
  }

  /** Without a region to stand for the HOB, none is chosen. */
  lemma NoneStands(c: Content, hob: string, r: Option<Region>)
    requires Chosen(c, hob, r) && c.regions == map[]
    ensures r == None
  {
  }
}
