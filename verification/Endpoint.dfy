/** Inferring an H2 service and endpoint from the path of a request. */
module Endpoint {
  import opened Text

  const SERVICE_PREFIX := "com.HailoOSS.api."

  // ---------------------------------------------------------------- path.Clean

  /** The segments of a path once empty and `.` ones are dropped and `..` ones have taken effect. */
  function Resolve(segments: seq<string>, rooted: bool, done: seq<string>): seq<string>
    decreases |segments|
  {
    if segments == [] then done
    else
      var s, rest := segments[0], segments[1..];
      if s == "" || s == "." then Resolve(rest, rooted, done)
      else if s != ".." then Resolve(rest, rooted, done + [s])
      else if done != [] && done[|done| - 1] != ".." then Resolve(rest, rooted, done[..|done| - 1])
      else if rooted then Resolve(rest, rooted, done)
      else Resolve(rest, rooted, done + [s])
  }

  predicate Rooted(p: string) {
    p != "" && p[0] == '/'
  }

  function Clean(p: string): string {
    var out := (if Rooted(p) then "/" else "") + Join(Resolve(Split(p, '/'), Rooted(p), []), '/');
    if out == "" then "." else out
  }

  // ---------------------------------------------------------------- pathToEndpoint

  function TrimSlash(p: string): string {
    if Rooted(p) then p[1..] else p
  }

  function Parts(p: string): (parts: seq<string>)
    ensures parts != []
  {
    Split(TrimSlash(Clean(p)), '/')
  }

  function EndpointOf(parts: seq<string>): (string, string)
    requires parts != []
  {
    (SERVICE_PREFIX + Join(parts[..|parts| - 1], '.'), parts[|parts| - 1])
  }

  function PathToEndpoint(p: string): (string, string) {
    EndpointOf(Parts(p))
  }

  /** Reads the parts back off a service and an endpoint. */
  function PartsOf(service: string, endpoint: string): seq<string>
    requires |service| >= |SERVICE_PREFIX|
  {
    var dotted := service[|SERVICE_PREFIX|..];
    (if dotted == "" then [] else Split(dotted, '.')) + [endpoint]
  }

  // ---------------------------------------------------------------- what cleaning leaves

  predicate Proper(segments: seq<string>) {
    forall i :: 0 <= i < |segments| ==> segments[i] != "" && Free(segments[i], '/')
  }

  lemma {:induction false} ResolveProper(segments: seq<string>, rooted: bool, done: seq<string>)
    requires AllFree(segments, '/') && Proper(done)
    ensures Proper(Resolve(segments, rooted, done))
    decreases |segments|
  {
    if segments != [] {
      var s, rest := segments[0], segments[1..];
      assert Free(s, '/');
      if s == "" || s == "." {
        ResolveProper(rest, rooted, done);
      } else if s != ".." {
        ResolveProper(rest, rooted, done + [s]);
      } else if done != [] && done[|done| - 1] != ".." {
        ResolveProper(rest, rooted, done[..|done| - 1]);
      } else if rooted {
        ResolveProper(rest, rooted, done);
      } else {
        ResolveProper(rest, rooted, done + [s]);
      }
    }
  }

  lemma JoinNotBlank(segments: seq<string>, sep: char)
    requires segments != [] && segments[0] != ""
    ensures Join(segments, sep) != "" && Join(segments, sep)[0] == segments[0][0]
  {
  }

  /** The parts of a path are its resolved segments, or a single blank or dot where there are none. */
  lemma PartsAreSegments(p: string)
    ensures var segments := Resolve(Split(p, '/'), Rooted(p), []);
            && Proper(segments)
            && Parts(p) == if segments != [] then segments else if Rooted(p) then [""] else ["."]
  {
    var segments := Resolve(Split(p, '/'), Rooted(p), []);
    JoinSplit(p, '/');
    ResolveProper(Split(p, '/'), Rooted(p), []);
    if segments != [] {
      assert Proper(segments) && AllFree(segments, '/');
      JoinNotBlank(segments, '/');
      var joined := Join(segments, '/');
      assert segments[0][0] in segments[0] && Free(segments[0], '/');
      assert TrimSlash(Clean(p)) == joined;
      SplitJoin(segments, '/');
    } else if Rooted(p) {
      assert Clean(p) == "/" && TrimSlash("/") == "";
    } else {
      assert Clean(p) == "." && Split(".", '/') == ["."] by { SplitPrefix(".", "", '/'); }
    }
  }

  // ---------------------------------------------------------------- the encoding can be undone

  /** No part but the last, which becomes the endpoint, contains a dot. */
  predicate Undotted(p: string) {
    AllFree(Parts(p)[..|Parts(p)| - 1], '.')
  }

  lemma DropPrefix(prefix: string, s: string)
    ensures (prefix + s)[|prefix|..] == s
  {
  }

  lemma DottedRoundTrip(segments: seq<string>)
    requires Proper(segments) && AllFree(segments, '.')
    ensures (if Join(segments, '.') == "" then [] else Split(Join(segments, '.'), '.')) == segments
  {
    if segments != [] {
      JoinNotBlank(segments, '.');
      SplitJoin(segments, '.');
    }
  }

  lemma PartsOfDotted(dotted: string, endpoint: string)
    ensures PartsOf(SERVICE_PREFIX + dotted, endpoint) == (if dotted == "" then [] else Split(dotted, '.')) + [endpoint]
  {
    DropPrefix(SERVICE_PREFIX, dotted);
  }

  lemma PartsRoundTrip(parts: seq<string>)
    requires parts != [] && Proper(parts[..|parts| - 1]) && AllFree(parts[..|parts| - 1], '.')
    ensures PartsOf(EndpointOf(parts).0, EndpointOf(parts).1) == parts
  {
    var service, endpoint := parts[..|parts| - 1], parts[|parts| - 1];
    PartsOfDotted(Join(service, '.'), endpoint);
    assert EndpointOf(parts) == (SERVICE_PREFIX + Join(service, '.'), endpoint);
    DottedRoundTrip(service);
    assert parts == service + [endpoint];
  }

  /** The parts of a path can be read back off its service and endpoint. */
  lemma EndpointRoundTrip(p: string)
    requires Undotted(p)
    ensures PartsOf(PathToEndpoint(p).0, PathToEndpoint(p).1) == Parts(p)
  {
    PartsAreSegments(p);
    PartsRoundTrip(Parts(p));
  }

  /** The path that a rooted path cleans to is given by its parts. */
  lemma PartsGiveClean(p: string, q: string)
    requires Rooted(p) && Rooted(q)
    ensures Parts(p) == Parts(q) <==> Clean(p) == Clean(q)
  {
    JoinSplit(TrimSlash(Clean(p)), '/');
    JoinSplit(TrimSlash(Clean(q)), '/');
    assert Clean(p)[0] == '/' && Clean(q)[0] == '/';
    assert Clean(p) == "/" + TrimSlash(Clean(p)) && Clean(q) == "/" + TrimSlash(Clean(q));
  }

  /** Two rooted paths reach the same endpoint of the same service exactly when they clean to the same path. */
  lemma EndpointInjective(p: string, q: string)
    requires Rooted(p) && Rooted(q) && Undotted(p) && Undotted(q)
    ensures PathToEndpoint(p) == PathToEndpoint(q) <==> Clean(p) == Clean(q)
  {
    EndpointRoundTrip(p);
    EndpointRoundTrip(q);
    PartsGiveClean(p, q);
  }

  /** A segment that cleaning keeps. */
  predicate Plain(s: string) {
    s != "" && s != "." && s != ".." && Free(s, '/')
  }

  predicate AllPlain(segments: seq<string>) {
    forall i :: 0 <= i < |segments| ==> Plain(segments[i])
  }

  lemma {:induction false} ResolvePlain(segments: seq<string>, done: seq<string>)
    requires AllPlain(segments)
    ensures Resolve(segments, true, done) == done + segments
    decreases |segments|
  {
    if segments == [] {
      assert done + segments == done;
    } else {
      assert Plain(segments[0]);
      ResolvePlain(segments[1..], done + [segments[0]]);
      assert done + segments == (done + [segments[0]]) + segments[1..];
    }
  }

  lemma {:induction false} ResolveRooted(segments: seq<string>, done: seq<string>)
    requires AllFree(segments, '/') && AllPlain(done)
    ensures AllPlain(Resolve(segments, true, done))
    decreases |segments|
  {
    if segments != [] {
      var s, rest := segments[0], segments[1..];
      assert Free(s, '/');
      if s == "" || s == "." {
        ResolveRooted(rest, done);
      } else if s != ".." {
        ResolveRooted(rest, done + [s]);
      } else if done != [] {
        assert Plain(done[|done| - 1]);
        ResolveRooted(rest, done[..|done| - 1]);
      } else {
        ResolveRooted(rest, done);
      }
    }
  }

  /** Resolving a path made of plain segments finds them as they are. */
  lemma ResolveAgain(segments: seq<string>)
    requires segments != [] && AllPlain(segments)
    ensures Resolve(Split("/" + Join(segments, '/'), '/'), true, []) == segments
  {
    var p := "/" + Join(segments, '/');
    assert AllFree(segments, '/') by { assert AllPlain(segments); }
    SplitJoin(segments, '/');
    assert p[1..] == Join(segments, '/');
    assert Split(p, '/') == [""] + segments;
    assert ([""] + segments)[1..] == segments;
    ResolvePlain(segments, []);
  }

  /** A rooted path made of plain segments has them as its parts. */
  lemma PartsOfPlain(segments: seq<string>)
    requires segments != [] && AllPlain(segments)
    ensures Parts("/" + Join(segments, '/')) == segments
  {
    ResolveAgain(segments);
    PartsAreSegments("/" + Join(segments, '/'));
  }

  /** Cleaning a rooted path leaves no blank, `.` or `..` segment, and nothing more to clean. */
  lemma CleanSettles(p: string)
    requires Rooted(p)
    ensures Rooted(Clean(p)) && Clean(Clean(p)) == Clean(p)
    ensures Parts(p) == [""] || AllPlain(Parts(p))
  {
    var segments := Resolve(Split(p, '/'), true, []);
    JoinSplit(p, '/');
    ResolveRooted(Split(p, '/'), []);
    PartsAreSegments(p);
    if segments != [] {
      ResolveAgain(segments);
    } else {
      assert Clean(p) == "/" && Split("/", '/') == ["", ""];
    }
  }

  // ---------------------------------------------------------------- what cleaning does, and the encoding itself

  lemma {:induction false} ResolveFrom(front: seq<string>, back: seq<string>, rooted: bool, done: seq<string>)
    ensures Resolve(front + back, rooted, done) == Resolve(back, rooted, Resolve(front, rooted, done))
    decreases |front|
  {
    if front == [] {
      assert front + back == back;
    } else {
      var s, rest := front[0], front[1..];
      assert (front + back)[1..] == rest + back && (front + back)[0] == s;
      if s == "" || s == "." {
        ResolveFrom(rest, back, rooted, done);
      } else if s != ".." {
        ResolveFrom(rest, back, rooted, done + [s]);
      } else if done != [] && done[|done| - 1] != ".." {
        ResolveFrom(rest, back, rooted, done[..|done| - 1]);
      } else if rooted {
        ResolveFrom(rest, back, rooted, done);
      } else {
        ResolveFrom(rest, back, rooted, done + [s]);
      }
    }
  }

  lemma ResolveOne(s: string, done: seq<string>)
    ensures s == "" || s == "." ==> Resolve([s], true, done) == done
    ensures Plain(s) ==> Resolve([s], true, done) == done + [s]
    ensures done == [] ==> Resolve([".."], true, done) == []
    ensures done != [] && AllPlain(done) ==> Resolve([".."], true, done) == done[..|done| - 1]
  {
    if done != [] && AllPlain(done) { assert Plain(done[|done| - 1]); }
  }

  lemma ResolvePair(x: string, y: string, done: seq<string>)
    requires Plain(x) && y == ".." && AllPlain(done)
    ensures Resolve([x, y], true, done) == done
  {
    assert [x, y] == [x] + [y];
    ResolveFrom([x], [y], true, done);
    ResolveOne(x, done);
    ResolveOne(y, done + [x]);
    assert AllPlain(done + [x]) && (done + [x])[..|done|] == done;
  }

  /** The laws of cleaning a rooted path: blanks and single dots go, two dots go with the segment before them, or alone
      at the root, and everything else stays in its place. */
  lemma CleaningLaws(front: seq<string>, back: seq<string>, s: string, x: string)
    requires AllFree(front, '/') && Plain(x)
    ensures s == "" || s == "." ==> Resolve(front + [s] + back, true, []) == Resolve(front + back, true, [])
    ensures Resolve(front + [x, ".."] + back, true, []) == Resolve(front + back, true, [])
    ensures Resolve([".."] + back, true, []) == Resolve(back, true, [])
    ensures AllPlain(front) ==> Resolve(front, true, []) == front
  {
    var done := Resolve(front, true, []);
    ResolveRooted(front, []);
    ResolveFrom(front, back, true, []);
    ResolveFrom(front + [s], back, true, []);
    ResolveFrom(front, [s], true, []);
    ResolveOne(s, done);
    ResolveFrom(front + [x, ".."], back, true, []);
    ResolveFrom(front, [x, ".."], true, []);
    ResolvePair(x, "..", done);
    ResolveFrom([".."], back, true, []);
    ResolveOne("..", []);
    if AllPlain(front) {
      ResolvePlain(front, []);
      assert [] + front == front;
    }
  }

  /** A path of plain segments goes to the service named by all but the last, joined by dots after the prefix, and to
      the endpoint named by the last. */
  lemma EndpointOfPlain(segments: seq<string>, last: string)
    requires AllPlain(segments + [last])
    ensures PathToEndpoint("/" + Join(segments + [last], '/')) == ("com.HailoOSS.api." + Join(segments, '.'), last)
  {
    PartsOfPlain(segments + [last]);
    assert (segments + [last])[..|segments|] == segments;
  }

  // ---------------------------------------------------------------- which endpoints belong to one path only

  lemma {:induction false} JoinMerged(front: seq<string>, x: string, y: string, back: seq<string>)
    ensures Join(front + [x + "." + y] + back, '.') == Join(front + [x, y] + back, '.')
    decreases |front|
  {
    var merged, split := front + [x + "." + y] + back, front + [x, y] + back;
    if front == [] {
      assert split[1..] == [y] + back;
      if back != [] { assert merged[1..] == back && split[1..][1..] == back; }
    } else {
      JoinMerged(front[1..], x, y, back);
      assert merged[1..] == front[1..] + [x + "." + y] + back && split[1..] == front[1..] + [x, y] + back;
    }
  }

  /** Dots in the service part collide: wherever a dot divides a segment into two that are segments themselves, it reads
      like the end of one. */
  lemma DotsCollide(front: seq<string>, x: string, y: string, back: seq<string>, endpoint: string)
    requires AllPlain(front + [x, y] + back + [endpoint])
    ensures var merged, split := front + [x + "." + y] + back + [endpoint], front + [x, y] + back + [endpoint];
            var p, q := "/" + Join(merged, '/'), "/" + Join(split, '/');
            && Parts(p) == merged && Parts(q) == split && Clean(p) != Clean(q)
            && PathToEndpoint(p) == PathToEndpoint(q)
  {
    var merged, split := front + [x + "." + y] + back + [endpoint], front + [x, y] + back + [endpoint];
    var n := |front|;
    assert Plain(split[n]) && Plain(split[n + 1]);
    forall i | 0 <= i < |merged| ensures Plain(merged[i]) {
      if i > n { assert merged[i] == split[i + 1]; } else if i < n { assert merged[i] == split[i]; }
    }
    PartsOfPlain(merged);
    PartsOfPlain(split);
    JoinMerged(front, x, y, back);
    assert merged[..|merged| - 1] == front + [x + "." + y] + back;
    assert split[..|split| - 1] == front + [x, y] + back;
  }

  /** At position `i` of `s` a dot divides it into two segments. */
  predicate Divides(s: string, i: nat) {
    i < |s| && s[i] == '.' && Plain(s[..i]) && Plain(s[i + 1..])
  }

  /** A single segment, or a service of one segment that no dot divides. */
  predicate OneReading(parts: seq<string>) {
    |parts| == 1 || (|parts| == 2 && forall i :: 0 <= i < |parts[0]| ==> !Divides(parts[0], i))
  }

  /** Two or more segments joined by dots are divided by the first of these. */
  lemma JoinedDivides(segments: seq<string>)
    requires |segments| >= 2 && AllPlain(segments)
    ensures Divides(Join(segments, '.'), |segments[0]|)
  {
  }

  lemma {:induction false} JoinPlain(segments: seq<string>)
    requires segments != [] && AllPlain(segments)
    ensures Plain(Join(segments, '.'))
  {
    assert Plain(segments[0]);
    if |segments| > 1 {
      JoinPlain(segments[1..]);
      assert |Join(segments, '.')| >= 3;
    }
  }

  ghost predicate OwnEndpoint(p: string) {
    forall q :: Rooted(q) && PathToEndpoint(q) == PathToEndpoint(p) ==> Clean(q) == Clean(p)
  }

  lemma ServiceRead(xs: seq<string>, ys: seq<string>)
    requires AllPlain(xs) && AllPlain(ys) && Join(xs, '.') == Join(ys, '.')
    requires xs == [] || (|xs| == 1 && forall i :: 0 <= i < |xs[0]| ==> !Divides(xs[0], i))
    ensures xs == ys
  {
    if xs != [] { JoinPlain(xs); }
    if ys != [] { JoinPlain(ys); }
    if |ys| >= 2 { JoinedDivides(ys); }
  }

  lemma PartsRead(ps: seq<string>, qs: seq<string>)
    requires ps != [] && qs != [] && AllPlain(ps[..|ps| - 1]) && AllPlain(qs[..|qs| - 1])
    requires OneReading(ps) && EndpointOf(ps) == EndpointOf(qs)
    ensures ps == qs
  {
    var xs, ys := ps[..|ps| - 1], qs[..|qs| - 1];
    DropPrefix(SERVICE_PREFIX, Join(xs, '.'));
    DropPrefix(SERVICE_PREFIX, Join(ys, '.'));
    ServiceRead(xs, ys);
    assert ps == xs + [ps[|ps| - 1]] && qs == ys + [qs[|qs| - 1]];
  }

  lemma OneReadingOwns(p: string, q: string)
    requires Rooted(p) && Rooted(q) && OneReading(Parts(p)) && PathToEndpoint(q) == PathToEndpoint(p)
    ensures Clean(q) == Clean(p)
  {
    CleanSettles(p);
    CleanSettles(q);
    PartsRead(Parts(p), Parts(q));
    PartsGiveClean(p, q);
  }

  lemma ServiceReread(xs: seq<string>) returns (ys: seq<string>)
    requires AllPlain(xs)
    requires |xs| >= 2 || (|xs| == 1 && exists i :: 0 <= i < |xs[0]| && Divides(xs[0], i))
    ensures AllPlain(ys) && ys != xs && Join(ys, '.') == Join(xs, '.')
  {
    if |xs| == 1 {
      var i :| 0 <= i < |xs[0]| && Divides(xs[0], i);
      ys := [xs[0][..i], xs[0][i + 1..]];
      JoinMerged([], ys[0], ys[1], []);
      assert xs[0] == ys[0] + "." + ys[1];
      assert [] + [ys[0] + "." + ys[1]] + [] == xs && [] + [ys[0], ys[1]] + [] == ys;
    } else {
      var merged := xs[0] + "." + xs[1];
      assert Plain(xs[0]) && Plain(xs[1]) && |merged| >= 3;
      ys := [merged] + xs[2..];
      JoinMerged([], xs[0], xs[1], xs[2..]);
      assert [] + [merged] + xs[2..] == ys && [] + [xs[0], xs[1]] + xs[2..] == xs;
    }
  }

  lemma PartsReread(ps: seq<string>) returns (qs: seq<string>)
    requires ps != [] && AllPlain(ps) && !OneReading(ps)
    ensures qs != [] && AllPlain(qs) && qs != ps && EndpointOf(qs) == EndpointOf(ps)
  {
    var xs, endpoint := ps[..|ps| - 1], ps[|ps| - 1];
    var ys := ServiceReread(xs);
    assert Plain(endpoint) && ps == xs + [endpoint];
    qs := ys + [endpoint];
    assert qs[..|qs| - 1] == ys;
  }

  /** Another path with the same service and endpoint, by dividing the one segment of the service or merging its first
      two. */
  lemma OtherReading(p: string) returns (q: string)
    requires Rooted(p) && !OneReading(Parts(p))
    ensures Rooted(q) && PathToEndpoint(q) == PathToEndpoint(p) && Clean(q) != Clean(p)
  {
    CleanSettles(p);
    var qs := PartsReread(Parts(p));
    q := "/" + Join(qs, '/');
    PartsOfPlain(qs);
    PartsGiveClean(p, q);
  }

  /** Exactly which rooted paths have their service and endpoint to themselves, up to cleaning: those of one segment,
      and those of two whose first is not divided by a dot. */
  lemma OwnEndpointExactly(p: string)
    requires Rooted(p)
    ensures OwnEndpoint(p) <==> OneReading(Parts(p))
  {
    if OneReading(Parts(p)) {
      forall q | Rooted(q) && PathToEndpoint(q) == PathToEndpoint(p) ensures Clean(q) == Clean(p) {
        OneReadingOwns(p, q);
      }
    } else {
      var q := OtherReading(p);
    }
  }
}
