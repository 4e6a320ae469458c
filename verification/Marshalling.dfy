/** Turning the parameters of an HTTP request into key-value pairs, and choosing its HOB code on the way. Go ranges over
    a map in an arbitrary order; `ks` and `ls` are the orders that came up for the query and for the form. */
module Marshalling {
  import opened Options

  const HOB := "hob"
  const CITY := "city"
  const SESSION_ID := "session_id"
  const API_TOKEN := "api_token"

  /** Parsed parameters: every key has at least one value. */
  type Values = m: map<string, seq<string>> | forall k :: k in m ==> m[k] != []

  datatype Pair = Pair(key: string, value: string)

  datatype Marshalled = Marshalled(get: seq<Pair>, post: seq<Pair>, hobCode: string)

  /** Go's len of a string, which counts the bytes of its UTF-8 encoding. */
  function ByteLen(s: string): nat {
    if s == "" then 0 else
      (if s[0] < '\U{80}' then 1 else if s[0] < '\U{800}' then 2 else if s[0] < '\U{10000}' then 3 else 4)
      + ByteLen(s[1..])
  }

  predicate IsCode(s: string) {
    ByteLen(s) == 3
  }

  /** An order in which the map may be ranged over: each key once. */
  ghost predicate IsOrder(ks: seq<string>, m: Values) {
    && (forall i, j :: 0 <= i < j < |ks| ==> ks[i] != ks[j])
    && forall k :: k in ks <==> k in m
  }

  predicate Carried(k: string) {
    k != SESSION_ID && k != API_TOKEN && k != HOB
  }

  // ---------------------------------------------------------------- the loops

  /** The code in hand after one more key: `hob` always sets it, `city` only if it has a code and none is in hand. */
  function Pick(m: Values, k: string, code: string): string
    requires k in m
  {
    if k == HOB then m[k][0]
    else if k == CITY && IsCode(m[k][0]) && !IsCode(code) then m[k][0]
    else code
  }

  ghost function CodeAfter(ks: seq<string>, m: Values, code: string): string
    requires forall k :: k in ks ==> k in m
  {
    if ks == [] then code else Pick(m, ks[|ks| - 1], CodeAfter(ks[..|ks| - 1], m, code))
  }

  ghost function PairsOf(ks: seq<string>, m: Values): seq<Pair>
    requires forall k :: k in ks ==> k in m
  {
    if ks == [] then [] else
      var k := ks[|ks| - 1];
      PairsOf(ks[..|ks| - 1], m) + if Carried(k) then [Pair(k, m[k][0])] else []
  }

  /** One loop over a parameter map. */
  method Collect(m: Values, ks: seq<string>, code: string) returns (pairs: seq<Pair>, hobCode: string)
    requires IsOrder(ks, m)
    ensures pairs == PairsOf(ks, m) && hobCode == CodeAfter(ks, m, code)
  {
    pairs, hobCode := [], code;
    for i := 0 to |ks|
      invariant pairs == PairsOf(ks[..i], m) && hobCode == CodeAfter(ks[..i], m, code)
    {
      var k := ks[i];
      assert ks[..i + 1][..i] == ks[..i];
      if k == SESSION_ID || k == API_TOKEN { continue; }
      if k == HOB {
        hobCode := m[k][0];
        continue;
      }
      if k == CITY && IsCode(m[k][0]) && !IsCode(hobCode) {
        hobCode := m[k][0];
      }
      pairs := pairs + [Pair(k, m[k][0])];
    }
    assert ks[..|ks|] == ks;
  }

  /** `form` is absent if the parameters cannot be parsed, which is a bad request. */
  method HttpRequestToProto(query: Values, ks: seq<string>, form: Option<Values>, ls: seq<string>)
    returns (r: Option<Marshalled>)
    requires IsOrder(ks, query) && (form.Some? ==> IsOrder(ls, form.value))
    ensures r.None? <==> form.None?
    ensures form.Some? ==> r.value.hobCode == ChosenCode(ks, query, ls, form.value)
    ensures form.Some? ==> forall p :: multiset(r.value.get)[p] == Wanted(query, r.value.hobCode, p)
    ensures form.Some? ==> forall p :: multiset(r.value.post)[p] == Wanted(form.value, r.value.hobCode, p)
  {
    if form.None? { return None; }
    var get, hobCode := Collect(query, ks, "");
    var post;
    post, hobCode := Collect(form.value, ls, hobCode);
    PairsExact(ks, query, hobCode);
    PairsExact(ls, form.value, hobCode);
    if IsCode(hobCode) {
      get, post := get + [Pair(HOB, hobCode)], post + [Pair(HOB, hobCode)];
    }
    r := Some(Marshalled(get, post, hobCode));
  }

  // ---------------------------------------------------------------- the pairs

  /** How often a pair is to be sent: once for the chosen code if this has three bytes, and once for each other
      parameter that is no credential, with its first value; otherwise not at all. */
  ghost function Wanted(m: Values, code: string, p: Pair): nat {
    if p.key == "hob" then (if ByteLen(code) == 3 && p.value == code then 1 else 0)
    else if p.key !in {"session_id", "api_token"} && p.key in m && p.value == m[p.key][0] then 1
    else 0
  }

  lemma {:induction false} PairsCount(ks: seq<string>, m: Values, p: Pair)
    requires forall k :: k in ks ==> k in m
    requires forall i, j :: 0 <= i < j < |ks| ==> ks[i] != ks[j]
    ensures multiset(PairsOf(ks, m))[p] == if Carried(p.key) && p.key in ks && p.value == m[p.key][0] then 1 else 0
  {
    if ks != [] {
      var n := |ks| - 1;
      var front, k := ks[..n], ks[n];
      PairsCount(front, m, p);
      assert p.key in ks <==> p.key in front || p.key == k;
      assert k !in front;
      assert PairsOf(ks, m) == PairsOf(front, m) + if Carried(k) then [Pair(k, m[k][0])] else [];
    }
  }

  lemma PairExact(ks: seq<string>, m: Values, code: string, p: Pair)
    requires IsOrder(ks, m)
    ensures multiset(PairsOf(ks, m) + if IsCode(code) then [Pair(HOB, code)] else [])[p] == Wanted(m, code, p)
  {
    PairsCount(ks, m, p);
    assert p.key in ks <==> p.key in m;
  }

  /** Whatever the order, the pairs sent are the wanted ones, each exactly once. */
  lemma PairsExact(ks: seq<string>, m: Values, code: string)
    requires IsOrder(ks, m)
    ensures forall p ::
              multiset(PairsOf(ks, m) + if IsCode(code) then [Pair(HOB, code)] else [])[p] == Wanted(m, code, p)
  {
    forall p
      ensures multiset(PairsOf(ks, m) + if IsCode(code) then [Pair(HOB, code)] else [])[p] == Wanted(m, code, p)
    {
      PairExact(ks, m, code, p);
    }
  }

  /** A string takes as many bytes as its parts, a character from one to four of them by its code point. */
  lemma {:induction false} BytesAddUp(s: string, t: string)
    ensures ByteLen(s + t) == ByteLen(s) + ByteLen(t)
  {
    if s == "" {
      assert s + t == t;
    } else {
      BytesAddUp(s[1..], t);
      assert (s + t)[1..] == s[1..] + t;
    }
  }

  lemma BytesOfOne(c: char)
    ensures ByteLen([c]) == 1 <==> c as int < 128
    ensures ByteLen([c]) <= 2 <==> c as int < 2048
    ensures ByteLen([c]) <= 3 <==> c as int < 65536
    ensures 1 <= ByteLen([c]) <= 4
  {
    assert [c][1..] == "";
  }

  // ---------------------------------------------------------------- the code

  ghost function ChosenCode(ks: seq<string>, query: Values, ls: seq<string>, form: Values): string
    requires IsOrder(ks, query) && IsOrder(ls, form)
  {
    CodeAfter(ls, form, CodeAfter(ks, query, ""))
  }

  /** The map has a `hob` that is no code and a `city` that is one: which of them wins depends on the order. */
  predicate Ambiguous(m: Values) {
    HOB in m && CITY in m && !IsCode(m[HOB][0]) && IsCode(m[CITY][0])
  }

  /** The code in hand after the loop when `hob`, if present, is met last. */
  function HobLast(m: Values, code: string): string {
    if HOB in m then m[HOB][0] else if CITY in m then Pick(m, CITY, code) else code
  }

  /** The code in hand depends on nothing but whether `hob` and `city` have been met, and which came last. */
  lemma {:induction false} CodeCases(ks: seq<string>, m: Values, code: string)
    requires forall k :: k in ks ==> k in m
    requires forall i, j :: 0 <= i < j < |ks| ==> ks[i] != ks[j]
    ensures HOB !in ks && CITY !in ks ==> CodeAfter(ks, m, code) == code
    ensures HOB !in ks && CITY in ks ==> CodeAfter(ks, m, code) == Pick(m, CITY, code)
    ensures HOB in ks && CITY !in ks ==> CodeAfter(ks, m, code) == m[HOB][0]
    ensures HOB in ks && CITY in ks ==>
              CodeAfter(ks, m, code) == m[HOB][0] || CodeAfter(ks, m, code) == Pick(m, CITY, m[HOB][0])
  {
    if ks != [] {
      var n := |ks| - 1;
      CodeCases(ks[..n], m, code);
      assert ks == ks[..n] + [ks[n]];
    }
  }

  /** With one of the two keys met last, the code in hand is what that one leaves. */
  lemma CodeSettled(ks: seq<string>, m: Values, code: string, last: string)
    requires IsOrder(ks + [last], m)
    ensures last == HOB ==> CodeAfter(ks + [last], m, code) == HobLast(m, code)
    ensures last == CITY && HOB in m ==> CodeAfter(ks + [last], m, code) == Pick(m, CITY, m[HOB][0])
  {
    var order := ks + [last];
    assert order[..|ks|] == ks && order[|ks|] == last;
    assert forall k :: k in ks ==> k in order;
    assert forall i, j :: 0 <= i < j < |ks| ==> order[i] != order[j];
    forall i | 0 <= i < |ks| ensures ks[i] != last { assert order[i] != order[|ks|]; }
    assert HOB in m ==> HOB in order;
    CodeCases(ks, m, code);
  }

  lemma {:induction false} SomeOrder(keys: set<string>) returns (ks: seq<string>)
    ensures forall i, j :: 0 <= i < j < |ks| ==> ks[i] != ks[j]
    ensures forall k :: k in ks <==> k in keys
    decreases keys
  {
    if keys == {} {
      ks := [];
    } else {
      var k :| k in keys;
      var rest := SomeOrder(keys - {k});
      ks := [k] + rest;
    }
  }

  lemma OrderEnding(m: Values, last: string) returns (ks: seq<string>)
    requires last in m
    ensures IsOrder(ks + [last], m)
  {
    ks := SomeOrder(m.Keys - {last});
  }

  /** One loop leaves the same code for every order unless the map is ambiguous, and then one of two. */
  lemma CodeOfLoop(ks: seq<string>, m: Values, code: string)
    requires IsOrder(ks, m)
    ensures CodeAfter(ks, m, code) == HobLast(m, code) || (Ambiguous(m) && CodeAfter(ks, m, code) == m[CITY][0])
  {
    CodeCases(ks, m, code);
  }

  /** What one loop leaves: the `hob` if there is one; otherwise the `city` if it has three bytes and the code in
      hand has not; otherwise the code in hand. */
  lemma CodeOfUnambiguous(ks: seq<string>, m: Values, code: string)
    requires IsOrder(ks, m) && !Ambiguous(m)
    ensures CodeAfter(ks, m, code) == if "hob" in m then m["hob"][0]
                                      else if "city" in m && ByteLen(m["city"][0]) == 3 && ByteLen(code) != 3
                                      then m["city"][0]
                                      else code
  {
    CodeOfLoop(ks, m, code);
  }

  lemma BothCodes(m: Values, code: string) returns (ks: seq<string>, ls: seq<string>)
    requires Ambiguous(m)
    ensures IsOrder(ks, m) && CodeAfter(ks, m, code) == m[HOB][0]
    ensures IsOrder(ls, m) && CodeAfter(ls, m, code) == m[CITY][0]
  {
    ks := OrderEnding(m, HOB);
    CodeSettled(ks, m, code, HOB);
    ls := OrderEnding(m, CITY);
    CodeSettled(ls, m, code, CITY);
    ks, ls := ks + [HOB], ls + [CITY];
  }

  ghost predicate CodeDetermined(query: Values, form: Values) {
    forall ks, ls, ks', ls' :: IsOrder(ks, query) && IsOrder(ls, form) && IsOrder(ks', query) && IsOrder(ls', form)
      ==> ChosenCode(ks, query, ls, form) == ChosenCode(ks', query, ls', form)
  }

  /** The form does not tell the query's `hob` from its `city`: it sets the code itself, or only where the query's does
      not, to the same. */
  predicate FormDecides(query: Values, form: Values)
    requires Ambiguous(query)
  {
    HOB in form || (CITY in form && form[CITY][0] == query[CITY][0])
  }

  /** Exactly when the chosen code does not depend on the order of the maps: the form is unambiguous, and so is the
      query unless the form decides. */
  lemma CodeDeterminedExactly(query: Values, form: Values)
    ensures CodeDetermined(query, form)
       <==> !Ambiguous(form) && (Ambiguous(query) ==> FormDecides(query, form))
  {
    if !Ambiguous(form) && (Ambiguous(query) ==> FormDecides(query, form)) {
      forall ks, ls | IsOrder(ks, query) && IsOrder(ls, form)
        ensures ChosenCode(ks, query, ls, form)
                == HobLast(form, if Ambiguous(query) then query[CITY][0] else HobLast(query, ""))
      {
        CodeOfLoop(ks, query, "");
        CodeOfLoop(ls, form, CodeAfter(ks, query, ""));
      }
    } else if Ambiguous(form) {
      var ks := SomeOrder(query.Keys);
      var ls, ls' := BothCodes(form, CodeAfter(ks, query, ""));
      assert ChosenCode(ks, query, ls, form) != ChosenCode(ks, query, ls', form);
    } else {
      var ks, ks' := BothCodes(query, "");
      var ls := SomeOrder(form.Keys);
      CodeOfLoop(ls, form, query[HOB][0]);
      CodeOfLoop(ls, form, query[CITY][0]);
      assert ChosenCode(ks, query, ls, form) != ChosenCode(ks', query, ls, form);
    }
  }
}
