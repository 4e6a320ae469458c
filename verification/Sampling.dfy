/** How fair hash sampling is: how many of the 2^64 hash values a proportion lets through. */
module Sampling {
  import opened Rules

  /** The hash values below `n` that proportion `p` accepts. */
  ghost function Accepted(p: real, n: nat): set<nat> {
    set h: nat | h < n && Sampled(h, p)
  }

  function Min(x: int, y: int): int {
    if x < y then x else y
  }

  lemma AcceptedNext(p: real, h: nat)
    ensures |Accepted(p, h + 1)| == |Accepted(p, h)| + if Sampled(h, p) then 1 else 0
  {
    assert Accepted(p, h + 1) == if Sampled(h, p) then Accepted(p, h) + {h} else Accepted(p, h);
  }

  lemma NextRound(h: nat, t: nat)
    ensures var (q, r) := ((h + 1) / BUCKETS, (h + 1) % BUCKETS);
            if h % BUCKETS == BUCKETS - 1 then q * t == (h / BUCKETS) * t + t && r == 0
            else q == h / BUCKETS && r == h % BUCKETS + 1
  {
  }

  /** Counting whole rounds of buckets, then the buckets of the last, incomplete round. */
  lemma {:induction false} CountAccepted(p: real, t: nat, n: nat)
    requires t == (p * BUCKETS as real).Floor && t < BUCKETS
    ensures |Accepted(p, n)| == (n / BUCKETS) * (t + 1) + Min(n % BUCKETS, t + 1)
  {
    if n == 0 {
      assert Accepted(p, 0) == {};
    } else {
      CountAccepted(p, t, n - 1);
      AcceptedNext(p, n - 1);
      NextRound(n - 1, t + 1);
    }
  }

  lemma AccuracyOfBuckets(p: real)
    requires 0.0 < p < 1.0
    ensures var n := |Accepted(p, TWO_TO_64)| as real;
            var q, r := TWO_TO_64 / BUCKETS, TWO_TO_64 % BUCKETS;
            p * TWO_TO_64 as real < n <= p * TWO_TO_64 as real + (q + r) as real
  {
    var t := (p * BUCKETS as real).Floor;
    var q, r := TWO_TO_64 / BUCKETS, TWO_TO_64 % BUCKETS;
    CountAccepted(p, t, TWO_TO_64);
    assert q == 18446744073709 && r == 551616;
    assert TWO_TO_64 == BUCKETS * q + r;
  }

  /** The request has a value for the hashing sampler of the match. */
  predicate HasValue(m: Match, req: Request) {
    HashedValue(m.sampler).Some? && req.Value(HashedValue(m.sampler).value) != ""
  }

  ghost predicate SampledAt(m: Match, req: Request, roll: real, h: nat) {
    h < TWO_TO_64 && Sample(m, req, (v: string) => h, roll)
  }

  /** The hashes of that value with which the match samples the request. */
  ghost function SamplingHashes(m: Match, req: Request, roll: real): set<nat> {
    set h: nat | h < TWO_TO_64 && SampledAt(m, req, roll, h)
  }

  /** A hashing sampler with a proportion takes a request by the bucket its value hashes to, out of a million; and the
      share of the 2^64 hashes that it takes exceeds the proportion, for 0 < p < 1, by no more than one bucket and the
      remainder of 2^64 by the number of buckets. */
  lemma SamplingAccuracy(m: Match, req: Request, hash: string -> Hash, roll: real)
    requires HasValue(m, req) && 0.0 < m.proportion
    ensures Sample(m, req, hash, roll)
       <==> hash(req.Value(HashedValue(m.sampler).value)) % 1000000 <= (m.proportion * 1000000.0).Floor
    ensures m.proportion < 1.0 ==>
              var n := |SamplingHashes(m, req, roll)| as real;
              var all, q, r := 18446744073709551616.0, 18446744073709.0, 551616.0;
              && all == 1000000.0 * q + r
              && m.proportion * all < n <= m.proportion * all + q + r
  {
    if m.proportion < 1.0 {
      assert SamplingHashes(m, req, roll) == Accepted(m.proportion, TWO_TO_64);
      AccuracyOfBuckets(m.proportion);
    }
  }

  lemma DrawTaken(p: real, j: nat, n: nat)
    requires n > 0
    ensures j as real / n as real <= p <==> j <= (p * n as real).Floor
  {
    assert j as real / n as real * n as real == j as real;
  }

  /** How many of the first `k` of `n` draws spaced evenly from 0 on the match takes. */
  ghost function Taken(m: Match, req: Request, hash: string -> Hash, n: nat, k: nat): nat
    requires n > 0
  {
    if k == 0 then 0
    else Taken(m, req, hash, n, k - 1) + if Sample(m, req, hash, (k - 1) as real / n as real) then 1 else 0
  }

  lemma {:induction false} TakenUpTo(m: Match, req: Request, hash: string -> Hash, n: nat, k: nat)
    requires HashedValue(m.sampler).None? && 0.0 <= m.proportion && n > 0
    ensures Taken(m, req, hash, n, k) == Min(k, (m.proportion * n as real).Floor + 1)
  {
    if k > 0 {
      TakenUpTo(m, req, hash, n, k - 1);
      DrawTaken(m.proportion, k - 1, n);
    }
  }

  lemma FloorBelow(p: real, n: nat)
    requires 0.0 <= p < 1.0 && n > 0
    ensures (p * n as real).Floor + 1 <= n
  {
    assert p * n as real < 1.0 * n as real;
  }

  /** The random sampler takes the proportion of all draws: out of `n` draws spaced evenly from 0 on, the share taken
      exceeds p by no more than one draw. */
  lemma RandomAccuracy(m: Match, req: Request, hash: string -> Hash, n: nat)
    requires HashedValue(m.sampler).None? && 0.0 <= m.proportion < 1.0 && n > 0
    ensures m.proportion * n as real < Taken(m, req, hash, n, n) as real <= m.proportion * n as real + 1.0
  {
    TakenUpTo(m, req, hash, n, n);
    FloorBelow(m.proportion, n);
  }

  /** A larger proportion accepts every request that a smaller one accepts, whatever the sampler, the draw being the
      same. */
  lemma SampleMonotone(m: Match, p: real, req: Request, hash: string -> Hash, roll: real)
    requires m.proportion <= p && Sample(m, req, hash, roll)
    ensures Sample(m.(proportion := p), req, hash, roll)
  {
  }

  /** Proportion 0 lets only blank values through a hashing sampler, proportion 1 everything. */
  lemma SampleExtremes(v: string, hash: string -> Hash)
    ensures HashSample(v, 0.0, hash) <==> v == ""
    ensures HashSample(v, 1.0, hash)
  {
  }
}
