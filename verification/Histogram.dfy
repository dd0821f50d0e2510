/**
 The latency histogram of the benchmark client (bench/hist.go): exact below 64, then 32
 buckets for each power of two up to 2^46. Counts and totals are unbounded here; the sum
 wraps at 64 bits. The percentile argument is an exact real.
 */
module Histogram {
  import opened Words

  const SUB: nat := 32
  const LINEAR: nat := 64
  const MAX_EXP: nat := 40
  const BUCKETS: nat := 1344
  const LIMIT: nat := 0x4000_0000_0000

  /** `bits.Len64`. */
  function Len(v: nat): nat {
    if v == 0 then 0 else 1 + Len(v / 2)
  }

  function Index(v: nat): int {
    if v < LINEAR then v
    else
      LenBig(v);
      var exp := Len(v) - 6;
      if exp > MAX_EXP then BUCKETS - 1 else LINEAR + (exp - 1) * SUB + v / Pow2(exp) - SUB
  }

  /** The upper edge of a bucket. */
  function Value(i: nat): nat
    requires i < BUCKETS
  {
    if i < LINEAR then i
    else
      var exp := (i - LINEAR) / SUB + 1;
      var sub := (i - LINEAR) % SUB + SUB;
      (sub + 1) * Pow2(exp) - 1
  }

  // ---- Buckets ----------------------------------------------------------------------

  lemma {:induction false} LenBounds(v: nat)
    requires v > 0
    ensures Len(v) >= 1 && Pow2(Len(v) - 1) <= v < Pow2(Len(v))
  {
    if v > 1 {
      LenBounds(v / 2);
    }
  }

  lemma LenBig(v: nat)
    requires v >= LINEAR
    ensures Len(v) >= 7
  {
    assert Pow2(6) == 64;
    LenBounds(v);
    if Len(v) < 7 {
      Pow2Monotone(Len(v), 6);
    }
  }

  lemma LenUnique(v: nat, n: nat)
    requires n >= 1 && Pow2(n - 1) <= v < Pow2(n)
    ensures Len(v) == n
  {
    LenBounds(v);
    if Len(v) < n {
      Pow2Monotone(Len(v), n - 1);
    } else if Len(v) > n {
      Pow2Monotone(n, Len(v) - 1);
    }
  }

  /** `v` has leading part `s` at exponent `e`: bucket `s` of the 32 of its power of two. */
  ghost predicate InBucket(v: nat, e: nat, s: nat) {
    e >= 1 && SUB <= s < 2 * SUB && s * Pow2(e) <= v < (s + 1) * Pow2(e)
  }

  lemma SmallPowers(e: nat)
    ensures Pow2(e + 5) == 32 * Pow2(e) && Pow2(e + 6) == 64 * Pow2(e)
  {
    Pow2Add(e, 5);
    Pow2Add(e, 6);
    assert Pow2(5) == 32;
  }

  /** Every value from 64 on is in one bucket. */
  lemma BucketOf(v: nat) returns (e: nat, s: nat)
    requires v >= LINEAR
    ensures InBucket(v, e, s) && e == Len(v) - 6
  {
    LenBounds(v);
    LenBig(v);
    e := Len(v) - 6;
    SmallPowers(e);
    hide Pow2;
    s := v / Pow2(e);
    Quotient(v, Pow2(e));
  }

  lemma Quotient(v: nat, p: nat)
    requires p > 0 && 32 * p <= v < 64 * p
    ensures 32 <= v / p < 64 && (v / p) * p <= v < (v / p + 1) * p
  {
    var q := v / p;
    assert v == q * p + v % p;
    assert (q + 1) * p == q * p + p;
    if q < 32 {
      Times(q + 1, 32, p);
    }
    if q >= 64 {
      Times(64, q, p);
    }
  }

  lemma Times(a: nat, b: nat, p: nat)
    requires a <= b
    ensures a * p <= b * p
  {
    assert (b - a) * p == b * p - a * p;
  }

  lemma BucketFixes(v: nat, e: nat, s: nat)
    requires InBucket(v, e, s)
    ensures Len(v) == e + 6 && v / Pow2(e) == s && v >= LINEAR
  {
    SmallPowers(e);
    Times(32, s, Pow2(e));
    Times(s + 1, 64, Pow2(e));
    LenUnique(v, e + 6);
    Pow2Monotone(1, e);
    hide Pow2;
    QuotientIs(v, Pow2(e), s);
  }

  lemma QuotientIs(v: nat, p: nat, s: nat)
    requires p > 0 && s * p <= v < (s + 1) * p
    ensures v / p == s
  {
    var q := v / p;
    assert v == q * p + v % p;
    assert (q + 1) * p == q * p + p;
    if q < s {
      Times(q + 1, s, p);
    } else if q > s {
      Times(s + 1, q, p);
    }
  }

  lemma LimitIsPow2()
    ensures Pow2(46) == LIMIT
  {
    Power32();
    assert Pow2(14) == 16384;
    hide Pow2;
    Pow2Add(32, 14);
  }

  /** The exponents that have buckets are those of the values below 2^46. */
  lemma ExponentLimit(v: nat, e: nat, s: nat)
    requires InBucket(v, e, s)
    ensures e <= MAX_EXP <==> v < LIMIT
  {
    BucketFixes(v, e, s);
    LenBounds(v);
    LimitIsPow2();
    if e <= MAX_EXP {
      Pow2Monotone(Len(v), 46);
    } else {
      Pow2Monotone(46, Len(v) - 1);
    }
  }

  lemma IndexInBucket(v: nat, e: nat, s: nat)
    requires InBucket(v, e, s)
    ensures Index(v) == if v < LIMIT then LINEAR + (e - 1) * SUB + s - SUB else BUCKETS - 1
    ensures v < LIMIT ==> 0 <= Index(v) < BUCKETS && Value(Index(v)) == (s + 1) * Pow2(e) - 1
  {
    BucketFixes(v, e, s);
    ExponentLimit(v, e, s);
    hide Pow2;
    hide Len;
  }

  lemma IndexBound(v: nat)
    ensures 0 <= Index(v) < BUCKETS
  {
    if v >= LINEAR {
      var e, s := BucketOf(v);
      IndexInBucket(v, e, s);
    }
  }

  /** A reported value never falls short of a sample below 2^46, nor exceeds it by more than one part in 32; beyond, it falls short. */
  lemma EdgeIsClose(v: nat)
    ensures 0 <= Index(v) < BUCKETS
    ensures v < LIMIT ==> v <= Value(Index(v)) && 32 * (Value(Index(v)) - v) <= v
    ensures v >= LIMIT ==> Value(Index(v)) == LIMIT - 1 < v
  {
    IndexBound(v);
    if v >= LIMIT {
      LastEdge();
      var e, s := BucketOf(v);
      IndexInBucket(v, e, s);
    } else if v >= LINEAR {
      var e, s := BucketOf(v);
      IndexInBucket(v, e, s);
      Times(32, s, Pow2(e));
      assert (s + 1) * Pow2(e) == s * Pow2(e) + Pow2(e);
    }
  }

  lemma LastEdge()
    ensures Value(BUCKETS - 1) == LIMIT - 1
  {
    LimitIsPow2();
    Pow2Add(40, 6);
    assert Pow2(6) == 64;
  }

  /** The edge of a bucket is in the bucket. */
  lemma IndexUndoesValue(i: nat)
    requires i < BUCKETS
    ensures Index(Value(i)) == i
  {
    if i >= LINEAR {
      var e, s := (i - LINEAR) / SUB + 1, (i - LINEAR) % SUB + SUB;
      assert (s + 1) * Pow2(e) == s * Pow2(e) + Pow2(e);
      assert InBucket(Value(i), e, s);
      IndexInBucket(Value(i), e, s);
      ExponentLimit(Value(i), e, s);
    }
  }

  lemma BucketsInOrder(v: nat, e: nat, s: nat, w: nat, f: nat, t: nat)
    requires v <= w && InBucket(v, e, s) && InBucket(w, f, t)
    ensures e < f || (e == f && s <= t)
  {
    BucketFixes(v, e, s);
    BucketFixes(w, f, t);
    LenMonotone(v, w);
    hide Len;
    if e == f && s > t {
      Times(t + 1, s, Pow2(e));
    }
  }

  /** Larger samples go to the same bucket or a later one. */
  lemma IndexMonotone(v: nat, w: nat)
    requires v <= w
    ensures Index(v) <= Index(w)
  {
    hide InBucket;
    hide Len;
    hide Pow2;
    IndexBound(v);
    if v >= LINEAR && w < LIMIT {
      var e, s := BucketOf(v);
      var f, t := BucketOf(w);
      IndexInBucket(v, e, s);
      IndexInBucket(w, f, t);
      BucketsInOrder(v, e, s, w, f, t);
      BucketBounds(v, e, s);
      BucketBounds(w, f, t);
      hide Index;
    } else if w >= LINEAR {
      var f, t := BucketOf(w);
      IndexInBucket(w, f, t);
      BucketBounds(w, f, t);
    }
  }

  lemma BucketBounds(v: nat, e: nat, s: nat)
    requires InBucket(v, e, s)
    ensures e >= 1 && SUB <= s < 2 * SUB
  {
  }

  lemma LenMonotone(v: nat, w: nat)
    requires 0 < v <= w
    ensures Len(v) <= Len(w)
  {
    LenBounds(v);
    LenBounds(w);
    var n: nat := Len(v) - 1;
    if Len(w) <= n {
      Pow2Monotone(Len(w), n);
    }
  }

  // ---- Samples and ranks ------------------------------------------------------------

  /** How many of the samples satisfy `p`. */
  function Tally(samples: seq<nat>, p: nat -> bool): nat {
    if samples == [] then 0 else Tally(samples[..|samples| - 1], p) + if p(samples[|samples| - 1]) then 1 else 0
  }

  function AtMost(samples: seq<nat>, x: nat): nat {
    Tally(samples, (v: nat) => v <= x)
  }

  function Below(samples: seq<nat>, x: nat): nat {
    Tally(samples, (v: nat) => v < x)
  }

  /** Samples in bucket `i`, and in the buckets before it. */
  function InIndex(samples: seq<nat>, i: nat): nat {
    Tally(samples, (v: nat) => Index(v) == i)
  }

  function BeforeIndex(samples: seq<nat>, i: nat): nat {
    Tally(samples, (v: nat) => Index(v) < i)
  }

  lemma {:induction false} TallyLe(samples: seq<nat>, p: nat -> bool, q: nat -> bool)
    requires forall v :: v in samples && p(v) ==> q(v)
    ensures Tally(samples, p) <= Tally(samples, q)
  {
    if samples != [] {
      TallyLe(samples[..|samples| - 1], p, q);
      assert samples[|samples| - 1] in samples;
    }
  }

  lemma {:induction false} TallySplit(samples: seq<nat>, p: nat -> bool, q: nat -> bool, r: nat -> bool)
    requires forall v :: v in samples ==> (r(v) <==> p(v) || q(v)) && !(p(v) && q(v))
    ensures Tally(samples, r) == Tally(samples, p) + Tally(samples, q)
  {
    if samples != [] {
      TallySplit(samples[..|samples| - 1], p, q, r);
      assert samples[|samples| - 1] in samples;
    }
  }

  lemma {:induction false} TallyConcat(a: seq<nat>, b: seq<nat>, p: nat -> bool)
    ensures Tally(a + b, p) == Tally(a, p) + Tally(b, p)
  {
    if b == [] {
      assert a + b == a;
    } else {
      assert (a + b)[..|a + b| - 1] == a + b[..|b| - 1];
      TallyConcat(a, b[..|b| - 1], p);
    }
  }

  lemma {:induction false} TallyAll(samples: seq<nat>, p: nat -> bool)
    requires forall v :: v in samples ==> p(v)
    ensures Tally(samples, p) == |samples|
  {
    if samples != [] {
      TallyAll(samples[..|samples| - 1], p);
      assert samples[|samples| - 1] in samples;
    }
  }

  lemma {:induction false} TallyNone(samples: seq<nat>, p: nat -> bool)
    requires forall v :: v in samples ==> !p(v)
    ensures Tally(samples, p) == 0
  {
    if samples != [] {
      TallyNone(samples[..|samples| - 1], p);
      assert samples[|samples| - 1] in samples;
    }
  }

  function Largest(samples: seq<nat>): nat {
    if samples == [] then 0 else Max(Largest(samples[..|samples| - 1]), samples[|samples| - 1])
  }

  lemma {:induction false} LargestIs(samples: seq<nat>)
    ensures forall v :: v in samples ==> v <= Largest(samples)
    ensures samples != [] ==> Largest(samples) in samples
  {
    if samples != [] {
      var n := |samples| - 1;
      var init, last := samples[..n], samples[n];
      LargestIs(init);
      assert Largest(samples) == Max(Largest(init), last);
      hide Largest;
      assert samples == init + [last];
      forall v | v in samples ensures v <= Largest(samples) {
        assert v in init || v == last;
      }
      if init == [] {
        assert Largest([]) == 0 by { LargestOfNone(); }
      }
    }
  }

  lemma LargestOfNone()
    ensures Largest([]) == 0
  {
  }

  lemma {:induction false} LargestConcat(a: seq<nat>, b: seq<nat>)
    ensures Largest(a + b) == Max(Largest(a), Largest(b))
  {
    if b == [] {
      assert a + b == a;
    } else {
      assert (a + b)[..|a + b| - 1] == a + b[..|b| - 1];
      LargestConcat(a, b[..|b| - 1]);
    }
  }

  /** `x` is the sample at rank `r`: the one at index `r` once the samples are sorted. */
  ghost predicate IsAtRank(samples: seq<nat>, r: nat, x: nat) {
    x in samples && Below(samples, x) <= r < AtMost(samples, x)
  }

  /** There is exactly one sample at each rank. */
  lemma RankUnique(samples: seq<nat>, r: nat, x: nat, y: nat)
    requires IsAtRank(samples, r, x) && IsAtRank(samples, r, y)
    ensures x == y
  {
    if x < y {
      TallyLe(samples, (v: nat) => v <= x, (v: nat) => v < y);
    } else if y < x {
      TallyLe(samples, (v: nat) => v <= y, (v: nat) => v < x);
    }
  }

  lemma RankExists(samples: seq<nat>, r: nat) returns (x: nat)
    requires r < |samples|
    ensures IsAtRank(samples, r, x)
  {
    LargestIs(samples);
    TallyAll(samples, (v: nat) => v <= Largest(samples));
    x := LeastRank(samples, r, Largest(samples));
  }

  /** Going down from a value that enough samples do not exceed. */
  lemma {:induction false} LeastRank(samples: seq<nat>, r: nat, from: nat) returns (x: nat)
    requires r < AtMost(samples, from)
    ensures IsAtRank(samples, r, x)
    decreases from
  {
    if Below(samples, from) <= r {
      x := from;
      if from !in samples {
        TallyLe(samples, (v: nat) => v <= from, (v: nat) => v < from);
      }
    } else {
      if from == 0 {
        TallyNone(samples, (v: nat) => v < from);
      } else {
        TallyLe(samples, (v: nat) => v < from, (v: nat) => v <= from - 1);
        x := LeastRank(samples, r, from - 1);
      }
    }
  }

  /** The first bucket at which the running count passes rank `r` is the bucket of the sample at that rank. */
  lemma BucketOfRank(samples: seq<nat>, r: nat, x: nat, i: nat)
    requires IsAtRank(samples, r, x)
    ensures r < BeforeIndex(samples, i + 1) <==> Index(x) <= i
  {
    hide Index;
    if Index(x) <= i {
      forall v | v in samples && v <= x ensures Index(v) < i + 1 {
        IndexMonotone(v, x);
      }
      TallyLe(samples, (v: nat) => v <= x, (v: nat) => Index(v) < i + 1);
    } else {
      forall v | v in samples && Index(v) < i + 1 ensures v < x {
        if x <= v {
          IndexMonotone(x, v);
        }
      }
      TallyLe(samples, (v: nat) => Index(v) < i + 1, (v: nat) => v < x);
    }
  }

  // ---- The histogram ----------------------------------------------------------------

  function Sum(samples: seq<nat>): nat {
    if samples == [] then 0 else Sum(samples[..|samples| - 1]) + samples[|samples| - 1]
  }

  lemma {:induction false} SumConcat(a: seq<nat>, b: seq<nat>)
    ensures Sum(a + b) == Sum(a) + Sum(b)
  {
    if b == [] {
      assert a + b == a;
    } else {
      assert (a + b)[..|a + b| - 1] == a + b[..|b| - 1];
      SumConcat(a, b[..|b| - 1]);
    }
  }

  const TWO64: nat := 0x1_0000_0000_0000_0000

  /** What the fields say about the samples recorded so far, in any order. */
  ghost predicate Summarises(counts: seq<nat>, total: nat, max: nat, sum: nat, samples: seq<nat>) {
    && |counts| == BUCKETS && (forall i: nat :: i < BUCKETS ==> counts[i] == InIndex(samples, i))
    && total == |samples| && max == Largest(samples) && sum == Sum(samples) % TWO64
  }

  lemma SummaryOfBoth(samples: seq<nat>, more: seq<nat>, i: nat)
    ensures InIndex(samples + more, i) == InIndex(samples, i) + InIndex(more, i)
    ensures Largest(samples + more) == Max(Largest(samples), Largest(more))
    ensures Sum(samples + more) % TWO64 == (Sum(samples) % TWO64 + Sum(more) % TWO64) % TWO64
  {
    hide Index;
    hide Tally;
    hide Largest;
    TallyConcat(samples, more, (v: nat) => Index(v) == i);
    LargestConcat(samples, more);
    SumConcat(samples, more);
    SumMod(Sum(samples), Sum(more));
  }

  lemma SumMod(a: nat, b: nat)
    ensures (a + b) % TWO64 == (a % TWO64 + b % TWO64) % TWO64
  {
  }

  lemma OneSample(v: nat, i: nat)
    ensures InIndex([v], i) == (if Index(v) == i then 1 else 0) && Largest([v]) == v && Sum([v]) == v
  {
    hide Index;
    assert [v][..0] == [];
    var p := (w: nat) => Index(w) == i;
    assert Tally([v], p) == Tally([], p) + if p(v) then 1 else 0;
  }

  lemma SummaryAfterOne(counts: seq<nat>, total: nat, max: nat, sum: nat, samples: seq<nat>, v: nat)
    requires Summarises(counts, total, max, sum, samples)
    ensures |counts| == BUCKETS && 0 <= Index(v) < BUCKETS
    ensures Summarises(counts[Index(v) := counts[Index(v)] + 1], total + 1, Max(max, v), (sum + v) % TWO64, samples + [v])
  {
    hide Index;
    hide InIndex;
    hide Largest;
    hide Sum;
    IndexBound(v);
    forall i: nat | i < BUCKETS ensures InIndex(samples + [v], i) == InIndex(samples, i) + if i == Index(v) then 1 else 0 {
      SummaryOfBoth(samples, [v], i);
      OneSample(v, i);
    }
    SummaryOfBoth(samples, [v], 0);
    OneSample(v, 0);
    SumMod(sum, v);
  }

  /** The rank that `percentile` asks for: the whole part of that percentage of the total, and at most the last. */
  function Rank(p: real, total: nat): (r: nat)
    requires p >= 0.0 && total > 0
    ensures r < total
    ensures p < 100.0 ==> r as real <= p / 100.0 * total as real < r as real + 1.0
    ensures p >= 100.0 ==> r == total - 1
  {
    Share(p / 100.0, total as real);
    var want := (p / 100.0 * total as real).Floor;
    if want >= total then total - 1 else want
  }

  lemma Share(part: real, whole: real)
    requires part >= 0.0 && whole > 0.0
    ensures part * whole >= 0.0
    ensures part < 1.0 <==> part * whole < whole
  {
    assert (1.0 - part) * whole == whole - part * whole;
    if part < 1.0 {
      assert (1.0 - part) * whole > 0.0;
    } else {
      assert (part - 1.0) * whole >= 0.0;
    }
  }

  class Hist {
    const counts: array<nat>
    var total: nat
    var max: nat
    var sum: nat

    ghost var samples: seq<nat>

    ghost predicate Valid()
      reads this, counts
    {
      Summarises(counts[..], total, max, sum, samples)
    }

    constructor ()
      ensures Valid() && fresh(counts) && samples == []
    {
      counts := new nat[BUCKETS](_ => 0);
      total, max, sum, samples := 0, 0, 0, [];
    }

    /** `record`: a negative duration counts as zero. */
    method Record(d: int)
      requires Valid()
      modifies this, counts
      ensures Valid() && samples == old(samples) + [if d > 0 then d else 0]
    {
      hide Index;
      hide Summarises;
      var v: nat := if d > 0 then d else 0;
      SummaryAfterOne(counts[..], total, max, sum, samples, v);
      ghost var before := counts[..];
      counts[Index(v)] := counts[Index(v)] + 1;
      assert counts[..] == before[Index(v) := before[Index(v)] + 1];
      total := total + 1;
      sum := (sum + v) % TWO64;
      if v > max {
        max := v;
      }
      samples := samples + [v];
    }

    /** `merge`, also with itself: the counts that are added are read beforehand. */
    method Merge(o: Hist)
      requires Valid() && o.Valid() && (o == this || o.counts != counts)
      modifies this, counts
      ensures Valid() && samples == old(samples) + old(o.samples)
    {
      hide Index;
      hide Tally;
      hide Largest;
      hide Sum;
      ghost var more := o.samples;
      forall i: nat | i < BUCKETS ensures InIndex(samples + more, i) == InIndex(samples, i) + InIndex(more, i) {
        SummaryOfBoth(samples, more, i);
      }
      SummaryOfBoth(samples, more, 0);
      hide InIndex;
      var added := o.counts[..];
      var oTotal, oSum, oMax := o.total, o.sum, o.max;
      for i := 0 to BUCKETS
        invariant counts.Length == BUCKETS && |added| == BUCKETS
        invariant forall j: nat :: j < BUCKETS ==> counts[j] == old(counts[j]) + if j < i then added[j] else 0
        modifies counts
      {
        counts[i] := counts[i] + added[i];
      }
      total := total + oTotal;
      sum := (sum + oSum) % TWO64;
      if oMax > max {
        max := oMax;
      }
      samples := samples + more;
    }

    /**
     `percentile`: never below the exact sample at that rank and at most one part in 32
     above it, exactly for samples below 2^46; a larger one is reported as 2^46 - 1.
     */
    method Percentile(p: real) returns (r: nat)
      requires Valid() && p >= 0.0
      ensures samples == [] ==> r == 0
      ensures samples != [] ==> total > 0 && forall x: nat :: IsAtRank(samples, Rank(p, total), x) ==> (x <= r <==> x < LIMIT)
      ensures samples != [] ==> forall x: nat :: IsAtRank(samples, Rank(p, total), x) && x < LIMIT ==> 32 * (r - x) <= x && r <= max
      ensures samples != [] ==> forall x: nat :: IsAtRank(samples, Rank(p, total), x) && x >= LIMIT ==> r == LIMIT - 1
    {
      hide Index;
      hide Tally;
      hide Value;
      if total == 0 {
        return 0;
      }
      var want := Rank(p, total);
      ghost var x := RankExists(samples, want);
      OnlyRank(samples, want, x);
      EdgeIsClose(x);
      LargestIs(samples);
      hide IsAtRank;
      NoneBefore(samples);
      var seen := 0;
      for i := 0 to BUCKETS
        invariant seen == BeforeIndex(samples, i)
        invariant i <= Index(x)
      {
        NextIndex(samples, i);
        seen := seen + counts[i];
        BucketOfRank(samples, want, x, i);
        if seen > want {
          r := if Value(i) < max then Value(i) else max;
          return;
        }
      }
      return max;
    }
  }

  lemma OnlyRank(samples: seq<nat>, r: nat, x: nat)
    requires IsAtRank(samples, r, x)
    ensures forall y :: IsAtRank(samples, r, y) ==> y == x
  {
    forall y | IsAtRank(samples, r, y) ensures y == x {
      RankUnique(samples, r, x, y);
    }
  }

  lemma NoneBefore(samples: seq<nat>)
    ensures BeforeIndex(samples, 0) == 0
  {
    forall v | v in samples ensures !(Index(v) < 0) {
      IndexBound(v);
    }
    TallyNone(samples, (v: nat) => Index(v) < 0);
  }

  lemma NextIndex(samples: seq<nat>, i: nat)
    ensures BeforeIndex(samples, i + 1) == BeforeIndex(samples, i) + InIndex(samples, i)
  {
    hide Index;
    TallySplit(samples, (v: nat) => Index(v) < i, (v: nat) => Index(v) == i, (v: nat) => Index(v) < i + 1);
  }
}
