/** The p95 estimate from a Prometheus histogram's cumulative buckets, against the
    true nearest-rank p95 of observations the buckets were counted from. */
module Histogram {
  import opened Bytes
  import opened Ordering

  /** A bucket's upper bound; `+Inf` is a bound of its own. */
  datatype Bound = Finite(v: real) | Inf

  predicate BoundLe(a: Bound, b: Bound) {
    b.Inf? || (a.Finite? && a.v <= b.v)
  }

  /** The `le` label: absent or empty, not a number, or a bound. */
  datatype LeLabel = Missing | Unparsable | Parsed(bound: Bound)
  datatype Sample = Sample(name: string, le: LeLabel, value: real)
  datatype Bucket = Bucket(le: Bound, count: real)

  const QUANTILE: real := 0.95

  /** The bucket samples of one histogram, in the order given. */
  function BucketsOf(samples: seq<Sample>, bucketName: string): seq<Bucket> {
    if samples == [] then []
    else
      var init, s := BucketsOf(samples[..|samples| - 1], bucketName), samples[|samples| - 1];
      if s.name == bucketName && s.le.Parsed? then init + [Bucket(s.le.bound, s.value)] else init
  }

  /** Which samples count: those of this name with a bound, each one bucket, in order. */
  lemma {:induction false} BucketsOfIs(a: seq<Sample>, b: seq<Sample>, x: Sample, name: string)
    ensures BucketsOf([], name) == [] && BucketsOf(a + b, name) == BucketsOf(a, name) + BucketsOf(b, name)
    ensures BucketsOf([x], name) ==
      if x.name == name && x.le.Parsed? then [Bucket(x.le.bound, x.value)] else []
    decreases |b|
  {
    assert [x][..0] == [];
    if b == [] {
      assert a + b == a && BucketsOf(a, name) + BucketsOf(b, name) == BucketsOf(a, name);
    } else {
      BucketsOfIs(a, b[..|b| - 1], x, name);
      assert (a + b)[..|a + b| - 1] == a + b[..|b| - 1];
    }
  }

  predicate BucketLe(a: Bucket, b: Bucket) {
    BoundLe(a.le, b.le)
  }

  /** `list.sort(key=le)`. */
  function SortBuckets(bs: seq<Bucket>): seq<Bucket> {
    StableSort(bs, BucketLe)
  }

  ghost predicate Ascending(bs: seq<Bucket>) {
    SortedBy(bs, BucketLe)
  }

  // ---------------------------------------------------------------------
  // The estimate
  // ---------------------------------------------------------------------

  function Target(bs: seq<Bucket>): real
    requires bs != []
  {
    QUANTILE * bs[|bs| - 1].count
  }

  /** The first bucket whose cumulative count reaches the target. */
  ghost predicate Crosses(bs: seq<Bucket>, i: nat) {
    i < |bs| && bs[i].count >= Target(bs) && forall j :: 0 <= j < i ==> bs[j].count < Target(bs)
  }

  function LowerBound(bs: seq<Bucket>, i: nat): Bound
    requires i < |bs|
  {
    if i == 0 then Finite(0.0) else bs[i - 1].le
  }

  function LowerCount(bs: seq<Bucket>, i: nat): real
    requires i < |bs|
  {
    if i == 0 then 0.0 else bs[i - 1].count
  }

  /** `histogram_quantile`'s rule inside the bucket that crosses: the point at the
      same fraction of the bucket as the target is of its count; an unbounded
      bucket answers with its lower bound, unless nothing was counted below it. */
  ghost predicate EstimatesIn(bs: seq<Bucket>, i: nat, r: Bound)
    requires i < |bs|
  {
    var lower, upper := LowerBound(bs, i), bs[i].le;
    if upper.Inf? then r == if LowerCount(bs, i) > 0.0 then lower else Inf
    else
      r.Finite? && lower.Finite? &&
      (r.v - lower.v) * (bs[i].count - LowerCount(bs, i)) == (Target(bs) - LowerCount(bs, i)) * (upper.v - lower.v)
  }

  /** The rule in numbers: 95% of the last count is looked for; the first bucket to reach
      it answers by linear interpolation from its lower bound, 0 for the first; the
      unbounded bucket answers with the bound below it, or itself if nothing is below. */
  lemma EstimateIs(bs: seq<Bucket>, i: nat, r: Bound)
    requires Crosses(bs, i) && EstimatesIn(bs, i, r)
    ensures var target := 0.95 * bs[|bs| - 1].count;
      var lower, below := if i == 0 then Finite(0.0) else bs[i - 1].le, if i == 0 then 0.0 else bs[i - 1].count;
      bs[i].count >= target && (forall j :: 0 <= j < i ==> bs[j].count < target) &&
      (bs[i].le.Inf? ==> r == if below > 0.0 then lower else Inf) &&
      (bs[i].le.Finite? && lower.Finite? && bs[i].count > below ==>
         r == Finite(lower.v + (bs[i].le.v - lower.v) * ((target - below) / (bs[i].count - below))))
  {
    if bs[i].le.Finite? && LowerBound(bs, i).Finite? && bs[i].count > LowerCount(bs, i) {
      var lower, below := LowerBound(bs, i).v, LowerCount(bs, i);
      Interpolates(r.v - lower, bs[i].le.v - lower, Target(bs) - below, bs[i].count - below);
    }
  }

  lemma Interpolates(part: real, width: real, above: real, count: real)
    requires count > 0.0 && part * count == above * width
    ensures part == width * (above / count)
  {
    FractionTimes(above / count, above, count, width);
    assert (part - width * (above / count)) * count == 0.0;
  }

  /** `_histogram_p95_seconds`. The division is by a positive count, and the loop
      always returns: the last bucket holds the total. */
  method HistogramP95(samples: seq<Sample>, histogramName: string) returns (r: Option<Bound>)
    ensures var bs := SortBuckets(BucketsOf(samples, histogramName + "_bucket"));
      (r.None? <==> bs == [] || bs[|bs| - 1].count <= 0.0) &&
      (r.Some? ==> exists i :: Crosses(bs, i) && EstimatesIn(bs, i, r.value))
  {
    var bucketName := histogramName + "_bucket";
    var found: seq<Bucket> := [];
    for i := 0 to |samples|
      invariant found == BucketsOf(samples[..i], bucketName)
    {
      assert samples[..i + 1][..i] == samples[..i];
      if samples[i].name == bucketName && samples[i].le.Parsed? {
        found := found + [Bucket(samples[i].le.bound, samples[i].value)];
      }
    }
    assert samples[..|samples|] == samples;
    var buckets := SortBuckets(found);
    if buckets == [] {
      return None;
    }
    StableSortSorts(found, BucketLe);
    var total := buckets[|buckets| - 1].count;
    if total <= 0.0 {
      return None;
    }
    r := Scan(buckets);
  }

  method Scan(buckets: seq<Bucket>) returns (r: Option<Bound>)
    requires buckets != [] && Ascending(buckets) && buckets[|buckets| - 1].count > 0.0
    ensures r.Some? && exists i :: Crosses(buckets, i) && EstimatesIn(buckets, i, r.value)
  {
    var target := QUANTILE * buckets[|buckets| - 1].count;
    var prevLe, prevCount := Finite(0.0), 0.0;
    r := None;
    for i := 0 to |buckets|
      invariant i > 0 ==> prevLe == buckets[i - 1].le && prevCount == buckets[i - 1].count
      invariant i == 0 ==> prevLe == Finite(0.0) && prevCount == 0.0
      invariant prevCount < target
      invariant forall j :: 0 <= j < i ==> buckets[j].count < target
    {
      var le, count := buckets[i].le, buckets[i].count;
      if count >= target {
        assert Crosses(buckets, i);
        if le == Inf || count == prevCount {
          return Some(if prevCount > 0.0 then prevLe else le);
        }
        assert i > 0 ==> BucketLe(buckets[i - 1], buckets[i]);
        var frac := (target - prevCount) / (count - prevCount);
        var e := prevLe.v + frac * (le.v - prevLe.v);
        FractionTimes(frac, target - prevCount, count - prevCount, le.v - prevLe.v);
        assert EstimatesIn(buckets, i, Finite(e));
        return Some(Finite(e));
      }
      prevLe, prevCount := le, count;
    }
    assert false;
  }

  lemma FractionTimes(frac: real, part: real, whole: real, width: real)
    requires whole != 0.0 && frac == part / whole
    ensures frac * width * whole == part * width
  {
    assert frac * whole == part;
    assert frac * width * whole == frac * whole * width;
  }

  // ---------------------------------------------------------------------
  // Against the observations
  // ---------------------------------------------------------------------

  function CountLe(obs: seq<real>, b: Bound): nat {
    if obs == [] then 0 else (if BoundLe(Finite(obs[0]), b) then 1 else 0) + CountLe(obs[1..], b)
  }

  function CountBelow(obs: seq<real>, x: real): nat {
    if obs == [] then 0 else (if obs[0] < x then 1 else 0) + CountBelow(obs[1..], x)
  }

  /** Buckets as Prometheus writes them: distinct ascending nonnegative bounds, each
      counting the observations up to it, the last counting all of them. */
  ghost predicate Counted(bs: seq<Bucket>, obs: seq<real>) {
    bs != [] && obs != [] &&
    (forall x :: x in obs ==> x >= 0.0) &&
    (bs[0].le.Finite? ==> bs[0].le.v >= 0.0) &&
    (forall i, j :: 0 <= i < j < |bs| ==> !BoundLe(bs[j].le, bs[i].le)) &&
    (forall i :: 0 <= i < |bs| ==> bs[i].count == CountLe(obs, bs[i].le) as real) &&
    CountLe(obs, bs[|bs| - 1].le) == |obs|
  }

  /** The nearest-rank p95: the observation at rank `ceil(0.95 n)`. */
  ghost predicate NearestRank(obs: seq<real>, p: real) {
    p in obs && (CountBelow(obs, p) as real) < QUANTILE * (|obs| as real) <= (CountLe(obs, Finite(p)) as real)
  }

  lemma {:induction false} BoundBelowCounts(obs: seq<real>, b: Bound, p: real)
    requires b.Finite? && b.v < p
    ensures CountLe(obs, b) <= CountBelow(obs, p)
  {
    if obs != [] {
      BoundBelowCounts(obs[1..], b, p);
    }
  }

  lemma {:induction false} CountLeMonotone(obs: seq<real>, a: Bound, b: Bound)
    requires BoundLe(a, b)
    ensures CountLe(obs, a) <= CountLe(obs, b)
  {
    if obs != [] {
      CountLeMonotone(obs[1..], a, b);
    }
  }

  /** The bucket that crosses the target holds the true p95. */
  lemma CrossingBucketHoldsP95(bs: seq<Bucket>, obs: seq<real>, i: nat, p: real)
    requires Counted(bs, obs) && Crosses(bs, i) && NearestRank(obs, p)
    ensures BoundLe(Finite(p), bs[i].le)
    ensures i > 0 ==> !BoundLe(Finite(p), bs[i - 1].le)
    ensures i == 0 ==> p >= 0.0
  {
    if !BoundLe(Finite(p), bs[i].le) {
      BoundBelowCounts(obs, bs[i].le, p);
    }
    if i > 0 && BoundLe(Finite(p), bs[i - 1].le) {
      CountLeMonotone(obs, Finite(p), bs[i - 1].le);
    }
  }

  lemma ProductNonneg(a: real, b: real)
    requires a >= 0.0 && b >= 0.0
    ensures a * b >= 0.0
  {
  }

  lemma NonnegFactor(a: real, b: real)
    requires b > 0.0 && a * b >= 0.0
    ensures a >= 0.0
  {
  }

  lemma BetweenBounds(e: real, lower: real, upper: real, part: real, whole: real)
    requires whole > 0.0 && 0.0 < part <= whole && lower <= upper
    requires (e - lower) * whole == part * (upper - lower)
    ensures lower <= e <= upper
  {
    ProductNonneg(upper - lower, part);
    ProductNonneg(upper - lower, whole - part);
    assert (e - lower) * whole >= 0.0;
    assert (upper - e) * whole == (upper - lower) * whole - (e - lower) * whole == (upper - lower) * (whole - part);
    NonnegFactor(e - lower, whole);
    NonnegFactor(upper - e, whole);
  }

  lemma FiniteEstimate(bs: seq<Bucket>, obs: seq<real>, i: nat, e: Bound)
    requires Counted(bs, obs) && Crosses(bs, i) && EstimatesIn(bs, i, e) && bs[i].le.Finite?
    ensures e.Finite? && LowerBound(bs, i).Finite? && LowerBound(bs, i).v <= e.v <= bs[i].le.v
  {
    hide CountLe;
    var lower := LowerBound(bs, i);
    assert i > 0 ==> !BoundLe(bs[i].le, bs[i - 1].le) && !BoundLe(bs[i].le, bs[0].le);
    BetweenBounds(e.v, lower.v, bs[i].le.v, Target(bs) - LowerCount(bs, i), bs[i].count - LowerCount(bs, i));
  }

  /** The estimate and the true p95 lie in the same bucket. With a finite bucket the
      error is at most its width; in the unbounded one the estimate is the largest
      finite bound, below which the true value cannot be. */
  lemma EstimateAccuracy(bs: seq<Bucket>, obs: seq<real>, i: nat, p: real, e: Bound)
    requires Counted(bs, obs) && NearestRank(obs, p)
    requires Crosses(bs, i) && EstimatesIn(bs, i, e)
    ensures BoundLe(LowerBound(bs, i), Finite(p)) && BoundLe(Finite(p), bs[i].le)
    ensures BoundLe(LowerBound(bs, i), e) && BoundLe(e, bs[i].le)
    ensures bs[i].le.Finite? ==>
      e.Finite? && LowerBound(bs, i).Finite? &&
      -(bs[i].le.v - LowerBound(bs, i).v) <= e.v - p <= bs[i].le.v - LowerBound(bs, i).v
    ensures bs[i].le.Inf? && LowerCount(bs, i) > 0.0 ==> e == LowerBound(bs, i) && e.Finite? && e.v < p
  {
    CrossingBucketHoldsP95(bs, obs, i, p);
    if bs[i].le.Finite? {
      FiniteEstimate(bs, obs, i, e);
    }
    hide Counted;
    hide NearestRank;
    hide Crosses;
  }

  /** There is one true p95: the definition above names a single value. */
  lemma NearestRankUnique(obs: seq<real>, p: real, q: real)
    requires NearestRank(obs, p) && NearestRank(obs, q)
    ensures p == q
  {
    if p < q {
      BoundBelowCounts(obs, Finite(p), q);
    } else if q < p {
      BoundBelowCounts(obs, Finite(q), p);
    }
  }

  lemma Members(obs: seq<real>)
    requires obs != []
    ensures obs[0] in obs && forall x :: x in obs <==> x == obs[0] || x in obs[1..]
  {
    assert obs == [obs[0]] + obs[1..];
  }

  lemma {:induction false} CountsAgree(obs: seq<real>, y: real, p: real)
    requires forall x :: x in obs ==> (x <= y <==> x < p)
    ensures CountLe(obs, Finite(y)) == CountBelow(obs, p)
  {
    if obs != [] {
      Members(obs);
      CountsAgree(obs[1..], y, p);
    }
  }

  /** The largest observation below `p`. */
  lemma {:induction false} LargestBelow(obs: seq<real>, p: real) returns (y: real)
    requires CountBelow(obs, p) > 0
    ensures y in obs && y < p && forall x :: x in obs && x < p ==> x <= y
  {
    Members(obs);
    if CountBelow(obs[1..], p) == 0 {
      y := obs[0];
      forall x | x in obs && x < p ensures x <= y {
        if x in obs[1..] {
          CountsSomething(obs[1..], x, p);
        }
      }
    } else {
      var z := LargestBelow(obs[1..], p);
      y := if obs[0] < p && obs[0] > z then obs[0] else z;
    }
  }

  lemma {:induction false} CountsSomething(obs: seq<real>, x: real, p: real)
    requires x in obs && x < p
    ensures CountBelow(obs, p) > 0
  {
    Members(obs);
    if obs[0] != x {
      CountsSomething(obs[1..], x, p);
    }
  }

  lemma {:induction false} NearestRankFrom(obs: seq<real>, p: real) returns (r: real)
    requires p in obs && QUANTILE * (|obs| as real) <= (CountLe(obs, Finite(p)) as real)
    ensures NearestRank(obs, r)
    decreases CountBelow(obs, p)
  {
    if (CountBelow(obs, p) as real) < QUANTILE * (|obs| as real) {
      r := p;
    } else {
      var y := LargestBelow(obs, p);
      CountsAgree(obs, y, p);
      StrictlyFewer(obs, y);
      r := NearestRankFrom(obs, y);
    }
  }

  lemma {:induction false} StrictlyFewer(obs: seq<real>, y: real)
    requires y in obs
    ensures CountBelow(obs, y) < CountLe(obs, Finite(y))
  {
    Members(obs);
    BelowAtMostLe(obs[1..], y);
    if obs[0] != y {
      StrictlyFewer(obs[1..], y);
    }
  }

  lemma {:induction false} BelowAtMostLe(obs: seq<real>, y: real)
    ensures CountBelow(obs, y) <= CountLe(obs, Finite(y))
  {
    if obs != [] {
      BelowAtMostLe(obs[1..], y);
    }
  }

  lemma {:induction false} LargestCountsAll(obs: seq<real>) returns (m: real)
    requires obs != []
    ensures m in obs && forall x :: x in obs ==> x <= m
  {
    m := obs[0];
    Members(obs);
    if |obs| > 1 {
      var z := LargestCountsAll(obs[1..]);
      m := if z > m then z else m;
    }
  }

  lemma {:induction false} AllCounted(obs: seq<real>, m: real)
    requires forall x :: x in obs ==> x <= m
    ensures CountLe(obs, Finite(m)) == |obs|
  {
    if obs != [] {
      Members(obs);
      AllCounted(obs[1..], m);
    }
  }

  /** Whatever was observed has a p95, and some bucket crosses the target, so the
      accuracy statement always has something to speak of. */
  lemma P95Exists(bs: seq<Bucket>, obs: seq<real>) returns (i: nat, p: real)
    requires Counted(bs, obs)
    ensures Crosses(bs, i) && NearestRank(obs, p)
  {
    i := SomeBucketCrosses(bs, 0);
    var m := LargestCountsAll(obs);
    AllCounted(obs, m);
    p := NearestRankFrom(obs, m);
  }

  lemma {:induction false} SomeBucketCrosses(bs: seq<Bucket>, k: nat) returns (i: nat)
    requires bs != [] && k < |bs| && bs[|bs| - 1].count > 0.0
    requires forall j :: 0 <= j < k ==> bs[j].count < Target(bs)
    ensures Crosses(bs, i)
    decreases |bs| - k
  {
    if bs[k].count >= Target(bs) {
      i := k;
    } else {
      i := SomeBucketCrosses(bs, k + 1);
    }
  }

  // ---------------------------------------------------------------------
  // Two label sets
  // ---------------------------------------------------------------------

  /** The same strictly ascending bounds. */
  ghost predicate SameBounds(a: seq<Bucket>, b: seq<Bucket>) {
    |a| == |b| > 0 && (forall i :: 0 <= i < |a| ==> a[i].le == b[i].le) &&
    forall i, j :: 0 <= i < j < |a| ==> BoundLe(a[i].le, a[j].le) && !BoundLe(a[j].le, a[i].le)
  }

  function Interleaved(a: seq<Bucket>, b: seq<Bucket>): (bs: seq<Bucket>)
    requires |a| == |b|
    ensures |bs| == 2 * |a|
    ensures forall i :: 0 <= i < |a| ==> bs[2 * i] == a[i] && bs[2 * i + 1] == b[i]
  {
    if a == [] then []
    else
      var n := |a| - 1;
      Interleaved(a[..n], b[..n]) + [a[n], b[n]]
  }

  lemma {:induction false} InsertBetween(front: seq<Bucket>, back: seq<Bucket>, x: Bucket)
    requires front == [] || BucketLe(front[|front| - 1], x)
    requires forall y :: y in back ==> !BucketLe(y, x)
    ensures InsertSorted(front + back, x, BucketLe) == front + [x] + back
  {
    if back == [] {
      assert front + back == front && front + [x] + back == front + [x];
    } else {
      var n := |back| - 1;
      assert back[n] in back;
      InsertBetween(front, back[..n], x);
      assert (front + back)[..|front + back| - 1] == front + back[..n];
      assert front + [x] + back == front + [x] + back[..n] + [back[n]];
    }
  }

  lemma {:induction false} SortedStays(bs: seq<Bucket>)
    requires forall i, j :: 0 <= i < j < |bs| ==> BoundLe(bs[i].le, bs[j].le)
    ensures SortBuckets(bs) == bs
  {
    if bs != [] {
      var n := |bs| - 1;
      SortedStays(bs[..n]);
      assert bs[..n] + [bs[n]] == bs;
    }
  }

  lemma SortNext(bs: seq<Bucket>, x: Bucket)
    ensures SortBuckets(bs + [x]) == InsertSorted(SortBuckets(bs), x, BucketLe)
  {
    assert (bs + [x])[..|bs + [x]| - 1] == bs;
  }

  lemma NextOut(front: seq<Bucket>, a: seq<Bucket>, k: nat)
    requires k < |a|
    ensures front + a[k..] == front + [a[k]] + a[k + 1..]
  {
  }

  lemma NextIn(a: seq<Bucket>, b: seq<Bucket>, k: nat)
    requires k < |b|
    ensures a + b[..k + 1] == a + b[..k] + [b[k]]
  {
  }

  lemma RestAbove(a: seq<Bucket>, b: seq<Bucket>, k: nat)
    requires SameBounds(a, b) && k < |a|
    ensures BucketLe(a[k], b[k]) && forall y :: y in a[k + 1..] ==> !BucketLe(y, b[k])
  {
  }

  lemma NoneIn(a: seq<Bucket>, b: seq<Bucket>)
    requires SameBounds(a, b)
    ensures SortBuckets(a + b[..0]) == Interleaved(a[..0], b[..0]) + a[0..]
  {
    SortedStays(a);
    assert a + b[..0] == a && Interleaved(a[..0], b[..0]) + a[0..] == a;
  }

  lemma {:induction false} SortInterleaves(a: seq<Bucket>, b: seq<Bucket>, n: nat)
    requires SameBounds(a, b) && n <= |a|
    ensures SortBuckets(a + b[..n]) == Interleaved(a[..n], b[..n]) + a[n..]
  {
    if n == 0 {
      NoneIn(a, b);
    } else {
      var k := n - 1;
      assert k < |b|;
      hide *;
      SortInterleaves(a, b, k);
      NextIn(a, b, k);
      SortNext(a + b[..k], b[k]);
      NextOut(Interleaved(a[..k], b[..k]), a, k);
      RestAbove(a, b, k);
      InsertBetween(Interleaved(a[..k], b[..k]) + [a[k]], a[n..], b[k]);
      InterleavedNext(a, b, n);
    }
  }

  lemma InterleavedNext(a: seq<Bucket>, b: seq<Bucket>, n: nat)
    requires 0 < n <= |a| == |b|
    ensures Interleaved(a[..n], b[..n]) == Interleaved(a[..n - 1], b[..n - 1]) + [a[n - 1]] + [b[n - 1]]
  {
    assert a[..n][..n - 1] == a[..n - 1] && b[..n][..n - 1] == b[..n - 1];
  }

  /** No label but `le` is looked at: the buckets of two label sets come out in turn. */
  lemma TwoSetsInterleave(a: seq<Bucket>, b: seq<Bucket>)
    requires SameBounds(a, b)
    ensures SortBuckets(a + b) == Interleaved(a, b)
  {
    SortInterleaves(a, b, |a|);
    assert b[..|a|] == b && a[..|a|] == a && Interleaved(a, b) + a[|a|..] == Interleaved(a, b);
  }

  /** What buckets over all the observations would count. */
  function Pooled(a: seq<Bucket>, b: seq<Bucket>): (bs: seq<Bucket>)
    requires |a| == |b|
    ensures |bs| == |a|
  {
    seq(|a|, i requires 0 <= i < |a| => Bucket(a[i].le, a[i].count + b[i].count))
  }

  lemma {:induction false} CountLeConcat(x: seq<real>, y: seq<real>, b: Bound)
    ensures CountLe(x + y, b) == CountLe(x, b) + CountLe(y, b)
  {
    if x == [] {
      assert x + y == y;
    } else {
      CountLeConcat(x[1..], y, b);
      assert (x + y)[1..] == x[1..] + y;
    }
  }

  lemma PooledCounts(a: seq<Bucket>, b: seq<Bucket>, x: seq<real>, y: seq<real>)
    requires SameBounds(a, b) && Counted(a, x) && Counted(b, y)
    ensures Counted(Pooled(a, b), x + y)
  {
    forall i | 0 <= i < |a| ensures CountLe(x + y, a[i].le) == CountLe(x, a[i].le) + CountLe(y, a[i].le) {
      CountLeConcat(x, y, a[i].le);
    }
    hide CountLe;
  }

  /** The bucket with bound number `i` holds `p`. */
  predicate Holds(bs: seq<Bucket>, i: nat, p: real)
    requires i < |bs|
  {
    BoundLe(Finite(p), bs[i].le) && (i > 0 ==> !BoundLe(Finite(p), bs[i - 1].le))
  }

  lemma NoneAbove(bs: seq<Bucket>, i: nat, j: nat, p: real)
    requires i < |bs| && j < |bs| && Holds(bs, i, p)
    requires forall i, j :: 0 <= i < j < |bs| ==> BoundLe(bs[i].le, bs[j].le)
    ensures Holds(bs, j, p) ==> j <= i
  {
    if i < j {
      assert i == j - 1 || BoundLe(bs[i].le, bs[j - 1].le);
      assert BoundLe(Finite(p), bs[j - 1].le);
    }
  }

  lemma HeldOnce(bs: seq<Bucket>, i: nat, j: nat, p: real)
    requires i < |bs| && j < |bs| && Holds(bs, i, p) && Holds(bs, j, p)
    requires forall i, j :: 0 <= i < j < |bs| ==> BoundLe(bs[i].le, bs[j].le)
    ensures i == j
  {
    NoneAbove(bs, i, j, p);
    NoneAbove(bs, j, i, p);
  }

  lemma CrossesOnce(bs: seq<Bucket>, i: nat, j: nat)
    requires bs != [] && Crosses(bs, i) && Crosses(bs, j)
    ensures i == j
  {
  }

  /** With two label sets the bucket answered from is the one that holds the p95 of all
      the observations exactly when it is also where the added counts cross: the code
      stops where one set alone reaches 95% of the second set's total. */
  lemma TwoSetsExactlyWhen(a: seq<Bucket>, b: seq<Bucket>, x: seq<real>, y: seq<real>, i: nat, p: real)
    requires SameBounds(a, b) && Counted(a, x) && Counted(b, y)
    requires Crosses(SortBuckets(a + b), i) && NearestRank(x + y, p)
    ensures i / 2 < |a| && (Holds(a, i / 2, p) <==> Crosses(Pooled(a, b), i / 2))
    ensures Target(SortBuckets(a + b)) == QUANTILE * (|y| as real)
  {
    TwoSetsInterleave(a, b);
    TargetOfSecond(a, b, y);
    PooledCounts(a, b, x, y);
    hide *;
    var all := Pooled(a, b);
    var j := PooledCrosses(all, x + y, p);
    assert i < |SortBuckets(a + b)| == 2 * |a| by {
      InBounds(SortBuckets(a + b), i);
    }
    SameHolds(a, b, j, p);
    if Holds(a, i / 2, p) {
      AscendingBounds(a, b);
      HeldOnce(a, i / 2, j, p);
    }
    if Crosses(all, i / 2) {
      CrossesOnce(all, i / 2, j);
    }
  }

  lemma InBounds(bs: seq<Bucket>, i: nat)
    requires Crosses(bs, i)
    ensures i < |bs|
  {
  }

  lemma SameHolds(a: seq<Bucket>, b: seq<Bucket>, i: nat, p: real)
    requires |a| == |b| && i < |a|
    ensures Holds(Pooled(a, b), i, p) <==> Holds(a, i, p)
  {
  }

  lemma AscendingBounds(a: seq<Bucket>, b: seq<Bucket>)
    requires SameBounds(a, b)
    ensures forall i, j :: 0 <= i < j < |a| ==> BoundLe(a[i].le, a[j].le)
  {
  }

  lemma TargetOfSecond(a: seq<Bucket>, b: seq<Bucket>, y: seq<real>)
    requires SameBounds(a, b) && Counted(b, y)
    ensures |b| == |a| > 0 && Target(Interleaved(a, b)) == QUANTILE * (|y| as real)
  {
    assert Interleaved(a, b)[2 * (|a| - 1) + 1] == b[|a| - 1];
    hide CountLe;
  }

  lemma PooledCrosses(bs: seq<Bucket>, obs: seq<real>, p: real) returns (j: nat)
    requires Counted(bs, obs) && NearestRank(obs, p)
    ensures Crosses(bs, j) && Holds(bs, j, p)
  {
    j := SomeBucketCrosses(bs, 0);
    CrossingBucketHoldsP95(bs, obs, j, p);
  }

  const SLOW: seq<Bucket> := [Bucket(Finite(0.1), 0.0), Bucket(Finite(10.0), 1.0), Bucket(Inf, 1.0)]
  const FAST: seq<Bucket> := [Bucket(Finite(0.1), 1.0), Bucket(Finite(10.0), 1.0), Bucket(Inf, 1.0)]

  /** One slow observation under one label set, one fast under the other: the answer is a
      tenth of a second, and the p95 of the two is five. */
  lemma TwoSetsMiss()
    ensures Counted(SLOW, [5.0]) && Counted(FAST, [0.05]) && NearestRank([5.0, 0.05], 5.0)
    ensures Crosses(SortBuckets(SLOW + FAST), 1) && EstimatesIn(SortBuckets(SLOW + FAST), 1, Finite(0.1))
  {
    TwoSetsInterleave(SLOW, FAST);
    OneCounted(SLOW, 5.0);
    OneCounted(FAST, 0.05);
    FirstTwo(SLOW, FAST);
    RankOfTwo();
    hide Interleaved;
    hide Counted;
    hide SortBuckets;
    hide NearestRank;
    AnswersTenth(SortBuckets(SLOW + FAST));
  }

  lemma AnswersTenth(bs: seq<Bucket>)
    requires |bs| > 1 && bs[|bs| - 1].count == 1.0
    requires bs[0] == Bucket(Finite(0.1), 0.0) && bs[1] == Bucket(Finite(0.1), 1.0)
    ensures Crosses(bs, 1) && EstimatesIn(bs, 1, Finite(0.1))
  {
  }

  lemma RankOfTwo()
    ensures NearestRank([5.0, 0.05], 5.0)
  {
    assert [5.0, 0.05][1..] == [0.05] && [0.05][1..] == [];
  }

  lemma FirstTwo(a: seq<Bucket>, b: seq<Bucket>)
    requires |a| == |b| > 0
    ensures var bs := Interleaved(a, b);
      bs[0] == a[0] && bs[1] == b[0] && bs[|bs| - 1] == b[|b| - 1]
  {
    assert Interleaved(a, b)[2 * 0] == a[0] && Interleaved(a, b)[2 * 0 + 1] == b[0];
  }

  lemma OneCounted(bs: seq<Bucket>, v: real)
    requires |bs| == 3 && bs[0].le == Finite(0.1) && bs[1].le == Finite(10.0) && bs[2].le == Inf && v >= 0.0
    requires forall i :: 0 <= i < 3 ==> bs[i].count == if BoundLe(Finite(v), bs[i].le) then 1.0 else 0.0
    ensures Counted(bs, [v])
  {
    OneObservation(v);
    hide CountLe;
  }

  lemma OneObservation(v: real)
    ensures forall b :: CountLe([v], b) == if BoundLe(Finite(v), b) then 1 else 0
  {
    assert [v][1..] == [];
  }
}
