/** The miss-ratio curve: a histogram of reuse distances that stands in for running one
    LRU cache per capacity. */
module MissRatioCurve {
  import opened Arithmetic
  import opened Counting
  import opened ReuseDistance
  import opened ScanModes
  import opened LruCaching

  // ---- distances against cache contents ----

  /** Splits the recency order at x: exactly the addresses accessed since follow it. */
  lemma {:induction false} RecencySplit(trace: seq<int>, n: nat, x: int, p: nat) returns (older: seq<int>, newer: seq<int>)
    requires n <= |trace| && LastIn(trace, x, n) == Some(p)
    ensures Recency(trace, n) == older + [x] + newer
    ensures forall y :: y in newer <==> y in Addresses(trace, p + 1, n)
  {
    var y := trace[n - 1];
    var before := Recency(trace, n - 1);
    if y == x {
      older, newer := Without(before, y), [];
    } else {
      older, newer := RecencySplit(trace, n - 1, x, p);
      SplitStep(older, x, newer, y);
      older, newer := Without(older, y), Without(newer, y) + [y];
    }
  }

  lemma SplitStep(older: seq<int>, x: int, newer: seq<int>, y: int)
    requires y != x
    ensures Without(older + [x] + newer, y) + [y] == Without(older, y) + [x] + (Without(newer, y) + [y])
  {
    WithoutAppend(older + [x], newer, y);
    WithoutAppend(older, [x], y);
    WithoutAbsent([x], y);
  }

  lemma {:induction false} RecencyMembers(trace: seq<int>, n: nat, x: int)
    requires n <= |trace|
    ensures x in Recency(trace, n) <==> LastIn(trace, x, n).Some?
  {
    if n > 0 { RecencyMembers(trace, n - 1, x); }
  }

  lemma {:induction false} DistinctSize(s: seq<int>, u: set<int>)
    requires Distinct(s) && forall y :: y in s <==> y in u
    ensures |s| == |u|
  {
    if s != [] {
      var init, last := s[..|s| - 1], s[|s| - 1];
      assert s == init + [last];
      assert last !in init by {
        assert forall i :: 0 <= i < |init| ==> s[i] == init[i];
      }
      assert last in u;
      forall y ensures y in init <==> y in u - {last} {
        assert y in s <==> y in init || y == last;
      }
      DistinctSize(init, u - {last});
    } else {
      forall y ensures y !in u {
        assert y in s <==> y in u;
      }
    }
  }

  /** Where the element at the split lies in the newest c. */
  lemma InNewest(older: seq<int>, x: int, newer: seq<int>, c: nat)
    requires Distinct(older + [x] + newer)
    ensures x in Newest(older + [x] + newer, c) <==> |newer| < c
  {
    var r := older + [x] + newer;
    assert r[|older|] == x;
    if |r| > c {
      var cut := |r| - c;
      if |newer| < c {
        assert r[cut..][|older| - cut] == x;
      } else {
        forall i | 0 <= i < c ensures r[cut..][i] != x {
          assert r[cut..][i] == r[cut + i];
        }
      }
    }
  }

  /** An access hits an LRU cache exactly when its distance is finite and at most the capacity. */
  lemma HitIffDistance(trace: seq<int>, i: nat, capacity: nat)
    requires i < |trace| && capacity > 0 && |trace| < NEVER
    ensures Hit(trace, i, capacity) <==> LruDistance(trace, i) != NEVER && LruDistance(trace, i) <= capacity
  {
    var x := trace[i];
    ContentsAreNewest(trace, i, capacity);
    match Prev(trace, i) {
      case None => RecencyMembers(trace, i, x);
      case Some(p) =>
        var older, newer := RecencySplit(trace, i, x, p);
        RecencyDistinct(trace, i);
        InNewest(older, x, newer, capacity);
        var r := older + [x] + newer;
        assert Distinct(newer) by {
          assert forall k :: 0 <= k < |newer| ==> r[|older| + 1 + k] == newer[k];
        }
        DistinctSize(newer, Addresses(trace, p + 1, i));
        assert |newer| <= |r|;
        RecencyLength(trace, i);
    }
  }

  lemma {:induction false} RecencyLength(trace: seq<int>, n: nat)
    requires n <= |trace|
    ensures |Recency(trace, n)| <= n
  {
    if n > 0 { RecencyLength(trace, n - 1); }
  }

  /** How many of the first n distances a cache of capacity c turns into hits. */
  function HitsWithin(distances: seq<int>, n: nat, c: int): nat
    requires n <= |distances|
  {
    if n == 0 then 0 else HitsWithin(distances, n - 1, c) + Bit(distances[n - 1] != NEVER && distances[n - 1] <= c)
  }

  /** How many of the first n accesses reuse an address. */
  function Reuses(distances: seq<int>, n: nat): nat
    requires n <= |distances|
  {
    if n == 0 then 0 else Reuses(distances, n - 1) + Bit(distances[n - 1] != NEVER)
  }

  /** One pass of distances answers for every capacity at once. */
  lemma {:induction false} MissesFromDistances(trace: seq<int>, n: nat, capacity: nat)
    requires n <= |trace| < NEVER && capacity > 0
    ensures Misses(trace, n, capacity) == n - HitsWithin(Distances(trace, LRU), n, capacity)
  {
    hide Hit, LruDistance;
    if n > 0 {
      MissesFromDistances(trace, n - 1, capacity);
      HitIffDistance(trace, n - 1, capacity);
    }
  }

  // ---- the histogram ----

  /** C++ integer division, for a positive divisor. */
  function TruncDiv(a: int, b: int): int
    requires b > 0
  {
    if a >= 0 then a / b else -(-a / b)
  }

  function Bucket(d: int, binSize: nat, numBuckets: nat): nat
    requires binSize > 0 && numBuckets > 0
  {
    var idx := TruncDiv(d - 1, binSize);
    if idx < 0 then 0 else if idx >= numBuckets then numBuckets - 1 else idx
  }

  function BinSize(datasetSize: nat, numBuckets: nat): (r: nat)
    requires datasetSize > 0 && numBuckets > 0
    ensures r > 0
  {
    DivAtMost(datasetSize + numBuckets - 1, 0, numBuckets);
    (datasetSize + numBuckets - 1) / numBuckets
  }

  /** A bucket's size is the least that lets the buckets cover the dataset. */
  lemma BinSizeCovers(datasetSize: nat, numBuckets: nat)
    requires datasetSize > 0 && numBuckets > 0
    ensures var r := BinSize(datasetSize, numBuckets); (r - 1) * numBuckets < datasetSize <= r * numBuckets
  {
    var r := BinSize(datasetSize, numBuckets);
    assert datasetSize + numBuckets - 1 == r * numBuckets + (datasetSize + numBuckets - 1) % numBuckets;
    assert (r - 1) * numBuckets == r * numBuckets - numBuckets;
  }

  /** So it divides evenly when the dataset is a whole number of buckets. */
  lemma BinSizeExact(datasetSize: nat, numBuckets: nat)
    requires datasetSize > 0 && numBuckets > 0 && datasetSize % numBuckets == 0
    ensures BinSize(datasetSize, numBuckets) == datasetSize / numBuckets
  {
    var r := BinSize(datasetSize, numBuckets);
    BinSizeCovers(datasetSize, numBuckets);
    assert datasetSize == datasetSize / numBuckets * numBuckets;
    hide BinSize;
    assert (datasetSize / numBuckets + 1) * numBuckets == datasetSize + numBuckets;
    RowMajor(r - 1, datasetSize / numBuckets, numBuckets, 0);
    RowMajor(r, datasetSize / numBuckets, numBuckets, 0);
  }

  predicate InBin(d: int, binSize: nat, numBuckets: nat, b: nat)
    requires binSize > 0 && numBuckets > 0
  {
    d != NEVER && Bucket(d, binSize, numBuckets) == b
  }

  /** How many of the first n finite distances fall in bucket b. */
  function InBucket(distances: seq<int>, n: nat, binSize: nat, numBuckets: nat, b: nat): nat
    requires n <= |distances| && binSize > 0 && numBuckets > 0
  {
    if n == 0 then 0 else
      InBucket(distances, n - 1, binSize, numBuckets, b) + Bit(InBin(distances[n - 1], binSize, numBuckets, b))
  }

  /** ... in buckets 0 to b. */
  function UpToBucket(distances: seq<int>, n: nat, binSize: nat, numBuckets: nat, b: int): nat
    requires n <= |distances| && binSize > 0 && numBuckets > 0
  {
    if b < 0 then 0 else UpToBucket(distances, n, binSize, numBuckets, b - 1) + InBucket(distances, n, binSize, numBuckets, b)
  }

  lemma {:induction false} UpToBucketStep(distances: seq<int>, n: nat, binSize: nat, numBuckets: nat, b: int)
    requires 0 < n <= |distances| && binSize > 0 && numBuckets > 0
    ensures UpToBucket(distances, n, binSize, numBuckets, b) ==
            UpToBucket(distances, n - 1, binSize, numBuckets, b) +
            Bit(distances[n - 1] != NEVER && Bucket(distances[n - 1], binSize, numBuckets) <= b)
    decreases b + 1
  {
    if b >= 0 { UpToBucketStep(distances, n, binSize, numBuckets, b - 1); }
  }

  lemma {:induction false} UpToBucketNone(distances: seq<int>, binSize: nat, numBuckets: nat, b: int)
    requires binSize > 0 && numBuckets > 0
    ensures UpToBucket(distances, 0, binSize, numBuckets, b) == 0
    decreases b + 1
  {
    if b >= 0 { UpToBucketNone(distances, binSize, numBuckets, b - 1); }
  }

  /** Below the last bucket, falling in the first b+1 buckets is a distance of at most
      b+1 bin sizes; the last bucket takes everything finite that is left. */
  lemma BucketMeansDistance(d: int, binSize: nat, numBuckets: nat, b: nat)
    requires binSize > 0 && b < numBuckets
    ensures Bucket(d, binSize, numBuckets) <= b <==> b == numBuckets - 1 || d <= (b + 1) * binSize
  {
    if d >= 1 {
      DivAtMost(d - 1, b, binSize);
    } else {
      MulGrows(b + 1, binSize);
    }
  }

  lemma {:induction false} BucketsAreHits(distances: seq<int>, n: nat, binSize: nat, numBuckets: nat, b: nat)
    requires n <= |distances| && binSize > 0 && b < numBuckets
    ensures b < numBuckets - 1 ==>
              UpToBucket(distances, n, binSize, numBuckets, b) == HitsWithin(distances, n, (b + 1) * binSize)
    ensures b == numBuckets - 1 ==>
              UpToBucket(distances, n, binSize, numBuckets, b) == Reuses(distances, n)
  {
    if n > 0 {
      BucketsAreHits(distances, n - 1, binSize, numBuckets, b);
      UpToBucketStep(distances, n, binSize, numBuckets, b);
      BucketMeansDistance(distances[n - 1], binSize, numBuckets, b);
    } else {
      UpToBucketNone(distances, binSize, numBuckets, b);
    }
  }

  // ---- the curve ----

  type Curve = map<int, real>

  /** The capacity under which bucket b is reported. */
  function CacheBlocks(b: nat, datasetSize: nat, binSize: nat): nat {
    if (b + 1) * binSize > datasetSize then datasetSize else (b + 1) * binSize
  }

  /** The buckets reported: those that start below the dataset size. */
  predicate Reported(b: nat, datasetSize: nat, numBuckets: nat, binSize: nat) {
    b < numBuckets && b * binSize < datasetSize
  }

  function MissRatio(misses: int, total: nat): real
    requires total > 0
  {
    misses as real / total as real
  }

  /** The ratio times the accesses is the misses. */
  lemma MissRatioMeans(misses: int, total: nat)
    requires total > 0
    ensures MissRatio(misses, total) * total as real == misses as real
  {}

  /** The miss ratio reported for bucket b. */
  function PointValue(distances: seq<int>, n: nat, total: nat, numBuckets: nat, binSize: nat, b: nat): real
    requires n <= |distances| && total > 0 && binSize > 0 && numBuckets > 0
  {
    MissRatio(total - UpToBucket(distances, n, binSize, numBuckets, b), total)
  }

  /** A curve with exactly one point per reported bucket: its misses are the accesses that
      the histogram of the first n distances does not count up to that bucket. */
  ghost predicate IsCurve(curve: Curve, distances: seq<int>, n: nat, total: nat, datasetSize: nat, numBuckets: nat)
    requires n <= |distances| && total > 0 && datasetSize > 0 && numBuckets > 0
  {
    var binSize := BinSize(datasetSize, numBuckets);
    && (forall c :: c in curve ==>
                      exists b: nat :: Reported(b, datasetSize, numBuckets, binSize) && c == CacheBlocks(b, datasetSize, binSize))
    && (forall b: nat :: Reported(b, datasetSize, numBuckets, binSize) ==>
                           && CacheBlocks(b, datasetSize, binSize) in curve
                           && curve[CacheBlocks(b, datasetSize, binSize)] == PointValue(distances, n, total, numBuckets, binSize, b))
  }

  ghost predicate BinsHold(bins: seq<int>, distances: seq<int>, n: nat, binSize: nat)
    requires n <= |distances| && binSize > 0
  {
    |bins| > 0 && forall b :: 0 <= b < |bins| ==> bins[b] == InBucket(distances, n, binSize, |bins|, b)
  }

  /** Counts one distance. */
  method Tally(bins: array<int>, distances: seq<int>, i: nat, binSize: nat)
    requires i < |distances| && binSize > 0 && BinsHold(bins[..], distances, i, binSize)
    modifies bins
    ensures BinsHold(bins[..], distances, i + 1, binSize)
  {
    var d := distances[i];
    if d != NEVER {
      var idx := TruncDiv(d - 1, binSize);
      if idx < 0 {
        idx := 0;
      }
      if idx >= bins.Length {
        idx := bins.Length - 1;
      }
      bins[idx] := bins[idx] + 1;
    }
  }

  /** Accumulates the bins into a curve. */
  method EmitCurve(bins: array<int>, total: nat, datasetSize: nat, binSize: nat, ghost distances: seq<int>, ghost n: nat)
    returns (mrc: Curve)
    requires n <= |distances| && total > 0 && datasetSize > 0 && bins.Length > 0
    requires binSize == BinSize(datasetSize, bins.Length) && BinsHold(bins[..], distances, n, binSize)
    ensures IsCurve(mrc, distances, n, total, datasetSize, bins.Length)
  {
    mrc := map[];
    var hitCum := 0;
    var b := 0;
    while b < bins.Length
      invariant 0 <= b <= bins.Length && (b < bins.Length ==> b * binSize < datasetSize)
      invariant hitCum == UpToBucket(distances, n, binSize, bins.Length, b - 1)
      invariant PartialCurve(mrc, distances, n, total, datasetSize, bins.Length, binSize, b)
    {
      hitCum := hitCum + bins[b];
      assert hitCum == UpToBucket(distances, n, binSize, bins.Length, b);
      var cacheBlocks := CacheBlocks(b, datasetSize, binSize);
      var missCnt := total - hitCum;
      CurveStep(mrc, distances, n, total, datasetSize, bins.Length, binSize, b);
      mrc := mrc[cacheBlocks := MissRatio(missCnt, total)];
      b := b + 1;
      if cacheBlocks == datasetSize {
        break;
      }
    }
    CurveDone(mrc, distances, n, total, datasetSize, bins.Length, binSize, b);
  }

  /** The points of the first k buckets. */
  ghost predicate PartialCurve(curve: Curve, distances: seq<int>, n: nat, total: nat, datasetSize: nat, numBuckets: nat,
                               binSize: nat, k: nat)
    requires n <= |distances| && total > 0 && binSize > 0 && numBuckets > 0
  {
    && (forall c :: c in curve ==> exists b: nat :: b < k && c == CacheBlocks(b, datasetSize, binSize))
    && (forall b: nat :: b < k ==> Reported(b, datasetSize, numBuckets, binSize))
    && (forall b: nat :: b < k ==>
                           && CacheBlocks(b, datasetSize, binSize) in curve
                           && curve[CacheBlocks(b, datasetSize, binSize)] == PointValue(distances, n, total, numBuckets, binSize, b))
  }

  /** Distinct buckets are reported under distinct capacities. */
  lemma CapacitiesDiffer(a: nat, b: nat, datasetSize: nat, binSize: nat)
    requires a < b && binSize > 0 && b * binSize < datasetSize
    ensures CacheBlocks(a, datasetSize, binSize) < CacheBlocks(b, datasetSize, binSize)
  {
    MulMono(a + 1, b, binSize);
    MulMono(a + 2, b + 1, binSize);
    assert (a + 2) * binSize == (a + 1) * binSize + binSize;
  }

  lemma CurveStep(curve: Curve, distances: seq<int>, n: nat, total: nat, datasetSize: nat, numBuckets: nat, binSize: nat, k: nat)
    requires n <= |distances| && total > 0 && binSize > 0 && numBuckets > 0
    requires PartialCurve(curve, distances, n, total, datasetSize, numBuckets, binSize, k)
    requires k < numBuckets && k * binSize < datasetSize
    ensures PartialCurve(curve[CacheBlocks(k, datasetSize, binSize) := PointValue(distances, n, total, numBuckets, binSize, k)],
                         distances, n, total, datasetSize, numBuckets, binSize, k + 1)
  {
    assert Reported(k, datasetSize, numBuckets, binSize);
    forall b: nat | b < k ensures CacheBlocks(b, datasetSize, binSize) != CacheBlocks(k, datasetSize, binSize) {
      CapacitiesDiffer(b, k, datasetSize, binSize);
    }
    hide CacheBlocks, PointValue, Reported;
    var curve' := curve[CacheBlocks(k, datasetSize, binSize) := PointValue(distances, n, total, numBuckets, binSize, k)];
    forall c | c in curve' ensures exists b: nat :: b < k + 1 && c == CacheBlocks(b, datasetSize, binSize) {
      if c == CacheBlocks(k, datasetSize, binSize) {
        assert k < k + 1;
      } else {
        var b: nat :| b < k && c == CacheBlocks(b, datasetSize, binSize);
        assert b < k + 1;
      }
    }
  }

  lemma CurveDone(curve: Curve, distances: seq<int>, n: nat, total: nat, datasetSize: nat, numBuckets: nat, binSize: nat, k: nat)
    requires n <= |distances| && total > 0 && datasetSize > 0 && numBuckets > 0 && binSize == BinSize(datasetSize, numBuckets)
    requires PartialCurve(curve, distances, n, total, datasetSize, numBuckets, binSize, k)
    requires k == numBuckets || (0 < k && k * binSize >= datasetSize)
    ensures IsCurve(curve, distances, n, total, datasetSize, numBuckets)
  {
    forall b: nat | Reported(b, datasetSize, numBuckets, binSize) ensures b < k {
      if k <= b {
        MulMono(k, b, binSize);
      }
    }
    hide CacheBlocks, PointValue, BinSize, Reported;
  }

  method BuildMrcFromDistances(distances: seq<int>, totalAccesses: nat, datasetSize: int, numBuckets: int) returns (mrc: Curve)
    requires totalAccesses <= |distances|
    ensures totalAccesses == 0 || datasetSize <= 0 || numBuckets <= 0 ==> mrc == map[]
    ensures totalAccesses > 0 && datasetSize > 0 && numBuckets > 0 ==>
              IsCurve(mrc, distances, totalAccesses, totalAccesses, datasetSize, numBuckets)
  {
    if totalAccesses == 0 || datasetSize <= 0 || numBuckets <= 0 {
      return map[];
    }
    var binSize := BinSize(datasetSize, numBuckets);
    var bins := new int[numBuckets](_ => 0);
    for i := 0 to totalAccesses
      invariant BinsHold(bins[..], distances, i, binSize)
    {
      Tally(bins, distances, i, binSize);
    }
    mrc := EmitCurve(bins, totalAccesses, datasetSize, binSize, distances, totalAccesses);
  }

  method CalculateMrc(trace: seq<int>, datasetSize: int, kind: AlgorithmType, numBuckets: int) returns (mrc: Curve)
    requires |trace| < NEVER
    ensures trace == [] || datasetSize <= 0 || numBuckets <= 0 ==> mrc == map[]
    ensures trace != [] && datasetSize > 0 && numBuckets > 0 ==>
              IsCurve(mrc, Distances(trace, kind), |trace|, |trace|, datasetSize, numBuckets)
    ensures trace != [] && datasetSize > 0 && numBuckets > 0 && datasetSize % numBuckets == 0 ==>
              forall c: int :: c in mrc <==> 0 < c <= datasetSize && c % (datasetSize / numBuckets) == 0
  {
    hide IsCurve;
    var distances := ComputeDistances(trace, kind);
    assert distances[..] == Distances(trace, kind);
    mrc := BuildMrcFromDistances(distances[..], |trace|, datasetSize, numBuckets);
    if trace != [] && datasetSize > 0 && numBuckets > 0 && datasetSize % numBuckets == 0 {
      EvenCapacities(mrc, distances[..], |trace|, |trace|, datasetSize, numBuckets);
    }
  }

  /** When the dataset is a whole number of buckets these are the multiples of the quotient. */
  lemma EvenCapacities(curve: Curve, distances: seq<int>, n: nat, total: nat, datasetSize: nat, numBuckets: nat)
    requires n <= |distances| && total > 0 && datasetSize > 0 && numBuckets > 0 && datasetSize % numBuckets == 0
    requires IsCurve(curve, distances, n, total, datasetSize, numBuckets)
    ensures datasetSize / numBuckets > 0
    ensures forall c: int :: c in curve <==> 0 < c <= datasetSize && c % (datasetSize / numBuckets) == 0
  {
    hide IsCurve, BinSize;
    CurveCapacities(curve, distances, n, total, datasetSize, numBuckets);
    BinSizeExact(datasetSize, numBuckets);
    var r := datasetSize / numBuckets;
    assert datasetSize == numBuckets * r;
    DivModUnique(datasetSize, r, numBuckets, 0);
  }

  /** One point per capacity: the description determines the curve. */
  lemma CurveUnique(c1: Curve, c2: Curve, distances: seq<int>, n: nat, total: nat, datasetSize: nat, numBuckets: nat)
    requires n <= |distances| && total > 0 && datasetSize > 0 && numBuckets > 0
    requires IsCurve(c1, distances, n, total, datasetSize, numBuckets)
    requires IsCurve(c2, distances, n, total, datasetSize, numBuckets)
    ensures c1 == c2
  {
    hide CacheBlocks, PointValue, BinSize, Reported;
    forall c ensures (c in c1 <==> c in c2) && (c in c1 ==> c1[c] == c2[c]) {
      var binSize := BinSize(datasetSize, numBuckets);
      if c in c1 {
        var b: nat :| Reported(b, datasetSize, numBuckets, binSize) && c == CacheBlocks(b, datasetSize, binSize);
        assert c in c2;
      }
      if c in c2 {
        var b: nat :| Reported(b, datasetSize, numBuckets, binSize) && c == CacheBlocks(b, datasetSize, binSize);
        assert c in c1;
      }
    }
  }

  /** A curve has points at the whole multiples of the bucket size below the dataset size,
      and at the dataset size. */
  lemma CurveCapacities(curve: Curve, distances: seq<int>, n: nat, total: nat, datasetSize: nat, numBuckets: nat)
    requires n <= |distances| && total > 0 && datasetSize > 0 && numBuckets > 0
    requires IsCurve(curve, distances, n, total, datasetSize, numBuckets)
    ensures var r := BinSize(datasetSize, numBuckets);
            forall c: int :: c in curve <==> (0 < c < datasetSize && c % r == 0) || c == datasetSize
  {
    hide PointValue, BinSize;
    var r := BinSize(datasetSize, numBuckets);
    BinSizeCovers(datasetSize, numBuckets);
    hide IsCurve;
    forall c: int ensures c in curve <==> (0 < c < datasetSize && c % r == 0) || c == datasetSize {
      CapacityReported(c, datasetSize, numBuckets, r);
      AtCapacity(curve, distances, n, total, datasetSize, numBuckets, c);
    }
  }

  lemma AtCapacity(curve: Curve, distances: seq<int>, n: nat, total: nat, datasetSize: nat, numBuckets: nat, c: int)
    requires n <= |distances| && total > 0 && datasetSize > 0 && numBuckets > 0
    requires IsCurve(curve, distances, n, total, datasetSize, numBuckets)
    ensures var r := BinSize(datasetSize, numBuckets);
            c in curve <==> exists b: nat :: Reported(b, datasetSize, numBuckets, r) && c == CacheBlocks(b, datasetSize, r)
  {
    hide PointValue, BinSize, Reported, CacheBlocks;
  }

  lemma CapacityReported(c: int, datasetSize: nat, numBuckets: nat, r: nat)
    requires r > 0 && datasetSize > 0 && datasetSize <= r * numBuckets
    ensures (exists b: nat :: Reported(b, datasetSize, numBuckets, r) && c == CacheBlocks(b, datasetSize, r)) <==>
            (0 < c < datasetSize && c % r == 0) || c == datasetSize
  {
    if b: nat :| Reported(b, datasetSize, numBuckets, r) && c == CacheBlocks(b, datasetSize, r) {
      MulGrows(b + 1, r);
      DivModUnique((b + 1) * r, r, b + 1, 0);
    }
    if 0 < c < datasetSize && c % r == 0 {
      AsBucket(c, datasetSize, numBuckets, r, c / r - 1);
    } else if c == datasetSize {
      AsBucket(c, datasetSize, numBuckets, r, (datasetSize - 1) / r);
    }
  }

  /** The bucket that reports a capacity. */
  lemma AsBucket(c: int, datasetSize: nat, numBuckets: nat, r: nat, b: int)
    requires r > 0 && 0 < c <= datasetSize && datasetSize <= r * numBuckets
    requires if c == datasetSize then b == (datasetSize - 1) / r else c % r == 0 && b == c / r - 1
    ensures 0 <= b && Reported(b, datasetSize, numBuckets, r) && c == CacheBlocks(b, datasetSize, r)
  {
    if c == datasetSize {
      assert datasetSize - 1 == b * r + (datasetSize - 1) % r;
    } else {
      assert c == c / r * r;
      assert c / r >= 1 by {
        MulGrows(c / r, r);
      }
    }
    assert (b + 1) * r == b * r + r;
    RowMajor(b, numBuckets, r, 0);
  }

  // ---- the curve against real LRU caches ----

  /** Every point below the dataset size but the last bucket's is what running an LRU cache
      of that capacity over the trace would measure. */
  lemma CurveIsLru(curve: Curve, trace: seq<int>, datasetSize: nat, numBuckets: nat, b: nat)
    requires 0 < |trace| < NEVER && datasetSize > 0 && b < numBuckets - 1
    requires IsCurve(curve, Distances(trace, LRU), |trace|, |trace|, datasetSize, numBuckets)
    requires (b + 1) * BinSize(datasetSize, numBuckets) <= datasetSize
    ensures var c := (b + 1) * BinSize(datasetSize, numBuckets);
            c > 0 && c in curve && curve[c] == MissRatio(Misses(trace, |trace|, c), |trace|)
  {
    var binSize := BinSize(datasetSize, numBuckets);
    ReportedWhole(b, datasetSize, numBuckets, binSize);
    CurvePoint(curve, Distances(trace, LRU), |trace|, |trace|, datasetSize, numBuckets, b);
    hide IsCurve, MissRatio, BinSize, UpToBucket, HitsWithin, Misses, Reported, CacheBlocks;
    BucketsAreHits(Distances(trace, LRU), |trace|, binSize, numBuckets, b);
    MissesFromDistances(trace, |trace|, (b + 1) * binSize);
  }

  lemma CurvePoint(curve: Curve, distances: seq<int>, n: nat, total: nat, datasetSize: nat, numBuckets: nat, b: nat)
    requires n <= |distances| && total > 0 && datasetSize > 0 && numBuckets > 0
    requires IsCurve(curve, distances, n, total, datasetSize, numBuckets)
    requires Reported(b, datasetSize, numBuckets, BinSize(datasetSize, numBuckets))
    ensures var binSize := BinSize(datasetSize, numBuckets);
            && CacheBlocks(b, datasetSize, binSize) in curve
            && curve[CacheBlocks(b, datasetSize, binSize)] ==
               MissRatio(total - UpToBucket(distances, n, binSize, numBuckets, b), total)
  {}

  lemma ReportedWhole(b: nat, datasetSize: nat, numBuckets: nat, binSize: nat)
    requires binSize > 0 && b < numBuckets && (b + 1) * binSize <= datasetSize
    ensures (b + 1) * binSize > 0
    ensures Reported(b, datasetSize, numBuckets, binSize)
    ensures CacheBlocks(b, datasetSize, binSize) == (b + 1) * binSize
  {
    MulGrows(b + 1, binSize);
    assert b * binSize + binSize == (b + 1) * binSize;
  }

  /** The distances that the last point counts as hits although they exceed the dataset. */
  predicate OverCounted(d: int, b: nat, datasetSize: nat, numBuckets: nat)
    requires datasetSize > 0 && numBuckets > 0
  {
    d != NEVER && d > datasetSize && (b == numBuckets - 1 || d <= (b + 1) * BinSize(datasetSize, numBuckets))
  }

  /** The clamped last point is an LRU cache of the dataset size exactly when no counted
      reuse distance exceeds the dataset size. */
  lemma LastPointIsLru(curve: Curve, trace: seq<int>, datasetSize: nat, numBuckets: nat, b: nat)
    requires 0 < |trace| < NEVER && datasetSize > 0 && b < numBuckets
    requires IsCurve(curve, Distances(trace, LRU), |trace|, |trace|, datasetSize, numBuckets)
    requires Reported(b, datasetSize, numBuckets, BinSize(datasetSize, numBuckets))
    requires (b + 1) * BinSize(datasetSize, numBuckets) >= datasetSize
    ensures datasetSize in curve
    ensures curve[datasetSize] == MissRatio(Misses(trace, |trace|, datasetSize), |trace|) <==>
            forall i :: 0 <= i < |trace| ==> !OverCounted(LruDistance(trace, i), b, datasetSize, numBuckets)
  {
    var binSize := BinSize(datasetSize, numBuckets);
    var distances := Distances(trace, LRU);
    assert CacheBlocks(b, datasetSize, binSize) == datasetSize;
    MissesFromDistances(trace, |trace|, datasetSize);
    BucketsExceed(distances, |trace|, datasetSize, numBuckets, b);
    RatiosDiffer(|trace| - UpToBucket(distances, |trace|, binSize, numBuckets, b), Misses(trace, |trace|, datasetSize), |trace|);
    assert forall i :: 0 <= i < |trace| ==> distances[i] == LruDistance(trace, i);
  }

  /** Which happens: two blocks of cache for a dataset of two, on a trace that touches three,
      count as a hit the reuse that a cache of two misses. */
  lemma LastPointNotLru(curve: Curve)
    requires var trace := [1, 2, 3, 1]; IsCurve(curve, Distances(trace, LRU), 4, 4, 2, 1)
    ensures var trace := [1, 2, 3, 1];
            && OverCounted(LruDistance(trace, 3), 0, 2, 1)
            && 2 in curve && curve[2] != MissRatio(Misses(trace, 4, 2), 4)
  {
    var trace := [1, 2, 3, 1];
    assert Prev(trace, 3) == Some(0);
    assert Addresses(trace, 1, 3) == {2, 3};
    LastPointIsLru(curve, trace, 2, 1, 0);
  }

  lemma RatiosDiffer(a: int, b: int, total: nat)
    requires total > 0
    ensures MissRatio(a, total) == MissRatio(b, total) <==> a == b
  {
    if MissRatio(a, total) == MissRatio(b, total) {
      assert a as real == MissRatio(a, total) * total as real;
      assert b as real == MissRatio(b, total) * total as real;
    }
  }

  lemma {:induction false} BucketsExceed(distances: seq<int>, n: nat, datasetSize: nat, numBuckets: nat, b: nat)
    requires n <= |distances| && datasetSize > 0 && b < numBuckets
    requires (b + 1) * BinSize(datasetSize, numBuckets) >= datasetSize
    ensures var binSize := BinSize(datasetSize, numBuckets);
            && UpToBucket(distances, n, binSize, numBuckets, b) >= HitsWithin(distances, n, datasetSize)
            && (UpToBucket(distances, n, binSize, numBuckets, b) == HitsWithin(distances, n, datasetSize) <==>
                forall i :: 0 <= i < n ==> !OverCounted(distances[i], b, datasetSize, numBuckets))
  {
    var binSize := BinSize(datasetSize, numBuckets);
    if n > 0 {
      BucketsExceed(distances, n - 1, datasetSize, numBuckets, b);
      UpToBucketStep(distances, n, binSize, numBuckets, b);
      BucketMeansDistance(distances[n - 1], binSize, numBuckets, b);
    } else {
      UpToBucketNone(distances, binSize, numBuckets, b);
    }
  }

  lemma OneMore(a: set<int>, x: int, b: set<int>)
    requires a <= b && x in b && x !in a
    ensures |a| + 1 <= |b|
  {
    SubsetSize(a, b - {x});
  }

  /** A trace that touches no more addresses than the dataset has is never over-counted. */
  lemma SmallTraceNotOverCounted(trace: seq<int>, i: nat, b: nat, datasetSize: nat, numBuckets: nat)
    requires i < |trace| && datasetSize > 0 && numBuckets > 0
    requires |Addresses(trace, 0, |trace|)| <= datasetSize
    ensures !OverCounted(LruDistance(trace, i), b, datasetSize, numBuckets)
  {
    match Prev(trace, i) {
      case None =>
      case Some(p) =>
        var since := Addresses(trace, p + 1, i);
        OneMore(since, trace[i], Addresses(trace, 0, |trace|));
    }
  }
}
