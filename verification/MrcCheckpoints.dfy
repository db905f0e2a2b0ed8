/** Curves at checkpoints, curves of the two scan modes, and when curves coincide. */
module CurveCheckpoints {
  import opened Arithmetic
  import opened Counting
  import opened ReuseDistance
  import opened ScanModes
  import opened MissRatioCurve

  // ---- curves depend on distances only through the bucket counts ----

  ghost predicate SameBuckets(d1: seq<int>, n1: nat, d2: seq<int>, n2: nat, binSize: nat, numBuckets: nat)
    requires n1 <= |d1| && n2 <= |d2| && binSize > 0 && numBuckets > 0
  {
    forall b: nat :: InBucket(d1, n1, binSize, numBuckets, b) == InBucket(d2, n2, binSize, numBuckets, b)
  }

  lemma {:induction false} SameBucketsUpTo(d1: seq<int>, n1: nat, d2: seq<int>, n2: nat, binSize: nat, numBuckets: nat, b: int)
    requires n1 <= |d1| && n2 <= |d2| && binSize > 0 && numBuckets > 0
    requires SameBuckets(d1, n1, d2, n2, binSize, numBuckets)
    ensures UpToBucket(d1, n1, binSize, numBuckets, b) == UpToBucket(d2, n2, binSize, numBuckets, b)
    decreases b + 1
  {
    if b >= 0 { SameBucketsUpTo(d1, n1, d2, n2, binSize, numBuckets, b - 1); }
  }

  /** Two curves over as many accesses are the same exactly when their histograms agree up
      to every reported bucket. */
  lemma CurvesEqual(c1: Curve, d1: seq<int>, n1: nat, c2: Curve, d2: seq<int>, n2: nat,
                    total: nat, datasetSize: nat, numBuckets: nat)
    requires n1 <= |d1| && n2 <= |d2| && total > 0 && datasetSize > 0 && numBuckets > 0
    requires IsCurve(c1, d1, n1, total, datasetSize, numBuckets) && IsCurve(c2, d2, n2, total, datasetSize, numBuckets)
    ensures c1 == c2 <==>
            forall b: nat :: Reported(b, datasetSize, numBuckets, BinSize(datasetSize, numBuckets)) ==>
                               UpToBucket(d1, n1, BinSize(datasetSize, numBuckets), numBuckets, b) ==
                               UpToBucket(d2, n2, BinSize(datasetSize, numBuckets), numBuckets, b)
  {
    var binSize := BinSize(datasetSize, numBuckets);
    hide CacheBlocks, Reported, BinSize, MissRatio, UpToBucket;
    if c1 == c2 {
      forall b: nat | Reported(b, datasetSize, numBuckets, binSize)
        ensures UpToBucket(d1, n1, binSize, numBuckets, b) == UpToBucket(d2, n2, binSize, numBuckets, b)
      {
        RatiosDiffer(total - UpToBucket(d1, n1, binSize, numBuckets, b), total - UpToBucket(d2, n2, binSize, numBuckets, b), total);
      }
    } else if forall b: nat :: Reported(b, datasetSize, numBuckets, binSize) ==>
                                 UpToBucket(d1, n1, binSize, numBuckets, b) == UpToBucket(d2, n2, binSize, numBuckets, b) {
      assert IsCurve(c1, d2, n2, total, datasetSize, numBuckets);
      CurveUnique(c1, c2, d2, n2, total, datasetSize, numBuckets);
    }
  }

  lemma SameBucketsSameCurve(c1: Curve, d1: seq<int>, n1: nat, c2: Curve, d2: seq<int>, n2: nat,
                             total: nat, datasetSize: nat, numBuckets: nat)
    requires n1 <= |d1| && n2 <= |d2| && total > 0 && datasetSize > 0 && numBuckets > 0
    requires IsCurve(c1, d1, n1, total, datasetSize, numBuckets) && IsCurve(c2, d2, n2, total, datasetSize, numBuckets)
    requires SameBuckets(d1, n1, d2, n2, BinSize(datasetSize, numBuckets), numBuckets)
    ensures c1 == c2
  {
    hide IsCurve, SameBuckets, BinSize;
    var binSize := BinSize(datasetSize, numBuckets);
    forall b: nat ensures UpToBucket(d1, n1, binSize, numBuckets, b) == UpToBucket(d2, n2, binSize, numBuckets, b) {
      SameBucketsUpTo(d1, n1, d2, n2, binSize, numBuckets, b);
    }
    CurvesEqual(c1, d1, n1, c2, d2, n2, total, datasetSize, numBuckets);
  }

  // ---- permutations ----

  lemma {:induction false} InBucketUpdate(s: seq<int>, i: nat, v: int, n: nat, binSize: nat, numBuckets: nat, b: nat)
    requires i < |s| && n <= |s| && binSize > 0 && numBuckets > 0
    ensures InBucket(s[i := v], n, binSize, numBuckets, b) ==
            InBucket(s, n, binSize, numBuckets, b) +
            if i < n then Bit(InBin(v, binSize, numBuckets, b)) - Bit(InBin(s[i], binSize, numBuckets, b)) else 0
  {
    hide InBin;
    if n > 0 { InBucketUpdate(s, i, v, n - 1, binSize, numBuckets, b); }
  }

  lemma {:induction false} InBucketPrefix(s: seq<int>, m: nat, n: nat, binSize: nat, numBuckets: nat, b: nat)
    requires n <= m <= |s| && binSize > 0 && numBuckets > 0
    ensures InBucket(s[..m], n, binSize, numBuckets, b) == InBucket(s, n, binSize, numBuckets, b)
  {
    if n > 0 { InBucketPrefix(s, m, n - 1, binSize, numBuckets, b); }
  }

  /** t without its element at j, the last element moved into the gap. */
  function SwapRemove(t: seq<int>, j: nat): (u: seq<int>)
    requires j < |t|
    ensures |u| == |t| - 1
  {
    t[j := t[|t| - 1]][..|t| - 1]
  }

  lemma SwapRemoveMultiset(t: seq<int>, j: nat)
    requires j < |t|
    ensures multiset(t) == multiset(SwapRemove(t, j)) + multiset{t[j]}
  {
    var m := |t| - 1;
    var u := t[j := t[m]];
    assert u == SwapRemove(t, j) + [t[m]];
    assert multiset(u) == multiset(t) - multiset{t[j]} + multiset{t[m]};
    forall v ensures multiset(t)[v] == (multiset(SwapRemove(t, j)) + multiset{t[j]})[v] {
      assert multiset(u)[v] == (multiset(SwapRemove(t, j)) + multiset{t[m]})[v];
    }
  }

  lemma SwapRemoveBucket(t: seq<int>, j: nat, binSize: nat, numBuckets: nat, b: nat)
    requires j < |t| && binSize > 0 && numBuckets > 0
    ensures InBucket(t, |t|, binSize, numBuckets, b) ==
            InBucket(SwapRemove(t, j), |t| - 1, binSize, numBuckets, b) + Bit(InBin(t[j], binSize, numBuckets, b))
  {
    hide InBin;
    var m := |t| - 1;
    InBucketUpdate(t, j, t[m], m, binSize, numBuckets, b);
    InBucketPrefix(t[j := t[m]], m, m, binSize, numBuckets, b);
  }

  /** The order of the distances does not matter to a histogram. */
  lemma {:induction false} PermutedBuckets(s: seq<int>, t: seq<int>, binSize: nat, numBuckets: nat, b: nat)
    requires multiset(s) == multiset(t) && binSize > 0 && numBuckets > 0
    ensures |s| == |t|
    ensures InBucket(s, |s|, binSize, numBuckets, b) == InBucket(t, |t|, binSize, numBuckets, b)
    decreases |s|
  {
    hide InBin;
    assert |multiset(s)| == |s| && |multiset(t)| == |t|;
    if s != [] {
      var m := |s| - 1;
      var j := FindIn(s, m, t);
      SwapRemoveMultiset(s, m);
      SwapRemoveMultiset(t, j);
      SwapRemoveBucket(s, m, binSize, numBuckets, b);
      SwapRemoveBucket(t, j, binSize, numBuckets, b);
      hide SwapRemove, InBucket;
      SameRest(multiset(SwapRemove(s, m)), multiset(SwapRemove(t, j)), s[m]);
      PermutedBuckets(SwapRemove(s, m), SwapRemove(t, j), binSize, numBuckets, b);
    }
  }

  lemma FindIn(s: seq<int>, m: nat, t: seq<int>) returns (j: nat)
    requires m < |s| && multiset(s) == multiset(t)
    ensures j < |t| && t[j] == s[m]
  {
    assert s[m] in multiset(t);
    j :| 0 <= j < |t| && t[j] == s[m];
  }

  lemma SameRest(a: multiset<int>, b: multiset<int>, x: int)
    requires a + multiset{x} == b + multiset{x}
    ensures a == b
  {
    forall v ensures a[v] == b[v] {
      assert (a + multiset{x})[v] == (b + multiset{x})[v];
    }
  }

  /** The LRU and the OPT mode return the same whole-trace curve. */
  lemma ModesGiveSameCurve(lru: Curve, opt: Curve, trace: seq<int>, datasetSize: nat, numBuckets: nat)
    requires trace != [] && datasetSize > 0 && numBuckets > 0
    requires IsCurve(lru, Distances(trace, LRU), |trace|, |trace|, datasetSize, numBuckets)
    requires IsCurve(opt, Distances(trace, OPT), |trace|, |trace|, datasetSize, numBuckets)
    ensures lru == opt
  {
    var binSize := BinSize(datasetSize, numBuckets);
    ModesAgree(trace);
    forall b: nat
      ensures InBucket(Distances(trace, LRU), |trace|, binSize, numBuckets, b)
           == InBucket(Distances(trace, OPT), |trace|, binSize, numBuckets, b)
    {
      PermutedBuckets(Distances(trace, LRU), Distances(trace, OPT), binSize, numBuckets, b);
    }
    SameBucketsSameCurve(lru, Distances(trace, LRU), |trace|, opt, Distances(trace, OPT), |trace|, |trace|, datasetSize, numBuckets);
  }

  // ---- checkpoints ----

  predicate Sorted(s: seq<nat>) {
    forall i, j :: 0 <= i < j < |s| ==> s[i] <= s[j]
  }

  /** The pass meets checkpoint k: it and those before it are in order and within the trace. */
  predicate InTurn(checkpoints: seq<nat>, k: nat, n: nat)
    requires k < |checkpoints|
  {
    checkpoints[k] <= n && forall i, j :: 0 <= i < j <= k ==> checkpoints[i] <= checkpoints[j]
  }

  /** The first emitted points: a checkpoint met in turn gets the curve of the accesses up to
      it; the first one missed and all after it get the whole trace's histogram, set against
      their own number of accesses. */
  ghost predicate PointsOk(out: seq<(nat, Curve)>, distances: seq<int>, checkpoints: seq<nat>, datasetSize: nat, numBuckets: nat)
    requires datasetSize > 0 && numBuckets > 0 && |distances| > 0
    requires forall k :: 0 <= k < |checkpoints| ==> checkpoints[k] > 0
  {
    |out| <= |checkpoints| &&
    forall k :: 0 <= k < |out| ==> PointOk(out[k], distances, checkpoints, k, datasetSize, numBuckets)
  }

  ghost predicate PointOk(point: (nat, Curve), distances: seq<int>, checkpoints: seq<nat>, k: nat, datasetSize: nat, numBuckets: nat)
    requires datasetSize > 0 && numBuckets > 0 && |distances| > 0 && k < |checkpoints| && checkpoints[k] > 0
  {
    var c := Min(checkpoints[k], |distances|);
    && point.0 == c
    && IsCurve(point.1, distances, if InTurn(checkpoints, k, |distances|) then c else |distances|, c, datasetSize, numBuckets)
  }

  /** Sorted checkpoints all get the curve of the accesses up to them. */
  lemma SortedPoints(out: seq<(nat, Curve)>, distances: seq<int>, checkpoints: seq<nat>, k: nat, datasetSize: nat, numBuckets: nat)
    requires datasetSize > 0 && numBuckets > 0 && |distances| > 0
    requires forall k :: 0 <= k < |checkpoints| ==> checkpoints[k] > 0
    requires PointsOk(out, distances, checkpoints, datasetSize, numBuckets) && Sorted(checkpoints) && k < |out|
    ensures var c := Min(checkpoints[k], |distances|);
            out[k].0 == c && IsCurve(out[k].1, distances, c, c, datasetSize, numBuckets)
  {
    hide IsCurve;
    assert PointOk(out[k], distances, checkpoints, k, datasetSize, numBuckets);
  }

  /** One pass over the distances, emitting a curve at each checkpoint. The source divides
      by the checkpoint and by the number of buckets. */
  method CalculateMrcIntervals(trace: seq<int>, datasetSize: int, kind: AlgorithmType, numBuckets: nat, checkpoints: seq<nat>)
    returns (out: seq<(nat, Curve)>)
    requires |trace| < NEVER && numBuckets > 0
    requires forall k :: 0 <= k < |checkpoints| ==> checkpoints[k] > 0
    ensures trace == [] || checkpoints == [] || datasetSize <= 0 ==> out == []
    ensures trace != [] && checkpoints != [] && datasetSize > 0 ==>
              |out| == |checkpoints| && PointsOk(out, Distances(trace, kind), checkpoints, datasetSize, numBuckets)
  {
    out := [];
    if trace == [] || checkpoints == [] {
      return;
    }
    var distances := ComputeDistances(trace, kind);
    assert distances[..] == Distances(trace, kind);
    if datasetSize <= 0 {
      return;
    }
    out := EmitCheckpoints(distances[..], datasetSize, numBuckets, checkpoints);
  }

  /** After i accesses the next checkpoint is still ahead, or comes before one already met. */
  predicate Awaiting(checkpoints: seq<nat>, cpIdx: nat, i: nat) {
    && (forall a, b :: 0 <= a < b < cpIdx && b < |checkpoints| ==> checkpoints[a] <= checkpoints[b])
    && (forall k :: 0 <= k < cpIdx && k < |checkpoints| ==> checkpoints[k] <= i)
    && (cpIdx < |checkpoints| ==> checkpoints[cpIdx] > i || (cpIdx > 0 && checkpoints[cpIdx] < checkpoints[cpIdx - 1]))
  }

  /** The checkpoint met now is in turn, and what follows is awaited. */
  lemma MeetCheckpoint(checkpoints: seq<nat>, cpIdx: nat, i: nat, n: nat)
    requires cpIdx < |checkpoints| && Awaited(checkpoints, cpIdx, i) && checkpoints[cpIdx] == i <= n
    ensures InTurn(checkpoints, cpIdx, n) && Awaited(checkpoints, cpIdx + 1, i)
  {}

  /** As Awaiting, but checkpoints at i itself may be yet to be met. */
  predicate Awaited(checkpoints: seq<nat>, cpIdx: nat, i: nat) {
    && (forall a, b :: 0 <= a < b < cpIdx && b < |checkpoints| ==> checkpoints[a] <= checkpoints[b])
    && (forall k :: 0 <= k < cpIdx && k < |checkpoints| ==> checkpoints[k] <= i)
    && (cpIdx < |checkpoints| ==> checkpoints[cpIdx] >= i || (cpIdx > 0 && checkpoints[cpIdx] < checkpoints[cpIdx - 1]))
  }

  lemma AwaitStep(checkpoints: seq<nat>, cpIdx: nat, i: nat)
    ensures Awaiting(checkpoints, cpIdx, i) ==> Awaited(checkpoints, cpIdx, i + 1)
    ensures Awaited(checkpoints, cpIdx, i) && (cpIdx < |checkpoints| ==> checkpoints[cpIdx] != i) ==> Awaiting(checkpoints, cpIdx, i)
    ensures (forall k :: 0 <= k < |checkpoints| ==> checkpoints[k] > 0) ==> Awaiting(checkpoints, 0, 0)
  {}

  lemma Missed(checkpoints: seq<nat>, cpIdx: nat, n: nat)
    requires Awaiting(checkpoints, cpIdx, n)
    ensures forall k :: cpIdx <= k < |checkpoints| ==> !InTurn(checkpoints, k, n)
  {}

  method EmitCheckpoints(distances: seq<int>, datasetSize: nat, numBuckets: nat, checkpoints: seq<nat>)
    returns (out: seq<(nat, Curve)>)
    requires distances != [] && datasetSize > 0 && numBuckets > 0
    requires forall k :: 0 <= k < |checkpoints| ==> checkpoints[k] > 0
    ensures |out| == |checkpoints| && PointsOk(out, distances, checkpoints, datasetSize, numBuckets)
  {
    hide IsCurve, BinsHold, BinSize, InTurn, Awaiting, Awaited;
    var n := |distances|;
    var binSize := BinSize(datasetSize, numBuckets);
    var bins := NewBins(numBuckets, distances, binSize);
    out := [];
    var cpIdx := 0;
    var i := 0;
    AwaitStep(checkpoints, cpIdx, 0);
    while i < n
      invariant 0 <= i <= n && |out| == cpIdx <= |checkpoints|
      invariant bins.Length == numBuckets && fresh(bins)
      invariant BinsHold(bins[..], distances, i, binSize) && Awaiting(checkpoints, cpIdx, i)
      invariant PointsOk(out, distances, checkpoints, datasetSize, numBuckets)
    {
      Tally(bins, distances, i, binSize);
      AwaitStep(checkpoints, cpIdx, i);
      while cpIdx < |checkpoints| && i + 1 == checkpoints[cpIdx]
        invariant |out| == cpIdx <= |checkpoints| && BinsHold(bins[..], distances, i + 1, binSize)
        invariant Awaited(checkpoints, cpIdx, i + 1)
        invariant PointsOk(out, distances, checkpoints, datasetSize, numBuckets)
      {
        MeetCheckpoint(checkpoints, cpIdx, i + 1, n);
        var mrc := EmitCurve(bins, i + 1, datasetSize, binSize, distances, i + 1);
        out := out + [(i + 1, mrc)];
        cpIdx := cpIdx + 1;
      }
      i := i + 1;
      AwaitStep(checkpoints, cpIdx, i);
      if cpIdx >= |checkpoints| {
        return;
      }
    }
    Missed(checkpoints, cpIdx, n);
    while cpIdx < |checkpoints|
      invariant |out| == cpIdx <= |checkpoints| && BinsHold(bins[..], distances, n, binSize)
      invariant forall k :: cpIdx <= k < |checkpoints| ==> !InTurn(checkpoints, k, n)
      invariant PointsOk(out, distances, checkpoints, datasetSize, numBuckets)
    {
      var totalAccesses := Min(checkpoints[cpIdx], n);
      var mrc := EmitCurve(bins, totalAccesses, datasetSize, binSize, distances, n);
      out := out + [(totalAccesses, mrc)];
      cpIdx := cpIdx + 1;
    }
  }

  method NewBins(numBuckets: nat, ghost distances: seq<int>, ghost binSize: nat) returns (bins: array<int>)
    requires numBuckets > 0 && binSize > 0
    ensures fresh(bins) && bins.Length == numBuckets && BinsHold(bins[..], distances, 0, binSize)
  {
    bins := new int[numBuckets](_ => 0);
  }

  /** In LRU mode a checkpoint's curve is the one computed from scratch on the accesses
      up to it. */
  lemma CheckpointIsFromScratch(incremental: Curve, scratch: Curve, trace: seq<int>, c: nat, datasetSize: nat, numBuckets: nat)
    requires 0 < c <= |trace| && datasetSize > 0 && numBuckets > 0
    requires IsCurve(incremental, Distances(trace, LRU), c, c, datasetSize, numBuckets)
    requires IsCurve(scratch, Distances(trace[..c], LRU), c, c, datasetSize, numBuckets)
    ensures incremental == scratch
  {
    var binSize := BinSize(datasetSize, numBuckets);
    var whole := Distances(trace, LRU);
    LruDistancesOfPrefix(trace, c);
    forall b: nat
      ensures InBucket(whole, c, binSize, numBuckets, b) == InBucket(Distances(trace[..c], LRU), c, binSize, numBuckets, b)
    {
      InBucketPrefix(whole, c, c, binSize, numBuckets, b);
    }
    SameBucketsSameCurve(incremental, whole, c, scratch, Distances(trace[..c], LRU), c, c, datasetSize, numBuckets);
  }

  /** Access i is among the first c and reused only after them, at a distance that counts
      towards a reported bucket. */
  predicate CutOff(trace: seq<int>, c: nat, i: nat, datasetSize: nat, numBuckets: nat)
    requires i < |trace| && datasetSize > 0 && numBuckets > 0
  {
    && i < c && ReusedBeyond(trace, c, i)
    && Reported(Bucket(OptDistance(trace, i), BinSize(datasetSize, numBuckets), numBuckets), datasetSize, numBuckets,
                BinSize(datasetSize, numBuckets))
  }

  lemma {:induction false} CutOffCounted(trace: seq<int>, c: nat, n: nat, binSize: nat, numBuckets: nat, b: nat)
    requires n <= c <= |trace| < NEVER && binSize > 0 && numBuckets > 0
    ensures var part, whole := Distances(trace[..c], OPT), Distances(trace, OPT);
            && UpToBucket(part, n, binSize, numBuckets, b) <= UpToBucket(whole, n, binSize, numBuckets, b)
            && (UpToBucket(part, n, binSize, numBuckets, b) == UpToBucket(whole, n, binSize, numBuckets, b) <==>
                forall i :: 0 <= i < n && ReusedBeyond(trace, c, i) ==> Bucket(OptDistance(trace, i), binSize, numBuckets) > b)
  {
    hide OptDistance, ReusedBeyond, Bucket;
    var part, whole := Distances(trace[..c], OPT), Distances(trace, OPT);
    if n == 0 {
      UpToBucketNone(part, binSize, numBuckets, b);
      UpToBucketNone(whole, binSize, numBuckets, b);
    } else {
      CutOffCounted(trace, c, n - 1, binSize, numBuckets, b);
      UpToBucketStep(part, n, binSize, numBuckets, b);
      UpToBucketStep(whole, n, binSize, numBuckets, b);
      OptDistanceOfPrefix(trace, c, n - 1);
      assert part[n - 1] == OptDistance(trace[..c], n - 1) && whole[n - 1] == OptDistance(trace, n - 1);
    }
  }

  /** The histograms of the prefix and of the whole trace agree up to bucket b. */
  ghost predicate SameUpTo(trace: seq<int>, c: nat, binSize: nat, numBuckets: nat, b: nat)
    requires c <= |trace| && binSize > 0 && numBuckets > 0
  {
    UpToBucket(Distances(trace, OPT), c, binSize, numBuckets, b) == UpToBucket(Distances(trace[..c], OPT), c, binSize, numBuckets, b)
  }

  lemma CutOffShows(trace: seq<int>, c: nat, i: nat, datasetSize: nat, numBuckets: nat)
    requires i < c <= |trace| < NEVER && datasetSize > 0 && numBuckets > 0 && CutOff(trace, c, i, datasetSize, numBuckets)
    ensures var binSize := BinSize(datasetSize, numBuckets);
            var b := Bucket(OptDistance(trace, i), binSize, numBuckets);
            Reported(b, datasetSize, numBuckets, binSize) && !SameUpTo(trace, c, binSize, numBuckets, b)
  {
    var binSize := BinSize(datasetSize, numBuckets);
    CutOffCounted(trace, c, c, binSize, numBuckets, Bucket(OptDistance(trace, i), binSize, numBuckets));
  }

  lemma NoneCutOff(trace: seq<int>, c: nat, b: nat, datasetSize: nat, numBuckets: nat)
    requires c <= |trace| < NEVER && datasetSize > 0 && numBuckets > 0
    requires Reported(b, datasetSize, numBuckets, BinSize(datasetSize, numBuckets))
    requires forall i :: 0 <= i < c ==> !CutOff(trace, c, i, datasetSize, numBuckets)
    ensures SameUpTo(trace, c, BinSize(datasetSize, numBuckets), numBuckets, b)
  {
    hide BinSize, OptDistance, ReusedBeyond, Bucket, UpToBucket;
    var binSize := BinSize(datasetSize, numBuckets);
    CutOffCounted(trace, c, c, binSize, numBuckets, b);
    forall i | 0 <= i < c && ReusedBeyond(trace, c, i) ensures Bucket(OptDistance(trace, i), binSize, numBuckets) > b {
      assert !CutOff(trace, c, i, datasetSize, numBuckets);
      if Bucket(OptDistance(trace, i), binSize, numBuckets) <= b {
        MulMono(Bucket(OptDistance(trace, i), binSize, numBuckets), b, binSize);
      }
    }
  }

  /** In OPT mode a checkpoint's curve is the one computed from scratch exactly when no
      access up to it is cut off. */
  lemma OptCheckpointIsFromScratch(incremental: Curve, scratch: Curve, trace: seq<int>, c: nat, datasetSize: nat, numBuckets: nat)
    requires 0 < c <= |trace| < NEVER && datasetSize > 0 && numBuckets > 0
    requires IsCurve(incremental, Distances(trace, OPT), c, c, datasetSize, numBuckets)
    requires IsCurve(scratch, Distances(trace[..c], OPT), c, c, datasetSize, numBuckets)
    ensures incremental == scratch <==> forall i :: 0 <= i < c ==> !CutOff(trace, c, i, datasetSize, numBuckets)
  {
    hide IsCurve, BinSize, CutOff, Reported, Bucket, UpToBucket;
    var binSize := BinSize(datasetSize, numBuckets);
    CurvesEqual(incremental, Distances(trace, OPT), c, scratch, Distances(trace[..c], OPT), c, c, datasetSize, numBuckets);
    if forall i :: 0 <= i < c ==> !CutOff(trace, c, i, datasetSize, numBuckets) {
      forall b: nat | Reported(b, datasetSize, numBuckets, binSize) ensures SameUpTo(trace, c, binSize, numBuckets, b) {
        NoneCutOff(trace, c, b, datasetSize, numBuckets);
      }
    } else {
      var i :| 0 <= i < c && CutOff(trace, c, i, datasetSize, numBuckets);
      CutOffShows(trace, c, i, datasetSize, numBuckets);
    }
  }
}
