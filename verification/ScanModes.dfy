/** The forward and the backward scan of a trace find the same distances, in another order. */
module ScanModes {
  import opened Counting
  import opened ReuseDistance

  /** The backward scan gives an access the distance the forward scan gives its next use. */
  lemma NextUseSeesSameDistance(trace: seq<int>, i: nat, k: nat)
    requires i < |trace| && k < |trace|
    ensures Next(trace, i) == Some(k) <==> Prev(trace, k) == Some(i)
    ensures Next(trace, i) == Some(k) ==> OptDistance(trace, i) == LruDistance(trace, k)
  {}

  /** Forward distances of the first k accesses, NEVER beyond. */
  function LruSoFar(trace: seq<int>, k: nat): (r: seq<int>)
    requires k <= |trace|
    ensures |r| == |trace|
  {
    seq(|trace|, j requires 0 <= j < |trace| => if j < k then LruDistance(trace, j) else NEVER)
  }

  /** Backward distances of the accesses reused before position k, NEVER for the others. */
  function OptSoFar(trace: seq<int>, k: nat): (r: seq<int>)
    requires k <= |trace|
    ensures |r| == |trace|
  {
    seq(|trace|, j requires 0 <= j < |trace| =>
      if Next(trace, j).Some? && Next(trace, j).value < k then OptDistance(trace, j) else NEVER)
  }

  lemma {:induction false} SoFarAgree(trace: seq<int>, k: nat)
    requires k <= |trace|
    ensures multiset(LruSoFar(trace, k)) == multiset(OptSoFar(trace, k))
  {
    if k == 0 {
      assert LruSoFar(trace, 0) == OptSoFar(trace, 0);
    } else {
      var c := k - 1;
      SoFarAgree(trace, c);
      assert LruSoFar(trace, k) == LruSoFar(trace, c)[c := LruDistance(trace, c)];
      match Prev(trace, c) {
        case None =>
          forall j | 0 <= j < |trace| ensures Next(trace, j) != Some(c) {
            NextUseSeesSameDistance(trace, j, c);
          }
          assert LruSoFar(trace, k) == LruSoFar(trace, c);
          assert OptSoFar(trace, k) == OptSoFar(trace, c);
        case Some(p) =>
          forall j | 0 <= j < |trace| ensures Next(trace, j) == Some(c) <==> j == p {
            NextUseSeesSameDistance(trace, j, c);
          }
          NextUseSeesSameDistance(trace, p, c);
          assert OptSoFar(trace, k) == OptSoFar(trace, c)[p := LruDistance(trace, c)];
      }
    }
  }

  function Distances(trace: seq<int>, kind: AlgorithmType): (r: seq<int>)
    ensures |r| == |trace|
  {
    seq(|trace|, j requires 0 <= j < |trace| => Distance(trace, kind, j))
  }

  /** Both modes produce the same multiset of distances. */
  lemma ModesAgree(trace: seq<int>)
    ensures multiset(Distances(trace, LRU)) == multiset(Distances(trace, OPT))
  {
    SoFarAgree(trace, |trace|);
    assert LruSoFar(trace, |trace|) == Distances(trace, LRU);
    assert OptSoFar(trace, |trace|) == Distances(trace, OPT);
  }

  /** Forward distances depend only on the past ... */
  lemma LruDistancesOfPrefix(trace: seq<int>, c: nat)
    requires c <= |trace|
    ensures Distances(trace[..c], LRU) == Distances(trace, LRU)[..c]
  {
    forall i | 0 <= i < c ensures LruDistance(trace[..c], i) == LruDistance(trace, i) {
      LruDistanceOfPrefix(trace, c, i);
    }
    hide LruDistance;
  }

  lemma LruDistanceOfPrefix(trace: seq<int>, c: nat, i: nat)
    requires i < c <= |trace|
    ensures LruDistance(trace[..c], i) == LruDistance(trace, i)
  {
    hide LastIn, Addresses;
    LastInOfPrefix(trace, trace[i], i, c);
    match Prev(trace, i) {
      case None =>
      case Some(p) => AddressesOfPrefix(trace, p + 1, i, c);
    }
  }

  /** The next use of access i is beyond the first c accesses. */
  predicate ReusedBeyond(trace: seq<int>, c: nat, i: nat)
    requires i < |trace|
  {
    Next(trace, i).Some? && Next(trace, i).value >= c
  }

  lemma {:induction false} FirstFromOfPrefix(trace: seq<int>, a: int, n: nat, c: nat)
    requires n <= c <= |trace|
    ensures var first := FirstFrom(trace, a, n);
            FirstFrom(trace[..c], a, n) == if first.Some? && first.value < c then first else None
    decreases c - n
  {
    if n < c && trace[n] != a { FirstFromOfPrefix(trace, a, n + 1, c); }
  }

  /** A backward distance sees the future only of an access reused beyond the prefix. */
  lemma OptDistanceOfPrefix(trace: seq<int>, c: nat, i: nat)
    requires i < c <= |trace| < NEVER
    ensures OptDistance(trace[..c], i) == if ReusedBeyond(trace, c, i) then NEVER else OptDistance(trace, i)
    ensures ReusedBeyond(trace, c, i) ==> OptDistance(trace, i) != NEVER
  {
    hide FirstFrom, Addresses;
    FirstFromOfPrefix(trace, trace[i], i + 1, c);
    match Next(trace, i) {
      case None =>
      case Some(n) =>
        AddressesAtMost(trace, i + 1, n);
        if n < c { AddressesOfPrefix(trace, i + 1, n, c); }
    }
  }

  lemma {:induction false} AddressesAtMost(trace: seq<int>, lo: nat, hi: nat)
    requires lo <= hi <= |trace|
    ensures |Addresses(trace, lo, hi)| <= hi - lo
    decreases hi
  {
    if lo < hi { AddressesAtMost(trace, lo, hi - 1); }
  }

  /** ... and backward distances do so only when no access is reused beyond the prefix. */
  lemma OptDistancesOfPrefix(trace: seq<int>, c: nat)
    requires c <= |trace| < NEVER
    ensures Distances(trace[..c], OPT) == Distances(trace, OPT)[..c] <==>
            forall i :: 0 <= i < c ==> !ReusedBeyond(trace, c, i)
  {
    hide OptDistance, ReusedBeyond;
    var part, whole := Distances(trace[..c], OPT), Distances(trace, OPT);
    forall i | 0 <= i < c ensures part[i] == whole[i] <==> !ReusedBeyond(trace, c, i) {
      OptDistanceOfPrefix(trace, c, i);
      assert part[i] == OptDistance(trace[..c], i) && whole[i] == OptDistance(trace, i);
    }
    if forall i :: 0 <= i < c ==> !ReusedBeyond(trace, c, i) {
      assert part == whole[..c];
    } else {
      var i :| 0 <= i < c && ReusedBeyond(trace, c, i);
      assert part[i] != whole[..c][i];
    }
  }

  /** A trace on which they differ. */
  lemma OptDistancesSeeTheFuture()
    ensures var trace := [7, 7]; ReusedBeyond(trace, 1, 0) && Distances(trace[..1], OPT) != Distances(trace, OPT)[..1]
  {
    var trace := [7, 7];
    assert Next(trace, 0) == Some(1);
    assert ReusedBeyond(trace, 1, 0);
    OptDistancesOfPrefix(trace, 1);
  }

  lemma {:induction false} LastInOfPrefix(trace: seq<int>, a: int, n: nat, c: nat)
    requires n <= c <= |trace|
    ensures LastIn(trace[..c], a, n) == LastIn(trace, a, n)
  {
    if n > 0 { LastInOfPrefix(trace, a, n - 1, c); }
  }

  lemma {:induction false} AddressesOfPrefix(trace: seq<int>, lo: nat, hi: nat, c: nat)
    requires hi <= c <= |trace|
    ensures Addresses(trace[..c], lo, hi) == Addresses(trace, lo, hi)
  {
    if lo < hi { AddressesOfPrefix(trace, lo, hi - 1, c); }
  }
}
