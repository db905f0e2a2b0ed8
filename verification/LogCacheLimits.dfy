/** How many segments the log-structured cache needs: thirteen, and not one fewer. */
module LogCacheLimits {
  import opened Counting
  import opened Ftl
  import opened FlashPages
  import opened LogCacheState
  import opened LogCaching

  /** A new cache of segments of two blocks, the host's first one opened. */
  ghost function Started(total: nat): Log
    requires total > 0
  {
    NewlyActive(FreshLog(2, total), false)
  }

  lemma FirstWrite(total: nat)
    requires total > 0
    ensures !HostFull(Started(total))
    ensures var l := Placed(Started(total), 0);
            && |l.free| == total - 1 && l.now == 1 && l.size == 2 && SealedSet(l.spot) == {} && !HostFull(l)
  {}

  /** The first write repeated: the host's segment is full, and one of its blocks is valid. */
  lemma SecondWrite(total: nat)
    requires total > 0
    ensures var l := Placed(Placed(Started(total), 0), 0);
            && |l.free| == total - 1 && l.now == 2 && l.size == 2 && HostFull(l) && l.host == Some(0) && l.gc.None?
            && |l.segs| == |l.spot| == total && l.segs[0].validCnt == 1 && SealedSet(l.spot) == {} && l.validBlocks == 1
            && l.mapping.Keys == {0} && (forall i :: 0 <= i < |l.free| ==> l.free[i] == i + 1)
            && (forall x :: 0 <= x < total ==> |l.segs[x].blocks| == 2)
  {}

  /** Another key: the full segment is sealed, and a second one opened. */
  lemma ThirdWrite(total: nat)
    requires total > 1
    ensures var l := Placed(Placed(Placed(Started(total), 0), 0), 1);
            && |l.free| == total - 2 && l.now == 3 && l.size == 2 && l.gc.None? && l.host == Some(1) && |l.segs| == total
            && SealedSet(l.spot) == {0} && l.segs[0].validCnt == 1 && l.validBlocks == 2
            && l.segs[1].writePtr == 1 && |l.segs[1].blocks| == 2
  {
    SecondWrite(total);
    var b := Placed(Placed(Started(total), 0), 0);
    hide FreshLog, Started;
  }

  /** With twelve segments the collection after the third write compacts the sealed one,
      which takes a segment from the pool and returns one: nothing is left sealed. */
  lemma AfterCompaction(l: Log, l': Log)
    requires OneRound(l, l', true) && LogOk(l', None) && |l'.segs| == ENOUGH_SEGMENTS - 1
    requires |l.free| == PROACTIVE && l.size == 2 && l.gc.None? && l.host == Some(1) && |l.segs| == ENOUGH_SEGMENTS - 1
    requires SealedSet(l.spot) == {0} && l.segs[0].validCnt == 1
    requires l.segs[1].writePtr == 1 && |l.segs[1].blocks| == 2
    ensures |l'.free| == PROACTIVE && l'.size == 2 && l'.now == l.now && SealedSet(l'.spot) == {}
    ensures !HostFull(l') && l'.host == Some(1) && l'.segs[1].writePtr == 1 && |l'.segs[1].blocks| == 2
  {
    hide LogOk;
    SealedCount(l');
    assert !TooFull(l.segs[0], 2);
  }

  lemma FourthWrite(l: Log)
    requires l.host == Some(1) && |l.segs| > 1 && l.segs[1].writePtr == 1 && |l.segs[1].blocks| == 2 && l.size == 2
    ensures var l' := Placed(l, 2);
            l'.free == l.free && l'.now == l.now + 1 && l'.size == 2 && SealedSet(l'.spot) == SealedSet(l.spot)
  {}

  /** A new cache of segments of two blocks that aims to keep nine tenths of its blocks valid. */
  method NewCache(total: nat, cold: PageMappingFtl) returns (cache: LogCache)
    requires total > 0 && cold.Valid() && cold.lpnToPpn == map[]
    ensures fresh(cache) && fresh(cache.evictor) && fresh(cache.compactor) && cache.cold == cold
    ensures cache.Valid() && cache.State() == FreshLog(2, total) && SealedSet(cache.spot) == {}
    ensures cache.Store() == map[] && cache.totalSegments == total && |cache.segs| == |cache.freePool| == total
    ensures cache.activeSeg.None? && cache.timestamp == 0
  {
    hide LogCache.Ok, LogCache.Store, PageMappingFtl.Valid, FreshLog;
    FreshDimensions(2, total);
    assert cold.Contents() == map[];
    cache := new LogCache(2, total, (s, now, threshold) => 0.0, (s, now, threshold) => 0.0, 2 * total, 0.9, 0, cold);
  }

  lemma FreshDimensions(size: nat, total: nat)
    ensures FreshLog(size, total).host.None?
  {}

  /** Opening the host's segment takes more than three free segments. */
  method Start(total: nat, cold: PageMappingFtl) returns (ok: bool, cache: LogCache)
    requires total > 0 && cold.Valid() && cold.lpnToPpn == map[]
    modifies cold, cold.gcPolicy
    ensures fresh(cache) && fresh(cache.evictor) && fresh(cache.compactor) && cache.cold == cold && cache.Valid()
    ensures cache.totalSegments == total && |cache.segs| == total && cache.Store() == map[]
    ensures ok <==> total > EMERGENCY
    ensures ok ==> cache.State() == Started(total) && cache.activeSeg.Some?
  {
    hide LogCache.Valid, LogCache.Store, FreshLog, SealedSet, NewlyActive, PageMappingFtl.Capacity,
         PageMappingFtl.Valid, LogCache.Ok;
    cache := NewCache(total, cold);
    ok := cache.GetHostActive();
  }

  /** One write at a target of nine tenths; `l` is the state before. */
  method Write(cache: LogCache, key: nat, ghost l: Log) returns (ok: bool)
    requires cache.Valid() && cache.activeSeg.Some? && cache.State() == l && key <= 2
    requires cache.Store().Keys <= Range(3) && cache.cold.Capacity() >= 3
    requires !HostFull(l) || |l.free| > EMERGENCY
    modifies cache, cache.evictor, cache.compactor, cache.cold, cache.cold.gcPolicy
    ensures cache.Valid() && cache.Store().Keys <= Range(3) && |cache.segs| == old(|cache.segs|)
    ensures ok ==> cache.activeSeg.Some?
    ensures |cache.segs| >= ENOUGH_SEGMENTS ==> ok
    ensures Collected(Placed(l, key), cache.State(), ok, Wanting(0.9, cache.totalSegments * cache.segmentSize, Placed(l, key).validBlocks))
  {
    hide LogCache.Valid, LogCache.Store, Placed, HostFull, Collected, Wanting, PageMappingFtl.Capacity,
         PageMappingFtl.Valid, LogCache.Ok;
    FewKeys(cache.Store(), key, cache.timestamp, cache.cold.Capacity());
    var written;
    ghost var placed;
    ok, written, placed := cache.WriteBlock(key, NAND_PAGE_SIZE, 0.9);
  }

  lemma FewKeys(store: map<nat, nat>, key: nat, now: nat, capacity: nat)
    requires store.Keys <= Range(3) && key <= 2 && capacity >= 3
    ensures |store.Keys + {key}| <= capacity && store[key := now].Keys <= Range(3)
  {
    SubsetSize(store.Keys + {key}, Range(3));
  }

  lemma CacheOk(cache: LogCache)
    requires cache.Valid()
    ensures LogOk(cache.State(), None)
  {}

  /** The cache with twelve segments after the third write, and the fourth. */
  method LastTwo(cache: LogCache, ghost l: Log) returns (ok: bool)
    requires cache.Valid() && cache.activeSeg.Some? && cache.State() == l
    requires cache.Store().Keys <= Range(3) && cache.cold.Capacity() >= 3 && cache.segmentSize == 2
    requires |cache.segs| == cache.totalSegments == ENOUGH_SEGMENTS - 1
    requires l == Placed(Placed(Started(ENOUGH_SEGMENTS - 1), 0), 0)
    modifies cache, cache.evictor, cache.compactor, cache.cold, cache.cold.gcPolicy
    ensures !ok
  {
    hide LogCache.Valid, LogCache.Store, Placed, FreshLog, Started, OneRound, HostFull, SealedSet,
         PageMappingFtl.Capacity, PageMappingFtl.Valid, LogCache.Ok, LogOk;
    SecondWrite(ENOUGH_SEGMENTS - 1);
    ThirdWrite(ENOUGH_SEGMENTS - 1);
    ok := Write(cache, 1, l);
    if !ok {
      return;
    }
    CacheOk(cache);
    AfterCompaction(Placed(l, 1), cache.State());
    FourthWrite(cache.State());
    ok := Write(cache, 2, cache.State());
  }

  /** Four writes to it, to keys 0, 0, 1 and 2, succeed exactly when there are at least
      thirteen segments. */
  method FourWrites(total: nat, cold: PageMappingFtl) returns (ok: bool)
    requires total > 0 && cold.Valid() && cold.lpnToPpn == map[] && cold.Capacity() >= 3
    modifies cold, cold.gcPolicy
    ensures ok <==> total >= 13
  {
    hide LogCache.Valid, LogCache.Store, Placed, FreshLog, Started, OneRound, HostFull, SealedSet, Wanting,
         PageMappingFtl.Capacity, PageMappingFtl.Valid, LogCache.Ok, LogOk;
    var cache;
    ok, cache := Start(total, cold);
    if !ok {
      return;
    }
    FirstWrite(total);
    SecondWrite(total);
    ThirdWrite(total);
    ok := Write(cache, 0, cache.State());
    if !ok {
      return;
    }
    ok := Write(cache, 0, cache.State());
    if total == ENOUGH_SEGMENTS - 1 {
      ok := LastTwo(cache, cache.State());
      return;
    }
    ok := Write(cache, 1, cache.State());
    ok := Write(cache, 2, cache.State());
  }
}
