/** FairyWren caches without room: one segment, all of it the log's, which cannot take a second
    block; and three regions whose queued segments are mostly stale. */
module FairyWrenLimits {
  import opened Counting
  import opened FlashPages
  import opened Ftl
  import opened LogSegments
  import opened FairyWrenState
  import opened FairyWrenRoom
  import opened FairyWren

  /** A single segment, in the log region. */
  ghost predicate Lone(t: Tier) {
    && Restful(t) && |t.segs| == 1 && |t.regions| == 3
    && t.regions[FWLOG].totalSegments == 1 && t.regions[HOT].totalSegments == 0 && t.regions[COLD].totalSegments == 0
  }

  /** So migrated blocks have nowhere to go. */
  lemma NowhereToGo(t: Tier, v: nat)
    requires Lone(t) && v > 0
    ensures !Disposable(t, FWLOG, v)
  {
    EmptyRegion(t, HOT);
  }

  /** With a block cached, the segment is queued or active. */
  lemma Whereabouts(t: Tier)
    requires Lone(t) && t.mapping != map[]
    ensures t.segs[0].validCnt > 0 && t.regions[FWLOG].free == [] && NextVictim(t, FWLOG) == Some(0)
    ensures t.regions[FWLOG].fifo == [] || t.regions[FWLOG].active.None?
  {
    hide Lone;
    OneCounter(t);
    LogLists(t);
    HeldSomewhere(t);
  }

  lemma OneCounter(t: Tier)
    requires Lone(t) && t.mapping != map[]
    ensures |t.segs| == 1 && t.segs[0].validCnt > 0
  {
    Dimensions(t, None);
    RegionCountersAgree(t);
    OnlyOne(t.segs);
    hide TierOk;
  }

  lemma LogLists(t: Tier)
    requires Lone(t)
    ensures |t.segs| == |t.place| == 1 && |t.regions| == 3
    ensures forall i :: 0 <= i < |t.regions[FWLOG].fifo| ==> t.regions[FWLOG].fifo[i] == 0 && t.place[0] == Fifo(FWLOG)
    ensures t.regions[FWLOG].active.Some? ==> t.regions[FWLOG].active == Some(0) && t.place[0] == Active(FWLOG)
  {
    Dimensions(t, None);
    AtRegion(t.regions, t.place, t.segRegion, FWLOG);
    hide TierOk;
  }

  lemma OnlyOne(segs: seq<Segment>)
    requires |segs| == 1
    ensures SumValid(segs, 1) == segs[0].validCnt
  {
    assert SumValid(segs, 0) == 0;
  }

  lemma HeldSomewhere(t: Tier)
    requires Lone(t) && t.segs[0].validCnt > 0
    ensures |t.place| == 1 && (t.place[0] == Fifo(FWLOG) || t.place[0] == Active(FWLOG))
    ensures t.regions[FWLOG].free == [] && (t.place[0] == Active(FWLOG) ==> t.regions[FWLOG].active == Some(0))
    ensures t.place[0] == Fifo(FWLOG) ==> 0 in t.regions[FWLOG].fifo
  {
    RegionNone(t.segRegion, HOT, 1);
    RegionNone(t.segRegion, COLD, 1);
    AtRegion(t.regions, t.place, t.segRegion, FWLOG);
    FirstListed(t.regions[FWLOG].free, t.place, Free(FWLOG));
    hide SegsOk, MapOk, ValidCountsOk;
  }

  /** The segment is queued, nothing is active and nothing free. */
  ghost predicate Blocked(t: Tier) {
    FrontOf(t, FWLOG, 0) && t.regions[FWLOG].free == [] && t.regions[FWLOG].active.None?
  }

  /** A region without segments is never short. */
  lemma NotShort(t: Tier, s: Tier, k: Kind, ratio: real, done: bool)
    requires ratio >= 0.0 && Attempt(t, s, k, ratio, done)
    requires |t.regions| == 3 && t.regions[k].totalSegments == 0
    ensures !done && s == t
  {}

  /** The log region is, and reclaiming from it fails. */
  lemma LogAttempt(t: Tier, s: Tier, done: bool)
    requires Lone(t) && t.mapping != map[] && Attempt(t, s, FWLOG, 0.15, done)
    ensures !done && Blocked(s) && SameTotals(t, s)
  {
    Whereabouts(t);
    ShortRegion(t, FWLOG, 0.15);
    NowhereToGo(t, t.segs[0].validCnt);
    AttemptTotals(t, s, FWLOG, 0.15, done);
    hide Lone, Disposable, HandKept;
  }

  /** The reclaims tried after the block leave the segment queued. */
  lemma AfterGc(t: Tier, t': Tier)
    requires Lone(t) && t.mapping != map[] && GcOrder(t, t')
    ensures Blocked(t')
  {
    hide Attempt, Blocked, SameTotals;
    if Attempt(t, t', HOT, 0.015, true) {
      NotShort(t, t', HOT, 0.015, true);
    } else {
      var s1 :| Attempt(t, s1, HOT, 0.015, false) && GcOrder2(s1, t');
      NotShort(t, s1, HOT, 0.015, false);
      AfterGc2(t, t');
    }
  }

  lemma AfterGc2(t: Tier, t': Tier)
    requires Lone(t) && t.mapping != map[] && GcOrder2(t, t')
    ensures Blocked(t')
  {
    hide Attempt, Blocked, SameTotals;
    if Attempt(t, t', COLD, 0.015, true) {
      NotShort(t, t', COLD, 0.015, true);
    } else {
      var s2 :| Attempt(t, s2, COLD, 0.015, false) && GcOrder3(s2, t');
      NotShort(t, s2, COLD, 0.015, false);
      AfterGc3(t, t');
    }
  }

  lemma AfterGc3(t: Tier, t': Tier)
    requires Lone(t) && t.mapping != map[] && GcOrder3(t, t')
    ensures Blocked(t')
  {
    hide Attempt, Blocked;
    if Attempt(t, t', FWLOG, 0.15, true) {
      LogAttempt(t, t', true);
    } else {
      var s, done :| Attempt(t, s, FWLOG, 0.15, false) && Attempt(s, t', HOT, 0.05, done);
      LogAttempt(t, s, false);
      NotShort(s, t', HOT, 0.05, done);
    }
  }

  lemma BlockedMeans(t: Tier)
    requires Lone(t) && Blocked(t)
    ensures !CanWrite(t)
  {
    NowhereToGo(t, t.segs[0].validCnt);
  }

  /** A cache of one segment, however large, takes one block and fails on the next. */
  method TwoWrites(size: nat, cold: PageMappingFtl) returns (first: bool, second: bool)
    requires size > 0 && cold.Valid() && cold.lpnToPpn == map[] && cold.Capacity() >= 2
    modifies cold, cold.gcPolicy
    ensures first && !second
  {
    hide FairyWrenCache.Ok, FairyWrenCache.Store, NoHands, PageMappingFtl.Valid, PageMappingFtl.Capacity, Fresh,
         Partition, CanWrite, Lone, Blocked, GcOrder, SameTotals;
    assert cold.Contents() == map[];
    FreshCanWrite(size);
    var cache := new FairyWrenCache(size, 1, 0.5, 0.5, cold);
    TwoKeys(cache.Store(), 0, cold.Capacity());
    first := cache.AppendHostBlock(0, NAND_PAGE_SIZE);
    cache.ValidTier();
    LoneStill(Fresh(size, 1, 1, 0), cache.State());
    ghost var before := cache.State();
    cache.MaybeRunGc();
    AfterGc(before, cache.State());
    cache.ValidTier();
    GcTotals(before, cache.State());
    LoneStill(before, cache.State());
    BlockedMeans(cache.State());
    TwoKeys(cache.Store(), 1, cold.Capacity());
    second := cache.AppendHostBlock(1, NAND_PAGE_SIZE);
  }

  lemma FreshCanWrite(size: nat)
    requires size > 0
    ensures Partition(1, 0.5, 0.5) == (1, 0, 0) && CanWrite(Fresh(size, 1, 1, 0)) && Lone(Fresh(size, 1, 1, 0))
  {
    FreshOk(size, 1, 1, 0);
    hide TierOk;
  }

  lemma LoneStill(t: Tier, t': Tier)
    requires Lone(t) && SameTotals(t, t') && Restful(t')
    ensures Lone(t')
  {}

  lemma TwoKeys(store: map<nat, nat>, key: nat, capacity: nat)
    requires store.Keys <= Range(2) && key < 2 && capacity >= 2
    ensures |store.Keys + {key}| <= capacity
  {
    SubsetSize(store.Keys + {key}, Range(2));
  }

  // ---- three regions ----

  function HalfFull(x: nat, size: nat): Segment
    requires size > 1
  {
    Segment(1, 1, x, seq(size, i => if i == 0 then Slot(x, true, x) else Slot(0, false, 0)))
  }

  /** Three regions of one segment each, and each segment queued with its first block valid. */
  function Jammed(size: nat): Tier
    requires size > 1
  {
    Tier(size, [HalfFull(0, size), HalfFull(1, size), HalfFull(2, size)], map[0 := Loc(0, 0), 1 := Loc(1, 0), 2 := Loc(2, 0)],
         [RegionState(1, [], [0], None), RegionState(1, [], [1], None), RegionState(1, [], [2], None)],
         [Fifo(FWLOG), Fifo(HOT), Fifo(COLD)], [FWLOG, HOT, COLD], [1, 1, 1])
  }

  lemma HalfFullOk(x: nat, size: nat)
    requires size > 1
    ensures SegOk(HalfFull(x, size), size)
  {
    var blocks := HalfFull(x, size).blocks;
    FirstOnly(blocks, size);
  }

  lemma {:induction false} FirstOnly(blocks: seq<Slot>, n: nat)
    requires 1 <= n <= |blocks| && blocks[0].valid && forall i :: 0 < i < n ==> !blocks[i].valid
    ensures CountValid(blocks, n) == 1
  {
    if n > 1 {
      FirstOnly(blocks, n - 1);
    } else {
      assert CountValid(blocks, 0) == 0;
    }
  }

  lemma JammedSegments(size: nat)
    requires size > 1
    ensures var t := Jammed(size); SegsOk(t.segs, size, None) && MapOk(t.segs, t.mapping)
  {
    HalfFullOk(0, size);
    HalfFullOk(1, size);
    HalfFullOk(2, size);
    hide SegOk;
  }

  /** Three segments with one valid block each, one for each region. */
  lemma OneEach(segs: seq<Segment>, segRegion: seq<Kind>, k: Kind)
    requires |segs| == 3 && segRegion == [FWLOG, HOT, COLD] && forall x :: 0 <= x < 3 ==> segs[x].validCnt == 1
    ensures RegionSize(segRegion, k, 3) == 1 && RegionValid(segs, segRegion, None, k, 3) == 1
  {
    forall n: nat | n < 3
      ensures RegionSize(segRegion, k, n + 1) == RegionSize(segRegion, k, n) + Bit(n == k)
      ensures RegionValid(segs, segRegion, None, k, n + 1) == RegionValid(segs, segRegion, None, k, n) + Bit(n == k)
    {
      assert segRegion[n] == n;
    }
    assert RegionSize(segRegion, k, 0) == 0 && RegionValid(segs, segRegion, None, k, 0) == 0;
    assert RegionSize(segRegion, k, 0 + 1) == Bit(k == 0) && RegionValid(segs, segRegion, None, k, 0 + 1) == Bit(k == 0);
    assert RegionSize(segRegion, k, 1 + 1) == Bit(k <= 1) && RegionValid(segs, segRegion, None, k, 1 + 1) == Bit(k <= 1);
    assert RegionSize(segRegion, k, 2 + 1) == 1 && RegionValid(segs, segRegion, None, k, 2 + 1) == 1;
  }

  lemma JammedRegions(size: nat)
    requires size > 1
    ensures var t := Jammed(size);
            && PlacesOk(t.regions, t.place, t.segRegion) && SizesOk(t.regions, t.segRegion) && NoHands(t)
            && ValidCountsOk(t.segs, t.segRegion, None, t.regionValid) && FreeAreEmpty(t.segs, t.place)
  {
    hide RegionSize, RegionValid;
    var t := Jammed(size);
    forall k: Kind ensures RegionSize(t.segRegion, k, 3) == 1 && RegionValid(t.segs, t.segRegion, None, k, 3) == 1 {
      OneEach(t.segs, t.segRegion, k);
    }
  }

  /** No region is empty and most blocks are stale, yet the next block has no room. */
  lemma JammedCannotWrite(size: nat)
    requires size > 1
    ensures Restful(Jammed(size)) && !CanWrite(Jammed(size))
  {
    hide SegsOk, MapOk, PlacesOk, SizesOk, NoHands, ValidCountsOk, FreeAreEmpty, CanWrite;
    JammedSegments(size);
    JammedRegions(size);
    NoRoomMeans(Jammed(size));
  }
}
