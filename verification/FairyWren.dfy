/** The FairyWren cache: three regions of log segments over a cold flash tier. Reclaiming a
    segment migrates its blocks to the next colder region, which may itself have to reclaim. */
module FairyWren {
  import opened Counting
  import opened FlashPages
  import opened Ftl
  import opened LogSegments
  import opened Places
  import opened TwoTiers
  import opened FairyWrenState
  import opened FairyWrenRoom

  class FairyWrenCache {
    const segmentSize: nat
    const cold: PageMappingFtl
    var segs: seq<Segment>
    var regions: seq<RegionState>
    var segRegion: seq<Kind>
    var mapping: map<nat, Loc>
    var regionValid: seq<int>
    var timestamp: nat
    ghost var place: seq<Place>
    ghost const coldStart: int

    ghost function State(): Tier
      reads this
    {
      Tier(segmentSize, segs, mapping, regions, place, segRegion, regionValid)
    }

    /** Every key is cached or in the cold tier, not both, and the cold tier could take all. */
    ghost predicate Tiers()
      reads this, cold, cold.gcPolicy
    {
      cold.Valid() && TiersApart(mapping.Keys, cold.lpnToPpn.Keys, cold.Capacity())
    }

    /** The invariant. The cold tier has been written in whole segments only. */
    ghost predicate Ok()
      reads this, cold, cold.gcPolicy
    {
      && TierOk(State(), None) && SizesOk(regions, segRegion) && Tiers()
      && ColdWhole()
    }

    ghost predicate ColdWhole()
      reads cold
    {
      WholeSegments(cold.hostWritePages - coldStart, segmentSize)
    }

    /** The timestamp of the last write of every key, wherever the key is. */
    ghost function Store(): map<nat, nat>
      reads this, cold
    {
      Held(State()) + cold.Contents()
    }

    // ---- segment lists ----

    /** The source asserts that the counter does not go below zero. */
    method AdjustRegionValid(kind: Kind, delta: int)
      requires |regionValid| == 3 && regionValid[kind] + delta >= 0
      modifies this`regionValid
      ensures regionValid == Adjusted(old(regionValid), kind, delta)
    {
      regionValid := regionValid[kind := regionValid[kind] + delta];
    }

    method MoveSegmentRegion(x: nat, kind: Kind)
      requires TierOk(State(), None) && x < |segs| && place[x] == InHand
      modifies this`segRegion, this`regionValid
      ensures TierOk(State(), None) && Held(State()) == old(Held(State()))
      ensures State() == old(State()).(segRegion := old(segRegion)[x := kind], regionValid := regionValid)
      ensures kind == old(segRegion[x]) ==> State() == old(State())
    {
      hide TierOk;
      Dimensions(State(), None);
      StepMoveRegion(State(), x, kind);
      CountersNonNegative(State(), kind);
      var oldKind := segRegion[x];
      if oldKind != kind {
        AdjustRegionValid(oldKind, 0 - segs[x].validCnt);
        AdjustRegionValid(kind, segs[x].validCnt);
      }
      segRegion := segRegion[x := kind];
    }

    /** Returns an emptied segment to its region's free list. */
    method ReleaseSegmentToFree(kind: Kind, x: nat)
      requires TierOk(State(), None) && x < |segs| && place[x] == InHand && segRegion[x] == kind
      requires segs[x].validCnt == 0
      modifies this`segs, this`regions, this`segRegion, this`regionValid, this`place
      ensures TierOk(State(), None) && Held(State()) == old(Held(State()))
      ensures State() == WithRegion(old(State()), kind, old(regions[kind]).(free := old(regions[kind]).free + [x]), x, Free(kind))
                         .(segs := old(segs)[x := Reset(old(segs[x]))])
    {
      StepReset(State(), x);
      Dimensions(State(), None);
      segs := segs[x := Reset(segs[x])];
      StepPutFree(State(), kind, x);
      hide TierOk, Held;
      MoveSegmentRegion(x, kind);
      regions := regions[kind := regions[kind].(free := regions[kind].free + [x])];
      place := place[x := Free(kind)];
    }

    /** A retired segment queues for reclaim, or is freed at once if nothing in it is valid. */
    method PushToFifo(kind: Kind, x: nat)
      requires TierOk(State(), None) && x < |segs| && place[x] == InHand && segRegion[x] == kind
      modifies this`segs, this`regions, this`segRegion, this`regionValid, this`place
      ensures TierOk(State(), None) && Held(State()) == old(Held(State()))
      ensures if old(segs[x].validCnt) == 0 then
                State() == WithRegion(old(State()), kind, old(regions[kind]).(free := old(regions[kind]).free + [x]), x, Free(kind))
                           .(segs := old(segs)[x := Reset(old(segs[x]))])
              else
                State() == WithRegion(old(State()), kind, old(regions[kind]).(fifo := old(regions[kind]).fifo + [x]), x, Fifo(kind))
    {
      hide TierOk, Held;
      Dimensions(State(), None);
      StepPutFifo(State(), kind, x);
      if segs[x].validCnt == 0 {
        ReleaseSegmentToFree(kind, x);
        return;
      }
      SameHeld(State(), kind, regions[kind].(fifo := regions[kind].fifo + [x]), x, Fifo(kind));
      regions := regions[kind := regions[kind].(fifo := regions[kind].fifo + [x])];
      place := place[x := Fifo(kind)];
    }

    /** Takes the active segment into hand. */
    method TakeActiveSegment(kind: Kind) returns (x: nat)
      requires TierOk(State(), None) && regions[kind].active.Some?
      modifies this`regions, this`place
      ensures TierOk(State(), None) && Held(State()) == old(Held(State()))
      ensures x == old(regions[kind].active.value) && x < |segs| && segRegion[x] == kind && old(place[x]) == Active(kind)
      ensures State() == WithRegion(old(State()), kind, old(regions[kind]).(active := None), x, InHand)
    {
      Dimensions(State(), None);
      StepTakeActive(State(), kind);
      hide TierOk;
      x := regions[kind].active.value;
      SameHeld(State(), kind, regions[kind].(active := None), x, InHand);
      hide Held;
      regions := regions[kind := regions[kind].(active := None)];
      place := place[x := InHand];
    }

    /** Retires a region's active segment. */
    method CloseActiveSegment(kind: Kind)
      requires TierOk(State(), None) && regions[kind].active.Some?
      modifies this`segs, this`regions, this`segRegion, this`regionValid, this`place
      ensures TierOk(State(), None) && Held(State()) == old(Held(State()))
      ensures HandKept(None, old(State()), State()) && Colder(old(State()), State(), kind)
      ensures segRegion == old(segRegion) && regions[kind].active.None?
      ensures Retired(old(State()), State(), kind)
      ensures var x := old(regions[kind]).active.value;
              x < old(|segs|) && (old(segs[x].validCnt) > 0 ==>
                regions[kind].free == old(regions[kind].free) && regions[kind].fifo == old(regions[kind].fifo) + [x])
    {
      Dimensions(State(), None);
      hide Retired, TierOk, Held, HandKept, Colder, Reset, WithRegion;
      ghost var before := State();
      TakenAndPut(before, kind);
      var x := TakeActiveSegment(kind);
      PushToFifo(kind, x);
    }

    /** Takes a segment from the front of a region's free list into hand. */
    method TakeFreeSegment(kind: Kind) returns (seg: Option<nat>)
      requires TierOk(State(), None)
      modifies this`regions, this`place
      ensures TierOk(State(), None) && Held(State()) == old(Held(State()))
      ensures seg.None? <==> old(regions[kind].free) == []
      ensures seg.None? ==> State() == old(State())
      ensures seg.Some? ==>
                && seg.value == old(regions[kind].free[0]) && seg.value < |segs|
                && old(place[seg.value]) == Free(kind) && segs[seg.value].validCnt == 0 && segRegion[seg.value] == kind
                && State() == WithRegion(old(State()), kind, old(regions[kind]).(free := old(regions[kind].free[1..])), seg.value, InHand)
    {
      Dimensions(State(), None);
      if regions[kind].free == [] {
        return None;
      }
      StepTakeFree(State(), kind);
      hide TierOk;
      var x := regions[kind].free[0];
      SameHeld(State(), kind, regions[kind].(free := regions[kind].free[1..]), x, InHand);
      hide Held;
      regions := regions[kind := regions[kind].(free := regions[kind].free[1..])];
      place := place[x := InHand];
      return Some(x);
    }

    /** Takes the oldest queued segment into hand. */
    method TakeQueued(kind: Kind) returns (x: nat)
      requires TierOk(State(), None) && regions[kind].fifo != []
      modifies this`regions, this`place
      ensures TierOk(State(), None) && Held(State()) == old(Held(State()))
      ensures Colder(old(State()), State(), kind) && regions[kind].free == old(regions[kind].free)
      ensures x < |segs| && HandKept(Some(x), old(State()), State())
      ensures old(place[x]) == Fifo(kind) && place[x] == InHand && segRegion[x] == kind
      ensures x == old(regions[kind].fifo[0]) && segs == old(segs)
      ensures regions == old(regions)[kind := old(regions[kind]).(fifo := old(regions[kind].fifo[1..]))]
    {
      Dimensions(State(), None);
      StepTakeFifo(State(), kind);
      hide TierOk, HandKept, Colder;
      ghost var before := State();
      x := regions[kind].fifo[0];
      SameHeld(State(), kind, regions[kind].(fifo := regions[kind].fifo[1..]), x, InHand);
      hide Held;
      regions := regions[kind := regions[kind].(fifo := regions[kind].fifo[1..])];
      place := place[x := InHand];
      HandMoved(Some(x), before, State(), x, InHand, segs[x]);
      ColderOne(before, State(), kind);
    }

    /** Takes the oldest queued segment, retiring the active one if the queue is empty. */
    method PopVictim(kind: Kind) returns (seg: Option<nat>)
      requires TierOk(State(), None)
      modifies this`segs, this`regions, this`segRegion, this`regionValid, this`place
      ensures TierOk(State(), None) && Held(State()) == old(Held(State()))
      ensures Colder(old(State()), State(), kind)
      ensures |regions| == 3 == old(|regions|) && seg == NextVictim(old(State()), kind)
      ensures segs == old(segs) && regions == if seg.Some? then Popped(old(State()), kind).regions else old(regions)
      ensures segRegion == old(segRegion) && regions[kind].free == old(regions[kind].free)
      ensures seg.None? ==> HandKept(None, old(State()), State())
      ensures seg.Some? ==> HandKept(seg, old(State()), State())
      ensures seg.Some? ==> seg.value < |segs| && seg.value < old(|place|) && old(place[seg.value]) != InHand
                            && place[seg.value] == InHand && segRegion[seg.value] == kind
    {
      hide TierOk, Held, HandKept, Colder;
      Dimensions(State(), None);
      if regions[kind].active.Some? {
        ActiveSegment(State(), kind);
      }
      HandSame(State(), State());
      ColderSame(State(), State(), kind);
      ghost var before := State();
      if regions[kind].fifo == [] && regions[kind].active.Some? && segs[regions[kind].active.value].validCnt > 0 {
        CloseActiveSegment(kind);
      }
      Dimensions(State(), None);
      if regions[kind].fifo == [] {
        return None;
      }
      ghost var mid := State();
      var x := TakeQueued(kind);
      HandWeaken(x, before, mid);
      HandTransitive(Some(x), before, mid, State());
      ColderTransitive(before, mid, State(), kind);
      Dimensions(State(), None);
      return Some(x);
    }

    /** Puts a fresh segment from hand into use as a region's active one. */
    method OpenActive(kind: Kind, x: nat)
      requires TierOk(State(), None) && x < |segs| && place[x] == InHand && segRegion[x] == kind
      requires segs[x].validCnt == 0 && regions[kind].active.None?
      modifies this`segs, this`regions, this`segRegion, this`regionValid, this`place
      ensures TierOk(State(), None) && Held(State()) == old(Held(State()))
      ensures x < |segs| && segs[x].writePtr < segmentSize
      ensures State() == WithRegion(old(State()), kind, old(regions[kind]).(active := Some(x)), x, Active(kind))
                         .(segs := old(segs)[x := Reset(old(segs[x])).(createTs := timestamp)])
    {
      StepReset(State(), x);
      Dimensions(State(), None);
      segs := segs[x := Reset(segs[x])];
      StepHeader(State(), x, timestamp);
      segs := segs[x := segs[x].(createTs := timestamp)];
      MoveSegmentRegion(x, kind);
      StepPutActive(State(), kind, x);
      SameHeld(State(), kind, regions[kind].(active := Some(x)), x, Active(kind));
      hide TierOk, Held;
      regions := regions[kind := regions[kind].(active := Some(x))];
      place := place[x := Active(kind)];
    }

    method RetireFull(kind: Kind)
      requires Ok() && regions[kind].active.Some?
      modifies this`segs, this`regions, this`segRegion, this`regionValid, this`place
      ensures Ok() && Store() == old(Store()) && Kept() == old(Kept()) && regions[kind].active.None?
      ensures HandKept(None, old(State()), State()) && Colder(old(State()), State(), kind)
      ensures Retired(old(State()), State(), kind)
    {
      hide Retired, TierOk, Held, HandKept, Hotter, Colder, SizesOk, ColdWhole, PageMappingFtl.Valid,
           PageMappingFtl.Contents, PageMappingFtl.Capacity;
      ghost var before := State();
      CloseActiveSegment(kind);
      ColderIsHotter(before, State(), kind);
      SizesHotter(before, State(), kind);
    }

    /** Which keys are cached, and the cold tier. */
    ghost function Kept(): (set<nat>, Device)
      reads this`mapping, cold
    {
      (mapping.Keys, cold.State())
    }

    /** The region's writable segment. A full one is retired; then a free one is opened,
        if need be and if allowed after forcing a reclaim. */
    method EnsureActiveSegment(kind: Kind, allowForce: bool) returns (seg: Option<nat>)
      requires Ok()
      modifies this`segs, this`regions, this`segRegion, this`mapping, this`regionValid, this`place, cold, cold.gcPolicy
      ensures Ok() && Store() == old(Store())
      ensures HandKept(None, old(State()), State()) && Hotter(old(State()), State(), kind)
      ensures seg.Some? ==> seg.value < |segs| && place[seg.value] == Active(kind) && segs[seg.value].writePtr < segmentSize
      ensures kind == COLD && !allowForce && NoSpace(old(State())) ==> seg.None? && State() == old(State())
      ensures HasRoom(old(State()), kind) ==> State() == old(State()) && seg == old(State()).regions[kind].active
      ensures seg.Some? <==> Fits(old(State()), kind, 1, allowForce)
      ensures seg.Some? && Room(old(State()), kind) == 0 ==> FreshlyOpen(State(), kind, seg.value)
      ensures Room(old(State()), kind) > 0 ==> HasRoom(old(State()), kind)
      ensures old(regions[kind].active.None? && regions[kind].free != []) ==> seg == Some(old(regions[kind].free[0]))
      ensures !allowForce || Fits(old(State()), kind, 1, false) ==> Kept() == old(Kept())
      decreases 2 - kind, if allowForce then 9 else 1
    {
      hide Kept, Retired, FreshlyOpen, Opens, Fits, Room, TierOk, Held, HandKept, Hotter, Colder, SizesOk,
           ColdWhole, PageMappingFtl.Valid, PageMappingFtl.Contents, PageMappingFtl.Capacity, Ok, Store;
      SegmentPlaced();
      ActiveHere(kind);
      HandSame(State(), State());
      ColderSame(State(), State(), kind);
      ghost var before := State();
      if regions[kind].active.Some? && segs[regions[kind].active.value].writePtr >= segmentSize {
        RetireFull(kind);
        SegmentPlaced();
      }
      if regions[kind].active.Some? {
        RoomHere(before, kind, allowForce);
        return regions[kind].active;
      }
      ghost var mid := State();
      EnsureRoom(before, mid, kind);
      seg := OpenNext(kind, allowForce);
      HandTransitive(None, before, mid, State());
      ColderIsHotter(before, mid, kind);
      HotterTransitive(before, mid, State(), kind);
    }

    method OpenNext(kind: Kind, allowForce: bool) returns (seg: Option<nat>)
      requires Ok() && regions[kind].active.None?
      modifies this`segs, this`regions, this`segRegion, this`mapping, this`regionValid, this`place, cold, cold.gcPolicy
      ensures Ok() && Store() == old(Store())
      ensures HandKept(None, old(State()), State()) && Hotter(old(State()), State(), kind)
      ensures seg.Some? ==> seg.value < |segs| && place[seg.value] == Active(kind) && segs[seg.value].writePtr < segmentSize
      ensures kind == COLD && !allowForce && NoSpace(old(State())) ==> seg.None? && State() == old(State())
      ensures !allowForce || Opens(old(State()), kind, false) ==> Kept() == old(Kept())
      ensures seg.Some? <==> Opens(old(State()), kind, allowForce)
      ensures seg.Some? ==> FreshlyOpen(State(), kind, seg.value)
      ensures old(regions[kind].free) != [] ==> seg == Some(old(regions[kind].free[0]))
      decreases 2 - kind, if allowForce then 8 else 0
    {
      hide Kept, TierOk, Held, HandKept, Hotter, Colder, SizesOk, ColdWhole, PageMappingFtl.Valid,
           PageMappingFtl.Contents, PageMappingFtl.Capacity, Ok, Store;
      SegmentPlaced();
      HandSame(State(), State());
      ColderSame(State(), State(), kind);
      ghost var before := State();
      ColderIsHotter(before, before, kind);
      if regions[kind].free == [] {
        if !allowForce {
          return None;
        }
        var ok := ForceReclaim(kind);
        ColderIsHotter(before, State(), kind);
        ColderKeepsClosed(before, State(), kind);
        if !ok || regions[kind].free == [] {
          return None;
        }
      }
      ghost var mid := State();
      seg := OpenFree(kind);
      HandTransitive(None, before, mid, State());
      HotterTransitive(before, mid, State(), kind);
    }

    /** Opens the first free segment of a region. */
    method OpenFirst(kind: Kind) returns (x: nat)
      requires TierOk(State(), None) && regions[kind].active.None? && regions[kind].free != []
      modifies this`segs, this`regions, this`segRegion, this`regionValid, this`place
      ensures TierOk(State(), None) && Held(State()) == old(Held(State())) && segRegion == old(segRegion)
      ensures HandKept(None, old(State()), State()) && Hotter(old(State()), State(), kind)
      ensures x < |segs| && x < |place| && place[x] == Active(kind) && segs[x].writePtr < segmentSize
      ensures FreshlyOpen(State(), kind, x) && x == old(regions[kind].free[0])
      ensures |regions| == 3 && regions[kind].free == old(regions[kind].free[1..])
    {
      hide FreshlyOpen, TierOk, Held, HandKept, Hotter, Reset, WithRegion;
      Dimensions(State(), None);
      TakenAndOpened(State(), kind, timestamp);
      var seg := TakeFreeSegment(kind);
      x := seg.value;
      OpenActive(kind, x);
      Dimensions(State(), None);
    }

    method OpenFree(kind: Kind) returns (seg: Option<nat>)
      requires Ok() && regions[kind].active.None? && regions[kind].free != []
      modifies this`segs, this`regions, this`segRegion, this`regionValid, this`place
      ensures Ok() && Store() == old(Store()) && Kept() == old(Kept())
      ensures HandKept(None, old(State()), State()) && Hotter(old(State()), State(), kind)
      ensures seg.Some? && seg.value < |segs| && seg.value < |place|
              && place[seg.value] == Active(kind) && segs[seg.value].writePtr < segmentSize
      ensures FreshlyOpen(State(), kind, seg.value) && seg == Some(old(regions[kind].free[0]))
    {
      hide FreshlyOpen, TierOk, Held, HandKept, Hotter, Colder, SizesOk, ColdWhole, PageMappingFtl.Valid,
           PageMappingFtl.Contents, PageMappingFtl.Capacity;
      ghost var before := State();
      var x := OpenFirst(kind);
      seg := Some(x);
      SizesHotter(before, State(), kind);
    }

    /** Moves one block of a segment in hand to the active segment of its destination region.
        The clearing of stale slots in the source is never needed: a valid slot is mapped. */
    method MigrateBlock(src: nat, idx: nat, dest: Kind, ghost from: Kind) returns (ok: bool)
      requires Ok() && src < |segs| && place[src] == InHand && segRegion[src] == from && idx < segmentSize
      requires dest == from + 1 || dest == from == COLD
      modifies this`segs, this`regions, this`segRegion, this`mapping, this`regionValid, this`place, cold, cold.gcPolicy
      ensures Ok() && Store() == old(Store())
      ensures Handled(old(State()), State(), src, dest)
      ensures idx < old(|segs[src].blocks|)
      ensures segs[src].blocks == if ok then Unset(old(segs[src]), idx).blocks else old(segs[src].blocks)
      ensures dest == from && NoSpace(old(State())) ==> State() == old(State())
      ensures ok && old(segs[src].blocks[idx].valid) ==> LandedIn(State(), old(segs[src].blocks[idx].key), dest)
      ensures old(segs[src].blocks[idx].valid) ==> (ok <==> Fits(old(State()), dest, 1, dest != from))
      ensures ok && old(segs[src].blocks[idx].valid) ==> Advanced(old(State()), State(), dest, dest != from)
      ensures dest == from || Fits(old(State()), dest, 1, false) ==> Kept() == old(Kept())
      ensures ok && old(segs[src].blocks[idx].valid) && Fits(old(State()), dest, 1, false) ==>
                Advanced(old(State()), State(), dest, false)
      ensures !old(segs[src].blocks[idx].valid) ==> ok && State() == old(State())
      ensures src < |segs| && segs[src].validCnt == old(segs[src].validCnt) - Bit(ok && old(segs[src].blocks[idx].valid))
      decreases 2 - from, 3
    {
      hide Kept, Fits, Advanced, LandedIn, Handled, TierOk, Held, HandKept, Hotter, Colder, SizesOk, ColdWhole,
           PageMappingFtl.Valid, PageMappingFtl.Contents, PageMappingFtl.Capacity, Ok, Store;
      VictimSize(src);
      if segs[src].blocks[idx].valid {
        ok := MigrateValid(src, idx, dest, from);
        return;
      }
      Untouched(State(), src, dest);
      assert Unset(segs[src], idx).blocks == segs[src].blocks;
      return true;
    }

    method MigrateValid(src: nat, idx: nat, dest: Kind, ghost from: Kind) returns (ok: bool)
      requires Ok() && src < |segs| && place[src] == InHand && segRegion[src] == from
      requires idx < |segs[src].blocks| && segs[src].blocks[idx].valid
      requires dest == from + 1 || dest == from == COLD
      modifies this`segs, this`regions, this`segRegion, this`mapping, this`regionValid, this`place, cold, cold.gcPolicy
      ensures Ok() && Store() == old(Store())
      ensures Handled(old(State()), State(), src, dest)
      ensures idx < old(|segs[src].blocks|)
      ensures segs[src].blocks == if ok then Unset(old(segs[src]), idx).blocks else old(segs[src].blocks)
      ensures dest == from && NoSpace(old(State())) ==> State() == old(State())
      ensures ok ==> LandedIn(State(), old(segs[src].blocks[idx].key), dest)
      ensures dest == from || Fits(old(State()), dest, 1, false) ==> Kept() == old(Kept())
      ensures ok && Fits(old(State()), dest, 1, false) ==> Advanced(old(State()), State(), dest, false)
      ensures ok <==> Fits(old(State()), dest, 1, dest != from)
      ensures ok ==> Advanced(old(State()), State(), dest, dest != from)
      ensures src < |segs| && segs[src].validCnt == old(segs[src].validCnt) - Bit(ok)
      decreases 2 - from, 2
    {
      hide Kept, Fits, Advanced, FreshlyOpen, Room, Movable, Migrated, TierOk, Held, HandKept, Hotter, Colder,
           SizesOk, ColdWhole, PageMappingFtl.Valid, PageMappingFtl.Contents, PageMappingFtl.Capacity, Ok,
           Store, Unset, NoSpace, Handled, LandedIn;
      VictimSize(src);
      ghost var before := State();
      var allowForce := dest != segRegion[src];
      var destSeg := EnsureActiveSegment(dest, allowForce);
      ghost var mid := State();
      HandledNested(before, mid, src, dest);
      if destSeg.None? {
        return false;
      }
      assert segs[src].blocks[idx].valid;
      ReadyToMove(before, src, idx, destSeg.value, dest);
      MoveBlock(src, idx, destSeg.value);
      HandledTransitive(before, mid, State(), src, dest);
      return true;
    }

    lemma ReadyToMove(before: Tier, src: nat, idx: nat, y: nat, k: Kind)
      requires Ok() && src < |segs| && place[src] == InHand && idx < |segs[src].blocks| && segs[src].blocks[idx].valid
      requires y < |segs| && place[y] == Active(k) && segs[y].writePtr < segmentSize && before.size == segmentSize
      requires Room(before, k) > 0 ==> State() == before
      requires Room(before, k) == 0 ==> FreshlyOpen(State(), k, y)
      ensures Movable(State(), src, idx, y) ==>
                forall force :: Fits(before, k, 1, force) ==> Advanced(before, Migrated(State(), src, idx, y), k, force)
      ensures segs[src].validCnt > 0
    {
      hide SizesOk, ColdWhole, PageMappingFtl.Valid, PageMappingFtl.Contents, PageMappingFtl.Capacity, Fits,
           Advanced, FreshlyOpen, Room, Migrated;
      Dimensions(State(), None);
      SegmentAt(State(), None, y);
      SegmentAt(State(), None, src);
      SlotInvalidatedOk(segs[src], segmentSize, idx);
      AtRegion(regions, place, segRegion, k);
      hide TierOk;
      if Movable(State(), src, idx, y) {
        forall force | Fits(before, k, 1, force) ensures Advanced(before, Migrated(State(), src, idx, y), k, force) {
          AdvanceStep(before, State(), src, idx, y, k, force);
        }
      }
    }

    /** Copies a valid block to the end of an active segment and clears the original. */
    method CopyBlock(src: nat, idx: nat, y: nat)
      requires TierOk(State(), None) && ValidAt(segs, Loc(src, idx)) && place[src] == InHand
      requires y < |segs| && place[y].Active? && segs[y].writePtr < segmentSize
      modifies this`segs, this`mapping, this`regionValid
      ensures Kept() == old(Kept())
      ensures TierOk(State(), None) && Held(State()) == old(Held(State())) && mapping.Keys == old(mapping.Keys)
      ensures Movable(old(State()), src, idx, y) && State() == Migrated(old(State()), src, idx, y)
    {
      hide TierOk, Held, Adjusted, Unset;
      Dimensions(State(), None);
      StepMigrate(State(), src, idx, y);
      CountersNonNegative(State(), segRegion[y]);
      var blk := segs[src].blocks[idx];
      mapping := mapping[blk.key := Loc(y, segs[y].writePtr)];
      segs := segs[y := Appended(segs[y], blk.key, blk.ts)];
      AdjustRegionValid(segRegion[y], 1);
      segs := segs[src := Invalidated(segs[src], idx)];
      AdjustRegionValid(segRegion[src], -1);
    }

    method MoveBlock(src: nat, idx: nat, y: nat)
      requires Ok() && src < |segs| && place[src] == InHand
      requires idx < |segs[src].blocks| && segs[src].blocks[idx].valid
      requires y < |segs| && place[y].Active? && segs[y].writePtr < segmentSize
      modifies this`segs, this`mapping, this`regionValid
      ensures Ok() && Store() == old(Store()) && Kept() == old(Kept())
      ensures forall k: Kind :: Handled(old(State()), State(), src, k)
      ensures src < |segs| && segs[src].blocks == Unset(old(segs[src]), idx).blocks
      ensures LandedIn(State(), old(segs[src].blocks[idx].key), old(place[y]).kind)
      ensures Movable(old(State()), src, idx, y) && State() == Migrated(old(State()), src, idx, y)
      ensures segs[src].validCnt == old(segs[src].validCnt) - 1
    {
      hide Kept, TierOk, Held, HandKept, Hotter, Colder, SizesOk, ColdWhole, PageMappingFtl.Valid,
           PageMappingFtl.Contents, PageMappingFtl.Capacity, Migrated, Movable, Handled, LandedIn;
      ghost var before := State();
      SegmentAt(before, None, src);
      CopyBlock(src, idx, y);
      MigratedKept(before, src, idx, y);
    }

    /** One round of the migration loop; `before` is the state it started from. */
    method MigrateNext(src: nat, i: nat, dest: Kind, ghost from: Kind, ghost before: Tier) returns (ok: bool)
      requires Ok() && Handled(before, State(), src, dest) && OnTrack(before, State(), src, dest, dest != from)
      requires src < |segs| && i < |segs[src].blocks| && ClearedTo(segs[src], i)
      requires src < |before.segRegion| && before.segRegion[src] == from && before.size == segmentSize
      requires dest == from + 1 || dest == from == COLD
      requires dest == from && NoSpace(before) ==> State() == before
      requires EasyTrack(before, State(), src, dest)
      requires src < |before.segs| && RestOf(segs[src], before.segs[src], i)
      modifies this`segs, this`regions, this`segRegion, this`mapping, this`regionValid, this`place, cold, cold.gcPolicy
      ensures Ok() && Store() == old(Store())
      ensures Handled(before, State(), src, dest) && src < |segs| && |segs[src].blocks| == segmentSize
      ensures ok ==> ClearedTo(segs[src], i + 1) && OnTrack(before, State(), src, dest, dest != from)
      ensures src < |before.segs|
      ensures dest == from || EasyStart(before, src, dest) ==> Kept() == old(Kept())
      ensures ok ==> EasyTrack(before, State(), src, dest)
      ensures i < |before.segs[src].blocks| && (ok ==> RestOf(segs[src], before.segs[src], i + 1))
      ensures ok && before.segs[src].blocks[i].valid ==> LandedIn(State(), before.segs[src].blocks[i].key, dest)
      ensures !before.segs[src].blocks[i].valid ==> ok && State() == old(State())
      ensures !ok ==> segs[src].validCnt > 0 && !Fits(before, dest, before.segs[src].validCnt, dest != from)
      ensures dest == from && NoSpace(before) ==> State() == before
      decreases 2 - from, 4
    {
      HandledHere(before, src, dest);
      ClearedStep(segs[src], i);
      RestNext(segs[src], before.segs[src], i);
      hide RestOf, LandedIn, Kept, EasyTrack, EasyStart, TierOk, Held, HandKept, Hotter, Colder, SizesOk,
           ColdWhole, PageMappingFtl.Valid, PageMappingFtl.Contents, PageMappingFtl.Capacity, Ok, Store,
           NoSpace, Handled, ClearedTo, Unset, OnTrack, Fits, Advanced;
      TrackBounds(before, State(), src, dest, dest != from);
      ghost var mid := State();
      if !segs[src].blocks[i].valid {
        return true;
      }
      CountedValid(src, i);
      EasyNext(before, mid, src, dest);
      ok := MigrateBlock(src, i, dest, from);
      HandledTransitive(before, mid, State(), src, dest);
      HandledHere(before, src, dest);
      if ok {
        TrackStep(before, mid, State(), src, dest, dest != from);
        if EasyStart(before, src, dest) { EasyStep(before, mid, State(), src, dest); } else { EasyNot(before, State(), src, dest); }
      } else {
        TrackLost(before, mid, src, dest, dest != from);
      }
    }

    lemma CountedValid(x: nat, i: nat)
      requires Ok() && x < |segs| && i < |segs[x].blocks| && segs[x].blocks[i].valid
      ensures 1 <= segs[x].validCnt <= segmentSize
    {
      SegmentAt(State(), None, x);
      SlotInvalidatedOk(segs[x], segmentSize, i);
    }

    lemma CopyStart(src: nat, dest: Kind, force: bool)
      requires Ok() && src < |segs| && place[src] == InHand
      ensures Handled(State(), State(), src, dest) && |segs[src].blocks| == segmentSize == State().size
      ensures src < |segRegion| && ClearedTo(segs[src], 0) && OnTrack(State(), State(), src, dest, force)
      ensures EasyTrack(State(), State(), src, dest)
      ensures EasyStart(State(), src, dest) <==> Fits(State(), dest, segs[src].validCnt, false)
      ensures RestOf(segs[src], segs[src], 0) && AnyLanded(segs[src], 0, State(), dest)
      ensures segs[src].validCnt == CountValid(segs[src].blocks, segmentSize)
    {
      Dimensions(State(), None);
      SegmentAt(State(), None, src);
      Untouched(State(), src, dest);
      hide Ok, TierOk, Fits;
    }

    /** Migrates the valid blocks of a segment in hand until one does not fit. */
    method CopyValidBlocks(src: nat, dest: Kind, ghost from: Kind) returns (ok: bool)
      requires Ok() && src < |segs| && place[src] == InHand && segRegion[src] == from
      requires dest == from + 1 || dest == from == COLD
      modifies this`segs, this`regions, this`segRegion, this`mapping, this`regionValid, this`place, cold, cold.gcPolicy
      ensures Ok() && Store() == old(Store())
      ensures Handled(old(State()), State(), src, dest) && src < |segs|
      ensures dest == from || Fits(old(State()), dest, old(segs[src].validCnt), false) ==> Kept() == old(Kept())
      ensures ok && old(segs[src].validCnt) > 0 ==> SomeLanded(old(segs[src]), segmentSize, State(), dest)
      ensures ok <==> segs[src].validCnt == 0
      ensures ok <==> Fits(old(State()), dest, old(segs[src].validCnt), dest != from)
      ensures dest == from && NoSpace(old(State())) ==> State() == old(State())
      decreases 2 - from, 5
    {
      hide RestOf, LandedIn, AnyLanded, SomeLanded, Kept, EasyTrack, EasyStart, TierOk, Held, HandKept, Hotter,
           Colder, SizesOk, ColdWhole, PageMappingFtl.Valid, PageMappingFtl.Contents, PageMappingFtl.Capacity,
           Ok, Store, Handled, NoSpace, ClearedTo, OnTrack, Fits, CountValid;
      CopyStart(src, dest, dest != from);
      ghost var before := State();
      var i := 0;
      while i < segmentSize
        invariant 0 <= i <= segmentSize
        invariant Ok() && Store() == old(Store())
        invariant Handled(before, State(), src, dest) && src < |segs| && |segs[src].blocks| == segmentSize
        invariant ClearedTo(segs[src], i) && OnTrack(before, State(), src, dest, dest != from)
        invariant dest == from && NoSpace(before) ==> State() == before
        invariant EasyTrack(before, State(), src, dest)
        invariant RestOf(segs[src], before.segs[src], i) && AnyLanded(before.segs[src], i, State(), dest)
        invariant dest == from || EasyStart(before, src, dest) ==> Kept() == old(Kept())
      {
        ghost var mid := State();
        ok := MigrateNext(src, i, dest, from, before);
        if !ok {
          return false;
        }
        LandedNext(before.segs[src], i, mid, State(), dest);
        i := i + 1;
      }
      AllMovedHere(src);
      LandedAll(before.segs[src], segmentSize, State(), dest);
      TrackDone(before, State(), src, dest, dest != from);
      return segs[src].validCnt == 0;
    }

    lemma HandledHere(before: Tier, src: nat, k: Kind)
      requires Handled(before, State(), src, k)
      ensures src < |segs| && src < |place| && src < |segRegion| && src < |before.segRegion|
      ensures place[src] == InHand && segRegion[src] == before.segRegion[src] && |segs[src].blocks| == segmentSize
    {
      HandledFacts(before, State(), src, k);
    }

    lemma AllMovedHere(x: nat)
      requires Ok() && x < |segs| && |segs[x].blocks| == segmentSize
      requires ClearedTo(segs[x], segmentSize)
      ensures segs[x].validCnt == 0
    {
      AllMoved(State(), x);
    }

    // ---- victims ----

    /** Picks up a victim. */
    method TakeVictim(kind: Kind) returns (seg: Option<nat>)
      requires Ok()
      modifies this`segs, this`regions, this`segRegion, this`regionValid, this`place
      ensures Ok() && Store() == old(Store()) && Kept() == old(Kept())
      ensures seg == NextVictim(old(State()), kind) && State().size == old(State()).size && segs == old(segs)
      ensures regions == if seg.Some? then Popped(old(State()), kind).regions else old(regions)
      ensures Colder(old(State()), State(), kind) && |regions| == 3 == old(|regions|) && regions[kind].free == old(regions[kind].free)
      ensures seg.None? ==> HandKept(None, old(State()), State())
      ensures seg.Some? ==> HandKept(seg, old(State()), State()) && InHandOf(State(), kind, seg.value)
                            && seg.value < old(|place|) && old(place[seg.value]) != InHand
    {
      hide TierOk, PageMappingFtl.LiveCount, TiersApart, Held, HandKept, Hotter, Colder, SizesOk, ColdWhole,
           PageMappingFtl.Valid, PageMappingFtl.Contents, PageMappingFtl.Capacity;
      Dimensions(State(), None);
      ghost var before := State();
      seg := PopVictim(kind);
      ColderIsHotter(before, State(), kind);
      SizesHotter(before, State(), kind);
      Dimensions(State(), None);
    }

    /** Frees an emptied victim, or puts one that could not be emptied back first in line. */
    method PutDown(kind: Kind, x: nat, ok: bool)
      requires Ok() && InHandOf(State(), kind, x) && (ok ==> segs[x].validCnt == 0)
      modifies this`segs, this`regions, this`segRegion, this`regionValid, this`place
      ensures Ok() && Store() == old(Store()) && Kept() == old(Kept())
      ensures Elsewhere(old(State()), State(), x)
      ensures PutAway(old(State()), State(), kind, x)
      ensures !ok ==> FreeSame(old(State()), State(), kind)
      ensures !ok && old(segs[x].validCnt) > 0 ==> FrontOf(State(), kind, x)
      ensures x < |place| && place[x] == if ok then Free(kind) else Fifo(kind)
      ensures ok ==> |regions| == 3 && regions[kind].free != []
    {
      hide Elsewhere, FrontOf, FreeSame, TierOk, Held, HandKept, Hotter, Colder, SizesOk, ColdWhole,
           PageMappingFtl.Valid, PageMappingFtl.Contents, PageMappingFtl.Capacity, PutAway;
      ghost var before := State();
      PutSegmentDown(kind, x, ok);
      PutAwayFacts(before, State(), kind, x);
      SizesHotter(before, State(), kind);
    }

    method PutSegmentDown(kind: Kind, x: nat, ok: bool)
      requires TierOk(State(), None) && InHandOf(State(), kind, x) && (ok ==> segs[x].validCnt == 0)
      modifies this`segs, this`regions, this`segRegion, this`regionValid, this`place
      ensures TierOk(State(), None) && Held(State()) == old(Held(State()))
      ensures Elsewhere(old(State()), State(), x)
      ensures PutAway(old(State()), State(), kind, x) && segRegion == old(segRegion)
      ensures !ok ==> FreeSame(old(State()), State(), kind)
      ensures !ok && old(segs[x].validCnt) > 0 ==> FrontOf(State(), kind, x)
      ensures x < |place| && place[x] == if ok then Free(kind) else Fifo(kind)
      ensures ok ==> |regions| == 3 && regions[kind].free != []
    {
      Dimensions(State(), None);
      PutDownKept(State(), kind, x);
      hide TierOk, Held, PutAway, WithRegion, Reset;
      if ok {
        ReleaseSegmentToFree(kind, x);
      } else {
        PushToFront(kind, x);
      }
    }

    method PushToFront(kind: Kind, x: nat)
      requires TierOk(State(), None) && x < |segs| && place[x] == InHand && segRegion[x] == kind
      modifies this`regions, this`place
      ensures TierOk(State(), None) && Held(State()) == old(Held(State()))
      ensures State() == WithRegion(old(State()), kind, old(regions[kind]).(fifo := [x] + old(regions[kind]).fifo), x, Fifo(kind))
    {
      hide TierOk, Held;
      Dimensions(State(), None);
      StepPutFifo(State(), kind, x);
      SameHeld(State(), kind, regions[kind].(fifo := [x] + regions[kind].fifo), x, Fifo(kind));
      regions := regions[kind := regions[kind].(fifo := [x] + regions[kind].fifo)];
      place := place[x := Fifo(kind)];
    }

    method PushToBack(kind: Kind, x: nat)
      requires TierOk(State(), None) && x < |segs| && place[x] == InHand && segRegion[x] == kind
      modifies this`regions, this`place
      ensures TierOk(State(), None) && Held(State()) == old(Held(State()))
      ensures State() == WithRegion(old(State()), kind, old(regions[kind]).(fifo := old(regions[kind]).fifo + [x]), x, Fifo(kind))
    {
      hide TierOk, Held;
      Dimensions(State(), None);
      StepPutFifo(State(), kind, x);
      SameHeld(State(), kind, regions[kind].(fifo := regions[kind].fifo + [x]), x, Fifo(kind));
      regions := regions[kind := regions[kind].(fifo := regions[kind].fifo + [x])];
      place := place[x := Fifo(kind)];
    }

    /** Takes a free segment of the donor region for the receiver. */
    method StealFreeSegment(donor: Kind, receiver: Kind) returns (seg: Option<nat>)
      requires TierOk(State(), None) && donor != receiver
      modifies this`segs, this`regions, this`segRegion, this`regionValid, this`place
      ensures TierOk(State(), None) && Held(State()) == old(Held(State()))
      ensures seg.None? ==> State() == old(State())
      ensures |regions| == 3 == old(|regions|) && (seg.None? <==> old(regions[donor].free) == [])
      ensures seg.Some? ==>
                && |regions| == 3 == old(|regions|) && old(regions[donor].free) != [] && seg.value == old(regions[donor].free[0])
                && seg.value < |segs| && seg.value < |place|
                && old(place[seg.value]) == Free(donor) && old(segRegion[seg.value]) == donor
                && State() == old(State()).(
                     segs := old(segs)[seg.value := Reset(old(segs[seg.value]))],
                     regions := old(regions)[donor := old(regions[donor]).(free := old(regions[donor].free[1..]))]
                                            [receiver := old(regions[receiver]).(free := old(regions[receiver]).free + [seg.value])],
                     place := old(place)[seg.value := InHand][seg.value := Free(receiver)],
                     segRegion := old(segRegion)[seg.value := receiver],
                     regionValid := regionValid)
    {
      Dimensions(State(), None);
      hide TierOk, Held;
      seg := TakeFreeSegment(donor);
      if seg.None? {
        return;
      }
      MoveSegmentRegion(seg.value, receiver);
      ReleaseSegmentToFree(receiver, seg.value);
    }

    /** Trades a fully valid victim for a free segment of the next colder region. */
    method StealAndSwap(kind: Kind, x: nat) returns (ok: bool)
      requires TierOk(State(), None) && kind < COLD && InHandOf(State(), kind, x)
      modifies this`segs, this`regions, this`segRegion, this`regionValid, this`place
      ensures TierOk(State(), None) && Held(State()) == old(Held(State()))
      ensures !ok ==> State() == old(State())
      ensures ok ==> PutAway(old(State()), State(), kind, x)
      ensures ok ==> x < |place| && place[x] == Fifo(kind + 1) && x < |segs| && segs[x] == old(segs[x])
      ensures ok ==> |regions| == 3 == old(|regions|) && old(regions[kind + 1].free) != []
      ensures ok ==>
                && regions[kind].free == old(regions[kind].free) + [old(regions[kind + 1].free[0])]
                && regions[kind + 1].free == old(regions[kind + 1].free[1..])
                && regions[kind + 1].fifo == old(regions[kind + 1].fifo) + [x]
      ensures ok <==> CanTrade(old(State()), kind)
      ensures ok ==> |regions| == 3 && regions[kind].free != []
      ensures ok && old(SizesOk(regions, segRegion)) ==> SizesOk(regions, segRegion)
    {
      Dimensions(State(), None);
      hide TierOk, Held, SizesOk, ColdWhole, Reset, PutAway;
      ghost var before := State();
      var colder: Kind := kind + 1;
      var seg := StealFreeSegment(colder, kind);
      if seg.None? {
        return false;
      }
      MoveSegmentRegion(x, colder);
      PushToBack(colder, x);
      SwapKept(before, State(), kind, x, seg.value);
      return true;
    }

    /** Deals with a victim of the two hotter regions: free it if empty, trade it if fully
        valid and a trade is possible, and otherwise migrate its blocks to the next region. */
    method ReclaimVictim(kind: Kind, x: nat) returns (ok: bool)
      requires Ok() && kind < COLD && InHandOf(State(), kind, x)
      modifies this`segs, this`regions, this`segRegion, this`mapping, this`regionValid, this`place, cold, cold.gcPolicy
      ensures Ok() && Store() == old(Store())
      ensures PutAway(old(State()), State(), kind, x)
      ensures ok <==> x < old(|segs|) && Disposable(old(State()), kind, old(segs[x].validCnt))
      ensures x < old(|segs|) && |old(segs[x].blocks)| == segmentSize
      ensures ok && old(segs[x].validCnt) > 0 && !(old(segs[x].validCnt) == segmentSize && CanTrade(old(State()), kind)) ==>
                SomeLanded(old(segs[x]), segmentSize, State(), kind + 1)
      ensures Fits(old(State()), kind + 1, old(segs[x].validCnt), false) ==> Kept() == old(Kept())
      ensures !ok ==> FreeSame(old(State()), State(), kind)
      ensures !ok ==> FrontOf(State(), kind, x)
      ensures x < |place| && x < |segs| && (old(segs[x].validCnt) == 0 ==> ok)
      ensures if old(segs[x].validCnt) == segmentSize && CanTrade(old(State()), kind)
              then ok && place[x] == Fifo(kind + 1) && segs[x] == old(segs[x])
              else place[x] == if ok then Free(kind) else Fifo(kind)
      ensures ok ==> |regions| == 3 && regions[kind].free != []
      decreases 2 - kind, 6, 1
    {
      Dimensions(State(), None);
      SegmentAt(State(), None, x);
      hide SomeLanded, Kept, FrontOf, Disposable, CanTrade, FreeSame, Fits, TierOk, Held, HandKept, Hotter,
           Colder, SizesOk, ColdWhole, PageMappingFtl.Valid, PageMappingFtl.Contents, PageMappingFtl.Capacity,
           Ok, Store, PutAway;
      ghost var before := State();
      DisposableFacts(before, kind, segs[x].validCnt);
      if segs[x].validCnt == 0 {
        PutDown(kind, x, true);
        return true;
      }
      if segs[x].validCnt == segmentSize {
        var stolen := TradeVictim(kind, x);
        if stolen {
          return true;
        }
      }
      ok := CompactVictim(kind, x);
    }

    method CompactVictim(kind: Kind, x: nat) returns (ok: bool)
      requires Ok() && kind < COLD && InHandOf(State(), kind, x)
      modifies this`segs, this`regions, this`segRegion, this`mapping, this`regionValid, this`place, cold, cold.gcPolicy
      ensures Ok() && Store() == old(Store())
      ensures PutAway(old(State()), State(), kind, x)
      ensures ok <==> x < old(|segs|) && Fits(old(State()), kind + 1, old(segs[x].validCnt), true)
      ensures x < old(|segs|) && |old(segs[x].blocks)| == segmentSize
      ensures ok && old(segs[x].validCnt) > 0 ==> SomeLanded(old(segs[x]), segmentSize, State(), kind + 1)
      ensures Fits(old(State()), kind + 1, old(segs[x].validCnt), false) ==> Kept() == old(Kept())
      ensures !ok ==> FreeSame(old(State()), State(), kind)
      ensures !ok ==> FrontOf(State(), kind, x)
      ensures x < |place| && place[x] == if ok then Free(kind) else Fifo(kind)
      ensures ok ==> |regions| == 3 && regions[kind].free != []
      decreases 2 - kind, 6, 0
    {
      hide Elsewhere, SomeLanded, Kept, InHandOf, FrontOf, FreeSame, Fits, TierOk, Held, HandKept, Hotter,
           Colder, SizesOk, ColdWhole, PageMappingFtl.Valid, PageMappingFtl.Contents, PageMappingFtl.Capacity,
           Ok, Store, PutAway, State;
      InHandHere(kind, x);
      ghost var before := State();
      VictimSize(x);
      ok := CopyValidBlocks(x, kind + 1, kind);
      ghost var mid := State();
      HandledVictim(before, mid, kind, x);
      InHandHere(kind, x);
      PutDown(kind, x, ok);
      LandedPut(old(segs[x]), segmentSize, mid, State(), kind + 1, x);
      PutAwayAfter(before, mid, State(), kind, x);
      if !ok { FreeSameTransitive(before, mid, State(), kind); }
    }

    method TradeVictim(kind: Kind, x: nat) returns (ok: bool)
      requires Ok() && kind < COLD && x < |segs| && InHandOf(State(), kind, x)
      modifies this`segs, this`regions, this`segRegion, this`regionValid, this`place
      ensures Ok() && Store() == old(Store()) && Kept() == old(Kept())
      ensures x < |segs| && x < |place| && segs[x] == old(segs[x]) && (ok ==> place[x] == Fifo(kind + 1))
      ensures !ok ==> State() == old(State())
      ensures ok ==> PutAway(old(State()), State(), kind, x)
      ensures ok <==> CanTrade(old(State()), kind)
      ensures ok ==> |regions| == 3 && regions[kind].free != []
    {
      hide TierOk, Held, HandKept, Hotter, Colder, SizesOk, ColdWhole, PageMappingFtl.Valid,
           PageMappingFtl.Contents, PageMappingFtl.Capacity, PutAway;
      ok := StealAndSwap(kind, x);
    }

    lemma VictimSize(x: nat)
      requires Ok() && x < |segs|
      ensures |segs[x].blocks| == segmentSize && |segs| == |place| == |segRegion| && |regions| == 3
    {
      Dimensions(State(), None);
      SegmentAt(State(), None, x);
    }

    lemma Unmoved(kind: Kind)
      requires Ok()
      ensures HandKept(None, State(), State()) && Hotter(State(), State(), kind) && Colder(State(), State(), kind)
    {
      Dimensions(State(), None);
    }

    lemma ActiveHere(kind: Kind)
      requires Ok()
      ensures |regions| == 3
      ensures regions[kind].active.Some? ==>
                && regions[kind].active.value < |segs| && regions[kind].active.value < |place|
                && place[regions[kind].active.value] == Active(kind)
    {
      Dimensions(State(), None);
      if regions[kind].active.Some? {
        ActiveSegment(State(), kind);
      }
    }

    lemma InHandHere(kind: Kind, x: nat)
      requires InHandOf(State(), kind, x)
      ensures x < |segs| && x < |place| && x < |segRegion| && place[x] == InHand && segRegion[x] == kind
    {}

    method ReclaimFromFwlog() returns (ok: bool)
      requires Ok()
      modifies this`segs, this`regions, this`segRegion, this`mapping, this`regionValid, this`place, cold, cold.gcPolicy
      ensures Ok() && Store() == old(Store())
      ensures HandKept(None, old(State()), State()) && Colder(old(State()), State(), FWLOG)
      ensures ok <==> Reclaims(old(State()), FWLOG)
      ensures StaysCached(old(State()), FWLOG) ==> Kept() == old(Kept())
      ensures !ok ==> LeftStuck(old(State()), State(), FWLOG)
      ensures !ok ==> FreeSame(old(State()), State(), FWLOG)
      ensures ok ==> |regions| == 3 && regions[FWLOG].free != []
      decreases 2, 6, 3
    {
      ok := ReclaimFrom(FWLOG);
    }

    method ReclaimFromHot() returns (ok: bool)
      requires Ok()
      modifies this`segs, this`regions, this`segRegion, this`mapping, this`regionValid, this`place, cold, cold.gcPolicy
      ensures Ok() && Store() == old(Store())
      ensures HandKept(None, old(State()), State()) && Colder(old(State()), State(), HOT)
      ensures ok <==> Reclaims(old(State()), HOT)
      ensures StaysCached(old(State()), HOT) ==> Kept() == old(Kept())
      ensures !ok ==> LeftStuck(old(State()), State(), HOT)
      ensures !ok ==> FreeSame(old(State()), State(), HOT)
      ensures ok ==> |regions| == 3 && regions[HOT].free != []
      decreases 1, 6, 3
    {
      ok := ReclaimFrom(HOT);
    }

    /** Takes and deals with one victim; the two hotter regions differ only in where to. */
    method ReclaimFrom(kind: Kind) returns (ok: bool)
      requires Ok() && kind < COLD
      modifies this`segs, this`regions, this`segRegion, this`mapping, this`regionValid, this`place, cold, cold.gcPolicy
      ensures Ok() && Store() == old(Store())
      ensures HandKept(None, old(State()), State()) && Colder(old(State()), State(), kind)
      ensures ok <==> Reclaims(old(State()), kind)
      ensures StaysCached(old(State()), kind) ==> Kept() == old(Kept())
      ensures !ok ==> LeftStuck(old(State()), State(), kind)
      ensures !ok ==> FreeSame(old(State()), State(), kind)
      ensures ok ==> |regions| == 3 && regions[kind].free != []
      decreases 2 - kind, 6, 2
    {
      hide Kept, StaysCached, FrontOf, LeftStuck, FreeSame, Reclaims, Disposable, Fits, Popped, NextVictim,
           NoSpace, TierOk, Held, HandKept, Hotter, Colder, SizesOk, ColdWhole, PageMappingFtl.Valid,
           PageMappingFtl.Contents, PageMappingFtl.Capacity, Ok, Store, PutAway;
      ghost var before := State();
      var victim := TakeVictim(kind);
      if victim.None? {
        NoVictimSame(before, State(), kind);
        return false;
      }
      ghost var mid := State();
      VictimFits(before, mid, kind);
      VictimStays(before, mid, kind);
      ok := ReclaimVictim(kind, victim.value);
      VictimReturned(before, mid, State(), kind, victim.value);
      if !ok {
        FreeSameTransitive(before, mid, State(), kind);
        RegionCount();
        ReclaimStuck(before, mid, kind, victim.value);
      }
    }

    method ReclaimFromCold() returns (ok: bool)
      requires Ok()
      modifies this`segs, this`regions, this`segRegion, this`mapping, this`regionValid, this`place, cold, cold.gcPolicy
      ensures Ok() && Store() == old(Store())
      ensures HandKept(None, old(State()), State()) && Colder(old(State()), State(), COLD)
      ensures ok <==> Reclaims(old(State()), COLD)
      ensures StaysCached(old(State()), COLD) ==> Kept() == old(Kept())
      ensures !ok ==> LeftStuck(old(State()), State(), COLD)
      ensures !ok && NoSpace(old(State())) ==> FreeSame(old(State()), State(), COLD)
      ensures ok ==> |regions| == 3 && regions[COLD].free != []
      decreases 0, 6, 2
    {
      hide Kept, StaysCached, FrontOf, LeftStuck, FreeSame, Reclaims, Disposable, Fits, Popped, NextVictim,
           NoSpace, TierOk, Held, HandKept, Hotter, Colder, SizesOk, ColdWhole, PageMappingFtl.Valid,
           PageMappingFtl.Contents, PageMappingFtl.Capacity, Ok, Store, PutAway;
      ghost var before := State();
      var victim := TakeVictim(COLD);
      if victim.None? {
        NoVictimSame(before, State(), COLD);
        return false;
      }
      ghost var mid := State();
      VictimFits(before, mid, COLD);
      VictimStays(before, mid, COLD);
      ok := ReclaimColdVictim(victim.value);
      VictimReturned(before, mid, State(), COLD, victim.value);
      if !ok {
        RegionCount();
        ReclaimStuck(before, mid, COLD, victim.value);
        if NoSpace(before) { FreeSameTransitive(before, mid, State(), COLD); }
      }
    }

    lemma RegionCount()
      requires Ok()
      ensures |regions| == 3
    {
      Dimensions(State(), None);
    }

    lemma ReclaimStuck(t: Tier, m: Tier, k: Kind, x: nat)
      requires |t.regions| == 3 == |regions| && NextVictim(t, k) == Some(x) && m.regions == Popped(t, k).regions
      requires FrontOf(State(), k, x) && PutAway(m, State(), k, x)
      ensures LeftStuck(t, State(), k)
    {
      Stuckness(t, m, State(), k);
    }

    /** Deals with a victim of the coldest region: a fully valid one is written out to the
        cold tier, another is compacted within the region. */
    method ReclaimColdVictim(x: nat) returns (ok: bool)
      requires Ok() && InHandOf(State(), COLD, x)
      modifies this`segs, this`regions, this`segRegion, this`mapping, this`regionValid, this`place, cold, cold.gcPolicy
      ensures Ok() && Store() == old(Store())
      ensures PutAway(old(State()), State(), COLD, x)
      ensures ok <==> x < old(|segs|) && var v := old(segs[x].validCnt);
                        Disposable(old(State()), COLD, v) || Fits(old(State()), COLD, v, false)
      ensures !ok && NoSpace(old(State())) ==> FreeSame(old(State()), State(), COLD)
      ensures x < old(|segs|) && old(segs[x].validCnt) != segmentSize ==> Kept() == old(Kept())
      ensures !ok ==> FrontOf(State(), COLD, x)
      ensures x < old(|segs|) && |old(segs[x].blocks)| == segmentSize
      ensures ok && 0 < old(segs[x].validCnt) < segmentSize ==> SomeLanded(old(segs[x]), segmentSize, State(), COLD)
      ensures old(segs[x].validCnt) == segmentSize ==>
                && mapping.Keys == old(mapping.Keys) - KeysIn(old(segs[x]), segmentSize)
                && cold.hostWritePages == old(cold.hostWritePages) + segmentSize
      ensures old(segs[x].validCnt) == 0 || old(segs[x].validCnt) == segmentSize ==> ok
      ensures x < |place| && place[x] == if ok then Free(COLD) else Fifo(COLD)
      ensures ok ==> |regions| == 3 && regions[COLD].free != []
      decreases 0, 6, 1
    {
      Dimensions(State(), None);
      SegmentAt(State(), None, x);
      hide SomeLanded, FrontOf, FreeSame, Fits, NoSpace, Disposable, TierOk, Held, HandKept, Hotter, Colder,
           SizesOk, ColdWhole, PageMappingFtl.Valid, PageMappingFtl.Contents, PageMappingFtl.Capacity, Ok,
           Store, PutAway, KeysIn, Kept;
      if segs[x].validCnt == 0 {
        PutDown(COLD, x, true);
        return true;
      }
      if segs[x].validCnt == segmentSize {
        DropVictim(x);
        return true;
      }
      ok := CondenseVictim(x);
    }

    /** Writes a victim out to the cold tier and frees it. */
    method DropVictim(x: nat)
      requires Ok() && InHandOf(State(), COLD, x) && segs[x].validCnt == segmentSize
      modifies this`segs, this`regions, this`segRegion, this`mapping, this`regionValid, this`place, cold, cold.gcPolicy
      ensures Ok() && Store() == old(Store())
      ensures PutAway(old(State()), State(), COLD, x)
      ensures x < old(|segs|) && |old(segs[x].blocks)| == segmentSize
      ensures mapping.Keys == old(mapping.Keys) - KeysIn(old(segs[x]), segmentSize)
      ensures cold.hostWritePages == old(cold.hostWritePages) + segmentSize
      ensures x < |place| && place[x] == Free(COLD) && |regions| == 3 && regions[COLD].free != []
    {
      hide TierOk, Held, HandKept, Hotter, Colder, SizesOk, ColdWhole, PageMappingFtl.Valid,
           PageMappingFtl.Contents, PageMappingFtl.Capacity, Ok, Store, PutAway, KeysIn;
      ghost var before := State();
      DropSegment(x);
      ghost var mid := State();
      InHandHere(COLD, x);
      PutDown(COLD, x, true);
      PutAwayAfter(before, mid, State(), COLD, x);
    }

    /** Compacts a victim within the coldest region. */
    method CondenseVictim(x: nat) returns (ok: bool)
      requires Ok() && InHandOf(State(), COLD, x)
      modifies this`segs, this`regions, this`segRegion, this`mapping, this`regionValid, this`place, cold, cold.gcPolicy
      ensures Ok() && Store() == old(Store())
      ensures PutAway(old(State()), State(), COLD, x)
      ensures ok <==> x < old(|segs|) && Fits(old(State()), COLD, old(segs[x].validCnt), false)
      ensures !ok && NoSpace(old(State())) ==> FreeSame(old(State()), State(), COLD)
      ensures Kept() == old(Kept()) && x < old(|segs|) && |old(segs[x].blocks)| == segmentSize
      ensures ok && old(segs[x].validCnt) > 0 ==> SomeLanded(old(segs[x]), segmentSize, State(), COLD)
      ensures !ok ==> FrontOf(State(), COLD, x)
      ensures x < |place| && place[x] == if ok then Free(COLD) else Fifo(COLD)
      ensures ok ==> |regions| == 3 && regions[COLD].free != []
      decreases 0, 6, 0
    {
      InHandHere(COLD, x);
      hide Elsewhere, SomeLanded, Kept, FrontOf, FreeSame, Fits, NoSpace, TierOk, Held, HandKept, Hotter,
           Colder, SizesOk, ColdWhole, PageMappingFtl.Valid, PageMappingFtl.Contents, PageMappingFtl.Capacity,
           Ok, Store, PutAway, State;
      ghost var before := State();
      VictimSize(x);
      ok := CopyValidBlocks(x, COLD, COLD);
      ghost var mid := State();
      HandledColdVictim(before, mid, x);
      InHandHere(COLD, x);
      SameFree(before, COLD);
      PutDown(COLD, x, ok);
      LandedPut(before.segs[x], segmentSize, mid, State(), COLD, x);
      PutAwayAfter(before, mid, State(), COLD, x);
    }

    /** The invariant while segment x is being dropped. */
    ghost predicate Dropping(x: nat)
      reads this, cold, cold.gcPolicy
    {
      TierOk(State(), Some(x)) && SizesOk(regions, segRegion) && Tiers()
    }

    /** Writes the valid blocks of a segment in hand out to the cold tier. */
    method DropSegment(x: nat)
      requires Ok() && InHandOf(State(), COLD, x) && segs[x].validCnt == segmentSize
      modifies this`segs, this`mapping, this`regionValid, cold, cold.gcPolicy
      ensures Ok() && Store() == old(Store())
      ensures InHandOf(State(), COLD, x) && segs[x].validCnt == 0
      ensures HandKept(Some(x), old(State()), State()) && Colder(old(State()), State(), COLD)
      ensures regions == old(regions)
      ensures x < old(|segs|) && |old(segs[x].blocks)| == segmentSize
      ensures mapping.Keys == old(mapping.Keys) - KeysIn(old(segs[x]), segmentSize)
      ensures cold.hostWritePages == old(cold.hostWritePages) + segmentSize
    {
      hide WholeSegments, TierOk, Held, HandKept, Hotter, Colder, Ok, Store, Dropping, ClearedTo, KeysIn;
      OkShape();
      WrittenWhole();
      OneSegmentMore(cold.hostWritePages - coldStart, segmentSize);
      ghost var before := State();
      Uncount(x);
      DropBlocks(x);
      FinishDrop(x);
      DroppedKept(before, State(), x);
    }

    lemma WrittenWhole()
      requires Ok()
      ensures ColdWhole()
    {}

    lemma OkShape()
      requires Ok()
      ensures segmentSize > 0 && |segs| == |place| == |segRegion| && |regions| == 3 == |regionValid|
      ensures forall x :: 0 <= x < |segs| ==> |segs[x].blocks| == segmentSize
    {
      Dimensions(State(), None);
      forall x | 0 <= x < |segs| ensures |segs[x].blocks| == segmentSize {
        SegmentAt(State(), None, x);
      }
    }

    /** Takes the victim's blocks off its region's counter. */
    method Uncount(x: nat)
      requires Ok() && x < |segs|
      modifies this`regionValid
      ensures Dropping(x) && Store() == old(Store())
      ensures |segs[x].blocks| == segmentSize && segs[x].validCnt == CountValid(segs[x].blocks, segmentSize)
    {
      hide TiersApart, Adjusted, TierOk, Held, HandKept, Hotter, Colder, SizesOk, ColdWhole,
           PageMappingFtl.Valid, PageMappingFtl.Contents, PageMappingFtl.Capacity;
      Dimensions(State(), None);
      SegmentAt(State(), None, x);
      StepUncount(State(), x);
      UncountedHeld(State(), Adjusted(regionValid, segRegion[x], 0 - segs[x].validCnt));
      AdjustRegionValid(segRegion[x], 0 - segs[x].validCnt);
    }

    method DropBlocks(x: nat)
      requires Dropping(x) && x < |segs| && |segs[x].blocks| == segmentSize && x < |place| && place[x] == InHand
      modifies this`segs, this`mapping, cold, cold.gcPolicy
      ensures Dropping(x) && Store() == old(Store())
      ensures |segs| == old(|segs|) && segs == old(segs)[x := segs[x]] && ClearedTo(segs[x], segmentSize)
      ensures |segs[x].blocks| == segmentSize
      ensures mapping.Keys == old(mapping.Keys) - KeysIn(old(segs[x]), segmentSize)
      ensures cold.hostWritePages == old(cold.hostWritePages) + CountValid(old(segs[x].blocks), segmentSize)
    {
      hide Dropping, Store;
      hide ClearedTo, Unset, RestOf, KeysIn;
      ClearedStart(segs[x]);
      DropStart(segs[x]);
      var i := 0;
      while i < segmentSize
        invariant 0 <= i <= segmentSize
        invariant Dropping(x) && Store() == old(Store())
        invariant |segs| == old(|segs|) && segs == old(segs)[x := segs[x]]
        invariant |segs[x].blocks| == segmentSize && ClearedTo(segs[x], i)
        invariant RestOf(segs[x], old(segs[x]), i) && mapping.Keys == old(mapping.Keys) - KeysIn(old(segs[x]), i)
        invariant cold.hostWritePages == old(cold.hostWritePages) + CountValid(old(segs[x].blocks), i)
      {
        ClearedStep(segs[x], i);
        DropStep(segs[x], old(segs[x]), i);
        if segs[x].blocks[i].valid {
          DropBlock(x, i);
        }
        i := i + 1;
      }
    }

    /** Handing a valid block of the dropped segment to the cold tier keeps the tiers apart. */
    lemma DropBlockFits(x: nat, i: nat)
      requires Dropping(x) && x < |segs| && i < |segs[x].blocks| && segs[x].blocks[i].valid
      requires x < |place| && place[x] == InHand
      ensures var blk := segs[x].blocks[i];
              var t' := State().(segs := segs[x := Unset(segs[x], i)], mapping := mapping - {blk.key});
              && TierOk(t', Some(x))
              && Held(t') + Overwrite(cold.Contents(), {blk.key}, blk.ts) == Store()
              && Span(blk.key * NAND_PAGE_SIZE, NAND_PAGE_SIZE) == {blk.key}
              && blk.key * NAND_PAGE_SIZE % SECTOR_SIZE == 0
              && TiersApart(mapping.Keys - {blk.key}, cold.lpnToPpn.Keys + {blk.key}, cold.Capacity())
              && Demand(cold.lpnToPpn.Keys, {blk.key}) <= cold.Capacity()
    {
      hide TierOk, Held, SizesOk, ColdWhole, Overwrite, PageMappingFtl.Valid, PageMappingFtl.Contents,
           PageMappingFtl.Capacity, Unset;
      StepDropBlock(State(), x, i);
      var blk := segs[x].blocks[i];
      BlockSpan(blk.key, NAND_PAGE_SIZE);
      ContentsKeys(cold);
      UnionMove(Held(State()), cold.Contents(), blk.key);
      KeyMoves(mapping.Keys, cold.lpnToPpn.Keys, blk.key, cold.Capacity());
    }

    /** Hands one block over to the cold tier, which has room for it. */
    method DropBlock(x: nat, i: nat)
      requires Dropping(x) && x < |segs| && i < |segs[x].blocks| && segs[x].blocks[i].valid
      requires x < |place| && place[x] == InHand
      modifies this`segs, this`mapping, cold, cold.gcPolicy
      ensures Dropping(x) && Store() == old(Store())
      ensures segs == old(segs)[x := Unset(old(segs[x]), i)]
      ensures mapping == old(mapping) - {old(segs[x].blocks[i].key)}
      ensures cold.hostWritePages == old(cold.hostWritePages) + 1
    {
      hide TierOk, Held, SizesOk, ColdWhole, Demand, Span, Overwrite, TiersApart, PageMappingFtl.Valid,
           PageMappingFtl.Contents, PageMappingFtl.Capacity, PageMappingFtl.Stuck, Unset;
      DropBlockFits(x, i);
      var blk := segs[x].blocks[i];
      mapping := mapping - {blk.key};
      segs := segs[x := Unset(segs[x], i)];
      var done := cold.Write(blk.key * NAND_PAGE_SIZE, NAND_PAGE_SIZE, blk.ts);
      assert done;
    }

    method FinishDrop(x: nat)
      requires Dropping(x) && ColdWhole()
      requires x < |segs| && ClearedTo(segs[x], segmentSize) && |segs[x].blocks| == segmentSize
      modifies this`segs
      ensures Ok() && Store() == old(Store())
      ensures segs == old(segs)[x := old(segs[x]).(validCnt := 0, writePtr := 0)]
    {
      hide ColdWhole, TierOk, Held, HandKept, Hotter, Colder, SizesOk, PageMappingFtl.Valid,
           PageMappingFtl.Contents, PageMappingFtl.Capacity;
      StepDropped(State(), x);
      segs := segs[x := segs[x].(validCnt := 0, writePtr := 0)];
    }

    /** Reclaims from the region, and failing that from the next colder ones. Where a segment
        is wanted, one is free in the region afterwards exactly if one could be had. */
    method ForceReclaim(kind: Kind) returns (ok: bool)
      requires Ok()
      modifies this`segs, this`regions, this`segRegion, this`mapping, this`regionValid, this`place, cold, cold.gcPolicy
      ensures Ok() && Store() == old(Store())
      ensures HandKept(None, old(State()), State()) && Colder(old(State()), State(), kind)
      ensures Reclaims(old(State()), kind) && StaysCached(old(State()), kind) ==> ok && Kept() == old(Kept())
      ensures ok ==> |regions| == 3 && exists j: Kind :: kind <= j && regions[j].free != []
      ensures Closed(old(State()), kind) ==> |regions| == 3 && (regions[kind].free != [] <==> Opens(old(State()), kind, true))
      ensures Closed(old(State()), kind) && Opens(old(State()), kind, true) ==> ok
      decreases 2 - kind, 7
    {
      hide Kept, StaysCached, Opens, Reclaims, FreeSame, Closed, NoSpace, TierOk, Held, HandKept, Hotter,
           Colder, SizesOk, ColdWhole, PageMappingFtl.Valid, PageMappingFtl.Contents, PageMappingFtl.Capacity,
           Ok, Store, Settled;
      SegmentPlaced();
      Unmoved(kind);
      ghost var s0 := State();
      ok := false;
      if kind == FWLOG {
        ok := ReclaimFromFwlog();
        Asked(s0, State(), FWLOG, ok);
      }
      ghost var s1 := State();
      if !ok && kind <= HOT {
        ok := ReclaimFromHot();
        ForcedStep(s0, s1, State(), kind, HOT);
        AskedNext(s0, s1, State(), kind, HOT, ok);
      }
      ghost var s2 := State();
      if !ok {
        ok := ReclaimFromCold();
        ForcedStep(s0, s2, State(), kind, COLD);
        ClosedCold(s2);
        AskedNext(s0, s2, State(), kind, COLD, ok);
      }
      AskedFree(s0, kind);
    }

    lemma AskedFree(s0: Tier, kind: Kind)
      ensures Settled(s0, State(), kind) && Closed(s0, kind) ==> |regions| == 3 && (regions[kind].free != [] <==> Opens(s0, kind, true))
    {}

    // ---- host writes ----

    /** The store's keys are the keys of the two tiers. */
    lemma StoreKeys()
      requires Ok()
      ensures Store().Keys == mapping.Keys + cold.lpnToPpn.Keys
      ensures TiersApart(mapping.Keys, cold.lpnToPpn.Keys, cold.Capacity())
    {
      HeldKeys(State(), None);
      ContentsKeys(cold);
    }

    /** The invariant halfway through a host write: the key is nowhere, and there is room
        for it in the active segment y. */
    ghost predicate Ready(y: nat, key: nat)
      reads this, cold, cold.gcPolicy
    {
      && Ok() && key !in mapping && key !in cold.lpnToPpn
      && y < |segs| && y < |place| && place[y].Active? && segs[y].writePtr < segmentSize
    }

    lemma ForgetCached(y: nat, key: nat)
      requires Ok() && key in mapping
      ensures var l := mapping[key];
              && l.seg < |segs| && l.idx < |segs[l.seg].blocks| && segs[l.seg].blocks[l.idx].valid && segs[l.seg].validCnt > 0
              && l.seg < |segRegion| && |regionValid| == 3 && regionValid[segRegion[l.seg]] > 0
              && key !in cold.lpnToPpn
              && var t' := State().(segs := segs[l.seg := Invalidated(segs[l.seg], l.idx)], mapping := mapping - {key},
                                    regionValid := Adjusted(regionValid, segRegion[l.seg], -1));
                 TierOk(t', None) && Held(t') + cold.Contents() == Store() - {key}
      ensures TiersApart(mapping.Keys - {key}, cold.lpnToPpn.Keys, cold.Capacity())
    {
      hide TierOk, Held, SizesOk, ColdWhole, PageMappingFtl.Valid, PageMappingFtl.Contents, PageMappingFtl.Capacity;
      Dimensions(State(), None);
      StepInvalidate(State(), key);
      ContentsKeys(cold);
      UnionForget(Held(State()), cold.Contents(), key);
      SubsetSize((mapping.Keys - {key}) + cold.lpnToPpn.Keys, mapping.Keys + cold.lpnToPpn.Keys);
    }

    lemma ForgetCold(key: nat)
      requires Ok() && key !in mapping
      ensures Held(State()) + (cold.Contents() - {key}) == Store() - {key}
      ensures TiersApart(mapping.Keys, cold.lpnToPpn.Keys - {key}, cold.Capacity())
    {
      hide TierOk, Held, SizesOk, ColdWhole, PageMappingFtl.Valid, PageMappingFtl.Contents, PageMappingFtl.Capacity;
      HeldKeys(State(), None);
      UnionForget(Held(State()), cold.Contents(), key);
      SubsetSize(mapping.Keys + (cold.lpnToPpn.Keys - {key}), mapping.Keys + cold.lpnToPpn.Keys);
    }

    /** Forgets a key before it is rewritten: its cached block, or its page in the cold tier. */
    method Invalidate(key: nat, lbaSize: nat)
      requires Ok() && 0 < lbaSize <= NAND_PAGE_SIZE && lbaSize % SECTOR_SIZE == 0
      modifies this`segs, this`mapping, this`regionValid, cold, cold.gcPolicy
      ensures Ok() && key !in mapping && key !in cold.lpnToPpn
      ensures Store() == old(Store()) - {key} && mapping == old(mapping) - {key}
      ensures cold.hostWritePages == old(cold.hostWritePages) && cold.nandWritePages == old(cold.nandWritePages)
      ensures |segs| == old(|segs|) && forall x :: 0 <= x < |segs| ==> segs[x].writePtr == old(segs[x].writePtr)
    {
      hide Ok, Store;
      if key in mapping {
        InvalidateCached(key);
      } else {
        InvalidateCold(key, lbaSize);
      }
    }

    method InvalidateCached(key: nat)
      requires Ok() && key in mapping
      modifies this`segs, this`mapping, this`regionValid
      ensures Ok() && key !in mapping && key !in cold.lpnToPpn
      ensures Store() == old(Store()) - {key} && mapping == old(mapping) - {key}
      ensures |segs| == old(|segs|) && forall x :: 0 <= x < |segs| ==> segs[x].writePtr == old(segs[x].writePtr)
    {
      hide TierOk, Held, HandKept, Hotter, Colder, SizesOk, ColdWhole, TiersApart, PageMappingFtl.Valid,
           PageMappingFtl.Contents, PageMappingFtl.Capacity, Adjusted;
      ForgetCached(0, key);
      var loc := mapping[key];
      segs := segs[loc.seg := Invalidated(segs[loc.seg], loc.idx)];
      AdjustRegionValid(segRegion[loc.seg], -1);
      mapping := mapping - {key};
    }

    method InvalidateCold(key: nat, lbaSize: nat)
      requires Ok() && key !in mapping && 0 < lbaSize <= NAND_PAGE_SIZE && lbaSize % SECTOR_SIZE == 0
      modifies cold, cold.gcPolicy
      ensures Ok() && key !in cold.lpnToPpn && Store() == old(Store()) - {key}
      ensures cold.hostWritePages == old(cold.hostWritePages) && cold.nandWritePages == old(cold.nandWritePages)
    {
      hide TierOk, Held, HandKept, Hotter, Colder, SizesOk, TiersApart, PageMappingFtl.Valid,
           PageMappingFtl.Contents, PageMappingFtl.Capacity, Span;
      BlockSpan(key, lbaSize);
      ForgetCold(key);
      cold.Trim(key * NAND_PAGE_SIZE, lbaSize);
    }

    lemma AppendFits(y: nat, key: nat, ts: nat)
      requires Ready(y, key) && |Store().Keys + {key}| <= cold.Capacity()
      ensures |segs[y].blocks| == segmentSize && y < |segRegion| && |regionValid| == 3 && regionValid[segRegion[y]] >= 0
      ensures var t' := State().(segs := segs[y := Appended(segs[y], key, ts)], mapping := mapping[key := Loc(y, segs[y].writePtr)],
                                 regionValid := Adjusted(regionValid, segRegion[y], 1));
              TierOk(t', None) && Held(t') + cold.Contents() == Store()[key := ts]
      ensures TiersApart(mapping.Keys + {key}, cold.lpnToPpn.Keys, cold.Capacity())
    {
      hide TierOk, Held, SizesOk, ColdWhole, TiersApart, Adjusted, PageMappingFtl.Valid,
           PageMappingFtl.Contents, PageMappingFtl.Capacity;
      Dimensions(State(), None);
      SegmentAt(State(), None, y);
      CountersNonNegative(State(), segRegion[y]);
      StepAppend(State(), y, key, ts);
      ContentsKeys(cold);
      UnionAdd(Held(State()), cold.Contents(), key, ts);
      KeyJoins(key);
    }

    lemma KeyJoins(key: nat)
      requires Ok() && key !in cold.lpnToPpn && |Store().Keys + {key}| <= cold.Capacity()
      ensures TiersApart(mapping.Keys + {key}, cold.lpnToPpn.Keys, cold.Capacity())
    {
      hide Ok, Store;
      StoreKeys();
      assert (mapping.Keys + {key}) + cold.lpnToPpn.Keys == Store().Keys + {key};
    }

    /** Appends a key's block to an active segment. The source asserts there is room. */
    method AppendBlock(y: nat, key: nat, ts: nat)
      requires Ready(y, key) && |Store().Keys + {key}| <= cold.Capacity()
      modifies this`segs, this`mapping, this`regionValid
      ensures Ok() && Store() == old(Store())[key := ts]
      ensures mapping == old(mapping)[key := Loc(y, old(segs[y].writePtr))] && regions == old(regions)
    {
      hide TierOk, Held, HandKept, Hotter, Colder, SizesOk, ColdWhole, TiersApart, PageMappingFtl.Valid,
           PageMappingFtl.Contents, PageMappingFtl.Capacity, Adjusted;
      AppendFits(y, key, ts);
      MapAdd(mapping, key, Loc(y, segs[y].writePtr));
      mapping := mapping[key := Loc(y, segs[y].writePtr)];
      segs := segs[y := Appended(segs[y], key, ts)];
      AdjustRegionValid(segRegion[y], 1);
    }

    /** Between host operations no segment is in anyone's hand. */
    ghost predicate Valid()
      reads this, cold, cold.gcPolicy
    {
      Ok() && NoHands(State())
    }

    /** Writes one block. It fails, as the source does with an error, exactly when the state
        before has no room for it; then nothing is lost and nothing is written. */
    method AppendHostBlock(key: nat, lbaSize: nat) returns (ok: bool)
      requires Valid() && 0 < lbaSize <= NAND_PAGE_SIZE && lbaSize % SECTOR_SIZE == 0
      requires |Store().Keys + {key}| <= cold.Capacity()
      modifies this, cold, cold.gcPolicy
      ensures Valid()
      ensures ok ==> Store() == old(Store())[key := old(timestamp)] && timestamp == old(timestamp) + 1
      ensures !ok ==> Store() == old(Store()) && timestamp == old(timestamp)
      ensures ok <==> CanWrite(old(State()))
      ensures ok ==> LandedIn(State(), key, FWLOG)
      ensures ok && Fits(old(State()), FWLOG, 1, false) ==> mapping.Keys == old(mapping.Keys) + {key}
      ensures SameTotals(old(State()), State())
    {
      hide LandedIn, Fits, CanWrite, SameTotals, Ok, Store, NoHands;
      ok := AppendAtTime(key, lbaSize);
      if ok {
        Tick();
      }
    }

    method Tick()
      requires Ok()
      modifies this`timestamp
      ensures Ok() && Store() == old(Store()) && State() == old(State()) && timestamp == old(timestamp) + 1
    {
      hide TierOk, Held, HandKept, Hotter, Colder, SizesOk, ColdWhole, TiersApart, PageMappingFtl.Valid,
           PageMappingFtl.Contents, PageMappingFtl.Capacity;
      timestamp := timestamp + 1;
    }

    method AppendAtTime(key: nat, lbaSize: nat) returns (ok: bool)
      requires Valid() && 0 < lbaSize <= NAND_PAGE_SIZE && lbaSize % SECTOR_SIZE == 0
      requires |Store().Keys + {key}| <= cold.Capacity()
      modifies this`segs, this`regions, this`segRegion, this`mapping, this`regionValid, this`place, cold, cold.gcPolicy
      ensures Valid()
      ensures Store() == if ok then old(Store())[key := timestamp] else old(Store())
      ensures ok <==> CanWrite(old(State()))
      ensures ok ==> LandedIn(State(), key, FWLOG)
      ensures ok && Fits(old(State()), FWLOG, 1, false) ==> mapping.Keys == old(mapping.Keys) + {key}
      ensures SameTotals(old(State()), State())
    {
      hide Ok, Store, NoHands, HandKept, Hotter, CanWrite, Fits, FreshlyOpen, Room, HasRoom;
      ghost var before := State();
      CanWriteIs(before);
      var seg := EnsureActiveSegment(FWLOG, true);
      NoHandsKept(before, State());
      TotalsHotter(before, State(), FWLOG);
      if seg.None? {
        return false;
      }
      SegmentPlaced();
      KeysLess(Store(), key, timestamp);
      ghost var mid := State();
      WriteInto(seg.value, key, lbaSize);
      NoHandsPlaced(mid, State());
      SegmentPlaced();
      TotalsSame(mid, State());
      TotalsTransitive(before, mid, State());
      return true;
    }

    lemma SegmentPlaced()
      requires Ok()
      ensures |segs| == |place| == |segRegion| && |regions| == 3
    {
      Dimensions(State(), None);
    }

    lemma ReadyNow(y: nat, key: nat)
      requires Ok() && key !in mapping && key !in cold.lpnToPpn
      requires y < |segs| && y < |place| && place[y].Active? && segs[y].writePtr < segmentSize
      ensures Ready(y, key)
    {}

    method WriteInto(y: nat, key: nat, lbaSize: nat)
      requires Ok() && 0 < lbaSize <= NAND_PAGE_SIZE && lbaSize % SECTOR_SIZE == 0
      requires y < |segs| && y < |place| && place[y].Active? && segs[y].writePtr < segmentSize
      requires |(Store() - {key}).Keys + {key}| <= cold.Capacity()
      modifies this`segs, this`mapping, this`regionValid, cold, cold.gcPolicy
      ensures Ok() && Store() == (old(Store()) - {key})[key := timestamp]
      ensures mapping.Keys == old(mapping.Keys) + {key} && mapping[key].seg == y && regions == old(regions)
    {
      hide Ready, Ok, Store, PageMappingFtl.Capacity;
      ghost var before := mapping;
      Invalidate(key, lbaSize);
      ReadyNow(y, key);
      KeyPut(before, key, Loc(y, segs[y].writePtr));
      AppendBlock(y, key, timestamp);
    }

    // ---- background reclaim ----

    method NeedsGc(kind: Kind, ratio: real) returns (needed: bool)
      requires Ok() && ratio >= 0.0
      ensures needed <==> Short(State(), kind, ratio)
    {
      hide Ok, Threshold;
      OkShape();
      if regions[kind].totalSegments == 0 {
        return false;
      }
      var threshold := Threshold(regions[kind].totalSegments, ratio);
      return |regions[kind].free| <= threshold;
    }

    /** Reclaims from a region that is short of free segments. */
    method ReclaimIfShort(kind: Kind, ratio: real) returns (done: bool)
      requires Valid() && ratio >= 0.0
      modifies this`segs, this`regions, this`segRegion, this`mapping, this`regionValid, this`place, cold, cold.gcPolicy
      ensures Valid() && Store() == old(Store())
      ensures Attempt(old(State()), State(), kind, ratio, done)
    {
      hide StaysCached, Ok, Store, NoHands, HandKept, Colder, Short, Reclaims, LeftStuck, FreeSame;
      ghost var before := State();
      var needed := NeedsGc(kind, ratio);
      if !needed {
        return false;
      }
      if kind == FWLOG {
        done := ReclaimFromFwlog();
      } else if kind == HOT {
        done := ReclaimFromHot();
      } else {
        done := ReclaimFromCold();
      }
      NoHandsKept(before, State());
    }

    /** The reclaims tried after every host block, in order, until one succeeds. They move data
        about but lose none. */
    method MaybeRunGc()
      requires Valid()
      modifies this`segs, this`regions, this`segRegion, this`mapping, this`regionValid, this`place, cold, cold.gcPolicy
      ensures Valid() && Store() == old(Store())
      ensures GcOrder(old(State()), State())
    {
      hide Valid, Store, Attempt;
      ghost var s0 := State();
      var done := ReclaimIfShort(HOT, 0.015);
      if done {
        return;
      }
      ghost var s1 := State();
      done := ReclaimIfShort(COLD, 0.015);
      if done {
        return;
      }
      ghost var s2 := State();
      done := ReclaimIfShort(FWLOG, 0.15);
      if done {
        return;
      }
      ghost var s3 := State();
      done := ReclaimIfShort(HOT, 0.05);
    }

    /** One block of a batch, and the reclaims after it. */
    method InsertBlock(key: nat, lbaSize: nat) returns (ok: bool, ghost written: Tier)
      requires Valid() && 0 < lbaSize <= NAND_PAGE_SIZE && lbaSize % SECTOR_SIZE == 0
      requires |Store().Keys + {key}| <= cold.Capacity()
      modifies this, cold, cold.gcPolicy
      ensures Valid() && Restful(old(State())) && SameTotals(old(State()), State())
      ensures Store() == if ok then old(Store())[key := old(timestamp)] else old(Store())
      ensures timestamp == old(timestamp) + Bit(ok)
      ensures ok <==> CanWrite(old(State()))
      ensures ok ==> BlockStep(old(State()), (written, State()), key)
    {
      hide BlockStep, HostStep, LandedIn, Fits, Ok, NoHands, Store, PageMappingFtl.Capacity, CanWrite,
           SameTotals, GcOrder, Restful;
      SegmentPlaced();
      ValidTier();
      ghost var before := State();
      ok := AppendHostBlock(key, lbaSize);
      written := State();
      if ok {
        SegmentPlaced();
        MaybeRunGc();
        GcTotals(written, State());
        TotalsTransitive(before, written, State());
        BlockWritten(before, written, State(), key);
      }
    }

    lemma StartTotals()
      requires Valid()
      ensures SameTotals(State(), State())
    {
      SegmentPlaced();
      TotalsSame(State(), State());
    }

    /** Writes the blocks one by one until there is no room. */
    method WriteAll(newBlocks: seq<(nat, nat)>) returns (n: nat, ghost steps: seq<(Tier, Tier)>)
      requires Valid()
      requires forall i :: 0 <= i < |newBlocks| ==> 0 < newBlocks[i].1 <= NAND_PAGE_SIZE && newBlocks[i].1 % SECTOR_SIZE == 0
      requires |Store().Keys + KeysOf(newBlocks, |newBlocks|)| <= cold.Capacity()
      modifies this, cold, cold.gcPolicy
      ensures Valid() && n == |steps| <= |newBlocks|
      ensures Store() == Written(old(Store()), newBlocks, n, old(timestamp))
      ensures timestamp == old(timestamp) + n
      ensures BatchOver(old(State()), steps, State(), newBlocks)
    {
      hide Ok, NoHands, GcOrder, HostStep, Fits, LandedIn, Steps, StateAt, PageMappingFtl.Valid,
           PageMappingFtl.Contents, TierOk, SizesOk, Held, ColdWhole, Tiers, TiersApart, State, Valid, Written,
           KeysOf, BatchSoFar, BatchOver, Store, PageMappingFtl.Capacity, CanWrite, SameTotals, BlockStep,
           Restful;
      WrittenNone(Store(), newBlocks, timestamp);
      n, steps := 0, [];
      ghost var start, store, now := State(), Store(), timestamp;
      StartTotals();
      BatchStart(start, newBlocks);
      while n < |newBlocks|
        invariant n == |steps| <= |newBlocks| && Valid()
        invariant Store() == Written(store, newBlocks, n, now) && timestamp == now + n
        invariant BatchSoFar(start, steps, State(), newBlocks)
      {
        WrittenKeys(store, newBlocks, n, now, cold.Capacity());
        ghost var before := State();
        var ok;
        ghost var written;
        ok, written := InsertBlock(newBlocks[n].0, newBlocks[n].1);
        if !ok {
          BatchStops(start, steps, before, State(), newBlocks);
          return;
        }
        BatchStep(start, steps, before, (written, State()), newBlocks);
        steps := steps + [(written, State())];
        n := n + 1;
      }
      BatchDone(start, steps, State(), newBlocks);
    }

    /** A batch of host writes, in key order. Every block written is in the store under the
        timestamp of its write, and nothing else changes. After each block the reclaims are
        tried; `steps` are the states after each of the two. The batch stops, as the source does
        with an error, at the first block the cache has no room for. */
    method BatchInsert(newBlocks: seq<(nat, nat)>, isRead: bool) returns (n: nat, ghost steps: seq<(Tier, Tier)>)
      requires Valid()
      requires forall i :: 0 <= i < |newBlocks| ==> 0 < newBlocks[i].1 <= NAND_PAGE_SIZE && newBlocks[i].1 % SECTOR_SIZE == 0
      requires |Store().Keys + KeysOf(newBlocks, |newBlocks|)| <= cold.Capacity()
      modifies this, cold, cold.gcPolicy
      ensures Valid() && n <= |newBlocks|
      ensures Store() == Written(old(Store()), newBlocks, n, old(timestamp))
      ensures timestamp == old(timestamp) + n
      ensures isRead ==> n == 0 && State() == old(State())
      ensures |steps| == n && Steps(old(State()), steps, newBlocks)
      ensures n == |newBlocks| && !isRead ==> State() == StateAt(old(State()), steps, n)
      ensures !isRead && n < |newBlocks| ==>
                var stopped := StateAt(old(State()), steps, n);
                Restful(stopped) && !CanWrite(stopped) && SameTotals(old(State()), stopped)
      ensures !isRead && newBlocks != [] ==> (n == 0 <==> !CanWrite(old(State())))
    {
      hide State, Valid, Written, KeysOf, Steps, StateAt, Ok, Store, PageMappingFtl.Capacity, CanWrite,
           SameTotals, Restful;
      WrittenNone(Store(), newBlocks, timestamp);
      StepsNone(State(), newBlocks);
      n, steps := 0, [];
      if isRead {
        return;
      }
      n, steps := WriteAll(newBlocks);
    }

    lemma ValidTier()
      requires Valid()
      ensures Restful(State())
    {}

    /** A fresh cache: the segments split between the regions, all free. */
    constructor (segmentSize: nat, totalSegments: nat, fwlogRatio: real, hotRatio: real, cold: PageMappingFtl)
      requires segmentSize > 0 && totalSegments > 0 && fwlogRatio >= 0.0 && hotRatio >= 0.0
      requires cold.Valid() && |cold.lpnToPpn| <= cold.Capacity()
      ensures Valid() && this.cold == cold && this.segmentSize == segmentSize && timestamp == 0
      ensures Store() == cold.Contents()
      ensures |segs| == totalSegments && coldStart == cold.hostWritePages
      ensures var (fw, hot, _) := Partition(totalSegments, fwlogRatio, hotRatio); State() == Fresh(segmentSize, totalSegments, fw, hot)
    {
      hide Fresh, Partition, WholeSegments, TierOk, Held, SizesOk, TiersApart, NoHands, PageMappingFtl.Valid,
           PageMappingFtl.Contents, PageMappingFtl.Capacity;
      this.segmentSize := segmentSize;
      this.cold := cold;
      coldStart := cold.hostWritePages;
      NoSegments(segmentSize);
      var (fwlog, hot, _) := Partition(totalSegments, fwlogRatio, hotRatio);
      var fresh' := Fresh(segmentSize, totalSegments, fwlog, hot);
      segs, regions, segRegion := fresh'.segs, fresh'.regions, fresh'.segRegion;
      mapping, regionValid, timestamp, place := map[], fresh'.regionValid, 0, fresh'.place;
      FreshOk(segmentSize, totalSegments, fwlog, hot);
      EmptyCacheStore(Held(fresh'), fresh'.mapping.Keys, cold.Contents(), cold.lpnToPpn.Keys, cold.Capacity());
      new;
    }
  }

  // ---- what the cold tier is written ----

  ghost predicate WholeSegments(pages: int, size: nat) {
    exists n: nat :: pages == PagesIn(n, size)
  }

  lemma NoSegments(size: nat)
    ensures WholeSegments(0, size)
  {
    assert PagesIn(0, size) == 0;
  }

  lemma OneSegmentMore(pages: int, size: nat)
    requires WholeSegments(pages, size)
    ensures WholeSegments(pages + size, size)
  {
    var n: nat :| pages == PagesIn(n, size);
    PagesInStep(n, size);
  }

  // ---- pieces of the host operations ----

  function Max(a: nat, b: nat): (r: nat)
    ensures r >= a && r >= b && (r == a || r == b)
  {
    if a >= b then a else b
  }

  /** The least whole number not below x. */
  function Ceil(x: real): (r: nat)
    requires x >= 0.0
    ensures x <= r as real < x + 1.0
  {
    0 - (0.0 - x).Floor
  }

  /** The log region can take one more block. */
  ghost predicate CanWrite(t: Tier) { Fits(t, FWLOG, 1, true) }

  lemma CanWriteIs(t: Tier)
    ensures CanWrite(t) <==> Fits(t, FWLOG, 1, true)
  {}

  /** Writing a key's block puts it in the log region; with room there, or a free segment, it
      moves nothing else about between the tiers. */
  ghost predicate HostStep(t: Tier, t': Tier, key: nat) {
    && CanWrite(t) && LandedIn(t', key, FWLOG)
    && (Fits(t, FWLOG, 1, false) ==> t'.mapping.Keys == t.mapping.Keys + {key})
  }

  /** One block of a batch: the state after it is written, and after the reclaims that follow. */
  ghost predicate BlockStep(t: Tier, step: (Tier, Tier), key: nat) {
    HostStep(t, step.0, key) && GcOrder(step.0, step.1)
  }

  /** The state before the block with index i. */
  ghost function StateAt(start: Tier, steps: seq<(Tier, Tier)>, i: nat): Tier
    requires i <= |steps|
  {
    if i == 0 then start else steps[i - 1].1
  }

  lemma BlockWritten(t: Tier, written: Tier, t': Tier, key: nat)
    requires CanWrite(t) && LandedIn(written, key, FWLOG) && GcOrder(written, t')
    requires Fits(t, FWLOG, 1, false) ==> written.mapping.Keys == t.mapping.Keys + {key}
    ensures BlockStep(t, (written, t'), key)
  {}

  /** Each block of a batch so far, one after the other. */
  ghost predicate Steps(start: Tier, steps: seq<(Tier, Tier)>, blocks: seq<(nat, nat)>) {
    |steps| <= |blocks| && forall i :: 0 <= i < |steps| ==> BlockStep(StateAt(start, steps, i), steps[i], blocks[i].0)
  }

  lemma StepsNone(start: Tier, blocks: seq<(nat, nat)>)
    ensures Steps(start, [], blocks) && StateAt(start, [], 0) == start
  {}

  lemma StepsMore(start: Tier, steps: seq<(Tier, Tier)>, step: (Tier, Tier), blocks: seq<(nat, nat)>)
    requires Steps(start, steps, blocks) && |steps| < |blocks|
    requires BlockStep(StateAt(start, steps, |steps|), step, blocks[|steps|].0)
    ensures Steps(start, steps + [step], blocks) && StateAt(start, steps + [step], |steps| + 1) == step.1
  {
    hide BlockStep;
    forall i | 0 <= i <= |steps| ensures StateAt(start, steps + [step], i) == StateAt(start, steps, i) {}
  }

  /** In the middle of a batch, at state t. */
  ghost predicate BatchSoFar(start: Tier, steps: seq<(Tier, Tier)>, t: Tier, blocks: seq<(nat, nat)>) {
    && Steps(start, steps, blocks) && t == StateAt(start, steps, |steps|) && SameTotals(start, t)
    && (steps != [] ==> CanWrite(start))
  }

  /** At the end of one: all blocks are written, or the state before the next has no room. */
  ghost predicate BatchOver(start: Tier, steps: seq<(Tier, Tier)>, t: Tier, blocks: seq<(nat, nat)>) {
    && Steps(start, steps, blocks)
    && (|steps| == |blocks| ==> t == StateAt(start, steps, |steps|))
    && (|steps| < |blocks| ==>
          var stopped := StateAt(start, steps, |steps|);
          Restful(stopped) && !CanWrite(stopped) && SameTotals(start, stopped))
    && (blocks != [] ==> (steps == [] <==> !CanWrite(start)))
  }

  lemma BatchStart(start: Tier, blocks: seq<(nat, nat)>)
    requires SameTotals(start, start)
    ensures BatchSoFar(start, [], start, blocks)
  {}

  lemma BatchStep(start: Tier, steps: seq<(Tier, Tier)>, t: Tier, step: (Tier, Tier), blocks: seq<(nat, nat)>)
    requires BatchSoFar(start, steps, t, blocks) && |steps| < |blocks|
    requires CanWrite(t) && SameTotals(t, step.1) && BlockStep(t, step, blocks[|steps|].0)
    ensures BatchSoFar(start, steps + [step], step.1, blocks)
  {
    hide CanWrite, SameTotals, BlockStep;
    StepsMore(start, steps, step, blocks);
    TotalsTransitive(start, t, step.1);
  }

  lemma BatchStops(start: Tier, steps: seq<(Tier, Tier)>, t: Tier, t': Tier, blocks: seq<(nat, nat)>)
    requires BatchSoFar(start, steps, t, blocks) && |steps| < |blocks| && Restful(t) && !CanWrite(t)
    ensures BatchOver(start, steps, t', blocks)
  {
    hide CanWrite, SameTotals, Steps, Restful;
  }

  lemma BatchDone(start: Tier, steps: seq<(Tier, Tier)>, t: Tier, blocks: seq<(nat, nat)>)
    requires BatchSoFar(start, steps, t, blocks) && |steps| == |blocks|
    ensures BatchOver(start, steps, t, blocks)
  {
    hide CanWrite, SameTotals, Steps, Restful;
  }

  /** Regions have as many segments as before. */
  ghost predicate SameTotals(t: Tier, t': Tier) {
    && |t.regions| == 3 == |t'.regions| && |t'.segs| == |t.segs| && t'.size == t.size
    && forall k: Kind :: t'.regions[k].totalSegments == t.regions[k].totalSegments
  }

  lemma TotalsHotter(t: Tier, t': Tier, k: Kind)
    requires Hotter(t, t', k) && HandKept(None, t, t')
    ensures SameTotals(t, t')
  {}

  lemma TotalsSame(t: Tier, t': Tier)
    requires t'.regions == t.regions && |t.regions| == 3 && |t'.segs| == |t.segs| && t'.size == t.size
    ensures SameTotals(t, t')
  {}

  lemma TotalsTransitive(t1: Tier, t2: Tier, t3: Tier)
    requires SameTotals(t1, t2) && SameTotals(t2, t3)
    ensures SameTotals(t1, t3)
  {}

  /** A share of a region's segments, rounded up, but at least one. */
  function Threshold(total: nat, ratio: real): nat
    requires ratio >= 0.0
  {
    assert total as real * ratio >= 0.0;
    Max(Ceil(total as real * ratio), 1)
  }

  /** The region has segments, but no more than a share of them is free. */
  ghost predicate Short(t: Tier, kind: Kind, ratio: real)
    requires ratio >= 0.0
  {
    && |t.regions| == 3 && t.regions[kind].totalSegments > 0
    && |t.regions[kind].free| <= Threshold(t.regions[kind].totalSegments, ratio)
  }

  /** What being short means: segments, and either at most one of them free or fewer than the
      share of them and one more. In particular a region with segments and none free is
      short at every ratio. */
  lemma ShortRegion(t: Tier, kind: Kind, ratio: real)
    requires ratio >= 0.0 && |t.regions| == 3
    ensures var r := t.regions[kind];
            Short(t, kind, ratio) <==>
            r.totalSegments > 0 && (|r.free| <= 1 || |r.free| as real < r.totalSegments as real * ratio + 1.0)
  {}

  /** A short region stays short with fewer segments free or at a higher ratio. */
  lemma ShortGrows(t: Tier, t': Tier, kind: Kind, ratio: real, higher: real)
    requires 0.0 <= ratio <= higher && Short(t, kind, ratio) && SameTotals(t, t')
    requires |t'.regions[kind].free| <= |t.regions[kind].free|
    ensures Short(t', kind, higher)
  {
    hide Short;
    ShortRegion(t, kind, ratio);
    ShortRegion(t', kind, higher);
    assert t.regions[kind].totalSegments as real * (higher - ratio) >= 0.0;
  }

  /** One of the reclaims tried in the background: nothing when the region is not short, and
      otherwise a reclaim, which succeeds just when the state before allows it. */
  ghost predicate Attempt(t: Tier, t': Tier, k: Kind, ratio: real, done: bool)
    requires ratio >= 0.0
  {
    if Short(t, k, ratio) then
      && HandKept(None, t, t') && Colder(t, t', k) && (done <==> Reclaims(t, k))
      && (StaysCached(t, k) ==> t'.mapping.Keys == t.mapping.Keys)
      && (done ==> |t'.regions| == 3 && t'.regions[k].free != [])
      && (!done ==> LeftStuck(t, t', k) && (k < COLD ==> FreeSame(t, t', k)))
    else !done && t' == t
  }

  /** The order of the attempts; the first that succeeds is the last. */
  ghost predicate GcOrder(t: Tier, t': Tier) {
    Attempt(t, t', HOT, 0.015, true) || exists s :: Attempt(t, s, HOT, 0.015, false) && GcOrder2(s, t')
  }

  ghost predicate GcOrder2(t: Tier, t': Tier) {
    Attempt(t, t', COLD, 0.015, true) || exists s :: Attempt(t, s, COLD, 0.015, false) && GcOrder3(s, t')
  }

  ghost predicate GcOrder3(t: Tier, t': Tier) {
    Attempt(t, t', FWLOG, 0.15, true) || exists s, done :: Attempt(t, s, FWLOG, 0.15, false) && Attempt(s, t', HOT, 0.05, done)
  }

  lemma AttemptTotals(t: Tier, t': Tier, k: Kind, ratio: real, done: bool)
    requires ratio >= 0.0 && Attempt(t, t', k, ratio, done)
    requires |t.regions| == 3
    ensures SameTotals(t, t')
  {
    if Short(t, k, ratio) {
      TotalsHotter(t, t', k);
    }
  }

  lemma GcTotals(t: Tier, t': Tier)
    requires GcOrder(t, t') && |t.regions| == 3
    ensures SameTotals(t, t')
  {
    hide Attempt;
    if Attempt(t, t', HOT, 0.015, true) {
      AttemptTotals(t, t', HOT, 0.015, true);
    } else {
      var s1 :| Attempt(t, s1, HOT, 0.015, false) && GcOrder2(s1, t');
      AttemptTotals(t, s1, HOT, 0.015, false);
      if Attempt(s1, t', COLD, 0.015, true) {
        AttemptTotals(s1, t', COLD, 0.015, true);
      } else {
        var s2 :| Attempt(s1, s2, COLD, 0.015, false) && GcOrder3(s2, t');
        AttemptTotals(s1, s2, COLD, 0.015, false);
        if Attempt(s2, t', FWLOG, 0.15, true) {
          AttemptTotals(s2, t', FWLOG, 0.15, true);
        } else {
          var s3, done :| Attempt(s2, s3, FWLOG, 0.15, false) && Attempt(s3, t', HOT, 0.05, done);
          AttemptTotals(s2, s3, FWLOG, 0.15, false);
          AttemptTotals(s3, t', HOT, 0.05, done);
        }
      }
    }
  }

  /** The cache tier between host operations. */
  ghost predicate Restful(t: Tier) {
    TierOk(t, None) && NoHands(t) && SizesOk(t.regions, t.segRegion)
  }

  /** Nothing is free in the region, and nothing will be when a full active segment goes. */
  ghost predicate NoneToOpen(t: Tier, k: Kind)
    requires |t.regions| == 3
  {
    t.regions[k].free == [] && !RetiresEmpty(t, k)
  }

  /** The region's next victim, if it has segments at all, has so many valid blocks. */
  ghost function NextCount(t: Tier, k: Kind): nat {
    if NextValid(t, k).Some? then NextValid(t, k).value else 0
  }

  /** When the cache has no room for a block: the log has no room and nothing to open, its next
      victim outgrows what is left of the hot region's active segment, and so on down; the
      coldest region's next victim is neither empty nor fully valid. */
  lemma NoRoomMeans(t: Tier)
    requires Restful(t) && t.regions[FWLOG].totalSegments > 0
    ensures |t.regions| == 3
    ensures !CanWrite(t) <==>
              && Room(t, FWLOG) == 0 && NoneToOpen(t, FWLOG) && NextCount(t, FWLOG) > Room(t, HOT)
              && (t.regions[HOT].totalSegments > 0 ==>
                    && NoneToOpen(t, HOT) && NextCount(t, HOT) > Room(t, COLD)
                    && (t.regions[COLD].totalSegments > 0 ==>
                          NoneToOpen(t, COLD) && NextCount(t, COLD) != 0 && NextCount(t, COLD) != t.size))
    ensures !CanWrite(t) ==>
              t.regions[HOT].free == [] && (t.regions[COLD].free == [] || t.regions[HOT].totalSegments == 0)
  {
    hide TierOk, NoHands, SizesOk;
    forall k: Kind ensures RegionInUse(t, k) {
      RegionUse(t, k);
      if t.regions[k].totalSegments == 0 { EmptyRegion(t, k); }
    }
    assert RegionInUse(t, FWLOG) && RegionInUse(t, HOT) && RegionInUse(t, COLD);
  }

  /** A region with segments has a free one or a next victim; one without has neither. */
  ghost predicate RegionInUse(t: Tier, k: Kind) {
    |t.regions| == 3 && var r := t.regions[k];
    if r.totalSegments == 0 then r.free == [] && r.fifo == [] && r.active.None?
    else r.free != [] || NextValid(t, k).Some?
  }

  lemma {:induction false} RegionNone(segRegion: seq<Kind>, k: Kind, n: nat)
    requires n <= |segRegion| && RegionSize(segRegion, k, n) == 0
    ensures forall x :: 0 <= x < n ==> segRegion[x] != k
  {
    if n > 0 { RegionNone(segRegion, k, n - 1); }
  }

  /** A list whose members are all at p is empty, or something is there. */
  lemma FirstListed(list: seq<nat>, place: seq<Place>, p: Place)
    requires forall i :: 0 <= i < |list| ==> list[i] < |place| && place[list[i]] == p
    ensures list == [] || (list[0] < |place| && place[list[0]] == p)
  {}

  /** A region without segments has nothing in its lists. */
  lemma EmptyRegion(t: Tier, k: Kind)
    requires Restful(t) && |t.regions| == 3 && t.regions[k].totalSegments == 0
    ensures t.regions[k].free == [] && t.regions[k].fifo == [] && t.regions[k].active.None?
  {
    Dimensions(t, None);
    AtRegion(t.regions, t.place, t.segRegion, k);
    RegionNone(t.segRegion, k, |t.segRegion|);
    FirstListed(t.regions[k].free, t.place, Free(k));
    FirstListed(t.regions[k].fifo, t.place, Fifo(k));
    hide TierOk;
  }

  /** A region with segments and none free has a next victim. */
  lemma RegionUse(t: Tier, k: Kind)
    requires Restful(t)
    ensures |t.regions| == 3 && (t.regions[k].totalSegments > 0 && t.regions[k].free == [] ==> NextValid(t, k).Some?)
  {
    Dimensions(t, None);
    AtRegion(t.regions, t.place, t.segRegion, k);
    if t.regions[k].totalSegments > 0 && t.regions[k].free == [] {
      RegionMember(t.segRegion, k, |t.segRegion|);
      var x :| 0 <= x < |t.segRegion| && t.segRegion[x] == k;
      InRegion(t, k, x);
    }
  }

  lemma InRegion(t: Tier, k: Kind, x: nat)
    requires TierOk(t, None) && NoHands(t) && x < |t.segRegion| && t.segRegion[x] == k
    ensures x < |t.segs| == |t.place| && |t.regions| == 3
    ensures x in t.regions[k].free || x in t.regions[k].fifo || t.regions[k].active == Some(x)
  {
    hide SegsOk, MapOk, ValidCountsOk;
    var p := t.place[x];
    assert p == Free(k) || p == Fifo(k) || p == Active(k);
  }

  lemma {:induction false} RegionMember(segRegion: seq<Kind>, k: Kind, n: nat)
    requires n <= |segRegion| && RegionSize(segRegion, k, n) > 0
    ensures exists x :: 0 <= x < n && segRegion[x] == k
  {
    if segRegion[n - 1] != k { RegionMember(segRegion, k, n - 1); }
  }

  /** No segment is in anyone's hand. */
  ghost predicate NoHands(t: Tier) {
    forall x :: 0 <= x < |t.place| ==> t.place[x] != InHand
  }

  lemma NoHandsKept(t: Tier, t': Tier)
    requires NoHands(t) && HandKept(None, t, t')
    ensures NoHands(t')
  {}

  lemma NoHandsPlaced(t: Tier, t': Tier)
    requires NoHands(t) && t'.place == t.place
    ensures NoHands(t')
  {}

  lemma CountersNonNegative(t: Tier, k: Kind)
    requires TierOk(t, None)
    ensures t.regionValid[k] >= 0
  {}

  /** Rounds a non-negative share to the nearest whole number, halves up. */
  function Round(x: real): (r: int)
    ensures x - 0.5 < r as real <= x + 0.5
  {
    (x + 0.5).Floor
  }

  /** A share of so many segments, rounded to the nearest, but at least one if there are any. */
  ghost predicate Share(n: nat, of: nat, x: real) {
    && n <= of && (of > 0 ==> n >= 1)
    && (n as real > x - 0.5 || n == of) && (n as real <= x + 0.5 || n == 1 || of == 0)
  }

  /** What the shares become: the cold region has the rest, and takes one segment from the
      hot region, or else the log, if there is none and one of them can spare it. */
  ghost predicate Given(r: (nat, nat, nat), fwlog: nat, hot: nat, total: nat)
    requires fwlog + hot <= total
  {
    if fwlog + hot < total || total == 1 then r == (fwlog, hot, total - fwlog - hot)
    else if hot > 1 then r == (fwlog, hot - 1, 1)
    else if fwlog > 1 then r == (fwlog - 1, hot, 1)
    else r == (fwlog, hot, 0)
  }

  /** How many segments each region gets: the log its share but at least one, the hot region
      its share of the rest but at least one, the cold region what is left; an empty cold
      region takes a segment from a region that can spare one. The hot region ends up empty
      exactly when the log's share rounds to everything. */
  function Partition(total: nat, fwlogRatio: real, hotRatio: real): (r: (nat, nat, nat))
    requires total > 0 && fwlogRatio >= 0.0 && hotRatio >= 0.0
    ensures r.0 + r.1 + r.2 == total && r.0 >= 1
    ensures total >= 3 ==> r.2 >= 1 && (r.1 >= 1 <==> Round(PartOf(total, fwlogRatio)) < total)
  {
    var fwlog := InSegments(total, PartOf(total, fwlogRatio));
    var remaining := total - fwlog;
    Shared(total, fwlog, InSegments(remaining, PartOf(remaining, hotRatio)))
  }

  /** A ratio of so many segments. */
  function PartOf(n: nat, ratio: real): real { n as real * ratio }

  /** The cold region has what is left, or takes a segment from a region that can spare one. */
  function Shared(total: nat, fwlog: nat, hot: nat): (r: (nat, nat, nat))
    requires fwlog + hot <= total && fwlog >= 1 && (hot == 0 <==> fwlog == total)
    ensures Given(r, fwlog, hot, total)
    ensures r.0 + r.1 + r.2 == total && r.0 >= 1 && (total >= 3 ==> r.2 >= 1 && (r.1 >= 1 <==> fwlog < total))
  {
    var cold := total - fwlog - hot;
    if cold == 0 && total > 1 then
      if hot > 1 then (fwlog, hot - 1, 1)
      else if fwlog > 1 then (fwlog - 1, hot, 1)
      else (fwlog, hot, 0)
    else (fwlog, hot, cold)
  }

  function InSegments(of: nat, x: real): (n: nat)
    ensures n <= of && (n == 0 <==> of == 0) && (n == of || n == 1 || n == Round(x)) && (n == of > 1 ==> Round(x) >= of)
    ensures n < of ==> Round(x) <= n
  {
    if of > 0 then Min(Max(1, if Round(x) >= 0 then Round(x) else 0), of) else of
  }

  lemma ShareOf(of: nat, x: real)
    ensures Share(InSegments(of, x), of, x)
  {
    hide InSegments, Round;
  }

  lemma PartIs(n: nat, ratio: real)
    ensures PartOf(n, ratio) == n as real * ratio
  {}

  lemma KeyPut(m: map<nat, Loc>, key: nat, l: Loc)
    ensures (m - {key})[key := l].Keys == m.Keys + {key}
  {}

  /** The log and the hot region have their shares, before the cold region may take one. */
  lemma PartitionShares(total: nat, fwlogRatio: real, hotRatio: real)
    requires total > 0 && fwlogRatio >= 0.0 && hotRatio >= 0.0
    ensures forall n: nat, ratio: real :: PartOf(n, ratio) == n as real * ratio
    ensures exists fwlog: nat, hot: nat ::
              && fwlog <= total && Share(fwlog, total, PartOf(total, fwlogRatio))
              && Share(hot, total - fwlog, PartOf(total - fwlog, hotRatio))
              && Given(Partition(total, fwlogRatio, hotRatio), fwlog, hot, total)
  {
    hide Share, InSegments, Given, Shared, PartOf;
    var fwlog := InSegments(total, PartOf(total, fwlogRatio));
    var rest := total - fwlog;
    ShareOf(total, PartOf(total, fwlogRatio));
    ShareOf(rest, PartOf(rest, hotRatio));
    var hot := InSegments(rest, PartOf(rest, hotRatio));
    forall n: nat, ratio: real ensures PartOf(n, ratio) == n as real * ratio {
      PartIs(n, ratio);
    }
    assert Given(Partition(total, fwlogRatio, hotRatio), fwlog, hot, total);
  }

  /** The region segment x starts in. */
  function StartRegion(x: nat, fwlog: nat, hot: nat): Kind {
    if x < fwlog then FWLOG else if x < fwlog + hot then HOT else COLD
  }

  function Fresh(size: nat, total: nat, fwlog: nat, hot: nat): Tier
    requires fwlog + hot <= total
  {
    var cold := total - fwlog - hot;
    Tier(size,
         FreshSegments(total, size),
         map[],
         [RegionState(fwlog, seq(fwlog, i => i), [], None),
          RegionState(hot, seq(hot, i => fwlog + i), [], None),
          RegionState(cold, seq(cold, i => fwlog + hot + i), [], None)],
         seq(total, x requires 0 <= x < total => Free(StartRegion(x, fwlog, hot))),
         seq(total, x requires 0 <= x < total => StartRegion(x, fwlog, hot)),
         [0, 0, 0])
  }

  lemma FreshOk(size: nat, total: nat, fwlog: nat, hot: nat)
    requires size > 0 && fwlog + hot <= total
    ensures var t := Fresh(size, total, fwlog, hot);
            && TierOk(t, None) && SizesOk(t.regions, t.segRegion) && NoHands(t)
            && Held(t) == map[] && t.mapping == map[] && |t.segs| == total && t.size == size
  {
    hide PlacesOk, SegsOk, MapOk, StartRegion;
    var t := Fresh(size, total, fwlog, hot);
    FreshSegmentsOk(total, size);
    FreshPlaces(size, total, fwlog, hot);
    FreshSizes(t.segRegion, fwlog, hot, total);
    forall k: Kind ensures RegionValid(t.segs, t.segRegion, None, k, total) == 0 {
      FreshCounters(t, k, total);
    }
  }

  lemma {:induction false} FreshCounters(t: Tier, k: Kind, n: nat)
    requires n <= |t.segs| == |t.segRegion| && forall x :: 0 <= x < |t.segs| ==> t.segs[x].validCnt == 0
    ensures RegionValid(t.segs, t.segRegion, None, k, n) == 0
  {
    if n > 0 { FreshCounters(t, k, n - 1); }
  }

  lemma {:induction false} FreshSizes(segRegion: seq<Kind>, fwlog: nat, hot: nat, n: nat)
    requires n <= |segRegion| && forall x :: 0 <= x < |segRegion| ==> segRegion[x] == StartRegion(x, fwlog, hot)
    ensures RegionSize(segRegion, FWLOG, n) == Min(n, fwlog)
    ensures RegionSize(segRegion, HOT, n) == Min(n, fwlog + hot) - Min(n, fwlog)
    ensures RegionSize(segRegion, COLD, n) == n - Min(n, fwlog + hot)
  {
    if n > 0 { FreshSizes(segRegion, fwlog, hot, n - 1); }
  }

  lemma FreshPlaces(size: nat, total: nat, fwlog: nat, hot: nat)
    requires fwlog + hot <= total
    ensures var t := Fresh(size, total, fwlog, hot); PlacesOk(t.regions, t.place, t.segRegion)
  {
    var t := Fresh(size, total, fwlog, hot);
    FreshList(t.regions[FWLOG].free, t.place, FWLOG, 0, fwlog);
    FreshList(t.regions[HOT].free, t.place, HOT, fwlog, hot);
    FreshList(t.regions[COLD].free, t.place, COLD, fwlog + hot, total - fwlog - hot);
  }

  /** The n segments from `from` on make up a region's free list. */
  lemma FreshList(list: seq<nat>, place: seq<Place>, k: Kind, from: nat, n: nat)
    requires |list| == n && from + n <= |place| && forall i :: 0 <= i < n ==> list[i] == from + i
    requires forall x :: 0 <= x < |place| ==> place[x].Free? && (place[x].kind == k <==> from <= x < from + n)
    ensures Listed(list, place, Free(k)) && Listed([], place, Fifo(k)) && Only(None, place, Active(k))
  {
    forall x | 0 <= x < |place| && place[x] == Free(k) ensures x in list {
      assert list[x - from] == x;
    }
  }

  lemma DroppedKept(t: Tier, t': Tier, x: nat)
    requires InHandOf(t, COLD, x) && |t.regions| == 3 && |t'.segs| == |t.segs|
    requires t'.segs == t.segs[x := t'.segs[x]] && t'.place == t.place && t'.segRegion == t.segRegion
    requires t'.regions == t.regions && t'.size == t.size
    ensures HandKept(Some(x), t, t') && Colder(t, t', COLD) && InHandOf(t', COLD, x)
  {}

  lemma UncountedHeld(t: Tier, counters: seq<int>)
    ensures Held(t.(regionValid := counters)) == Held(t)
  {}

  lemma HeldKeys(t: Tier, except: Option<nat>)
    requires TierOk(t, except)
    ensures Held(t).Keys == t.mapping.Keys
  {
    CachedKeys(t.segs, t.mapping);
  }

  ghost predicate InHandOf(t: Tier, k: Kind, x: nat) {
    x < |t.segs| == |t.place| == |t.segRegion| && t.place[x] == InHand && t.segRegion[x] == k
  }

  /** A victim in hand has been dealt with and put down somewhere. */
  ghost predicate PutAway(t: Tier, t': Tier, k: Kind, x: nat) {
    HandKept(Some(x), t, t') && Colder(t, t', k) && x < |t'.place| && t'.place[x] != InHand
  }

  lemma PutAwayFacts(t: Tier, t': Tier, k: Kind, x: nat)
    requires PutAway(t, t', k, x)
    ensures Hotter(t, t', k) && HandKept(Some(x), t, t')
  {}

  /** The two ways a victim is put down. */
  lemma PutDownKept(t: Tier, k: Kind, x: nat)
    requires TierOk(t, None) && InHandOf(t, k, x)
    ensures var r := t.regions[k];
            var freed := WithRegion(t, k, r.(free := r.free + [x]), x, Free(k)).(segs := t.segs[x := Reset(t.segs[x])]);
            var front := WithRegion(t, k, r.(fifo := [x] + r.fifo), x, Fifo(k));
            && PutAway(t, freed, k, x) && freed.segRegion == t.segRegion
            && PutAway(t, front, k, x) && front.segRegion == t.segRegion
  {
    Dimensions(t, None);
    hide TierOk;
  }

  lemma SwapKept(t: Tier, t': Tier, k: Kind, x: nat, y: nat)
    requires k < COLD && InHandOf(t, k, x) && y < |t.segs| && t.place[y] == Free(k + 1) && t.segRegion[y] == k + 1
    requires |t.regions| == 3 && |t.regions[k + 1].free| > 0
    requires t'.size == t.size && t'.segs == t.segs[y := Reset(t.segs[y])]
    requires t'.place == t.place[y := InHand][y := Free(k)][x := Fifo(k + 1)]
    requires t'.segRegion == t.segRegion[y := k][x := k + 1]
    requires var r := t.regions[k + 1].(free := t.regions[k + 1].free[1..]);
             t'.regions == t.regions[k + 1 := r][k := t.regions[k].(free := t.regions[k].free + [y])]
                                    [k + 1 := r.(fifo := r.fifo + [x])]
    ensures PutAway(t, t', k, x)
    ensures SizesOk(t.regions, t.segRegion) ==> SizesOk(t'.regions, t'.segRegion)
  {
    hide Reset, RegionSize;
    if SizesOk(t.regions, t.segRegion) {
      SizesSwap(t.regions, t.segRegion, y, x);
      SizesSame(t.regions, t'.regions, t'.segRegion);
    }
  }

  /** After its blocks have been migrated the victim is still in hand. */
  lemma HandledVictim(t: Tier, t': Tier, k: Kind, x: nat)
    requires k < COLD && InHandOf(t, k, x) && Handled(t, t', x, k + 1)
    ensures InHandOf(t', k, x) && HandKept(Some(x), t, t') && Colder(t, t', k)
    ensures t'.regions[k] == t.regions[k] && FreeSame(t, t', k)
  {
    ColderWiden(t, t', k, k + 1);
  }

  lemma HandledColdVictim(t: Tier, t': Tier, x: nat)
    requires InHandOf(t, COLD, x) && Handled(t, t', x, COLD) && (NoSpace(t) ==> t' == t)
    ensures InHandOf(t', COLD, x) && HandKept(Some(x), t, t') && Colder(t, t', COLD)
    ensures t.regions[COLD].active.None? && t.regions[COLD].free == [] ==> t' == t
  {}

  lemma PutAwayAfter(t1: Tier, t2: Tier, t3: Tier, k: Kind, x: nat)
    requires HandKept(Some(x), t1, t2) && Colder(t1, t2, k) && PutAway(t2, t3, k, x)
    requires k == COLD ==> (t1.regions[k].active.None? && t1.regions[k].free == [] ==> t2.regions == t1.regions)
    ensures PutAway(t1, t3, k, x)
  {
    HandTransitive(Some(x), t1, t2, t3);
  }

  /** A victim taken and put away leaves no trace in anyone's hand. */
  lemma VictimReturned(t1: Tier, t2: Tier, t3: Tier, k: Kind, x: nat)
    requires HandKept(Some(x), t1, t2) && Colder(t1, t2, k) && PutAway(t2, t3, k, x)
    requires t2.regions[k].free == t1.regions[k].free && x < |t1.place| && t1.place[x] != InHand
    ensures HandKept(None, t1, t3) && Colder(t1, t3, k)
  {
    HandTransitive(Some(x), t1, t2, t3);
    HandReturned(x, t1, t3);
    ColderTransitive(t1, t2, t3, k);
  }

  /** A forced reclaim moves on to a colder region. */
  lemma ForcedStep(t1: Tier, t2: Tier, t3: Tier, k: Kind, j: Kind)
    requires HandKept(None, t1, t2) && Colder(t1, t2, k) && HandKept(None, t2, t3) && Colder(t2, t3, j)
    requires k < j || (k == j && t2 == t1)
    ensures HandKept(None, t1, t3) && Colder(t1, t3, k)
  {
    HandTransitive(None, t1, t2, t3);
    if k < j {
      ColderWiden(t2, t3, k, j);
      assert t3.regions[k] == t2.regions[k];
    }
  }

  /** The first free segment, opened, leaves hands and hotter regions alone. */
  lemma TakenAndOpened(t: Tier, k: Kind, ts: nat)
    requires TierOk(t, None) && t.regions[k].active.None? && t.regions[k].free != []
    ensures var x := t.regions[k].free[0];
            var r := t.regions[k].(free := t.regions[k].free[1..]);
            && x < |t.place| == |t.segs|
            && var held := WithRegion(t, k, r, x, InHand);
               var nowOpen := WithRegion(held, k, r.(active := Some(x)), x, Active(k)).(segs := t.segs[x := Reset(t.segs[x]).(createTs := ts)]);
               && held.regions[k] == r && held.segs == t.segs && held.segRegion == t.segRegion && held.place[x] == InHand
               && HandKept(None, t, nowOpen) && Hotter(t, nowOpen, k) && nowOpen.segRegion == t.segRegion
               && nowOpen.place[x] == Active(k) && FreshlyOpen(nowOpen, k, x)
               && nowOpen.regions == t.regions[k := r.(active := Some(x))]
  {
    hide TierOk;
    Dimensions(t, None);
    StepTakeFree(t, k);
  }

  /** The next colder region has a free segment to give. */
  ghost predicate CanTrade(t: Tier, k: Kind) {
    k < COLD && |t.regions| == 3 && t.regions[k + 1].free != []
  }

  /** The region's active segment has room. */
  ghost predicate HasRoom(t: Tier, k: Kind) {
    |t.regions| == 3 && t.regions[k].active.Some? && t.regions[k].active.value < |t.segs|
    && t.segs[t.regions[k].active.value].writePtr < t.size
  }

  /** A region whose active segment has room returns it ... */
  lemma RoomHere(t: Tier, k: Kind, force: bool)
    requires HasRoom(t, k)
    ensures Room(t, k) > 0 && Fits(t, k, 1, force)
  {}

  /** ... and otherwise opens one, once a full one is out of the way. */
  lemma EnsureRoom(t: Tier, t': Tier, k: Kind)
    requires t' == t || Retired(t, t', k)
    requires !HasRoom(t, k)
    ensures Room(t, k) == 0
    ensures forall force :: Fits(t, k, 1, force) <==> Opens(t', k, force)
  {
    forall force ensures Fits(t, k, 1, force) <==> Opens(t', k, force) {
      if t' != t { RetiredOpens(t, t', k, force); }
    }
  }

  /** Segment x is first in region k's queue, and holds something. */
  ghost predicate FrontOf(t: Tier, k: Kind, x: nat) {
    |t.regions| == 3 && t.regions[k].fifo != [] && t.regions[k].fifo[0] == x && x < |t.segs| && t.segs[x].validCnt > 0
  }

  /** What a failed reclaim leaves: its victim is next in line again; and if that was the
      active segment, none is active. */
  ghost predicate LeftStuck(t: Tier, t': Tier, k: Kind) {
    && |t.regions| == 3 == |t'.regions|
    && (NextVictim(t, k).Some? ==> FrontOf(t', k, NextVictim(t, k).value))
    && (NextVictim(t, k).Some? && t.regions[k].fifo == [] && k < COLD ==> t'.regions[k].active.None?)
    && (NextVictim(t, k).None? ==> t'.regions == t.regions)
  }

  lemma Stuckness(t: Tier, m: Tier, t': Tier, k: Kind)
    requires |t.regions| == 3 == |t'.regions| && NextVictim(t, k).Some? && m.regions == Popped(t, k).regions
    requires FrontOf(t', k, NextVictim(t, k).value) && Colder(m, t', k)
    ensures LeftStuck(t, t', k)
  {}

  ghost predicate FreeSame(t: Tier, t': Tier, k: Kind) {
    |t.regions| == 3 == |t'.regions| && t'.regions[k].free == t.regions[k].free
  }

  lemma SameFree(t: Tier, k: Kind)
    ensures |t.regions| == 3 ==> FreeSame(t, t, k)
  {}

  lemma FreeSameTransitive(t1: Tier, t2: Tier, t3: Tier, k: Kind)
    requires FreeSame(t1, t2, k) && FreeSame(t2, t3, k)
    ensures FreeSame(t1, t3, k)
  {}

  /** Taking a victim does not change whether its blocks can be got rid of. */
  lemma VictimFits(t: Tier, t': Tier, k: Kind)
    requires |t.regions| == 3 && NextVictim(t, k).Some? && NextVictim(t, k).value < |t.segs|
    requires t'.segs == t.segs && t'.size == t.size && t'.regions == Popped(t, k).regions
    ensures var v := t.segs[NextVictim(t, k).value].validCnt;
            Reclaims(t, k) <==> Disposable(t', k, v) || (k == COLD && Fits(t', COLD, v, false))
    ensures FreeSame(t, t', k) && (k == COLD && NoSpace(t) ==> NoSpace(t'))
  {
    var v := t.segs[NextVictim(t, k).value].validCnt;
    if k < COLD {
      FitsSame(t, t', k + 1);
    } else {
      FitsSame(Popped(t, COLD), t', COLD);
    }
  }

  /** Reclaiming from the region now takes no key out of the cache: its next victim's blocks
      fit in the next region without forcing a reclaim there, or in the coldest region the
      victim is not fully valid. */
  ghost predicate StaysCached(t: Tier, k: Kind) {
    && |t.regions| == 3
    && (NextVictim(t, k).Some? && NextVictim(t, k).value < |t.segs| ==>
          var v := t.segs[NextVictim(t, k).value].validCnt;
          if k == COLD then v != t.size else Fits(t, k + 1, v, false))
  }

  lemma VictimStays(t: Tier, t': Tier, k: Kind)
    requires |t.regions| == 3 && NextVictim(t, k).Some? && NextVictim(t, k).value < |t.segs|
    requires t'.segs == t.segs && t'.size == t.size && t'.regions == Popped(t, k).regions
    ensures var v := t.segs[NextVictim(t, k).value].validCnt;
            StaysCached(t, k) ==> if k == COLD then v != t.size else Fits(t', k + 1, v, false)
  {
    if k < COLD { FitsSame(t, t', k + 1); }
  }

  /** Whether region k has been asked for a segment, and with which result. */
  ghost predicate Settled(t: Tier, t': Tier, k: Kind) {
    Closed(t, k) ==> |t'.regions| == 3 && (t'.regions[k].free != [] <==> Opens(t, k, true))
  }

  /** The region itself is asked, from the state it was wanted in. */
  lemma Asked(t: Tier, t': Tier, k: Kind, ok: bool)
    requires ok <==> Reclaims(t, k)
    requires ok ==> |t'.regions| == 3 && t'.regions[k].free != []
    requires !ok && Closed(t, k) ==> FreeSame(t, t', k)
    ensures Settled(t, t', k) && (Closed(t, k) ==> (ok <==> Opens(t, k, true)))
  {
    if Closed(t, k) { ReclaimsWhenClosed(t, k); }
  }

  /** A colder region is asked next, or the region itself if that is the first. */
  lemma AskedNext(t: Tier, s: Tier, s': Tier, k: Kind, j: Kind, ok: bool)
    requires k <= j && (ok <==> Reclaims(s, j)) && Colder(s, s', j)
    requires ok ==> |s'.regions| == 3 && s'.regions[j].free != []
    requires !ok && Closed(s, j) ==> FreeSame(s, s', j)
    requires if k == j then s == t else Settled(t, s, k)
    ensures Settled(t, s', k) && (k == j && Closed(t, k) ==> (ok <==> Opens(t, k, true)))
  {
    if k == j { Asked(t, s', k, ok); }
  }

  lemma ClosedCold(t: Tier)
    ensures Closed(t, COLD) <==> NoSpace(t)
  {}

  lemma DisposableFacts(t: Tier, k: Kind, v: nat)
    requires k < COLD
    ensures v == 0 ==> Disposable(t, k, v)
    ensures v != 0 ==> (Disposable(t, k, v) <==> Fits(t, k + 1, v, true))
    ensures CanTrade(t, k) ==> Disposable(t, k, v)
  {
    assert CanTrade(t, k) ==> Opens(t, k + 1, true);
  }

  lemma NoVictimSame(t: Tier, t': Tier, k: Kind)
    requires |t.regions| == 3 && NextVictim(t, k).None? && t'.regions == t.regions
    ensures !Reclaims(t, k) && FreeSame(t, t', k) && LeftStuck(t, t', k)
  {}

  /** Nothing active and nothing free. */
  ghost predicate Closed(t: Tier, k: Kind) {
    |t.regions| == 3 && t.regions[k].active.None? && t.regions[k].free == []
  }

  /** What the migration of a block needs and what it leaves alone. */
  ghost predicate Movable(t: Tier, src: nat, idx: nat, y: nat) {
    && src < |t.segs| == |t.segRegion| == |t.place| && y < |t.segs| && y != src && idx < |t.segs[src].blocks|
    && |t.regionValid| == 3 == |t.regions|
    && t.segs[y].writePtr < |t.segs[y].blocks| && t.segs[src].validCnt > 0 && t.place[y] != InHand
  }

  lemma MigratedKept(t: Tier, src: nat, idx: nat, y: nat)
    requires Movable(t, src, idx, y) && t.place[src] == InHand && |t.segs[src].blocks| == t.size
    ensures var t' := Migrated(t, src, idx, y);
            && (forall k: Kind :: Handled(t, t', src, k))
            && t'.regions == t.regions && t'.place == t.place && t'.segRegion == t.segRegion && t'.size == t.size
            && src < |t'.segs| && t'.segs[src].blocks == Unset(t.segs[src], idx).blocks && t'.segs[src].validCnt == t.segs[src].validCnt - 1
    ensures t.place[y].Active? ==> LandedIn(Migrated(t, src, idx, y), t.segs[src].blocks[idx].key, t.place[y].kind)
  {
    HandChanged(t, Migrated(t, src, idx, y), src, y);
  }

  lemma Untouched(t: Tier, src: nat, k: Kind)
    requires |t.place| == |t.segs| == |t.segRegion| && |t.regions| == 3
    ensures HandKept(Some(src), t, t) && HandKept(None, t, t) && Hotter(t, t, k) && Colder(t, t, k)
    ensures src < |t.segs| && t.place[src] == InHand && |t.segs[src].blocks| == t.size ==> Handled(t, t, src, k)
  {}

  /** The key's block is in the active segment of region k. */
  ghost predicate LandedIn(t: Tier, key: nat, k: Kind) {
    key in t.mapping && t.mapping[key].seg < |t.place| && t.place[t.mapping[key].seg] == Active(k)
  }

  /** Work on a segment in hand and on regions from k on. */
  ghost predicate Handled(t: Tier, t': Tier, src: nat, k: Kind) {
    && HandKept(Some(src), t, t') && Hotter(t, t', k)
    && src < |t.segs| && t.place[src] == InHand == t'.place[src] && t'.segRegion[src] == t.segRegion[src]
    && |t.segs[src].blocks| == |t'.segs[src].blocks| == t.size
  }

  lemma HandledFacts(t: Tier, t': Tier, src: nat, k: Kind)
    requires Handled(t, t', src, k)
    ensures HandKept(Some(src), t, t') && Hotter(t, t', k)
    ensures src < |t'.segs| == |t'.place| == |t'.segRegion| && src < |t.segRegion| && t'.place[src] == InHand
    ensures t'.segRegion[src] == t.segRegion[src] && |t'.segs[src].blocks| == t'.size == t.size
  {}

  lemma HandledTransitive(t1: Tier, t2: Tier, t3: Tier, src: nat, k: Kind)
    requires Handled(t1, t2, src, k) && Handled(t2, t3, src, k)
    ensures Handled(t1, t3, src, k)
  {
    HandTransitive(Some(src), t1, t2, t3);
  }

  /** What a nested reclaim does while src is in hand. */
  lemma HandledNested(t: Tier, t': Tier, src: nat, k: Kind)
    requires HandKept(None, t, t') && Hotter(t, t', k)
    requires src < |t.segs| && t.place[src] == InHand && |t.segs[src].blocks| == t.size
    ensures Handled(t, t', src, k) && src < |t'.segs| && t'.segs[src] == t.segs[src]
    ensures src < |t'.place| && t'.place[src] == InHand
  {
    HandWeaken(src, t, t');
  }

  /** The first n blocks of a segment hold nothing valid. */
  ghost predicate ClearedTo(s: Segment, n: nat) {
    n <= |s.blocks| && forall j :: 0 <= j < n ==> !s.blocks[j].valid
  }

  lemma ClearedStart(s: Segment)
    ensures ClearedTo(s, 0)
  {}

  lemma ClearedStep(s: Segment, i: nat)
    requires i < |s.blocks| && ClearedTo(s, i)
    ensures !s.blocks[i].valid ==> ClearedTo(s, i + 1)
    ensures forall s': Segment :: s'.blocks == Unset(s, i).blocks ==> ClearedTo(s', i + 1)
  {}

  /** The keys of a segment's valid blocks among its first n. */
  ghost function KeysIn(s: Segment, n: nat): set<nat>
    requires n <= |s.blocks|
  {
    set i | 0 <= i < n && s.blocks[i].valid :: s.blocks[i].key
  }

  /** From block i on the segment is as it was. */
  ghost predicate RestOf(s: Segment, was: Segment, i: nat) {
    |s.blocks| == |was.blocks| && forall j :: i <= j < |s.blocks| ==> s.blocks[j] == was.blocks[j]
  }

  /** Only segment x has been put somewhere else. */
  ghost predicate Elsewhere(t: Tier, t': Tier, x: nat) {
    && t'.mapping == t.mapping && |t'.place| == |t.place| && x < |t.place| && t.place[x] == InHand
    && forall y :: 0 <= y < |t.place| && y != x ==> t'.place[y] == t.place[y]
  }

  lemma LandedPut(s: Segment, n: nat, t: Tier, t': Tier, k: Kind, x: nat)
    requires Elsewhere(t, t', x)
    ensures SomeLanded(s, n, t, k) ==> SomeLanded(s, n, t', k)
  {
    if SomeLanded(s, n, t, k) {
      var j :| 0 <= j < n && s.blocks[j].valid && LandedIn(t, s.blocks[j].key, k);
      assert LandedIn(t', s.blocks[j].key, k);
    }
  }

  lemma RestNext(s: Segment, was: Segment, i: nat)
    requires i < |s.blocks| && RestOf(s, was, i)
    ensures i < |was.blocks| && s.blocks[i] == was.blocks[i] && RestOf(s, was, i + 1)
    ensures forall s': Segment :: s'.blocks == Unset(s, i).blocks ==> RestOf(s', was, i + 1)
  {}

  /** One of the segment's first n valid blocks is in the active segment of region k. */
  ghost predicate SomeLanded(s: Segment, n: nat, t: Tier, k: Kind) {
    n <= |s.blocks| && exists j :: 0 <= j < n && s.blocks[j].valid && LandedIn(t, s.blocks[j].key, k)
  }

  ghost predicate AnyLanded(s: Segment, n: nat, t: Tier, k: Kind) {
    n <= |s.blocks| && ((forall j :: 0 <= j < n ==> !s.blocks[j].valid) || SomeLanded(s, n, t, k))
  }

  lemma LandedNext(s: Segment, i: nat, t: Tier, t': Tier, k: Kind)
    requires i < |s.blocks| && AnyLanded(s, i, t, k)
    requires s.blocks[i].valid ==> LandedIn(t', s.blocks[i].key, k)
    requires !s.blocks[i].valid ==> t' == t
    ensures AnyLanded(s, i + 1, t', k)
  {
    hide LandedIn;
  }

  lemma LandedAll(s: Segment, n: nat, t: Tier, k: Kind)
    requires n <= |s.blocks| && s.validCnt == CountValid(s.blocks, n) && AnyLanded(s, n, t, k)
    ensures s.validCnt > 0 ==> SomeLanded(s, n, t, k)
  {
    hide SomeLanded;
    CountValidZero(s.blocks, n);
  }

  lemma DropStart(s: Segment)
    ensures RestOf(s, s, 0) && KeysIn(s, 0) == {}
  {}

  lemma DropStep(s: Segment, was: Segment, i: nat)
    requires i < |s.blocks| && RestOf(s, was, i)
    ensures s.blocks[i] == was.blocks[i] && RestOf(s, was, i + 1) && RestOf(Unset(s, i), was, i + 1)
    ensures KeysIn(was, i + 1) == KeysIn(was, i) + if s.blocks[i].valid then {s.blocks[i].key} else {}
    ensures CountValid(was.blocks, i + 1) == CountValid(was.blocks, i) + Bit(s.blocks[i].valid)
  {}

  lemma AllMoved(t: Tier, x: nat)
    requires TierOk(t, None) && x < |t.segs| && forall j :: 0 <= j < t.size && j < |t.segs[x].blocks| ==> !t.segs[x].blocks[j].valid
    ensures t.segs[x].validCnt == 0
  {
    SegmentAt(t, None, x);
    CountValidZero(t.segs[x].blocks, t.size);
  }

  /** The active segment, retired in either of the two ways, leaves hands and hotter regions alone. */
  lemma TakenAndPut(t: Tier, k: Kind)
    requires TierOk(t, None) && t.regions[k].active.Some?
    ensures var x := t.regions[k].active.value;
            var r := t.regions[k].(active := None);
            && x < |t.place| == |t.segs|
            && var held := WithRegion(t, k, r, x, InHand);
               var freed := WithRegion(held, k, r.(free := r.free + [x]), x, Free(k)).(segs := t.segs[x := Reset(t.segs[x])]);
               var queued := WithRegion(held, k, r.(fifo := r.fifo + [x]), x, Fifo(k));
               && held.regions[k] == r && held.segs == t.segs && held.segRegion == t.segRegion
               && HandKept(None, t, freed) && Colder(t, freed, k) && freed.regions[k] == r.(free := r.free + [x])
               && freed.segRegion == t.segRegion
               && HandKept(None, t, queued) && Colder(t, queued, k) && queued.regions[k] == r.(fifo := r.fifo + [x])
               && queued.segRegion == t.segRegion
               && (t.segs[x].validCnt == 0 ==> Retired(t, freed, k)) && (t.segs[x].validCnt > 0 ==> Retired(t, queued, k))
  {
    hide TierOk;
    Dimensions(t, None);
    ActiveSegment(t, k);
  }

  /** Moving a segment about changes nothing that is held. */
  lemma SameHeld(t: Tier, k: Kind, r: RegionState, x: nat, q: Place)
    requires |t.regions| == 3 && x < |t.place|
    ensures Held(WithRegion(t, k, r, x, q)) == Held(t)
  {}
}
