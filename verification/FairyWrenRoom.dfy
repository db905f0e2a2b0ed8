/** When a region of FairyWren can take more blocks, and when reclaiming from one succeeds.
    A migrated segment needs at most one fresh segment in the next colder region, and that
    one, if none is free, comes from that region's own next victim: the question goes from
    region to colder region, and the coldest one answers it. */
module FairyWrenRoom {
  import opened Counting
  import opened LogSegments
  import opened FairyWrenState

  /** Blocks the region's active segment can still take. */
  ghost function Room(t: Tier, k: Kind): nat {
    if |t.regions| == 3 && t.regions[k].active.Some? && t.regions[k].active.value < |t.segs|
       && t.segs[t.regions[k].active.value].writePtr < t.size
    then t.size - t.segs[t.regions[k].active.value].writePtr else 0
  }

  /** The active segment is full and none of its blocks is valid: retiring it frees it. */
  ghost predicate RetiresEmpty(t: Tier, k: Kind) {
    |t.regions| == 3 && t.regions[k].active.Some? && t.regions[k].active.value < |t.segs|
    && t.segs[t.regions[k].active.value].writePtr >= t.size && t.segs[t.regions[k].active.value].validCnt == 0
  }

  /** The valid blocks of the segment to be reclaimed next once the active one is filled up:
      the oldest queued one, or else the active one itself. */
  ghost function NextValid(t: Tier, k: Kind): Option<nat> {
    if |t.regions| != 3 then None
    else if t.regions[k].fifo != [] && t.regions[k].fifo[0] < |t.segs| then Some(t.segs[t.regions[k].fifo[0]].validCnt)
    else if t.regions[k].fifo == [] && t.regions[k].active.Some? && t.regions[k].active.value < |t.segs|
      then Some(t.segs[t.regions[k].active.value].validCnt + Room(t, k))
    else None
  }

  /** v valid blocks of a victim can be got rid of: there are none, or the next colder region
      takes them, or the coldest region writes a fully valid segment out. */
  ghost predicate Disposable(t: Tier, k: Kind, v: nat)
    decreases 2 - k, 1
  {
    v == 0 || if k == COLD then v == t.size else Fits(t, k + 1, v, true)
  }

  /** A fresh segment can be had for the region, if allowed by reclaiming one. */
  ghost predicate Opens(t: Tier, k: Kind, force: bool)
    decreases 2 - k, 2
  {
    && |t.regions| == 3
    && (t.regions[k].free != [] || RetiresEmpty(t, k) || (force && NextValid(t, k).Some? && Disposable(t, k, NextValid(t, k).value)))
  }

  /** The region can take m blocks, at most a segment's worth. */
  ghost predicate Fits(t: Tier, k: Kind, m: nat, force: bool)
    decreases 2 - k, 3
  {
    m <= Room(t, k) || Opens(t, k, force)
  }

  /** The segments the answer depends on, for one region. */
  ghost predicate SameRegion(t: Tier, t': Tier, k: Kind) {
    && |t.regions| == 3 == |t'.regions| && t'.regions[k] == t.regions[k] && t'.size == t.size && |t'.segs| == |t.segs|
    && (t.regions[k].active.Some? && t.regions[k].active.value < |t.segs| ==>
          t'.segs[t.regions[k].active.value] == t.segs[t.regions[k].active.value])
    && (t.regions[k].fifo != [] && t.regions[k].fifo[0] < |t.segs| ==>
          t'.segs[t.regions[k].fifo[0]] == t.segs[t.regions[k].fifo[0]])
  }

  lemma {:induction false} FitsSame(t: Tier, t': Tier, k: Kind)
    requires forall j: Kind :: k <= j ==> SameRegion(t, t', j)
    ensures Room(t', k) == Room(t, k) && NextValid(t', k) == NextValid(t, k) && (RetiresEmpty(t', k) <==> RetiresEmpty(t, k))
    ensures forall v: nat :: Disposable(t', k, v) <==> Disposable(t, k, v)
    ensures forall force :: Opens(t', k, force) <==> Opens(t, k, force)
    ensures forall m: nat, force :: Fits(t', k, m, force) <==> Fits(t, k, m, force)
    decreases 2 - k
  {
    assert SameRegion(t, t', k);
    if k < COLD { FitsSame(t, t', k + 1); }
    forall v: nat ensures Disposable(t', k, v) <==> Disposable(t, k, v) {}
    forall force ensures Opens(t', k, force) <==> Opens(t, k, force) {
      if NextValid(t, k).Some? { assert Disposable(t', k, NextValid(t, k).value) <==> Disposable(t, k, NextValid(t, k).value); }
    }
  }

  /** One more block in the region's active segment uses up one block of room and nothing else. */
  lemma FitsAfterOne(t: Tier, t': Tier, k: Kind, force: bool)
    requires |t.regions| == 3 && t'.regions == t.regions && t'.size == t.size && |t'.segs| == |t.segs|
    requires Room(t, k) > 0
    requires var y := t.regions[k].active.value;
             && t'.segs[y].writePtr == t.segs[y].writePtr + 1 && t'.segs[y].validCnt == t.segs[y].validCnt + 1
    requires t.regions[k].fifo != [] && t.regions[k].fifo[0] < |t.segs| ==> t'.segs[t.regions[k].fifo[0]] == t.segs[t.regions[k].fifo[0]]
    requires forall j: Kind :: k < j ==> SameRegion(t, t', j)
    ensures forall v: nat :: 1 <= v ==> (Fits(t', k, v - 1, force) <==> Fits(t, k, v, force))
  {
    if k < COLD { FitsSame(t, t', k + 1); }
    assert NextValid(t', k) == NextValid(t, k);
  }

  /** What a region's record becomes when its next victim is taken. */
  ghost function Popped(t: Tier, k: Kind): Tier
    requires |t.regions| == 3
  {
    var r := t.regions[k];
    t.(regions := t.regions[k := if r.fifo != [] then r.(fifo := r.fifo[1..]) else r.(active := None)])
  }

  /** The oldest queued segment, or else the active one if it holds anything. */
  ghost function NextVictim(t: Tier, k: Kind): Option<nat>
    requires |t.regions| == 3
  {
    if t.regions[k].fifo != [] then Some(t.regions[k].fifo[0])
    else if t.regions[k].active.Some? && t.regions[k].active.value < |t.segs| && t.segs[t.regions[k].active.value].validCnt > 0
      then t.regions[k].active
    else None
  }

  /** Reclaiming from a region now would succeed. */
  ghost predicate Reclaims(t: Tier, k: Kind) {
    && |t.regions| == 3 && NextVictim(t, k).Some? && NextVictim(t, k).value < |t.segs|
    && var v := t.segs[NextVictim(t, k).value].validCnt;
       Disposable(t, k, v) || (k == COLD && Fits(Popped(t, COLD), COLD, v, false))
  }

  /** Where a segment is wanted: nothing active, nothing free. */
  lemma ReclaimsWhenClosed(t: Tier, k: Kind)
    requires |t.regions| == 3 && t.regions[k].active.None? && t.regions[k].free == []
    ensures Reclaims(t, k) <==> Opens(t, k, true)
  {}

  /** Region k's active segment has been retired: freed if nothing in it is valid, and
      queued otherwise. */
  ghost predicate Retired(t: Tier, t': Tier, k: Kind) {
    && |t.regions| == 3 == |t'.regions| && t'.regions == t.regions[k := t'.regions[k]] && t'.size == t.size && |t'.segs| == |t.segs|
    && t.regions[k].active.Some? && t.regions[k].active.value < |t.segs| && t'.regions[k].active.None?
    && if t.segs[t.regions[k].active.value].validCnt == 0 then t'.regions[k].free != []
       else t'.segs == t.segs &&
            t'.regions[k] == t.regions[k].(active := None, fifo := t.regions[k].fifo + [t.regions[k].active.value])
  }

  /** Retiring a full segment makes a fresh one no harder and no easier to get. */
  lemma RetiredOpens(t: Tier, t': Tier, k: Kind, force: bool)
    requires Retired(t, t', k) && Room(t, k) == 0
    ensures Opens(t', k, force) <==> Opens(t, k, force)
  {
    if t.segs[t.regions[k].active.value].validCnt > 0 {
      assert NextValid(t', k) == NextValid(t, k);
      if k < COLD { FitsSame(t, t', k + 1); }
      if NextValid(t, k).Some? {
        var v := NextValid(t, k).value;
        assert Disposable(t', k, v) <==> Disposable(t, k, v);
      }
    }
  }

  /** Seg is the region's active segment and nothing has been written to it. */
  ghost predicate FreshlyOpen(t: Tier, k: Kind, seg: nat) {
    |t.regions| == 3 && t.regions[k].active == Some(seg) && Room(t, k) == t.size
  }

  /** After one block has gone to region k, it fits one block less than before. */
  ghost predicate Advanced(t: Tier, t': Tier, k: Kind, force: bool) {
    forall v: nat :: 1 <= v <= t.size ==> (Fits(t', k, v - 1, force) <==> Fits(t, k, v, force))
  }

  /** Segments in hand and other regions' active segments are no part of what a region needs. */
  lemma OtherRegions(t: Tier, t': Tier, k: Kind, x: nat, y: nat)
    requires TierOk(t, None) && |t'.segs| == |t.segs| && t'.regions == t.regions && t'.size == t.size
    requires x < |t.segs| && t.place[x] == InHand && t.regions[k].active == Some(y) && y < |t.segs|
    requires forall z :: 0 <= z < |t.segs| && z != x && z != y ==> t'.segs[z] == t.segs[z]
    ensures forall j: Kind :: k < j ==> SameRegion(t, t', j)
    ensures t.regions[k].fifo != [] && t.regions[k].fifo[0] < |t.segs| ==> t'.segs[t.regions[k].fifo[0]] == t.segs[t.regions[k].fifo[0]]
    ensures x != y
  {
    hide TierOk, SameRegion;
    OwnFront(t, k, x, y);
    forall j: Kind | k < j ensures SameRegion(t, t', j) {
      OtherRegion(t, t', k, x, y, j);
    }
  }

  lemma OwnFront(t: Tier, k: Kind, x: nat, y: nat)
    requires TierOk(t, None) && x < |t.segs| && t.place[x] == InHand && t.regions[k].active == Some(y)
    ensures |t.regions| == 3 && x != y
    ensures t.regions[k].fifo != [] ==> t.regions[k].fifo[0] != x && t.regions[k].fifo[0] != y
  {
    AtRegion(t.regions, t.place, t.segRegion, k);
    hide PlacesOk, SegsOk, MapOk, ValidCountsOk;
  }

  lemma OtherRegion(t: Tier, t': Tier, k: Kind, x: nat, y: nat, j: Kind)
    requires TierOk(t, None) && |t'.segs| == |t.segs| && t'.regions == t.regions && t'.size == t.size && j != k
    requires x < |t.segs| && t.place[x] == InHand && t.regions[k].active == Some(y) && y < |t.segs|
    requires forall z :: 0 <= z < |t.segs| && z != x && z != y ==> t'.segs[z] == t.segs[z]
    ensures SameRegion(t, t', j)
  {
    AtRegion(t.regions, t.place, t.segRegion, k);
    AtRegion(t.regions, t.place, t.segRegion, j);
    hide PlacesOk, SegsOk, MapOk, ValidCountsOk;
  }

  /** One migration, after the destination has been made ready: m is the state in between. */
  lemma AdvanceStep(t: Tier, m: Tier, src: nat, idx: nat, y: nat, k: Kind, force: bool)
    requires TierOk(m, None) && m.size == t.size && src < |m.segs| && m.place[src] == InHand && idx < |m.segs[src].blocks|
    requires y < |m.segs| && y != src && m.segs[y].writePtr < |m.segs[y].blocks| && m.segs[src].validCnt > 0
    requires m.regions[k].active == Some(y)
    requires Room(t, k) > 0 ==> m == t
    requires Room(t, k) == 0 ==> FreshlyOpen(m, k, y) && Fits(t, k, 1, force)
    ensures |m.segRegion| == |m.segs| && |m.regionValid| == 3 && Advanced(t, Migrated(m, src, idx, y), k, force)
  {
    Dimensions(m, None);
    var t' := Migrated(m, src, idx, y);
    OtherRegions(m, t', k, src, y);
    hide TierOk;
    if Room(t, k) > 0 {
      FitsAfterOne(t, t', k, force);
    } else {
      assert Room(t', k) == t.size - 1;
    }
  }

  lemma AdvanceAt(t: Tier, t': Tier, k: Kind, v: nat, force: bool)
    requires Advanced(t, t', k, force) && 1 <= v <= t.size
    ensures Fits(t', k, v - 1, force) <==> Fits(t, k, v, force)
  {}

  /** What is left of a victim fits now exactly if all of it fitted before. */
  ghost predicate OnTrack(before: Tier, t: Tier, src: nat, k: Kind, force: bool) {
    && src < |before.segs| && src < |t.segs| && before.size == t.size
    && (Fits(t, k, t.segs[src].validCnt, force) <==> Fits(before, k, before.segs[src].validCnt, force))
  }

  lemma TrackBounds(before: Tier, t: Tier, src: nat, k: Kind, force: bool)
    requires OnTrack(before, t, src, k, force)
    ensures src < |before.segs| && src < |t.segs| && before.size == t.size
  {}

  lemma TrackStep(before: Tier, t: Tier, t': Tier, src: nat, k: Kind, force: bool)
    requires OnTrack(before, t, src, k, force) && Advanced(t, t', k, force) && t'.size == t.size
    requires src < |t'.segs| && 1 <= t.segs[src].validCnt <= t.size && t'.segs[src].validCnt == t.segs[src].validCnt - 1
    ensures OnTrack(before, t', src, k, force)
  {
    hide Fits;
    AdvanceAt(t, t', k, t.segs[src].validCnt, force);
  }

  lemma TrackLost(before: Tier, t: Tier, src: nat, k: Kind, force: bool)
    requires OnTrack(before, t, src, k, force) && !Fits(t, k, 1, force) && t.segs[src].validCnt >= 1
    ensures !Fits(before, k, before.segs[src].validCnt, force)
  {}

  lemma TrackDone(before: Tier, t: Tier, src: nat, k: Kind, force: bool)
    requires OnTrack(before, t, src, k, force) && t.segs[src].validCnt == 0
    ensures Fits(before, k, before.segs[src].validCnt, force)
  {}

  /** All of a victim fits without forcing a reclaim. */
  ghost predicate EasyStart(before: Tier, src: nat, k: Kind) {
    src < |before.segs| && Fits(before, k, before.segs[src].validCnt, false)
  }

  /** What is left of it still does. */
  ghost predicate EasyTrack(before: Tier, t: Tier, src: nat, k: Kind) {
    EasyStart(before, src, k) ==> EasyStart(t, src, k)
  }

  lemma EasyNext(before: Tier, t: Tier, src: nat, k: Kind)
    requires EasyTrack(before, t, src, k) && src < |t.segs| && t.segs[src].validCnt >= 1
    ensures EasyStart(before, src, k) ==> Fits(t, k, 1, false)
  {}

  lemma EasyStep(before: Tier, t: Tier, t': Tier, src: nat, k: Kind)
    requires EasyTrack(before, t, src, k) && Advanced(t, t', k, false) && t'.size == t.size
    requires src < |t.segs| && src < |t'.segs| && 1 <= t.segs[src].validCnt <= t.size && t'.segs[src].validCnt == t.segs[src].validCnt - 1
    ensures EasyTrack(before, t', src, k)
  {
    hide Fits;
    AdvanceAt(t, t', k, t.segs[src].validCnt, false);
  }

  lemma EasyNot(before: Tier, t: Tier, src: nat, k: Kind)
    requires !EasyStart(before, src, k)
    ensures EasyTrack(before, t, src, k)
  {}
}
