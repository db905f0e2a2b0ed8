/** Where FairyWren's segments are and how they are counted, as values. */
module FairyWrenState {
  import opened Counting
  import opened LogSegments
  import opened Places

  /** Region kinds in the source's order: each is colder than the one before. */
  type Kind = k: nat | k < 3
  const FWLOG: Kind := 0
  const HOT: Kind := 1
  const COLD: Kind := 2

  datatype RegionState = RegionState(totalSegments: nat, free: seq<nat>, fifo: seq<nat>, active: Option<nat>)

  /** The one place a segment is in. A segment is in hand while a reclaim works on it. */
  datatype Place = Free(kind: Kind) | Fifo(kind: Kind) | Active(kind: Kind) | InHand

  ghost predicate RegionOk(r: RegionState, place: seq<Place>, k: Kind) {
    Listed(r.free, place, Free(k)) && Listed(r.fifo, place, Fifo(k)) && Only(r.active, place, Active(k))
  }

  /** Every segment is in exactly one free list, FIFO, active slot or hand, and unless in
      hand in the region it is assigned to. */
  ghost predicate PlacesOk(regions: seq<RegionState>, place: seq<Place>, segRegion: seq<Kind>) {
    && |regions| == 3 && |segRegion| == |place|
    && RegionOk(regions[FWLOG], place, FWLOG) && RegionOk(regions[HOT], place, HOT) && RegionOk(regions[COLD], place, COLD)
    && (forall x :: 0 <= x < |place| && place[x] != InHand ==> segRegion[x] == place[x].kind)
  }

  /** A region is untouched by a move between two places outside it. */
  lemma RegionOther(r: RegionState, place: seq<Place>, k: Kind, x: nat, q: Place)
    requires RegionOk(r, place, k) && x < |place|
    requires place[x] == InHand || place[x].kind != k
    requires q == InHand || q.kind != k
    ensures RegionOk(r, place[x := q], k)
  {
    hide Listed, Only;
    ListedOther(r.free, place, x, Free(k), q);
    ListedOther(r.fifo, place, x, Fifo(k), q);
    OnlyOther(r.active, place, x, Active(k), q);
  }

  /** Moving one segment between hand and a place of region k changes only that region's
      record, and the assignment of the segment if it is put down. */
  lemma PlacesMove(regions: seq<RegionState>, place: seq<Place>, segRegion: seq<Kind>, k: Kind, r: RegionState,
                   x: nat, q: Place)
    requires PlacesOk(regions, place, segRegion) && x < |place|
    requires place[x] == InHand || q == InHand
    requires place[x] == InHand || place[x].kind == k
    requires q == InHand || q.kind == k
    requires RegionOk(r, place[x := q], k)
    ensures PlacesOk(regions[k := r], place[x := q], if q == InHand then segRegion else segRegion[x := k])
  {
    hide RegionOk;
    if k != FWLOG { RegionOther(regions[FWLOG], place, FWLOG, x, q); }
    if k != HOT { RegionOther(regions[HOT], place, HOT, x, q); }
    if k != COLD { RegionOther(regions[COLD], place, COLD, x, q); }
  }

  lemma AtRegion(regions: seq<RegionState>, place: seq<Place>, segRegion: seq<Kind>, k: Kind)
    requires PlacesOk(regions, place, segRegion)
    ensures |regions| == 3 && |segRegion| == |place| && RegionOk(regions[k], place, k)
    ensures forall i :: 0 <= i < |regions[k].free| ==> regions[k].free[i] < |place| && place[regions[k].free[i]] == Free(k)
    ensures forall i :: 0 <= i < |regions[k].fifo| ==> regions[k].fifo[i] < |place| && place[regions[k].fifo[i]] == Fifo(k)
    ensures regions[k].active.Some? ==> regions[k].active.value < |place| && place[regions[k].active.value] == Active(k)
                                        && segRegion[regions[k].active.value] == k
    ensures forall x :: 0 <= x < |place| && place[x] != InHand ==> segRegion[x] == place[x].kind
  {}

  // the seven moves

  lemma TakeFree(regions: seq<RegionState>, place: seq<Place>, segRegion: seq<Kind>, k: Kind)
    requires PlacesOk(regions, place, segRegion) && regions[k].free != []
    ensures var r := regions[k];
            PlacesOk(regions[k := r.(free := r.free[1..])], place[r.free[0] := InHand], segRegion)
  {
    var r := regions[k];
    var x := r.free[0];
    AtRegion(regions, place, segRegion, k);
    ListedPop(r.free, place, Free(k), InHand);
    ListedOther(r.fifo, place, x, Fifo(k), InHand);
    OnlyOther(r.active, place, x, Active(k), InHand);
    hide Listed, Only;
    PlacesMove(regions, place, segRegion, k, r.(free := r.free[1..]), x, InHand);
  }

  lemma TakeFifo(regions: seq<RegionState>, place: seq<Place>, segRegion: seq<Kind>, k: Kind)
    requires PlacesOk(regions, place, segRegion) && regions[k].fifo != []
    ensures var r := regions[k];
            PlacesOk(regions[k := r.(fifo := r.fifo[1..])], place[r.fifo[0] := InHand], segRegion)
  {
    var r := regions[k];
    var x := r.fifo[0];
    AtRegion(regions, place, segRegion, k);
    ListedPop(r.fifo, place, Fifo(k), InHand);
    ListedOther(r.free, place, x, Free(k), InHand);
    OnlyOther(r.active, place, x, Active(k), InHand);
    hide Listed, Only;
    PlacesMove(regions, place, segRegion, k, r.(fifo := r.fifo[1..]), x, InHand);
  }

  lemma TakeActive(regions: seq<RegionState>, place: seq<Place>, segRegion: seq<Kind>, k: Kind)
    requires PlacesOk(regions, place, segRegion) && regions[k].active.Some?
    ensures var r := regions[k];
            PlacesOk(regions[k := r.(active := None)], place[r.active.value := InHand], segRegion)
  {
    var r := regions[k];
    var x := r.active.value;
    AtRegion(regions, place, segRegion, k);
    ListedOther(r.free, place, x, Free(k), InHand);
    ListedOther(r.fifo, place, x, Fifo(k), InHand);
    assert Only(None, place[x := InHand], Active(k));
    hide Listed, Only;
    PlacesMove(regions, place, segRegion, k, r.(active := None), x, InHand);
  }

  lemma PutFree(regions: seq<RegionState>, place: seq<Place>, segRegion: seq<Kind>, k: Kind, x: nat)
    requires PlacesOk(regions, place, segRegion) && x < |place| && place[x] == InHand
    ensures var r := regions[k];
            PlacesOk(regions[k := r.(free := r.free + [x])], place[x := Free(k)], segRegion[x := k])
  {
    var r := regions[k];
    AtRegion(regions, place, segRegion, k);
    ListedAppend(r.free, place, x, Free(k));
    ListedOther(r.fifo, place, x, Fifo(k), Free(k));
    OnlyOther(r.active, place, x, Active(k), Free(k));
    hide Listed, Only;
    PlacesMove(regions, place, segRegion, k, r.(free := r.free + [x]), x, Free(k));
  }

  lemma PutFifo(regions: seq<RegionState>, place: seq<Place>, segRegion: seq<Kind>, k: Kind, x: nat)
    requires PlacesOk(regions, place, segRegion) && x < |place| && place[x] == InHand
    ensures var r := regions[k];
            && PlacesOk(regions[k := r.(fifo := r.fifo + [x])], place[x := Fifo(k)], segRegion[x := k])
            && PlacesOk(regions[k := r.(fifo := [x] + r.fifo)], place[x := Fifo(k)], segRegion[x := k])
  {
    var r := regions[k];
    AtRegion(regions, place, segRegion, k);
    ListedAppend(r.fifo, place, x, Fifo(k));
    ListedOther(r.free, place, x, Free(k), Fifo(k));
    OnlyOther(r.active, place, x, Active(k), Fifo(k));
    hide Listed, Only;
    PlacesMove(regions, place, segRegion, k, r.(fifo := r.fifo + [x]), x, Fifo(k));
    PlacesMove(regions, place, segRegion, k, r.(fifo := [x] + r.fifo), x, Fifo(k));
  }

  lemma PutActive(regions: seq<RegionState>, place: seq<Place>, segRegion: seq<Kind>, k: Kind, x: nat)
    requires PlacesOk(regions, place, segRegion) && x < |place| && place[x] == InHand
    requires regions[k].active.None?
    ensures PlacesOk(regions[k := regions[k].(active := Some(x))], place[x := Active(k)], segRegion[x := k])
  {
    var r := regions[k];
    AtRegion(regions, place, segRegion, k);
    ListedOther(r.free, place, x, Free(k), Active(k));
    ListedOther(r.fifo, place, x, Fifo(k), Active(k));
    assert Only(Some(x), place[x := Active(k)], Active(k));
    hide Listed, Only;
    PlacesMove(regions, place, segRegion, k, r.(active := Some(x)), x, Active(k));
  }

  // ---- counters ----

  /** Valid blocks of the first n segments assigned to region k, one segment excepted. */
  function RegionValid(segs: seq<Segment>, segRegion: seq<Kind>, except: Option<nat>, k: Kind, n: nat): nat
    requires n <= |segs| == |segRegion|
  {
    if n == 0 then 0 else
      RegionValid(segs, segRegion, except, k, n - 1) +
      if segRegion[n - 1] == k && Some(n - 1) != except then segs[n - 1].validCnt else 0
  }

  ghost predicate ValidCountsOk(segs: seq<Segment>, segRegion: seq<Kind>, except: Option<nat>, counters: seq<int>) {
    |counters| == 3 && |segRegion| == |segs| &&
    forall k: Kind :: counters[k] == RegionValid(segs, segRegion, except, k, |segs|)
  }

  lemma {:induction false} RegionValidUpdate(segs: seq<Segment>, segRegion: seq<Kind>, except: Option<nat>, k: Kind, n: nat,
                                             x: nat, s: Segment, r: Kind)
    requires n <= |segs| == |segRegion| && x < |segs| && Some(x) != except
    ensures RegionValid(segs[x := s], segRegion[x := r], except, k, n) ==
            RegionValid(segs, segRegion, except, k, n) +
            if x < n then (if r == k then s.validCnt else 0) - (if segRegion[x] == k then segs[x].validCnt else 0) else 0
  {
    if n > 0 { RegionValidUpdate(segs, segRegion, except, k, n - 1, x, s, r); }
  }

  /** Excepting a segment, or changing it while excepted. */
  lemma {:induction false} RegionValidExcept(segs: seq<Segment>, segRegion: seq<Kind>, k: Kind, n: nat, x: nat, s: Segment)
    requires n <= |segs| == |segRegion| && x < |segs|
    ensures RegionValid(segs[x := s], segRegion, Some(x), k, n) ==
            RegionValid(segs, segRegion, None, k, n) - if x < n && segRegion[x] == k then segs[x].validCnt else 0
    ensures RegionValid(segs[x := s], segRegion, Some(x), k, n) == RegionValid(segs, segRegion, Some(x), k, n)
  {
    if n > 0 { RegionValidExcept(segs, segRegion, k, n - 1, x, s); }
  }

  /** One segment gets a new header and possibly a new region; two counters follow. */
  lemma CountersUpdate(segs: seq<Segment>, segRegion: seq<Kind>, counters: seq<int>, x: nat, s: Segment, r: Kind)
    requires ValidCountsOk(segs, segRegion, None, counters) && x < |segs|
    ensures counters[segRegion[x]] >= segs[x].validCnt
    ensures var c1 := counters[segRegion[x] := counters[segRegion[x]] - segs[x].validCnt];
            ValidCountsOk(segs[x := s], segRegion[x := r], None, c1[r := c1[r] + s.validCnt])
  {
    var c1 := counters[segRegion[x] := counters[segRegion[x]] - segs[x].validCnt];
    var c2 := c1[r := c1[r] + s.validCnt];
    forall k: Kind ensures c2[k] == RegionValid(segs[x := s], segRegion[x := r], None, k, |segs|) {
      RegionValidUpdate(segs, segRegion, None, k, |segs|, x, s, r);
    }
    RegionValidExcept(segs, segRegion, segRegion[x], |segs|, x, segs[x]);
  }

  /** One segment's count changes inside its region. */
  lemma CountersDelta(segs: seq<Segment>, segRegion: seq<Kind>, counters: seq<int>, x: nat, s: Segment)
    requires ValidCountsOk(segs, segRegion, None, counters) && x < |segs|
    ensures counters[segRegion[x]] >= segs[x].validCnt
    ensures var k := segRegion[x];
            ValidCountsOk(segs[x := s], segRegion, None, counters[k := counters[k] + (s.validCnt - segs[x].validCnt)])
  {
    var k := segRegion[x];
    CountersUpdate(segs, segRegion, counters, x, s, k);
    hide ValidCountsOk;
    assert segRegion[x := k] == segRegion;
    var c1 := counters[k := counters[k] - segs[x].validCnt];
    assert c1[k := c1[k] + s.validCnt] == counters[k := counters[k] + (s.validCnt - segs[x].validCnt)];
  }

  /** Taking a segment's count off its region's counter leaves it out of the sums. */
  lemma CountersExcept(segs: seq<Segment>, segRegion: seq<Kind>, counters: seq<int>, x: nat)
    requires ValidCountsOk(segs, segRegion, None, counters) && x < |segs|
    ensures counters[segRegion[x]] >= segs[x].validCnt
    ensures var k := segRegion[x];
            ValidCountsOk(segs, segRegion, Some(x), counters[k := counters[k] - segs[x].validCnt])
  {
    assert segs[x := segs[x]] == segs;
    forall k: Kind
      ensures RegionValid(segs, segRegion, Some(x), k, |segs|) ==
              RegionValid(segs, segRegion, None, k, |segs|) - if segRegion[x] == k then segs[x].validCnt else 0
    {
      RegionValidExcept(segs, segRegion, k, |segs|, x, segs[x]);
    }
  }

  /** An excepted segment can change freely, and rejoins the sums once it holds nothing. */
  lemma CountersRejoin(segs: seq<Segment>, segRegion: seq<Kind>, counters: seq<int>, x: nat, s: Segment)
    requires ValidCountsOk(segs, segRegion, Some(x), counters) && x < |segs|
    ensures ValidCountsOk(segs[x := s], segRegion, Some(x), counters)
    ensures s.validCnt == 0 ==> ValidCountsOk(segs[x := s], segRegion, None, counters)
  {
    forall k: Kind
      ensures RegionValid(segs[x := s], segRegion, Some(x), k, |segs|) == RegionValid(segs, segRegion, Some(x), k, |segs|)
      ensures s.validCnt == 0 ==>
                RegionValid(segs[x := s], segRegion, None, k, |segs|) == RegionValid(segs, segRegion, Some(x), k, |segs|)
    {
      RegionValidExcept(segs, segRegion, k, |segs|, x, s);
      RegionValidExcept(segs[x := s], segRegion, k, |segs|, x, s);
      assert segs[x := s][x := s] == segs[x := s];
    }
  }

  /** How many of the first n segments are assigned to region k. */
  function RegionSize(segRegion: seq<Kind>, k: Kind, n: nat): nat
    requires n <= |segRegion|
  {
    if n == 0 then 0 else RegionSize(segRegion, k, n - 1) + Bit(segRegion[n - 1] == k)
  }

  /** Every region has the number of segments it started with. */
  ghost predicate SizesOk(regions: seq<RegionState>, segRegion: seq<Kind>) {
    |regions| == 3 && forall k: Kind :: RegionSize(segRegion, k, |segRegion|) == regions[k].totalSegments
  }

  lemma {:induction false} RegionSizeUpdate(segRegion: seq<Kind>, k: Kind, n: nat, x: nat, r: Kind)
    requires n <= |segRegion| && x < |segRegion|
    ensures RegionSize(segRegion[x := r], k, n) ==
            RegionSize(segRegion, k, n) + if x < n then Bit(r == k) - Bit(segRegion[x] == k) else 0
  {
    if n > 0 { RegionSizeUpdate(segRegion, k, n - 1, x, r); }
  }

  lemma SizesSame(regions: seq<RegionState>, regions': seq<RegionState>, segRegion: seq<Kind>)
    requires SizesOk(regions, segRegion) && |regions'| == 3
    requires forall k: Kind :: regions'[k].totalSegments == regions[k].totalSegments
    ensures SizesOk(regions', segRegion)
  {}

  /** Swapping the assignments of two segments keeps every region's size. */
  lemma SizesSwap(regions: seq<RegionState>, segRegion: seq<Kind>, x: nat, y: nat)
    requires SizesOk(regions, segRegion) && x < |segRegion| && y < |segRegion| && x != y
    ensures SizesOk(regions, segRegion[x := segRegion[y]][y := segRegion[x]])
  {
    var mid := segRegion[x := segRegion[y]];
    forall k: Kind
      ensures RegionSize(mid[y := segRegion[x]], k, |segRegion|) == RegionSize(segRegion, k, |segRegion|)
    {
      RegionSizeUpdate(segRegion, k, |segRegion|, x, segRegion[y]);
      RegionSizeUpdate(mid, k, |segRegion|, y, segRegion[x]);
    }
  }

  // ---- the cache tier as a value ----

  /** Everything the cache tier keeps, and where each segment is. */
  datatype Tier = Tier(size: nat, segs: seq<Segment>, mapping: map<nat, Loc>, regions: seq<RegionState>,
                       place: seq<Place>, segRegion: seq<Kind>, regionValid: seq<int>)

  ghost predicate FreeAreEmpty(segs: seq<Segment>, place: seq<Place>) {
    |segs| == |place| && forall x :: 0 <= x < |segs| && place[x].Free? ==> segs[x].validCnt == 0
  }

  /** The structural invariant; `except` is a segment being dropped, already uncounted. */
  ghost predicate TierOk(t: Tier, except: Option<nat>) {
    && t.size > 0
    && |t.segs| == |t.place| == |t.segRegion| && |t.regions| == 3 == |t.regionValid|
    && SegsOk(t.segs, t.size, except)
    && MapOk(t.segs, t.mapping)
    && PlacesOk(t.regions, t.place, t.segRegion)
    && ValidCountsOk(t.segs, t.segRegion, except, t.regionValid)
    && FreeAreEmpty(t.segs, t.place)
  }

  ghost function Held(t: Tier): map<nat, nat> {
    Cached(t.segs, t.mapping)
  }

  function Adjusted(counters: seq<int>, k: Kind, delta: int): (r: seq<int>)
    requires |counters| == 3
    ensures |r| == 3
  {
    counters[k := counters[k] + delta]
  }

  lemma Dimensions(t: Tier, except: Option<nat>)
    requires TierOk(t, except)
    ensures t.size > 0 && |t.segs| == |t.place| == |t.segRegion| && |t.regions| == 3 == |t.regionValid|
  {}

  lemma ActiveSegment(t: Tier, k: Kind)
    requires TierOk(t, None) && t.regions[k].active.Some?
    ensures var x := t.regions[k].active.value;
            && x < |t.segs| && t.place[x] == Active(k) && t.segRegion[x] == k
            && |t.segs[x].blocks| == t.size && t.segs[x].writePtr <= t.size
  {
    AtRegion(t.regions, t.place, t.segRegion, k);
    AtSeg(t.segs, t.size, None, t.regions[k].active.value);
  }

  lemma SegmentAt(t: Tier, except: Option<nat>, x: nat)
    requires TierOk(t, except) && x < |t.segs|
    ensures |t.segs[x].blocks| == t.size && (Some(x) != except ==> SegOk(t.segs[x], t.size))
  {
    AtSeg(t.segs, t.size, except, x);
  }

  lemma FreeChange(segs: seq<Segment>, place: seq<Place>, x: nat, s: Segment)
    requires FreeAreEmpty(segs, place) && x < |segs| && (place[x].Free? ==> s.validCnt <= segs[x].validCnt)
    ensures FreeAreEmpty(segs[x := s], place)
  {}

  // steps that only move a segment

  function WithRegion(t: Tier, k: Kind, r: RegionState, x: nat, q: Place): Tier
    requires |t.regions| == 3 && x < |t.place|
  {
    t.(regions := t.regions[k := r], place := t.place[x := q])
  }

  lemma StepTakeFree(t: Tier, k: Kind)
    requires TierOk(t, None) && t.regions[k].free != []
    ensures var r := t.regions[k];
            && r.free[0] < |t.segs| && t.segs[r.free[0]].validCnt == 0
            && t.place[r.free[0]] == Free(k) && t.segRegion[r.free[0]] == k
            && TierOk(WithRegion(t, k, r.(free := r.free[1..]), r.free[0], InHand), None)
  {
    AtRegion(t.regions, t.place, t.segRegion, k);
    TakeFree(t.regions, t.place, t.segRegion, k);
    hide PlacesOk, SegsOk, MapOk, ValidCountsOk;
  }

  lemma StepTakeFifo(t: Tier, k: Kind)
    requires TierOk(t, None) && t.regions[k].fifo != []
    ensures var r := t.regions[k];
            && r.fifo[0] < |t.segs| && t.place[r.fifo[0]] == Fifo(k) && t.segRegion[r.fifo[0]] == k
            && TierOk(WithRegion(t, k, r.(fifo := r.fifo[1..]), r.fifo[0], InHand), None)
  {
    AtRegion(t.regions, t.place, t.segRegion, k);
    TakeFifo(t.regions, t.place, t.segRegion, k);
    hide PlacesOk, SegsOk, MapOk, ValidCountsOk;
  }

  lemma StepTakeActive(t: Tier, k: Kind)
    requires TierOk(t, None) && t.regions[k].active.Some?
    ensures var r := t.regions[k];
            && r.active.value < |t.segs| && t.place[r.active.value] == Active(k) && t.segRegion[r.active.value] == k
            && TierOk(WithRegion(t, k, r.(active := None), r.active.value, InHand), None)
  {
    AtRegion(t.regions, t.place, t.segRegion, k);
    TakeActive(t.regions, t.place, t.segRegion, k);
    hide PlacesOk, SegsOk, MapOk, ValidCountsOk;
  }

  /** Putting a segment of region k from hand at the back or the front of its queue. */
  lemma StepPutFifo(t: Tier, k: Kind, x: nat)
    requires TierOk(t, None) && x < |t.segs| && t.place[x] == InHand && t.segRegion[x] == k
    ensures var r := t.regions[k];
            && TierOk(WithRegion(t, k, r.(fifo := r.fifo + [x]), x, Fifo(k)), None)
            && TierOk(WithRegion(t, k, r.(fifo := [x] + r.fifo), x, Fifo(k)), None)
  {
    PutFifo(t.regions, t.place, t.segRegion, k, x);
    assert t.segRegion[x := k] == t.segRegion;
    hide PlacesOk, SegsOk, MapOk, ValidCountsOk;
  }

  // steps that reset an empty segment and put it down

  /** Resetting a segment without valid blocks changes nothing that is counted or mapped. */
  lemma StepReset(t: Tier, x: nat)
    requires TierOk(t, None) && x < |t.segs| && t.segs[x].validCnt == 0
    ensures var t' := t.(segs := t.segs[x := Reset(t.segs[x])]);
            TierOk(t', None) && Held(t') == Held(t)
  {
    AtSeg(t.segs, t.size, None, x);
    NoneValid(t.segs[x], t.size);
    ResetOk(t.segs[x], t.size);
    SegsUpdate(t.segs, t.size, None, x, Reset(t.segs[x]));
    MapReplaceEmpty(t.segs, t.mapping, x, Reset(t.segs[x]));
    CountersDelta(t.segs, t.segRegion, t.regionValid, x, Reset(t.segs[x]));
    assert Adjusted(t.regionValid, t.segRegion[x], 0) == t.regionValid;
    hide PlacesOk, SegsOk, MapOk, ValidCountsOk, Cached;
  }

  lemma StepHeader(t: Tier, x: nat, ts: nat)
    requires TierOk(t, None) && x < |t.segs|
    ensures var t' := t.(segs := t.segs[x := t.segs[x].(createTs := ts)]);
            TierOk(t', None) && Held(t') == Held(t)
  {
    var s := t.segs[x].(createTs := ts);
    SegsUpdate(t.segs, t.size, None, x, s);
    MapHeader(t.segs, t.mapping, x, s);
    CountersDelta(t.segs, t.segRegion, t.regionValid, x, s);
    assert Adjusted(t.regionValid, t.segRegion[x], 0) == t.regionValid;
    hide PlacesOk, SegsOk, MapOk, ValidCountsOk, Cached;
  }

  lemma StepPutFree(t: Tier, k: Kind, x: nat)
    requires TierOk(t, None) && x < |t.segs| && t.place[x] == InHand && t.segRegion[x] == k && t.segs[x].validCnt == 0
    ensures var r := t.regions[k];
            TierOk(WithRegion(t, k, r.(free := r.free + [x]), x, Free(k)), None)
  {
    PutFree(t.regions, t.place, t.segRegion, k, x);
    assert t.segRegion[x := k] == t.segRegion;
    hide PlacesOk, SegsOk, MapOk, ValidCountsOk;
  }

  lemma StepPutActive(t: Tier, k: Kind, x: nat)
    requires TierOk(t, None) && x < |t.segs| && t.place[x] == InHand && t.segRegion[x] == k && t.regions[k].active.None?
    ensures TierOk(WithRegion(t, k, t.regions[k].(active := Some(x)), x, Active(k)), None)
  {
    PutActive(t.regions, t.place, t.segRegion, k, x);
    assert t.segRegion[x := k] == t.segRegion;
    hide PlacesOk, SegsOk, MapOk, ValidCountsOk;
  }

  /** Assigning a segment in hand to another region moves its count along. */
  lemma StepMoveRegion(t: Tier, x: nat, k: Kind)
    requires TierOk(t, None) && x < |t.segs| && t.place[x] == InHand
    ensures t.regionValid[t.segRegion[x]] >= t.segs[x].validCnt
    ensures var c1 := Adjusted(t.regionValid, t.segRegion[x], 0 - t.segs[x].validCnt);
            var c2 := Adjusted(c1, k, t.segs[x].validCnt);
            && TierOk(t.(segRegion := t.segRegion[x := k], regionValid := c2), None)
            && (k == t.segRegion[x] ==> c2 == t.regionValid && t.segRegion[x := k] == t.segRegion)
  {
    CountersUpdate(t.segs, t.segRegion, t.regionValid, x, t.segs[x], k);
    assert t.segs[x := t.segs[x]] == t.segs;
    InHandRegion(t.regions, t.place, t.segRegion, x, k);
    hide PlacesOk, SegsOk, MapOk, ValidCountsOk;
  }

  lemma InHandRegion(regions: seq<RegionState>, place: seq<Place>, segRegion: seq<Kind>, x: nat, k: Kind)
    requires PlacesOk(regions, place, segRegion) && x < |place| && place[x] == InHand
    ensures PlacesOk(regions, place, segRegion[x := k])
  {}

  // steps that change blocks

  lemma StepAppend(t: Tier, y: nat, key: nat, ts: nat)
    requires TierOk(t, None) && y < |t.segs| && t.segs[y].writePtr < t.size && !t.place[y].Free? && key !in t.mapping
    ensures |t.segs[y].blocks| == t.size
    ensures var t' := t.(segs := t.segs[y := Appended(t.segs[y], key, ts)],
                         mapping := t.mapping[key := Loc(y, t.segs[y].writePtr)],
                         regionValid := Adjusted(t.regionValid, t.segRegion[y], 1));
            TierOk(t', None) && Held(t') == Held(t)[key := ts]
  {
    hide PlacesOk, SegsOk, MapOk, ValidCountsOk, Cached;
    AtSeg(t.segs, t.size, None, y);
    var s := Appended(t.segs[y], key, ts);
    AppendedOk(t.segs[y], t.size, key, ts);
    SegsUpdate(t.segs, t.size, None, y, s);
    MapAppend(t.segs, t.mapping, y, key, ts);
    CountersDelta(t.segs, t.segRegion, t.regionValid, y, s);
  }

  lemma StepInvalidate(t: Tier, key: nat)
    requires TierOk(t, None) && key in t.mapping
    ensures var l := t.mapping[key];
            && ValidAt(t.segs, l) && t.segs[l.seg].validCnt > 0 && t.regionValid[t.segRegion[l.seg]] > 0
            && var t' := t.(segs := t.segs[l.seg := Invalidated(t.segs[l.seg], l.idx)],
                            mapping := t.mapping - {key},
                            regionValid := Adjusted(t.regionValid, t.segRegion[l.seg], -1));
               TierOk(t', None) && Held(t') == Held(t) - {key}
  {
    hide PlacesOk, SegsOk, MapOk, ValidCountsOk, Cached, FreeAreEmpty;
    MappedSlot(t.segs, t.mapping, key);
    var l := t.mapping[key];
    var x := l.seg;
    AtSeg(t.segs, t.size, None, x);
    SlotInvalidatedOk(t.segs[x], t.size, l.idx);
    var s := Invalidated(t.segs[x], l.idx);
    SegsUpdate(t.segs, t.size, None, x, s);
    MapUnset(t.segs, t.mapping, key, s);
    CountersDelta(t.segs, t.segRegion, t.regionValid, x, s);
    FreeChange(t.segs, t.place, x, s);
  }

  /** The state after the block at src[idx] is copied to the end of y and cleared. */
  function Migrated(t: Tier, src: nat, idx: nat, y: nat): Tier
    requires src < |t.segs| == |t.segRegion| && y < |t.segs| && idx < |t.segs[src].blocks| && |t.regionValid| == 3
    requires t.segs[y].writePtr < |t.segs[y].blocks| && t.segs[src].validCnt > 0
  {
    var b := t.segs[src].blocks[idx];
    t.(segs := t.segs[y := Appended(t.segs[y], b.key, b.ts)][src := Invalidated(t.segs[src], idx)],
       mapping := t.mapping[b.key := Loc(y, t.segs[y].writePtr)],
       regionValid := Adjusted(Adjusted(t.regionValid, t.segRegion[y], 1), t.segRegion[src], -1))
  }

  lemma MigrateShape(t: Tier, src: nat, idx: nat, y: nat)
    requires TierOk(t, None) && ValidAt(t.segs, Loc(src, idx))
    requires y < |t.segs| && y != src && t.segs[y].writePtr < t.size && !t.place[y].Free? && !t.place[src].Free?
    ensures |t.segs[y].blocks| == t.size && t.segs[src].validCnt > 0 && t.regionValid[t.segRegion[src]] > 0
    ensures var t' := Migrated(t, src, idx, y);
            && SegsOk(t'.segs, t.size, None) && FreeAreEmpty(t'.segs, t.place)
            && ValidCountsOk(t'.segs, t.segRegion, None, t'.regionValid)
  {
    hide PlacesOk, SegsOk, MapOk, ValidCountsOk, FreeAreEmpty;
    var b := t.segs[src].blocks[idx];
    AtSeg(t.segs, t.size, None, y);
    AtSeg(t.segs, t.size, None, src);
    AppendedOk(t.segs[y], t.size, b.key, b.ts);
    SlotInvalidatedOk(t.segs[src], t.size, idx);
    var s1 := t.segs[y := Appended(t.segs[y], b.key, b.ts)];
    var s2 := Invalidated(t.segs[src], idx);
    SegsUpdate(t.segs, t.size, None, y, s1[y]);
    SegsUpdate(s1, t.size, None, src, s2);
    CountersDelta(t.segs, t.segRegion, t.regionValid, src, t.segs[src]);
    CountersDelta(t.segs, t.segRegion, t.regionValid, y, s1[y]);
    CountersDelta(s1, t.segRegion, Adjusted(t.regionValid, t.segRegion[y], 1), src, s2);
    FreeChange(t.segs, t.place, y, s1[y]);
    FreeChange(s1, t.place, src, s2);
  }

  lemma StepMigrate(t: Tier, src: nat, idx: nat, y: nat)
    requires TierOk(t, None) && ValidAt(t.segs, Loc(src, idx))
    requires y < |t.segs| && y != src && t.segs[y].writePtr < t.size && !t.place[y].Free? && !t.place[src].Free?
    ensures |t.segs[y].blocks| == t.size && t.segs[src].validCnt > 0 && t.regionValid[t.segRegion[src]] > 0
    ensures TierOk(Migrated(t, src, idx, y), None) && Held(Migrated(t, src, idx, y)) == Held(t)
    ensures Migrated(t, src, idx, y).mapping.Keys == t.mapping.Keys
    ensures Adjusted(t.regionValid, t.segRegion[y], 1)[t.segRegion[src]] > 0
  {
    hide PlacesOk, SegsOk, ValidCountsOk, FreeAreEmpty, MapOk, Cached;
    var b := t.segs[src].blocks[idx];
    ValidSlot(t.segs, t.mapping, Loc(src, idx));
    AtSeg(t.segs, t.size, None, y);
    MigrateShape(t, src, idx, y);
    MapMove(t.segs, t.mapping, b.key, y, Invalidated(t.segs[src], idx));
  }

  // steps of dropping a segment

  lemma StepUncount(t: Tier, x: nat)
    requires TierOk(t, None) && x < |t.segs|
    ensures t.regionValid[t.segRegion[x]] >= t.segs[x].validCnt
    ensures TierOk(t.(regionValid := Adjusted(t.regionValid, t.segRegion[x], 0 - t.segs[x].validCnt)), Some(x))
  {
    AtSeg(t.segs, t.size, None, x);
    CountersExcept(t.segs, t.segRegion, t.regionValid, x);
    SegsExcept(t.segs, t.size, x);
    hide PlacesOk, SegsOk, MapOk, ValidCountsOk;
  }

  lemma SegsExcept(segs: seq<Segment>, size: nat, x: nat)
    requires SegsOk(segs, size, None)
    ensures SegsOk(segs, size, Some(x))
  {}

  lemma SegsExceptUpdate(segs: seq<Segment>, size: nat, x: nat, s: Segment)
    requires SegsOk(segs, size, Some(x)) && x < |segs| && |s.blocks| == size
    ensures SegsOk(segs[x := s], size, Some(x))
  {}

  /** Dropping one valid block of the uncounted segment. */
  lemma StepDropBlock(t: Tier, x: nat, idx: nat)
    requires TierOk(t, Some(x)) && ValidAt(t.segs, Loc(x, idx)) && !t.place[x].Free?
    ensures var b := t.segs[x].blocks[idx];
            && b.key in Held(t) && Held(t)[b.key] == b.ts && b.key in t.mapping
            && var t' := t.(segs := t.segs[x := Unset(t.segs[x], idx)], mapping := t.mapping - {b.key});
               TierOk(t', Some(x)) && Held(t') == Held(t) - {b.key}
  {
    hide PlacesOk, SegsOk, MapOk, ValidCountsOk, Cached;
    var b := t.segs[x].blocks[idx];
    ValidSlot(t.segs, t.mapping, Loc(x, idx));
    AtSeg(t.segs, t.size, Some(x), x);
    SegsExceptUpdate(t.segs, t.size, x, Unset(t.segs[x], idx));
    MapUnset(t.segs, t.mapping, b.key, Unset(t.segs[x], idx));
    CountersRejoin(t.segs, t.segRegion, t.regionValid, x, Unset(t.segs[x], idx));
  }

  lemma StepDropped(t: Tier, x: nat)
    requires TierOk(t, Some(x)) && x < |t.segs|
    requires forall i :: 0 <= i < |t.segs[x].blocks| ==> !t.segs[x].blocks[i].valid
    ensures var t' := t.(segs := t.segs[x := t.segs[x].(validCnt := 0, writePtr := 0)]);
            TierOk(t', None) && Held(t') == Held(t)
  {
    var s := t.segs[x].(validCnt := 0, writePtr := 0);
    AtSeg(t.segs, t.size, Some(x), x);
    CountValidZero(s.blocks, t.size);
    SegsUpdate(t.segs, t.size, Some(x), x, s);
    MapHeader(t.segs, t.mapping, x, s);
    CountersRejoin(t.segs, t.segRegion, t.regionValid, x, s);
    hide PlacesOk, SegsOk, MapOk, ValidCountsOk, Cached;
  }

  // ---- the counters agree ----

  lemma {:induction false} RegionsShareOut(segs: seq<Segment>, segRegion: seq<Kind>, n: nat)
    requires n <= |segs| == |segRegion|
    ensures RegionValid(segs, segRegion, None, FWLOG, n) + RegionValid(segs, segRegion, None, HOT, n)
            + RegionValid(segs, segRegion, None, COLD, n) == SumValid(segs, n)
  {
    if n > 0 { RegionsShareOut(segs, segRegion, n - 1); }
  }

  /** The region counters, the segments' counters and the key map agree. */
  lemma RegionCountersAgree(t: Tier)
    requires TierOk(t, None)
    ensures t.regionValid[FWLOG] + t.regionValid[HOT] + t.regionValid[COLD] == |t.mapping| == SumValid(t.segs, |t.segs|)
  {
    hide PlacesOk, SegsOk, MapOk, FreeAreEmpty;
    RegionsShareOut(t.segs, t.segRegion, |t.segs|);
    MappedIsValid(t.segs, t.size, t.mapping);
  }

  // ---- what a nested reclaim may not touch ----

  /** Segments other than `but`: those in hand stay in hand and unchanged, and no others
      are picked up. */
  ghost predicate HandKept(but: Option<nat>, s: Tier, s': Tier) {
    && |s.place| == |s.segs| == |s.segRegion| == |s'.place| == |s'.segs| == |s'.segRegion| && s'.size == s.size
    && forall x :: 0 <= x < |s.place| && Some(x) != but ==>
                     && (s.place[x] == InHand <==> s'.place[x] == InHand)
                     && (s.place[x] == InHand ==> s'.segs[x] == s.segs[x] && s'.segRegion[x] == s.segRegion[x])
  }

  lemma HandSame(s: Tier, s': Tier)
    requires |s.place| == |s.segs| == |s.segRegion| && s'.place == s.place && s'.segs == s.segs && s'.segRegion == s.segRegion
    requires s'.size == s.size
    ensures HandKept(None, s, s')
  {}

  lemma HandTransitive(but: Option<nat>, s1: Tier, s2: Tier, s3: Tier)
    requires HandKept(but, s1, s2) && HandKept(but, s2, s3)
    ensures HandKept(but, s1, s3)
  {}

  lemma HandWeaken(but: nat, s1: Tier, s2: Tier)
    requires HandKept(None, s1, s2)
    ensures HandKept(Some(but), s1, s2)
    ensures |s1.place| == |s2.place| == |s1.segs| == |s2.segs| == |s1.segRegion| == |s2.segRegion|
    ensures but < |s1.place| ==> (s1.place[but] == InHand <==> s2.place[but] == InHand)
    ensures but < |s1.place| && s1.place[but] == InHand ==>
              s2.segs[but] == s1.segs[but] && s2.segRegion[but] == s1.segRegion[but]
  {}

  /** A segment picked up and put down again. */
  lemma HandReturned(x: nat, s1: Tier, s2: Tier)
    requires HandKept(Some(x), s1, s2)
    requires x < |s1.place| ==> s1.place[x] != InHand && s2.place[x] != InHand
    ensures HandKept(None, s1, s2)
  {}

  /** One segment put from hand or list to another place, or picked up, or changed. */
  lemma HandMoved(but: Option<nat>, s: Tier, s': Tier, x: nat, q: Place, g: Segment)
    requires |s.place| == |s.segs| == |s.segRegion| && x < |s.place| && s'.size == s.size
    requires s'.place == s.place[x := q] && s'.segs == s.segs[x := g] && s'.segRegion == s.segRegion
    requires but == Some(x) || (s.place[x] != InHand && q != InHand)
    ensures HandKept(but, s, s')
  {}

  /** Blocks changed only in a segment in hand and in one that is not. */
  lemma HandChanged(s: Tier, s': Tier, x: nat, y: nat)
    requires |s.place| == |s.segs| == |s.segRegion| && x < |s.segs| && y < |s.segs| && s'.size == s.size
    requires s'.place == s.place && s'.segRegion == s.segRegion && s.place[y] != InHand
    requires |s'.segs| == |s.segs| && s'.segs == s.segs[y := s'.segs[y]][x := s'.segs[x]]
    ensures HandKept(Some(x), s, s')
  {}

  /** Work on regions from k on leaves hotter regions alone and every region its size. */
  ghost predicate Hotter(s: Tier, s': Tier, k: Kind) {
    && |s.regions| == 3 == |s'.regions|
    && (forall j: Kind :: j < k ==> s'.regions[j] == s.regions[j])
    && (forall j: Kind :: s'.regions[j].totalSegments == s.regions[j].totalSegments)
  }

  /** ... and opens no active segment of region k where none was (in the coldest region,
      given no free segment). */
  ghost predicate Colder(s: Tier, s': Tier, k: Kind) {
    && Hotter(s, s', k)
    && (s.regions[k].active.None? && (k == COLD ==> s.regions[k].free == []) ==> s'.regions[k].active.None?)
  }

  /** Only region k's record changed, and not by opening an active segment. */
  lemma ColderOne(s: Tier, s': Tier, k: Kind)
    requires |s.regions| == 3 == |s'.regions| && s'.regions == s.regions[k := s'.regions[k]]
    requires s'.regions[k].totalSegments == s.regions[k].totalSegments
    requires s'.regions[k].active.None? || s'.regions[k].active == s.regions[k].active
    ensures Colder(s, s', k)
  {}

  lemma ColderTransitive(s1: Tier, s2: Tier, s3: Tier, k: Kind)
    requires Colder(s1, s2, k) && Colder(s2, s3, k)
    requires k == COLD && s1.regions[COLD].free == [] ==> s2.regions[COLD].free == []
    ensures Colder(s1, s3, k)
  {}

  lemma HotterTransitive(s1: Tier, s2: Tier, s3: Tier, k: Kind)
    requires Hotter(s1, s2, k) && Hotter(s2, s3, k)
    ensures Hotter(s1, s3, k)
  {}

  /** Work on colder regions is work on regions from k on. */
  lemma ColderWiden(s1: Tier, s2: Tier, k: Kind, j: Kind)
    requires Hotter(s1, s2, j) && k < j
    ensures Colder(s1, s2, k) && s2.regions[k] == s1.regions[k]
  {}

  lemma ColderIsHotter(s1: Tier, s2: Tier, k: Kind)
    requires Colder(s1, s2, k)
    ensures Hotter(s1, s2, k)
  {}

  lemma ColderKeepsClosed(s1: Tier, s2: Tier, k: Kind)
    requires Colder(s1, s2, k) && s1.regions[k].active.None? && s1.regions[k].free == []
    ensures s2.regions[k].active.None?
  {}

  lemma ColderSame(s1: Tier, s2: Tier, k: Kind)
    requires |s1.regions| == 3 && s2.regions == s1.regions
    ensures Colder(s1, s2, k)
  {}

  lemma SizesHotter(s1: Tier, s2: Tier, k: Kind)
    requires Hotter(s1, s2, k) && SizesOk(s1.regions, s1.segRegion) && s2.segRegion == s1.segRegion
    ensures SizesOk(s2.regions, s2.segRegion)
  {}

  /** No room in the coldest region: a compaction within it cannot move a block. */
  ghost predicate NoSpace(s: Tier) {
    |s.regions| == 3 && s.regions[COLD].active.None? && s.regions[COLD].free == []
  }
}
