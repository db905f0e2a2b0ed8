/** LogCache's segments and their bookkeeping as a value, and what each elementary step of
    writing, evicting and compacting does to it. */
module LogCacheState {
  import opened Counting
  import opened LogSegments
  import opened Places

  /** Where a segment is: in the free pool, active for the host or for compaction, full and
      up for eviction, or the victim being worked on. */
  datatype Spot = Pool | Host | Gc | Sealed | Hand

  datatype Log = Log(size: nat, segs: seq<Segment>, mapping: map<nat, Loc>, spot: seq<Spot>, free: seq<nat>,
                     host: Option<nat>, gc: Option<nat>, validBlocks: int, now: nat)

  ghost predicate SpotsOk(l: Log, hand: Option<nat>) {
    Listed(l.free, l.spot, Pool) && Only(l.host, l.spot, Host) && Only(l.gc, l.spot, Gc) && Only(hand, l.spot, Hand)
  }

  /** A segment's creation time bounds the write times of its valid blocks from below. */
  ghost predicate TimesOk(segs: seq<Segment>, now: nat) {
    forall x :: 0 <= x < |segs| ==> SegTimes(segs[x], now)
  }

  ghost predicate SegTimes(s: Segment, now: nat) {
    s.createTs <= now && forall i :: 0 <= i < |s.blocks| && s.blocks[i].valid ==> s.createTs <= s.blocks[i].ts < now
  }

  /** Pooled segments hold nothing and sealed ones are full. */
  ghost predicate UseOk(segs: seq<Segment>, spot: seq<Spot>) {
    |segs| == |spot| && forall x :: 0 <= x < |segs| ==> SpotUse(segs[x], spot[x])
  }

  ghost predicate SpotUse(s: Segment, p: Spot) {
    (p == Pool ==> s.validCnt == 0) && (p == Sealed ==> s.writePtr == |s.blocks|)
  }

  /** The invariant. The counter of the segment in hand may be out of date. */
  ghost predicate LogOk(l: Log, hand: Option<nat>) {
    && l.size > 1
    && SegsOk(l.segs, l.size, hand)
    && MapOk(l.segs, l.mapping)
    && SpotsOk(l, hand)
    && TimesOk(l.segs, l.now)
    && UseOk(l.segs, l.spot)
    && l.validBlocks == |l.mapping|
  }

  ghost function Held(l: Log): map<nat, nat> { Cached(l.segs, l.mapping) }

  ghost function SealedSet(spot: seq<Spot>): set<nat> {
    set x: nat | x < |spot| && spot[x] == Sealed
  }

  /** All segments pooled, in order. */
  function FreshLog(size: nat, total: nat): Log {
    Log(size, FreshSegments(total, size), map[], seq(total, x => Pool), seq(total, x requires 0 <= x < total => x), None, None, 0, 0)
  }

  lemma FreshLogOk(size: nat, total: nat)
    requires size > 1
    ensures LogOk(FreshLog(size, total), None) && SealedSet(FreshLog(size, total).spot) == {}
    ensures Held(FreshLog(size, total)) == map[]
  {
    var l := FreshLog(size, total);
    FreshSegmentsOk(total, size);
    forall x | 0 <= x < total ensures x in l.free {
      assert l.free[x] == x;
    }
  }

  // ---- facts about one state ----

  lemma Shape(l: Log, hand: Option<nat>)
    requires LogOk(l, hand)
    ensures l.size > 1 && |l.segs| == |l.spot| && l.validBlocks == |l.mapping|
    ensures forall i :: 0 <= i < |l.free| ==> l.free[i] < |l.segs| && l.spot[l.free[i]] == Pool
    ensures l.host.Some? ==> l.host.value < |l.segs| && l.spot[l.host.value] == Host
    ensures l.gc.Some? ==> l.gc.value < |l.segs| && l.spot[l.gc.value] == Gc
    ensures hand.Some? ==> hand.value < |l.segs| && l.spot[hand.value] == Hand
    ensures Held(l).Keys == l.mapping.Keys
  {
    CachedKeys(l.segs, l.mapping);
  }

  lemma SegmentAt(l: Log, hand: Option<nat>, x: nat)
    requires LogOk(l, hand) && x < |l.segs|
    ensures |l.segs[x].blocks| == l.size && SegTimes(l.segs[x], l.now)
    ensures Some(x) != hand ==> SegOk(l.segs[x], l.size)
  {
    AtSeg(l.segs, l.size, hand, x);
  }

  lemma PoolMembers(free: seq<nat>, spot: seq<Spot>)
    requires Listed(free, spot, Pool)
    ensures |ToSet(free, |free|)| == |free|
    ensures forall x: nat :: x in ToSet(free, |free|) <==> x < |spot| && spot[x] == Pool
  {
    ToSetDistinct(free, |free|);
    hide ToSet;
    forall x: nat ensures x in ToSet(free, |free|) <==> x < |spot| && spot[x] == Pool {
      if x < |spot| && spot[x] == Pool { assert x in free; }
    }
  }

  /** Each segment is in the pool, active or sealed, and in one of these only. */
  lemma SpotSets(l: Log)
    requires LogOk(l, None)
    ensures var pool := ToSet(l.free, |l.free|);
            && |pool| == |l.free|
            && pool !! OptSet(l.host) && pool !! OptSet(l.gc) && pool !! SealedSet(l.spot)
            && OptSet(l.host) !! OptSet(l.gc) && OptSet(l.host) !! SealedSet(l.spot) && OptSet(l.gc) !! SealedSet(l.spot)
            && Range(|l.segs|) == pool + (OptSet(l.host) + (OptSet(l.gc) + SealedSet(l.spot)))
  {
    hide LogOk, OptSet, ToSet, Listed, Range;
    ActiveMembers(l);
    PoolMembers(l.free, l.spot);
    FourSpots(l.spot, ToSet(l.free, |l.free|), OptSet(l.host), OptSet(l.gc), SealedSet(l.spot));
    SizesMatch(l);
  }

  lemma ActiveMembers(l: Log)
    requires LogOk(l, None)
    ensures Listed(l.free, l.spot, Pool)
    ensures forall x: nat :: x in OptSet(l.host) <==> x < |l.spot| && l.spot[x] == Host
    ensures forall x: nat :: x in OptSet(l.gc) <==> x < |l.spot| && l.spot[x] == Gc
    ensures forall x: nat :: x < |l.spot| ==> l.spot[x] != Hand
  {
    hide Listed, SegsOk, MapOk, TimesOk, UseOk;
  }

  lemma FourSpots(spot: seq<Spot>, pool: set<nat>, host: set<nat>, gc: set<nat>, sealed: set<nat>)
    requires forall x: nat :: x in pool <==> x < |spot| && spot[x] == Pool
    requires forall x: nat :: x in host <==> x < |spot| && spot[x] == Host
    requires forall x: nat :: x in gc <==> x < |spot| && spot[x] == Gc
    requires forall x: nat :: x in sealed <==> x < |spot| && spot[x] == Sealed
    requires forall x: nat :: x < |spot| ==> spot[x] != Hand
    ensures pool !! host && pool !! gc && pool !! sealed && host !! gc && host !! sealed && gc !! sealed
    ensures Range(|spot|) == pool + (host + (gc + sealed))
  {
    var all := pool + (host + (gc + sealed));
    forall x: nat ensures x in Range(|spot|) <==> x in all {
      if x < |spot| { assert spot[x] == Pool || spot[x] == Host || spot[x] == Gc || spot[x] == Sealed; }
    }
  }

  lemma SizesMatch(l: Log)
    requires LogOk(l, None)
    ensures |l.segs| == |l.spot|
  {}

  /** All segments that are neither pooled nor active are sealed. */
  lemma SealedCount(l: Log)
    requires LogOk(l, None)
    ensures |l.segs| == |l.free| + |OptSet(l.host)| + |OptSet(l.gc)| + |SealedSet(l.spot)|
  {
    hide LogOk, OptSet, SealedSet, ToSet;
    SpotSets(l);
    DisjointSizes(ToSet(l.free, |l.free|), OptSet(l.host), OptSet(l.gc), SealedSet(l.spot));
  }

  lemma DisjointSizes(a: set<nat>, b: set<nat>, c: set<nat>, d: set<nat>)
    requires a !! b && a !! c && a !! d && b !! c && b !! d && c !! d
    ensures |a + (b + (c + d))| == |a| + |b| + |c| + |d|
  {
    assert a !! (b + (c + d)) && b !! (c + d);
  }

  /** Some segment is sealed exactly when not all are pooled or active. */
  lemma SomeSealed(l: Log)
    requires LogOk(l, None)
    ensures SealedSet(l.spot) != {} <==> |l.segs| > |l.free| + |OptSet(l.host)| + |OptSet(l.gc)|
  {
    SealedCount(l);
  }

  /** Blocks whose age is at least the threshold, among a segment's first n. */
  ghost function Aged(s: Segment, n: nat, now: nat, threshold: nat): set<nat>
    requires n <= |s.blocks|
  {
    set i | 0 <= i < n && s.blocks[i].valid && now - s.blocks[i].ts >= threshold :: s.blocks[i].key
  }

  lemma AgedStart(m: map<nat, nat>, s: Segment, now: nat, threshold: nat)
    ensures m - Aged(s, 0, now, threshold) == m
  {}

  /** What a sweep that drops the aged blocks leaves after one more block. */
  lemma AgedStep(m: map<nat, nat>, s: Segment, i: nat, now: nat, threshold: nat)
    requires i < |s.blocks|
    ensures m - Aged(s, i + 1, now, threshold) ==
            if s.blocks[i].valid && now - s.blocks[i].ts >= threshold then (m - Aged(s, i, now, threshold)) - {s.blocks[i].key}
            else m - Aged(s, i, now, threshold)
  {
    if s.blocks[i].valid && now - s.blocks[i].ts >= threshold {
      assert Aged(s, i + 1, now, threshold) == Aged(s, i, now, threshold) + {s.blocks[i].key};
    } else {
      assert Aged(s, i + 1, now, threshold) == Aged(s, i, now, threshold);
    }
  }

  lemma AgedNone(s: Segment, size: nat, now: nat, threshold: nat)
    requires SegOk(s, size) && s.validCnt == 0
    ensures Aged(s, size, now, threshold) == {}
  {
    NoneValid(s, size);
  }

  // ---- opening and sealing segments ----

  /** The first pooled segment, reset and stamped, becomes an active one. */
  ghost function NewlyActive(l: Log, forGc: bool): Log
    requires l.free != [] && l.free[0] < |l.segs| && l.free[0] < |l.spot|
  {
    var x := l.free[0];
    l.(free := l.free[1..], segs := l.segs[x := Reset(l.segs[x]).(createTs := l.now)],
       spot := l.spot[x := if forGc then Gc else Host],
       host := if forGc then l.host else Some(x), gc := if forGc then Some(x) else l.gc)
  }

  lemma OpenedSpots(l: Log, forGc: bool, hand: Option<nat>)
    requires SpotsOk(l, hand) && l.free != [] && |l.segs| == |l.spot|
    requires if forGc then l.gc.None? else l.host.None?
    ensures SpotsOk(NewlyActive(l, forGc), hand)
  {
    var x := l.free[0];
    var q := if forGc then Gc else Host;
    ListedPop(l.free, l.spot, Pool, q);
    OnlyOther(hand, l.spot, x, Hand, q);
    hide Listed;
    if forGc {
      OnlyOther(l.host, l.spot, x, Host, q);
    } else {
      OnlyOther(l.gc, l.spot, x, Gc, q);
    }
  }

  lemma FreshTimes(s: Segment, now: nat)
    ensures SegTimes(Reset(s).(createTs := now), now)
  {}

  lemma StepOpen(l: Log, forGc: bool, hand: Option<nat>)
    requires LogOk(l, hand) && l.free != []
    requires if forGc then l.gc.None? else l.host.None?
    ensures l.free[0] < |l.segs| && l.free[0] < |l.spot| && l.spot[l.free[0]] == Pool
    ensures LogOk(NewlyActive(l, forGc), hand) && Held(NewlyActive(l, forGc)) == Held(l)
    ensures SealedSet(NewlyActive(l, forGc).spot) == SealedSet(l.spot)
  {
    hide SegsOk, MapOk, SpotsOk, Cached, Reset;
    Shape(l, hand);
    var x := l.free[0];
    SegmentAt(l, hand, x);
    UnhandSeg(l, hand, x);
    NoneValid(l.segs[x], l.size);
    ResetOk(l.segs[x], l.size);
    var s := Reset(l.segs[x]).(createTs := l.now);
    ResetFacts(l.segs[x]);
    HeaderOk(Reset(l.segs[x]), l.size, l.now);
    SegsUpdate(l.segs, l.size, hand, x, s);
    FreshTimes(l.segs[x], l.now);
    MapReplaceEmpty(l.segs, l.mapping, x, s);
    OpenedSpots(l, forGc, hand);
  }

  lemma UnhandSeg(l: Log, hand: Option<nat>, x: nat)
    requires LogOk(l, hand) && x < |l.segs| && x < |l.spot| && l.spot[x] == Pool
    ensures Some(x) != hand && SegOk(l.segs[x], l.size) && l.segs[x].validCnt == 0
  {
    AtSeg(l.segs, l.size, hand, x);
  }

  lemma ResetFacts(s: Segment)
    ensures |Reset(s).blocks| == |s.blocks| && Reset(s).writePtr == 0 && Reset(s).validCnt == 0
    ensures forall i :: 0 <= i < |s.blocks| ==> !Reset(s).blocks[i].valid
  {}

  lemma HeaderOk(s: Segment, size: nat, ts: nat)
    requires SegOk(s, size)
    ensures SegOk(s.(createTs := ts), size)
  {}

  /** A full active segment goes up for eviction. */
  ghost function Closed(l: Log, forGc: bool): Log
    requires if forGc then l.gc.Some? && l.gc.value < |l.spot| else l.host.Some? && l.host.value < |l.spot|
  {
    if forGc then l.(gc := None, spot := l.spot[l.gc.value := Sealed])
    else l.(host := None, spot := l.spot[l.host.value := Sealed])
  }

  lemma StepClose(l: Log, forGc: bool, hand: Option<nat>)
    requires LogOk(l, hand)
    requires var active := if forGc then l.gc else l.host;
             active.Some? && active.value < |l.segs| && l.segs[active.value].writePtr >= l.size
    ensures var active := if forGc then l.gc else l.host;
            && active.value < |l.spot| && LogOk(Closed(l, forGc), hand) && Held(Closed(l, forGc)) == Held(l)
            && SealedSet(Closed(l, forGc).spot) == SealedSet(l.spot) + {active.value}
  {
    hide MapOk, Cached, TimesOk;
    Shape(l, hand);
    var x := if forGc then l.gc.value else l.host.value;
    SegmentAt(l, hand, x);
    ListedOther(l.free, l.spot, x, Pool, Sealed);
    hide Listed, SegsOk;
  }

  // ---- host writes ----

  /** A host block appended to the host's active segment y. */
  ghost function Stored(l: Log, y: nat, key: nat): Log
    requires y < |l.segs| && l.segs[y].writePtr < |l.segs[y].blocks|
  {
    l.(segs := l.segs[y := Appended(l.segs[y], key, l.now)], mapping := l.mapping[key := Loc(y, l.segs[y].writePtr)],
       validBlocks := l.validBlocks + 1, now := l.now + 1)
  }

  lemma StepWrite(l: Log, key: nat)
    requires LogOk(l, None) && key !in l.mapping
    requires l.host.Some? && l.host.value < |l.segs| && l.segs[l.host.value].writePtr < l.size
    ensures var y := l.host.value;
            && |l.segs[y].blocks| == l.size
            && LogOk(Stored(l, y, key), None) && Held(Stored(l, y, key)) == Held(l)[key := l.now]
  {
    hide MapOk, Cached, Listed, SegsOk;
    Shape(l, None);
    var y := l.host.value;
    SegmentAt(l, None, y);
    AppendedOk(l.segs[y], l.size, key, l.now);
    SegsUpdate(l.segs, l.size, None, y, Appended(l.segs[y], key, l.now));
    MapAppend(l.segs, l.mapping, y, key, l.now);
    AppendedTimes(l.segs[y], key, l.now);
    TimesLater(l.segs, l.now);
  }

  lemma AppendedTimes(s: Segment, key: nat, now: nat)
    requires SegTimes(s, now) && s.writePtr < |s.blocks|
    ensures SegTimes(Appended(s, key, now), now + 1)
  {}

  lemma TimesLater(segs: seq<Segment>, now: nat)
    requires TimesOk(segs, now)
    ensures TimesOk(segs, now + 1)
  {
    forall x | 0 <= x < |segs| ensures SegTimes(segs[x], now + 1) {
      assert SegTimes(segs[x], now);
    }
  }

  /** The cached block of a key forgotten. */
  ghost function Forgotten(l: Log, key: nat): Log
    requires key in l.mapping && var loc := l.mapping[key]; loc.seg < |l.segs| && loc.idx < |l.segs[loc.seg].blocks| && l.segs[loc.seg].validCnt > 0
  {
    var loc := l.mapping[key];
    l.(segs := l.segs[loc.seg := Invalidated(l.segs[loc.seg], loc.idx)], mapping := l.mapping - {key}, validBlocks := l.validBlocks - 1)
  }

  lemma StepForget(l: Log, key: nat)
    requires LogOk(l, None) && key in l.mapping
    ensures var loc := l.mapping[key];
            && loc.seg < |l.segs| && loc.idx < |l.segs[loc.seg].blocks| && l.segs[loc.seg].blocks[loc.idx].valid
            && l.segs[loc.seg].validCnt > 0
            && LogOk(Forgotten(l, key), None) && Held(Forgotten(l, key)) == Held(l) - {key}
  {
    hide MapOk, Cached, Listed, SegsOk;
    Shape(l, None);
    MappedSlot(l.segs, l.mapping, key);
    var loc := l.mapping[key];
    SegmentAt(l, None, loc.seg);
    SlotInvalidatedOk(l.segs[loc.seg], l.size, loc.idx);
    SegsUpdate(l.segs, l.size, None, loc.seg, Invalidated(l.segs[loc.seg], loc.idx));
    MapUnset(l.segs, l.mapping, key, Invalidated(l.segs[loc.seg], loc.idx));
    UnsetTimes(l.segs[loc.seg], loc.idx, l.now);
    SizeWithout(l.mapping, key);
  }

  lemma UnsetTimes(s: Segment, i: nat, now: nat)
    requires SegTimes(s, now) && i < |s.blocks|
    ensures SegTimes(Unset(s, i), now)
    ensures s.validCnt > 0 ==> SegTimes(Invalidated(s, i), now)
  {}

  lemma SizeWithout(m: map<nat, Loc>, key: nat)
    requires key in m
    ensures |m - {key}| == |m| - 1
  {
    assert (m - {key}).Keys == m.Keys - {key};
    assert |(m - {key}).Keys| == |m - {key}| && |m.Keys| == |m|;
  }

  // ---- victims ----

  lemma StepTake(l: Log, x: nat)
    requires LogOk(l, None) && x in SealedSet(l.spot)
    ensures x < |l.segs| && |l.segs| == |l.spot| && SegOk(l.segs[x], l.size) && SegTimes(l.segs[x], l.now)
    ensures var l' := l.(spot := l.spot[x := Hand]);
            && LogOk(l', Some(x)) && Held(l') == Held(l) && SealedSet(l'.spot) == SealedSet(l.spot) - {x}
  {
    hide MapOk, Cached, TimesOk;
    Shape(l, None);
    SegmentAt(l, None, x);
    ListedOther(l.free, l.spot, x, Pool, Hand);
    hide Listed;
    forall y | 0 <= y < |l.segs|
      ensures if Some(y) == Some(x) then |l.segs[y].blocks| == l.size else SegOk(l.segs[y], l.size)
    {}
  }

  /** A valid block of the victim forgotten; it now belongs to the cold tier. */
  ghost function Dropped(l: Log, x: nat, i: nat): Log
    requires x < |l.segs| && i < |l.segs[x].blocks|
  {
    l.(segs := l.segs[x := Unset(l.segs[x], i)], mapping := l.mapping - {l.segs[x].blocks[i].key}, validBlocks := l.validBlocks - 1)
  }

  lemma SegsHandUpdate(segs: seq<Segment>, size: nat, x: nat, s: Segment)
    requires SegsOk(segs, size, Some(x)) && x < |segs| && |s.blocks| == size
    ensures SegsOk(segs[x := s], size, Some(x))
  {}

  lemma StepDrop(l: Log, x: nat, i: nat)
    requires LogOk(l, Some(x)) && x < |l.segs| && i < |l.segs[x].blocks| && l.segs[x].blocks[i].valid
    ensures var b := l.segs[x].blocks[i];
            && b.key in l.mapping && b.key in Held(l) && Held(l)[b.key] == b.ts
            && LogOk(Dropped(l, x, i), Some(x)) && Held(Dropped(l, x, i)) == Held(l) - {b.key}
  {
    hide MapOk, Cached, Listed, SegsOk;
    Shape(l, Some(x));
    SegmentAt(l, Some(x), x);
    var b := l.segs[x].blocks[i];
    ValidSlot(l.segs, l.mapping, Loc(x, i));
    MapUnset(l.segs, l.mapping, b.key, Unset(l.segs[x], i));
    SegsHandUpdate(l.segs, l.size, x, Unset(l.segs[x], i));
    UnsetTimes(l.segs[x], i, l.now);
    SizeWithout(l.mapping, b.key);
  }

  /** A segment with its creation time lowered to a block it is about to receive. */
  ghost function Aging(s: Segment, ts: nat): Segment {
    if s.createTs > ts then s.(createTs := ts) else s
  }

  /** A valid block of the victim moved, unchanged, to the end of segment y. */
  ghost function Moved(l: Log, x: nat, i: nat, y: nat): Log
    requires x < |l.segs| && i < |l.segs[x].blocks| && y < |l.segs| && l.segs[y].writePtr < |l.segs[y].blocks|
  {
    var b := l.segs[x].blocks[i];
    l.(segs := l.segs[y := Appended(Aging(l.segs[y], b.ts), b.key, b.ts)][x := Unset(l.segs[x], i)],
       mapping := l.mapping[b.key := Loc(y, l.segs[y].writePtr)])
  }

  lemma MovedTimes(s: Segment, key: nat, ts: nat, now: nat)
    requires SegTimes(s, now) && s.writePtr < |s.blocks| && ts < now
    ensures SegTimes(Appended(Aging(s, ts), key, ts), now)
  {}

  lemma MovedSegs(l: Log, x: nat, i: nat, y: nat)
    requires LogOk(l, Some(x)) && x < |l.segs| && i < |l.segs[x].blocks| && l.segs[x].blocks[i].valid
    requires y < |l.segs| && y != x && l.segs[y].writePtr < l.size
    ensures |l.segs[y].blocks| == l.size && SegsOk(Moved(l, x, i, y).segs, l.size, Some(x)) && TimesOk(Moved(l, x, i, y).segs, l.now)
  {
    hide MapOk, SpotsOk, Unset;
    SegmentAt(l, Some(x), x);
    SegmentAt(l, Some(x), y);
    var b := l.segs[x].blocks[i];
    var s := Aging(l.segs[y], b.ts);
    HeaderOk(l.segs[y], l.size, b.ts);
    AppendedOk(s, l.size, b.key, b.ts);
    MovedTimes(l.segs[y], b.key, b.ts, l.now);
    hide SegsOk, SegTimes;
    SegsUpdate(l.segs, l.size, Some(x), y, Appended(s, b.key, b.ts));
    var mid := l.segs[y := Appended(s, b.key, b.ts)];
    SegsHandUpdate(mid, l.size, x, Unset(l.segs[x], i));
    UnsetTimes(l.segs[x], i, l.now);
  }

  lemma StepMove(l: Log, x: nat, i: nat)
    requires LogOk(l, Some(x)) && x < |l.segs| && i < |l.segs[x].blocks| && l.segs[x].blocks[i].valid
    requires l.gc.Some? && l.gc.value < |l.segs| && l.segs[l.gc.value].writePtr < l.size
    ensures var y := l.gc.value;
            && y != x && |l.segs[y].blocks| == l.size
            && LogOk(Moved(l, x, i, y), Some(x)) && Held(Moved(l, x, i, y)) == Held(l)
            && Moved(l, x, i, y).mapping.Keys == l.mapping.Keys
  {
    hide MapOk, Cached, Listed, SegsOk, TimesOk;
    Shape(l, Some(x));
    var y := l.gc.value;
    MovedSegs(l, x, i, y);
    MovedMap(l, x, i, y);
  }

  lemma MovedMap(l: Log, x: nat, i: nat, y: nat)
    requires LogOk(l, Some(x)) && x < |l.segs| && i < |l.segs[x].blocks| && l.segs[x].blocks[i].valid
    requires y < |l.segs| && y != x && l.segs[y].writePtr < l.size && |l.segs[y].blocks| == l.size
    requires l.spot[y] != Pool
    ensures var l' := Moved(l, x, i, y);
            MapOk(l'.segs, l'.mapping) && Held(l') == Held(l) && l'.mapping.Keys == l.mapping.Keys && |l'.mapping| == |l.mapping|
  {
    hide MapOk, Cached, Unset, SpotsOk, TimesOk;
    SegmentAt(l, Some(x), y);
    var b := l.segs[x].blocks[i];
    var mid := l.segs[y := Aging(l.segs[y], b.ts)];
    ValidSlot(l.segs, l.mapping, Loc(x, i));
    MapHeader(l.segs, l.mapping, y, Aging(l.segs[y], b.ts));
    MapMove(mid, l.mapping, b.key, y, Unset(l.segs[x], i));
    hide SegsOk;
    assert mid[y := Appended(mid[y], b.key, b.ts)] == l.segs[y := Appended(Aging(l.segs[y], b.ts), b.key, b.ts)];
    assert |Moved(l, x, i, y).mapping.Keys| == |Moved(l, x, i, y).mapping| && |l.mapping.Keys| == |l.mapping|;
  }

  /** The emptied victim back in the pool. */
  ghost function Recycled(l: Log, x: nat): Log
    requires x < |l.segs| && x < |l.spot|
  {
    l.(segs := l.segs[x := l.segs[x].(validCnt := 0, writePtr := 0)], free := l.free + [x], spot := l.spot[x := Pool])
  }

  lemma StepRecycle(l: Log, x: nat)
    requires LogOk(l, Some(x)) && x < |l.segs| && forall i :: 0 <= i < |l.segs[x].blocks| ==> !l.segs[x].blocks[i].valid
    ensures x < |l.spot| && LogOk(Recycled(l, x), None) && Held(Recycled(l, x)) == Held(l)
    ensures SealedSet(Recycled(l, x).spot) == SealedSet(l.spot)
  {
    hide MapOk, Cached, Listed, SegsOk;
    Shape(l, Some(x));
    SegmentAt(l, Some(x), x);
    var s := l.segs[x].(validCnt := 0, writePtr := 0);
    CountValidZero(s.blocks, l.size);
    SegsUpdate(l.segs, l.size, Some(x), x, s);
    MapHeader(l.segs, l.mapping, x, s);
    ListedAppend(l.free, l.spot, x, Pool);
  }

  // ---- a host write as a whole ----

  ghost predicate HostFull(l: Log) {
    l.host.Some? && l.host.value < |l.segs| && l.segs[l.host.value].writePtr >= l.size
  }

  /** A fresh segment for the host if its active one is full. */
  ghost function Rolled(l: Log): Log {
    if HostFull(l) && l.host.value < |l.spot| && l.free != [] && l.free[0] < |l.segs| && l.free[0] < |l.spot|
    then NewlyActive(Closed(l, false), false) else l
  }

  /** The key's cached block, if there is one, forgotten. */
  ghost function Superseded(l: Log, key: nat): Log {
    if key in l.mapping && var loc := l.mapping[key]; loc.seg < |l.segs| && loc.idx < |l.segs[loc.seg].blocks| && l.segs[loc.seg].validCnt > 0
    then Forgotten(l, key) else l
  }

  ghost function Extended(l: Log, key: nat): Log {
    if l.host.Some? && l.host.value < |l.segs| && l.segs[l.host.value].writePtr < |l.segs[l.host.value].blocks|
    then Stored(l, l.host.value, key) else l
  }

  /** The log after a host write of one block that needed no collection to find room. */
  ghost function Placed(l: Log, key: nat): Log {
    Extended(Superseded(Rolled(l), key), key)
  }

  // ---- sweeping the victim ----

  /** The sweep over a victim, s0 at the start, has dealt with its first i blocks. */
  ghost predicate SweptTo(s: Segment, s0: Segment, i: nat) {
    && i <= |s.blocks| == |s0.blocks| && s.createTs == s0.createTs
    && (forall j :: 0 <= j < i ==> !s.blocks[j].valid)
    && (forall j :: i <= j < |s.blocks| ==> s.blocks[j] == s0.blocks[j])
  }

  lemma SweptStart(s: Segment)
    ensures SweptTo(s, s, 0)
  {}

  lemma SweptNext(s: Segment, s0: Segment, i: nat)
    requires SweptTo(s, s0, i) && i < |s.blocks|
    ensures s.blocks[i] == s0.blocks[i]
    ensures !s.blocks[i].valid ==> SweptTo(s, s0, i + 1)
    ensures SweptTo(Unset(s, i), s0, i + 1)
  {}

  lemma SweptAll(s: Segment, s0: Segment, size: nat)
    requires SweptTo(s, s0, size) && |s.blocks| == size
    ensures forall j :: 0 <= j < |s.blocks| ==> !s.blocks[j].valid
  {}

  /** The victim is its own segment, and its blocks were written before now. */
  lemma VictimFacts(l: Log, x: nat)
    requires LogOk(l, Some(x))
    ensures x < |l.segs| && |l.segs[x].blocks| == l.size && l.host != Some(x) && l.gc != Some(x)
    ensures forall i :: 0 <= i < l.size && l.segs[x].blocks[i].valid ==> l.segs[x].blocks[i].ts < l.now
  {
    Shape(l, Some(x));
    SegmentAt(l, Some(x), x);
  }

  // ---- what a round of collection may not touch, and what it gains ----

  /** The host's active segment, the clock and the dimensions stay as they are. */
  ghost predicate HostKept(l: Log, l': Log) {
    && l'.size == l.size && l'.now == l.now && |l'.segs| == |l.segs| && l'.host == l.host
    && (l.host.Some? && l.host.value < |l.segs| ==> l'.segs[l.host.value] == l.segs[l.host.value])
  }

  lemma HostKeptTransitive(l1: Log, l2: Log, l3: Log)
    requires HostKept(l1, l2) && HostKept(l2, l3)
    ensures HostKept(l1, l3)
  {}

  /** Room left in the segment that receives compacted blocks. */
  ghost function Room(l: Log): nat {
    if l.gc.Some? && l.gc.value < |l.segs| && l.segs[l.gc.value].writePtr < l.size then l.size - l.segs[l.gc.value].writePtr else 0
  }

  lemma RoomBound(l: Log)
    ensures Room(l) <= l.size
  {}

  /** Changing the victim and its whereabouts affects neither active segment. */
  lemma VictimOnly(l: Log, l': Log, x: nat)
    requires x < |l.segs| == |l'.segs| && l'.segs == l.segs[x := l'.segs[x]]
    requires l'.size == l.size && l'.now == l.now && l'.host == l.host && l'.gc == l.gc && l.host != Some(x) && l.gc != Some(x)
    ensures HostKept(l, l') && Room(l') == Room(l)
  {}

  /** Replacing a full receiving segment by a fresh one. */
  lemma Reopened(l: Log, x: nat)
    requires LogOk(l, Some(x)) && l.gc.None? && l.free != []
    ensures l.free[0] < |l.segs| && l.free[0] < |l.spot|
    ensures var l' := NewlyActive(l, true);
            && HostKept(l, l') && Room(l') == l.size && |l'.free| == |l.free| - 1
            && l.free[0] != x && x < |l'.segs| && l'.segs[x] == l.segs[x]
            && l'.gc == Some(l.free[0]) && l'.segs[l.free[0]].writePtr == 0
  {
    hide SegsOk, MapOk;
    Shape(l, Some(x));
  }

  lemma ReceiverFacts(l: Log, x: nat)
    requires LogOk(l, Some(x)) && l.gc.Some?
    ensures l.gc.value < |l.segs| && l.gc.value < |l.spot| && l.gc.value != x && x < |l.segs| && l.gc != l.host
    ensures Room(l) == l.size - l.segs[l.gc.value].writePtr
  {
    hide MapOk;
    Shape(l, Some(x));
    SegmentAt(l, Some(x), l.gc.value);
  }

  lemma MovedFacts(l: Log, x: nat, i: nat, y: nat)
    requires x < |l.segs| && i < |l.segs[x].blocks| && l.gc == Some(y) && l.host != Some(x) && l.host != l.gc
    requires y < |l.segs| && y != x && l.segs[y].writePtr < l.size == |l.segs[y].blocks|
    ensures var l' := Moved(l, x, i, y);
            HostKept(l, l') && Room(l') == Room(l) - 1 && l'.free == l.free && x < |l'.segs| && l'.segs[x] == Unset(l.segs[x], i)
            && l'.gc == l.gc
  {}

  /** A round gains a free segment, or else room for compacted blocks. */
  ghost predicate Gains(l: Log, l': Log) {
    |l'.free| > |l.free| || (|l'.free| == |l.free| && Room(l') > Room(l))
  }

  // ---- the counters agree ----

  /** The cache's block counter, the size of its key map and the segments' counters agree. */
  lemma CountersAgree(l: Log)
    requires LogOk(l, None)
    ensures l.validBlocks == |l.mapping| == SumValid(l.segs, |l.segs|)
  {
    MappedIsValid(l.segs, l.size, l.mapping);
  }
}
