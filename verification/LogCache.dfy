/** The log-structured cache with eviction and compaction: one stream of host writes, one
    stream of compacted blocks, two victim policies over the same sealed segments, and a
    cold flash tier behind. How segments are scored and how the target share of valid blocks
    moves are left open: any functions, any rates. */
module LogCaching {
  import opened Counting
  import opened FlashPages
  import opened Ftl
  import opened TwoTiers
  import opened CostBenefit
  import opened LogSegments
  import opened LogCacheState

  /** Free segments at which collection is due at once, and at which it may be done early. */
  const EMERGENCY: nat := 3
  const PROACTIVE: nat := 10

  /** Fewer segments than this can all be pooled or active when a victim is wanted. */
  const ENOUGH_SEGMENTS: nat := PROACTIVE + 3

  type ScoreFunction = (Segment, nat, nat) -> real

  /** A policy lists the sealed segments, and perhaps the victim in hand. */
  ghost predicate Tracks(keys: set<nat>, spot: seq<Spot>, hand: Option<nat>) {
    keys - OptSet(hand) == SealedSet(spot)
  }

  function ScoreOf(f: ScoreFunction, segs: seq<Segment>, now: nat, threshold: nat): nat -> real {
    (x: nat) => if x < |segs| then f(segs[x], now, threshold) else 0.0
  }

  /** What a policy's scores become when segment x is listed: an old score stays. */
  ghost function Noted(scores: map<nat, real>, x: nat, score: real): (r: map<nat, real>)
    ensures r.Keys == scores.Keys + {x}
  {
    if x in scores then scores else scores[x := score]
  }

  /** What they become when its score is brought up to date. */
  ghost function Renewed(scores: map<nat, real>, x: nat, score: real): (r: map<nat, real>)
    ensures r.Keys == scores.Keys
  {
    if x in scores then scores[x := score] else scores
  }

  /** A victim more than 95% valid is not worth compacting. */
  ghost predicate TooFull(s: Segment, size: nat) {
    s.validCnt as real > 0.95 * size as real
  }

  /** Fewer blocks are valid than the target, which is at least a tenth, asks for. */
  ghost predicate Wanting(rate: real, capacity: int, validBlocks: int) {
    rate >= 0.1 && rate * capacity as real > validBlocks as real
  }

  lemma RoundFacts(l: Log, l': Log, v: nat, age: nat)
    requires RoundDone(l, l', v, age)
    ensures HostKept(l, l') && |l.free| <= |l'.free| <= |l.free| + 1
    ensures |l'.free| > |l.free| || (|l'.free| == |l.free| && Room(l') > Room(l))
  {}

  /** What a round of collection keeps and gains, and the one victim it lost blocks of. */
  ghost predicate RoundDone(l: Log, l': Log, v: nat, age: nat) {
    && HostKept(l, l') && |l.free| <= |l'.free| <= |l.free| + 1 && Gains(l, l')
    && v in SealedSet(l.spot) && v < |l.segs| && |l.segs[v].blocks| == l.size
    && Held(l') == Held(l) - Aged(l.segs[v], l.size, l.now, age)
  }

  /** What the mode of a round decides: in compaction mode a choice that is neither empty
      nor too full is compacted, and anything else evicted outright. A first compaction
      takes one segment from the pool and returns one. */
  ghost predicate ModeOk(l: Log, l': Log, compacting: bool, v: nat, age: nat, choice: nat) {
    && (!compacting ==> age == 0 && v == choice)
    && (compacting ==>
          && choice in SealedSet(l.spot) && choice < |l.segs|
          && (l.segs[choice].validCnt == 0 || TooFull(l.segs[choice], l.size) <==> age == 0)
          && (l.segs[choice].validCnt == 0 || !TooFull(l.segs[choice], l.size) ==> v == choice))
    && (age > 0 && l.gc.None? ==> l'.gc.Some? && |l'.free| == |l.free|)
  }

  /** The effect of the one round that collection with one victim makes when there is no
      emergency. */
  ghost predicate OneRound(l: Log, l': Log, compacting: bool) {
    exists v, age, choice :: RoundDone(l, l', v, age) && ModeOk(l, l', compacting, v, age, choice)
  }

  lemma RoundShown(l: Log, l': Log, compacting: bool, v: nat, age: nat, choice: nat)
    requires RoundDone(l, l', v, age)
    ensures ModeOk(l, l', compacting, v, age, choice) ==> OneRound(l, l', compacting)
    ensures |l'.free| >= |l.free|
  {}

  /** The collection a write of one block ends with. With six segments or more it succeeds
      just when it is not due or there is a sealed segment. */
  ghost predicate Collected(l: Log, l': Log, ok: bool, compacting: bool) {
    if l.size > 1 && l.now % (l.size / 2) == 0 && |l.free| <= PROACTIVE then
      && (SealedSet(l.spot) == {} ==> !ok)
      && (SealedSet(l.spot) != {} && |l.segs| >= EMERGENCY + 3 ==> ok)
      && (SealedSet(l.spot) != {} && |l.free| > EMERGENCY ==> ok && OneRound(l, l', compacting))
    else ok && l' == l
  }

  /** One block of a batch: the state with the block in place, and the one after the collection
      it may end with. Where the host's segment has room or more than three are free, the
      placing is all that happens before. */
  ghost predicate BlockDone(l: Log, step: (Log, Log), ok: bool, key: nat, rate: real, capacity: int) {
    && key in step.0.mapping && step.0.host == Some(step.0.mapping[key].seg)
    && (!HostFull(l) || |l.free| > EMERGENCY ==> step.0 == Placed(l, key))
    && Collected(step.0, step.1, ok, Wanting(rate, capacity, step.0.validBlocks))
  }

  /** The state before the block with index i. */
  ghost function StateAt(start: Log, steps: seq<(Log, Log)>, i: nat): Log
    requires i <= |steps|
  {
    if i == 0 then start else steps[i - 1].1
  }

  /** Each block of a batch so far, one after the other; all but perhaps the last succeed. */
  ghost predicate Steps(start: Log, steps: seq<(Log, Log)>, ok: bool, blocks: seq<(nat, nat)>, rates: seq<real>, capacity: int) {
    && |steps| <= |blocks| == |rates|
    && forall i :: 0 <= i < |steps| ==>
                     BlockDone(StateAt(start, steps, i), steps[i], i < |steps| - 1 || ok, blocks[i].0, rates[i], capacity)
  }

  /** ... and so does the last one, if the batch did. */
  ghost predicate StepsDone(start: Log, steps: seq<(Log, Log)>, ok: bool, blocks: seq<(nat, nat)>, rates: seq<real>, capacity: int) {
    exists last :: (ok ==> last) && Steps(start, steps, last, blocks, rates, capacity)
  }

  lemma StepsEnd(start: Log, steps: seq<(Log, Log)>, last: bool, ok: bool, blocks: seq<(nat, nat)>, rates: seq<real>, capacity: int)
    requires Steps(start, steps, last, blocks, rates, capacity) && (ok ==> last)
    ensures StepsDone(start, steps, ok, blocks, rates, capacity)
  {
    hide Steps;
  }

  lemma StepsNone(start: Log, blocks: seq<(nat, nat)>, rates: seq<real>, capacity: int)
    requires |blocks| == |rates|
    ensures Steps(start, [], true, blocks, rates, capacity) && StateAt(start, [], 0) == start
    ensures Steps(start, [], false, blocks, rates, capacity)
  {}

  lemma StepsMore(start: Log, steps: seq<(Log, Log)>, step: (Log, Log), ok: bool, blocks: seq<(nat, nat)>, rates: seq<real>, capacity: int)
    requires Steps(start, steps, true, blocks, rates, capacity) && |steps| < |blocks|
    requires BlockDone(StateAt(start, steps, |steps|), step, ok, blocks[|steps|].0, rates[|steps|], capacity)
    ensures Steps(start, steps + [step], ok, blocks, rates, capacity)
    ensures StateAt(start, steps + [step], |steps| + 1) == step.1
  {
    hide BlockDone;
    forall i | 0 <= i <= |steps| ensures StateAt(start, steps + [step], i) == StateAt(start, steps, i) {}
  }

  class LogCache {
    const segmentSize: nat
    const totalSegments: nat
    const evictScore: ScoreFunction
    const compactScore: ScoreFunction
    const evictor: CbEvictPolicy
    const compactor: CbEvictPolicy
    const cold: PageMappingFtl
    var segs: seq<Segment>
    var mapping: map<nat, Loc>
    var freePool: seq<nat>
    var activeSeg: Option<nat>
    var gcActiveSeg: Option<nat>
    var globalValidBlocks: int
    var timestamp: nat
    var targetRate: real
    var threshold: nat
    var gThreshold: nat
    ghost var spot: seq<Spot>

    ghost function State(): Log
      reads this
    {
      Log(segmentSize, segs, mapping, spot, freePool, activeSeg, gcActiveSeg, globalValidBlocks, timestamp)
    }

    /** Pages written to the cold tier, and blocks still cached: collection turns one into the
        other, page for block. */
    ghost function Paid(): int
      reads this`globalValidBlocks, cold
    {
      cold.hostWritePages + globalValidBlocks
    }

    /** How many blocks the cache has. */
    ghost function Blocks(): int {
      totalSegments * segmentSize
    }

    ghost predicate Policies(hand: Option<nat>)
      reads this, evictor, compactor
    {
      && evictor != compactor && evictor.Valid() && compactor.Valid()
      && Tracks(evictor.Scores().Keys, spot, hand) && Tracks(compactor.Scores().Keys, spot, hand)
    }

    /** Every key is cached or in the cold tier, not both, and the cold tier could take all. */
    ghost predicate Tiers()
      reads this, cold, cold.gcPolicy
    {
      cold.Valid() && TiersApart(mapping.Keys, cold.lpnToPpn.Keys, cold.Capacity())
    }

    /** The invariant, perhaps with a victim in hand. */
    ghost predicate Ok(hand: Option<nat>)
      reads this, evictor, compactor, cold, cold.gcPolicy
    {
      LogOk(State(), hand) && Policies(hand) && Tiers()
    }

    /** The timestamp of the last write of every key, wherever the key is. */
    ghost function Store(): map<nat, nat>
      reads this, cold
    {
      Held(State()) + cold.Contents()
    }

    constructor (segmentSize: nat, totalSegments: nat, evictScore: ScoreFunction, compactScore: ScoreFunction,
                 cacheBlocks: nat, targetRate: real, threshold: nat, cold: PageMappingFtl)
      requires segmentSize > 1
      requires cold.Valid() && |cold.lpnToPpn| <= cold.Capacity()
      ensures Ok(None) && Store() == cold.Contents()
      ensures this.segmentSize == segmentSize && this.totalSegments == totalSegments && this.cold == cold
      ensures |segs| == |freePool| == totalSegments && timestamp == 0
      ensures Valid() && State() == FreshLog(segmentSize, totalSegments) && SealedSet(spot) == {}
      ensures fresh(evictor) && fresh(compactor)
      ensures this.targetRate == targetRate && this.threshold == threshold && gThreshold == 2 * cacheBlocks
      ensures this.evictScore == evictScore && this.compactScore == compactScore
    {
      hide LogOk, Held, TiersApart, SealedSet, PageMappingFtl.Valid, PageMappingFtl.Contents,
           PageMappingFtl.Capacity, CbEvictPolicy.Valid, CbEvictPolicy.Scores, Tracks, FreshSegments;
      FreshLogOk(segmentSize, totalSegments);
      TracksAll({}, FreshLog(segmentSize, totalSegments).spot);
      EmptyCacheStore(Held(FreshLog(segmentSize, totalSegments)), {}, cold.Contents(), cold.lpnToPpn.Keys, cold.Capacity());
      this.segmentSize, this.totalSegments := segmentSize, totalSegments;
      this.evictScore, this.compactScore, this.cold := evictScore, compactScore, cold;
      this.targetRate, this.threshold, gThreshold := targetRate, threshold, 2 * cacheBlocks;
      evictor := new CbEvictPolicy();
      compactor := new CbEvictPolicy();
      var l := FreshLog(segmentSize, totalSegments);
      segs, mapping, freePool, spot := l.segs, l.mapping, l.free, l.spot;
      activeSeg, gcActiveSeg, globalValidBlocks, timestamp := l.host, l.gc, l.validBlocks, l.now;
      new;
    }

    // ---- victim policies ----

    /** The scores at this moment. */
    function Score(f: ScoreFunction): nat -> real
      reads this
    {
      ScoreOf(f, segs, timestamp, gThreshold)
    }

    /** Segment x's score at this moment. */
    ghost function ScoreNow(f: ScoreFunction, x: nat): real
      reads this
    {
      if x < |segs| then f(segs[x], timestamp, gThreshold) else 0.0
    }

    method EvictPolicyAdd(x: nat)
      requires evictor != compactor && evictor.Valid() && compactor.Valid()
      modifies evictor, compactor
      ensures evictor.Valid() && compactor.Valid()
      ensures evictor.Scores() == Noted(old(evictor.Scores()), x, ScoreNow(evictScore, x))
      ensures compactor.Scores() == Noted(old(compactor.Scores()), x, ScoreNow(compactScore, x))
    {
      evictor.Add(x, Score(evictScore));
      compactor.Add(x, Score(compactScore));
    }

    method EvictPolicyRemove(x: nat)
      requires evictor != compactor && evictor.Valid() && compactor.Valid()
      modifies evictor, compactor
      ensures evictor.Valid() && compactor.Valid()
      ensures evictor.Scores() == old(evictor.Scores()) - {x}
      ensures compactor.Scores() == old(compactor.Scores()) - {x}
    {
      evictor.Remove(x);
      compactor.Remove(x);
    }

    method EvictPolicyUpdate(x: nat)
      requires evictor != compactor && evictor.Valid() && compactor.Valid()
      modifies evictor, compactor
      ensures evictor.Valid() && compactor.Valid()
      ensures evictor.Scores() == Renewed(old(evictor.Scores()), x, ScoreNow(evictScore, x))
      ensures compactor.Scores() == Renewed(old(compactor.Scores()), x, ScoreNow(compactScore, x))
    {
      evictor.Update(x, Score(evictScore));
      compactor.Update(x, Score(compactScore));
    }

    // ---- active segments ----

    function Active(forGc: bool): Option<nat>
      reads this
    {
      if forGc then gcActiveSeg else activeSeg
    }

    /** Retires a full active segment to both policies. */
    method CloseActive(forGc: bool, ghost hand: Option<nat>)
      requires Ok(hand) && Active(forGc).Some?
      requires Active(forGc).value < |segs| && segs[Active(forGc).value].writePtr >= segmentSize
      modifies this`activeSeg, this`gcActiveSeg, this`spot, evictor, compactor
      ensures Ok(hand) && Store() == old(Store()) && Paid() == old(Paid()) && Held(State()) == old(Held(State()))
      ensures var x := old(Active(forGc)).value;
              && evictor.Scores() == Noted(old(evictor.Scores()), x, ScoreNow(evictScore, x))
              && compactor.Scores() == Noted(old(compactor.Scores()), x, ScoreNow(compactScore, x))
      ensures Active(forGc).None? && Active(!forGc) == old(Active(!forGc))
      ensures (if forGc then old(gcActiveSeg) else old(activeSeg)).value < old(|spot|) && State() == Closed(old(State()), forGc)
    {
      hide Paid, Noted, LogOk, Held, Tracks, TiersApart, SealedSet, Closed, CbEvictPolicy.Valid,
           CbEvictPolicy.Scores, PageMappingFtl.Valid, PageMappingFtl.Contents, PageMappingFtl.Capacity;
      StepClose(State(), forGc, hand);
      ClosedFacts(State(), forGc);
      var x := Active(forGc).value;
      TracksClosed(evictor.Scores().Keys, State(), forGc, hand);
      TracksClosed(compactor.Scores().Keys, State(), forGc, hand);
      EvictPolicyAdd(x);
      ForgetActive(forGc);
    }

    method ForgetActive(forGc: bool)
      requires Active(forGc).Some? && Active(forGc).value < |spot|
      modifies this`activeSeg, this`gcActiveSeg, this`spot
      ensures State() == Closed(old(State()), forGc)
    {
      spot := spot[Active(forGc).value := Sealed];
      if forGc {
        gcActiveSeg := None;
      } else {
        activeSeg := None;
      }
    }

    /** Makes the first pooled segment active: reset, and stamped with the time. */
    method OpenActive(forGc: bool, ghost hand: Option<nat>)
      requires Ok(hand) && Active(forGc).None? && freePool != []
      modifies this`activeSeg, this`gcActiveSeg, this`freePool, this`segs, this`spot
      ensures Ok(hand) && Store() == old(Store()) && Paid() == old(Paid()) && Held(State()) == old(Held(State()))
      ensures old(freePool[0]) < |segs| && old(freePool[0]) < old(|spot|) && old(spot[freePool[0]]) == Pool
      ensures State() == NewlyActive(old(State()), forGc)
    {
      hide Paid, LogOk, Held, Tracks, TiersApart, SealedSet, NewlyActive, CbEvictPolicy.Valid,
           CbEvictPolicy.Scores, PageMappingFtl.Valid, PageMappingFtl.Contents, PageMappingFtl.Capacity;
      StepOpen(State(), forGc, hand);
      OpenedFacts(State(), forGc);
      TracksOpened(evictor.Scores().Keys, State(), forGc, hand);
      TracksOpened(compactor.Scores().Keys, State(), forGc, hand);
      AllocSegment(forGc);
    }

    method AllocSegment(forGc: bool)
      requires freePool != [] && freePool[0] < |segs| && freePool[0] < |spot|
      modifies this`activeSeg, this`gcActiveSeg, this`freePool, this`segs, this`spot
      ensures State() == NewlyActive(old(State()), forGc)
    {
      var x := freePool[0];
      freePool := freePool[1..];
      segs := segs[x := Reset(segs[x]).(createTs := timestamp)];
      if forGc {
        gcActiveSeg := Some(x);
      } else {
        activeSeg := Some(x);
      }
      spot := spot[x := if forGc then Gc else Host];
    }

    // ---- the victim in hand ----

    /** Handing a block of the victim to the cold tier keeps the tiers apart. */
    lemma DropFits(x: nat, i: nat)
      requires Ok(Some(x)) && x < |segs| && i < |segs[x].blocks| && segs[x].blocks[i].valid
      ensures var blk := segs[x].blocks[i];
              && LogOk(Dropped(State(), x, i), Some(x))
              && Held(Dropped(State(), x, i)) == Held(State()) - {blk.key}
              && Held(Dropped(State(), x, i)) + Overwrite(cold.Contents(), {blk.key}, blk.ts) == Store()
              && Span(blk.key * NAND_PAGE_SIZE, NAND_PAGE_SIZE) == {blk.key}
              && blk.key * NAND_PAGE_SIZE % SECTOR_SIZE == 0
              && TiersApart(mapping.Keys - {blk.key}, cold.lpnToPpn.Keys + {blk.key}, cold.Capacity())
              && Demand(cold.lpnToPpn.Keys, {blk.key}) <= cold.Capacity()
    {
      hide LogOk, Held, Tracks, SealedSet, CbEvictPolicy.Valid, CbEvictPolicy.Scores, PageMappingFtl.Valid,
           PageMappingFtl.Contents, PageMappingFtl.Capacity, Policies, Overwrite, Dropped;
      StepDrop(State(), x, i);
      var blk := segs[x].blocks[i];
      BlockSpan(blk.key, NAND_PAGE_SIZE);
      ContentsKeys(cold);
      UnionMove(Held(State()), cold.Contents(), blk.key);
      KeyMoves(mapping.Keys, cold.lpnToPpn.Keys, blk.key, cold.Capacity());
    }

    /** Evicts one block of the victim: the cold tier, which has room, gets it. */
    method Evict(x: nat, i: nat)
      requires Ok(Some(x)) && x < |segs| && i < |segs[x].blocks| && segs[x].blocks[i].valid
      modifies this`segs, this`mapping, this`globalValidBlocks, cold, cold.gcPolicy
      ensures Ok(Some(x)) && Store() == old(Store()) && Paid() == old(Paid())
      ensures Held(State()) == old(Held(State())) - {old(segs[x].blocks[i].key)}
      ensures State() == Dropped(old(State()), x, i)
    {
      hide LogOk, Held, Tracks, TiersApart, SealedSet, CbEvictPolicy.Valid, CbEvictPolicy.Scores,
           PageMappingFtl.Valid, PageMappingFtl.Contents, PageMappingFtl.Capacity, Demand, Span, Overwrite,
           PageMappingFtl.Stuck, Dropped;
      DropFits(x, i);
      var blk := segs[x].blocks[i];
      assert |{blk.key}| == 1;
      var done := cold.Write(blk.key * NAND_PAGE_SIZE, NAND_PAGE_SIZE, blk.ts);
      assert done;
      DroppedFacts(State(), x, i);
      ForgetBlock(x, i);
    }

    method ForgetBlock(x: nat, i: nat)
      requires x < |segs| && i < |segs[x].blocks|
      modifies this`segs, this`mapping, this`globalValidBlocks
      ensures globalValidBlocks == old(globalValidBlocks) - 1
      ensures State() == Dropped(old(State()), x, i)
    {
      mapping := mapping - {segs[x].blocks[i].key};
      segs := segs[x := Unset(segs[x], i)];
      globalValidBlocks := globalValidBlocks - 1;
    }

    /** Returns an emptied victim to the pool and takes it off both policies. */
    method ResetSegment(x: nat)
      requires Ok(Some(x)) && x < |segs| && forall j :: 0 <= j < |segs[x].blocks| ==> !segs[x].blocks[j].valid
      modifies this`segs, this`freePool, this`spot, evictor, compactor
      ensures Ok(None) && Store() == old(Store()) && Paid() == old(Paid()) && Held(State()) == old(Held(State()))
      ensures evictor.Scores() == old(evictor.Scores()) - {x} && compactor.Scores() == old(compactor.Scores()) - {x}
      ensures x < old(|spot|) && State() == Recycled(old(State()), x)
    {
      hide Paid, LogOk, Held, Tracks, TiersApart, SealedSet, CbEvictPolicy.Valid, CbEvictPolicy.Scores,
           PageMappingFtl.Valid, PageMappingFtl.Contents, PageMappingFtl.Capacity;
      StepRecycle(State(), x);
      TracksRecycled(evictor.Scores().Keys, State(), x);
      TracksRecycled(compactor.Scores().Keys, State(), x);
      segs := segs[x := segs[x].(validCnt := 0, writePtr := 0)];
      freePool := freePool + [x];
      EvictPolicyRemove(x);
      spot := spot[x := Pool];
    }

    lemma VictimInHand(x: nat)
      requires Ok(Some(x))
      ensures x < |segs| && |segs[x].blocks| == segmentSize && activeSeg != Some(x) && gcActiveSeg != Some(x)
      ensures forall i :: 0 <= i < segmentSize && segs[x].blocks[i].valid ==> segs[x].blocks[i].ts < timestamp
    {
      VictimFacts(State(), x);
    }

    /** Evicts every valid block of the victim. */
    method EvictSegment(x: nat)
      requires Ok(Some(x)) && x < |segs| && |segs[x].blocks| == segmentSize
      modifies this`segs, this`mapping, this`globalValidBlocks, this`freePool, this`spot, evictor, compactor, cold, cold.gcPolicy
      ensures Ok(None) && Store() == old(Store()) && Paid() == old(Paid())
      ensures |freePool| == old(|freePool|) + 1 && Room(State()) == old(Room(State())) && HostKept(old(State()), State())
      ensures Held(State()) == old(Held(State())) - Aged(old(segs[x]), segmentSize, timestamp, 0)
    {
      hide Paid, Ok, Store, SweptTo, Held, Aged, Room, HostKept;
      ghost var before := State();
      ghost var s0 := segs[x];
      ghost var held := Held(State());
      SweptStart(s0);
      AgedStart(held, s0, timestamp, 0);
      VictimInHand(x);
      var i := 0;
      while i < segmentSize
        invariant 0 <= i <= segmentSize && Ok(Some(x)) && Store() == old(Store()) && Paid() == old(Paid())
        invariant |segs| == old(|segs|) && segs == old(segs)[x := segs[x]] && freePool == old(freePool)
        invariant |segs[x].blocks| == segmentSize && SweptTo(segs[x], s0, i)
        invariant Held(State()) == old(Held(State())) - Aged(s0, i, timestamp, 0)
      {
        SweptNext(segs[x], s0, i);
        AgedStep(held, s0, i, timestamp, 0);
        VictimInHand(x);
        if segs[x].blocks[i].valid {
          Evict(x, i);
        }
        i := i + 1;
      }
      SweptAll(segs[x], s0, segmentSize);
      VictimInHand(x);
      ResetSegment(x);
      VictimOnly(before, State(), x);
    }

    // ---- compaction ----

    /** A segment to receive compacted blocks, fresh if there is none. */
    method GetGcActive(x: nat) returns (ghost grew: bool)
      requires Ok(Some(x)) && freePool != []
      modifies this`gcActiveSeg, this`activeSeg, this`freePool, this`segs, this`spot
      ensures Ok(Some(x)) && Store() == old(Store()) && Paid() == old(Paid()) && Held(State()) == old(Held(State()))
      ensures gcActiveSeg.Some? && HostKept(old(State()), State()) && x < old(|segs|) == |segs| && segs[x] == old(segs[x])
      ensures mapping == old(mapping) && (grew <==> old(gcActiveSeg).None?)
      ensures if grew then |freePool| == old(|freePool|) - 1 && Room(State()) == segmentSize && old(Room(State())) == 0
              else State() == old(State())
    {
      hide Paid, Ok, Store, Room, HostKept, NewlyActive;
      VictimInHand(x);
      UntouchedHost(State());
      if gcActiveSeg.Some? {
        return false;
      }
      ReopenedGc(x);
      OpenActive(true, Some(x));
      return true;
    }

    lemma ReopenedGc(x: nat)
      requires Ok(Some(x)) && gcActiveSeg.None? && freePool != []
      ensures freePool[0] < |segs| && freePool[0] < |spot| && Room(State()) == 0
      ensures var l' := NewlyActive(State(), true);
              && HostKept(State(), l') && Room(l') == segmentSize && |l'.free| == |freePool| - 1 && l'.mapping == mapping
              && freePool[0] != x && x < |l'.segs| == |segs| && l'.segs[x] == segs[x] && l'.gc == Some(freePool[0])
    {
      Reopened(State(), x);
    }

    lemma Receiver(x: nat)
      requires Ok(Some(x)) && gcActiveSeg.Some?
      ensures gcActiveSeg.value < |segs| && gcActiveSeg.value < |spot| && gcActiveSeg.value != x && x < |segs|
      ensures gcActiveSeg != activeSeg && Room(State()) == segmentSize - segs[gcActiveSeg.value].writePtr
    {
      ReceiverFacts(State(), x);
    }

    /** Replaces the receiving segment if it is full. */
    method MakeRoom(x: nat) returns (ghost grew: bool)
      requires Ok(Some(x)) && gcActiveSeg.Some? && (Room(State()) > 0 || freePool != [])
      modifies this`gcActiveSeg, this`activeSeg, this`freePool, this`segs, this`spot, evictor, compactor
      ensures Ok(Some(x)) && Store() == old(Store()) && Held(State()) == old(Held(State()))
      ensures gcActiveSeg.Some? && HostKept(old(State()), State()) && x < old(|segs|) == |segs| && segs[x] == old(segs[x])
      ensures Room(State()) > 0 && mapping == old(mapping)
      ensures if grew then |freePool| == old(|freePool|) - 1 && Room(State()) == segmentSize && old(Room(State())) == 0
              else State() == old(State())
    {
      hide Ok, Store, Room, HostKept;
      VictimInHand(x);
      UntouchedHost(State());
      Receiver(x);
      if segs[gcActiveSeg.value].writePtr >= segmentSize {
        ghost var before := State();
        CloseActive(true, Some(x));
        ghost var mid := State();
        SameHost(before, mid);
        VictimInHand(x);
        grew := GetGcActive(x);
        SizePositive(x);
        HostKeptTransitive(before, mid, State());
      } else {
        return false;
      }
    }

    lemma SizePositive(x: nat)
      requires Ok(Some(x))
      ensures segmentSize > 1
    {
      Shape(State(), Some(x));
    }

    /** Moves one valid block of the victim to the receiving segment, unchanged. */
    method Compact(x: nat, i: nat)
      requires Ok(Some(x)) && x < |segs| && i < |segs[x].blocks| && segs[x].blocks[i].valid
      requires gcActiveSeg.Some? && Room(State()) > 0
      modifies this`segs, this`mapping
      ensures Ok(Some(x)) && Store() == old(Store()) && Paid() == old(Paid()) && Held(State()) == old(Held(State()))
      ensures gcActiveSeg.Some? && HostKept(old(State()), State()) && Room(State()) == old(Room(State())) - 1
      ensures x < |segs| && segs[x] == Unset(old(segs[x]), i)
    {
      hide Paid, LogOk, Held, Tracks, TiersApart, SealedSet, CbEvictPolicy.Valid, CbEvictPolicy.Scores,
           PageMappingFtl.Valid, PageMappingFtl.Contents, PageMappingFtl.Capacity, Room, HostKept, Moved;
      Receiver(x);
      VictimFacts(State(), x);
      StepMove(State(), x, i);
      MovedFacts(State(), x, i, gcActiveSeg.value);
      MoveOver(x, i, gcActiveSeg.value);
    }

    method MoveOver(x: nat, i: nat, y: nat)
      requires x < |segs| && i < |segs[x].blocks| && y < |segs| && y != x && segs[y].writePtr < |segs[y].blocks|
      modifies this`segs, this`mapping
      ensures State() == Moved(old(State()), x, i, y)
    {
      var blk := segs[x].blocks[i];
      if segs[y].createTs > blk.ts {
        segs := segs[y := segs[y].(createTs := blk.ts)];
      }
      mapping := mapping[blk.key := Loc(y, segs[y].writePtr)];
      segs := segs[y := Appended(segs[y], blk.key, blk.ts)];
      segs := segs[x := Unset(segs[x], i)];
    }

    /** One step of the sweep over a victim: its block is evicted if it is old, and moved if
        it is not. */
    method NextBlock(x: nat, i: nat, threshold: nat, ghost s0: Segment) returns (ghost moved: bool, ghost grew: bool)
      requires Ok(Some(x)) && x < |segs| && i < |segs[x].blocks| && segs[x].blocks[i].valid && SweptTo(segs[x], s0, i)
      requires gcActiveSeg.Some? && (Room(State()) > 0 || freePool != []) && threshold > 0
      modifies this`segs, this`mapping, this`globalValidBlocks, this`gcActiveSeg, this`activeSeg, this`freePool, this`spot,
               evictor, compactor, cold, cold.gcPolicy
      ensures Ok(Some(x)) && Store() == old(Store()) && Paid() == old(Paid())
      ensures Held(State()) == if timestamp - old(segs[x].blocks[i].ts) >= threshold then old(Held(State())) - {old(segs[x].blocks[i].key)}
                               else old(Held(State()))
      ensures gcActiveSeg.Some? && HostKept(old(State()), State())
      ensures x < |segs| && SweptTo(segs[x], s0, i + 1)
      ensures |freePool| == old(|freePool|) - Bit(grew) && (grew ==> old(Room(State())) == 0)
      ensures Room(State()) == old(Room(State())) + (if grew then segmentSize else 0) - Bit(moved)
    {
      hide Paid, Ok, Store, Held, SweptTo, Room, HostKept, Unset;
      ghost var before := State();
      VictimInHand(x);
      SweptNext(segs[x], s0, i);
      moved, grew := false, false;
      if threshold > 0 && timestamp - segs[x].blocks[i].ts >= threshold {
        Evict(x, i);
        VictimOnly(before, State(), x);
        return;
      }
      grew := MakeRoom(x);
      ghost var mid := State();
      Compact(x, i);
      moved := true;
      HostKeptTransitive(before, mid, State());
    }

    /** Evicts the victim's old blocks and moves the others on. At most one segment is taken
        from the pool, and the victim returned to it, so that space is gained. */
    method EvictAndCompaction(x: nat, threshold: nat)
      requires Ok(Some(x)) && x < |segs| && SegOk(segs[x], segmentSize) && segs[x].validCnt < segmentSize
      requires freePool != [] && threshold > 0
      modifies this`segs, this`mapping, this`globalValidBlocks, this`gcActiveSeg, this`activeSeg, this`freePool, this`spot,
               evictor, compactor, cold, cold.gcPolicy
      ensures Ok(None) && Store() == old(Store()) && Paid() == old(Paid())
      ensures old(|freePool|) <= |freePool| <= old(|freePool|) + 1 && Gains(old(State()), State()) && HostKept(old(State()), State())
      ensures old(gcActiveSeg).None? ==> gcActiveSeg.Some? && |freePool| == old(|freePool|)
      ensures Held(State()) == old(Held(State())) - Aged(old(segs[x]), segmentSize, timestamp, threshold)
    {
      hide Paid, Ok, Store, Held, SweptTo, Aged, Room, HostKept, CountValid;
      ghost var before, held, s0 := State(), Held(State()), segs[x];
      SweptStart(s0);
      AgedStart(held, s0, timestamp, threshold);
      ghost var grown := GetGcActive(x);
      ghost var moves := 0;
      var i := 0;
      while i < segmentSize
        invariant 0 <= i <= segmentSize && Ok(Some(x)) && Store() == old(Store()) && Paid() == old(Paid())
        invariant gcActiveSeg.Some? && HostKept(before, State())
        invariant x < |segs| && SweptTo(segs[x], s0, i)
        invariant Held(State()) == held - Aged(s0, i, timestamp, threshold)
        invariant |freePool| == |before.free| - Bit(grown)
        invariant Room(State()) == Room(before) + (if grown then segmentSize else 0) - moves
        invariant moves <= CountValid(s0.blocks, i)
        invariant before.gc.None? ==> grown
      {
        VictimInHand(x);
        SweptNext(segs[x], s0, i);
        AgedStep(held, s0, i, timestamp, threshold);
        CountStep(s0.blocks, i);
        CountValidMono(s0.blocks, i, segmentSize);
        if segs[x].blocks[i].valid {
          ghost var mid := State();
          ghost var moved, grew := NextBlock(x, i, threshold, s0);
          HostKeptTransitive(before, mid, State());
          grown := grown || grew;
          moves := moves + Bit(moved);
        }
        i := i + 1;
      }
      VictimInHand(x);
      SweptAll(segs[x], s0, segmentSize);
      ghost var mid := State();
      ResetSegment(x);
      VictimOnly(mid, State(), x);
      HostKeptTransitive(before, mid, State());
    }

    // ---- choosing victims ----

    /** The invariant with v taken off one policy but still sealed. */
    ghost predicate Picked(v: nat, fromEvictor: bool)
      reads this, evictor, compactor, cold, cold.gcPolicy
    {
      && LogOk(State(), None) && Tiers() && evictor != compactor && evictor.Valid() && compactor.Valid()
      && v in SealedSet(spot)
      && evictor.Scores().Keys == SealedSet(spot) - (if fromEvictor then {v} else {})
      && compactor.Scores().Keys == SealedSet(spot) - (if fromEvictor then {} else {v})
    }

    /** Takes a policy's choice off that policy. */
    method ChooseSegment(fromEvictor: bool) returns (v: nat)
      requires Ok(None) && SealedSet(spot) != {}
      modifies evictor, compactor
      ensures Picked(v, fromEvictor) && Store() == old(Store())
      ensures if fromEvictor
              then TakenFirst(old(evictor.Scores()), evictor.Scores(), old(Score(evictScore)), v) &&
                   compactor.Scores() == old(compactor.Scores())
              else TakenFirst(old(compactor.Scores()), compactor.Scores(), old(Score(compactScore)), v) &&
                   evictor.Scores() == old(evictor.Scores())
      ensures if fromEvictor then Preferred(old(evictor.Scores()), old(Score(evictScore)), v)
              else Preferred(old(compactor.Scores()), old(Score(compactScore)), v)
    {
      hide LogOk, Held, Tracks, TiersApart, SealedSet, CbEvictPolicy.Valid, CbEvictPolicy.Scores,
           PageMappingFtl.Valid, PageMappingFtl.Contents, PageMappingFtl.Capacity, TakenFirst;
      PolicyKeys();
      var choice;
      if fromEvictor {
        ghost var cached := evictor.Scores();
        var score := Score(evictScore);
        choice := evictor.ChooseSegment(score);
        Chosen(cached, evictor.Scores(), score, choice, SealedSet(spot));
      } else {
        ghost var cached := compactor.Scores();
        var score := Score(compactScore);
        choice := compactor.ChooseSegment(score);
        Chosen(cached, compactor.Scores(), score, choice, SealedSet(spot));
      }
      v := choice.value;
    }

    lemma PolicyKeys()
      requires Ok(None)
      ensures evictor.Scores().Keys == SealedSet(spot) == compactor.Scores().Keys
    {
      hide LogOk, Held, Tracks, TiersApart, SealedSet, CbEvictPolicy.Valid, CbEvictPolicy.Scores,
           PageMappingFtl.Valid, PageMappingFtl.Contents, PageMappingFtl.Capacity;
      TracksNone(evictor.Scores().Keys, spot);
      TracksNone(compactor.Scores().Keys, spot);
    }

    /** Puts a chosen segment back on the policy it came from. */
    method PutBack(v: nat, fromEvictor: bool)
      requires Picked(v, fromEvictor)
      modifies evictor, compactor
      ensures Ok(None) && Store() == old(Store()) && Paid() == old(Paid())
      ensures evictor.Scores() == if fromEvictor then Noted(old(evictor.Scores()), v, ScoreNow(evictScore, v)) else old(evictor.Scores())
      ensures compactor.Scores() ==
                if fromEvictor then old(compactor.Scores()) else Noted(old(compactor.Scores()), v, ScoreNow(compactScore, v))
    {
      hide Paid, LogOk, Held, Tracks, TiersApart, SealedSet, CbEvictPolicy.Valid, CbEvictPolicy.Scores,
           PageMappingFtl.Valid, PageMappingFtl.Contents, PageMappingFtl.Capacity;
      if fromEvictor {
        evictor.Add(v, Score(evictScore));
      } else {
        compactor.Add(v, Score(compactScore));
      }
      TracksAll(evictor.Scores().Keys, spot);
      TracksAll(compactor.Scores().Keys, spot);
    }

    /** The chosen segment becomes the victim in hand. */
    ghost method TakeInHand(v: nat, fromEvictor: bool)
      requires Picked(v, fromEvictor)
      modifies this`spot
      ensures Ok(Some(v)) && Paid() == old(Paid()) && Store() == old(Store()) && Held(State()) == old(Held(State()))
      ensures v < old(|spot|) && State() == old(State()).(spot := old(spot)[v := Hand])
      ensures v < |segs| && SegOk(segs[v], segmentSize) && |segs[v].blocks| == segmentSize
    {
      hide LogOk, Held, Tracks, TiersApart, SealedSet, CbEvictPolicy.Valid, CbEvictPolicy.Scores,
           PageMappingFtl.Valid, PageMappingFtl.Contents, PageMappingFtl.Capacity;
      StepTake(State(), v);
      TracksTaken(evictor.Scores().Keys, State(), v);
      TracksTaken(compactor.Scores().Keys, State(), v);
      spot := spot[v := Hand];
    }

    lemma PickedFacts(v: nat, fromEvictor: bool)
      requires Picked(v, fromEvictor)
      ensures v < |segs| && segs[v].createTs <= timestamp && SegOk(segs[v], segmentSize) && |segs[v].blocks| == segmentSize > 1
    {
      hide LogOk, Held, Tracks, TiersApart, SealedSet, CbEvictPolicy.Valid, CbEvictPolicy.Scores,
           PageMappingFtl.Valid, PageMappingFtl.Contents, PageMappingFtl.Capacity;
      StepTake(State(), v);
      Shape(State(), None);
    }

    // ---- one round of collection ----

    /** Chooses for eviction and ages the threshold to the choice. */
    method ChooseByAge(extra: nat) returns (v: nat)
      requires Ok(None) && SealedSet(spot) != {}
      modifies evictor, compactor, this`threshold, this`gThreshold
      ensures Picked(v, true) && Store() == old(Store())
      ensures v < |segs| && gThreshold == threshold == timestamp - segs[v].createTs + extra >= extra
      ensures Preferred(old(evictor.Scores()), old(Score(evictScore)), v) && compactor.Scores() == old(compactor.Scores())
    {
      hide LogOk, Held, Tracks, TiersApart, SealedSet, CbEvictPolicy.Valid, CbEvictPolicy.Scores,
           PageMappingFtl.Valid, PageMappingFtl.Contents, PageMappingFtl.Capacity, Preferred, ScoreOf;
      v := ChooseSegment(true);
      PickedFacts(v, true);
      threshold := timestamp - segs[v].createTs + extra;
      gThreshold := threshold;
    }

    /** Frees a victim that holds nothing. */
    method FreeEmpty(v: nat)
      requires Ok(Some(v)) && v < |segs| && |segs[v].blocks| == segmentSize && SegOk(segs[v], segmentSize) && segs[v].validCnt == 0
      modifies this`segs, this`freePool, this`spot, evictor, compactor
      ensures Ok(None) && Store() == old(Store()) && Paid() == old(Paid())
      ensures |freePool| == old(|freePool|) + 1 && Room(State()) == old(Room(State())) && HostKept(old(State()), State())
      ensures Held(State()) == old(Held(State())) - Aged(old(segs[v]), segmentSize, timestamp, 0)
    {
      hide Paid, Ok, Store, Held, Aged, Room, HostKept, SegOk;
      ghost var before := State();
      VictimInHand(v);
      NoneValid(segs[v], segmentSize);
      AgedNone(segs[v], segmentSize, timestamp, 0);
      LessNothing(Held(State()));
      ResetSegment(v);
      VictimOnly(before, State(), v);
    }

    /** Evicts all of a chosen victim, or just frees it when it is empty. */
    method Reclaim(v: nat, fromEvictor: bool)
      requires Picked(v, fromEvictor)
      modifies this`segs, this`mapping, this`globalValidBlocks, this`freePool, this`spot, evictor, compactor, cold, cold.gcPolicy
      ensures Ok(None) && Store() == old(Store()) && Paid() == old(Paid()) && RoundDone(old(State()), State(), v, 0)
    {
      hide Paid, Ok, Store, Held, Aged, Room, HostKept, CountValid;
      ghost var before := State();
      PickedSealed(v, fromEvictor);
      TakeInHand(v, fromEvictor);
      ghost var mid := State();
      HandOnly(before, v);
      if segs[v].validCnt == 0 {
        FreeEmpty(v);
      } else {
        EvictSegment(v);
      }
      HostKeptTransitive(before, mid, State());
    }

    lemma PickedSealed(v: nat, fromEvictor: bool)
      requires Picked(v, fromEvictor)
      ensures v in SealedSet(spot) && v < |segs| && |segs[v].blocks| == segmentSize
    {
      PickedFacts(v, fromEvictor);
    }

    /** Compaction: old blocks of the chosen victim are evicted, the others moved. */
    method Condense(v: nat)
      requires Picked(v, false) && v < |segs| && segs[v].validCnt < segmentSize && freePool != [] && threshold > 0
      modifies this`segs, this`mapping, this`globalValidBlocks, this`gcActiveSeg, this`activeSeg, this`freePool, this`spot,
               evictor, compactor, cold, cold.gcPolicy
      ensures Ok(None) && Store() == old(Store()) && Paid() == old(Paid()) && RoundDone(old(State()), State(), v, threshold)
      ensures old(gcActiveSeg).None? ==> gcActiveSeg.Some? && |freePool| == old(|freePool|)
    {
      hide Paid, Ok, Store, Held, Aged, Room, HostKept, CountValid;
      ghost var before := State();
      PickedSealed(v, false);
      TakeInHand(v, false);
      ghost var mid := State();
      HandOnly(before, v);
      EvictAndCompaction(v, threshold);
      HostKeptTransitive(before, mid, State());
    }

    /** A round in compaction mode. The evictor's preference sets the age threshold, and the
        compactor's is the choice. */
    method CompactionRound() returns (ghost v: nat, ghost age: nat, ghost oldest: nat, ghost choice: nat)
      requires Ok(None) && SealedSet(spot) != {} && freePool != []
      modifies this, evictor, compactor, cold, cold.gcPolicy
      ensures Ok(None) && Store() == old(Store()) && Paid() == old(Paid()) && RoundDone(old(State()), State(), v, age)
      ensures targetRate == old(targetRate) && ModeOk(old(State()), State(), true, v, age, choice)
      ensures gThreshold == threshold
      ensures oldest in old(SealedSet(spot)) && oldest < old(|segs|)
      ensures threshold == timestamp - old(segs[oldest].createTs) + 1 && (age == 0 || age == threshold)
      ensures Preferred(old(evictor.Scores()), old(Score(evictScore)), oldest)
      ensures Preferred(old(compactor.Scores()), ScoreOf(compactScore, old(segs), timestamp, threshold), choice)
    {
      hide Paid, Ok, Store, Picked, RoundDone, ModeOk, Preferred, ScoreOf, TooFull, CbEvictPolicy.Valid,
           CbEvictPolicy.Scores, SealedSet;
      var first := ChooseByAge(1);
      oldest := first;
      PickedSealed(first, true);
      PutBack(first, true);
      var x := ChooseSegment(false);
      PickedSealed(x, false);
      choice := x;
      v, age := Settle(x);
    }

    /** Frees the compactor's choice if it is empty, evicts another in its place if it is too
        full, and compacts it otherwise. */
    method Settle(choice: nat) returns (ghost v: nat, ghost age: nat)
      requires Picked(choice, false) && freePool != [] && threshold > 0
      modifies this, evictor, compactor, cold, cold.gcPolicy
      ensures targetRate == old(targetRate) && threshold == old(threshold) && gThreshold == old(gThreshold) && timestamp == old(timestamp)
      ensures Ok(None) && Store() == old(Store()) && Paid() == old(Paid()) && RoundDone(old(State()), State(), v, age)
      ensures choice < old(|segs|)
      ensures old(segs[choice].validCnt > 0 && TooFull(segs[choice], segmentSize)) ==>
                Preferred(old(evictor.Scores()), old(Score(evictScore)), v)
      ensures ModeOk(old(State()), State(), true, v, age, choice) && (age == 0 || age == threshold)
    {
      hide Paid, Ok, Store, Picked, RoundDone, Preferred, ScoreOf, CbEvictPolicy.Valid, CbEvictPolicy.Scores,
           SealedSet;
      PickedSealed(choice, false);
      PickedFacts(choice, false);
      if segs[choice].validCnt == 0 {
        Reclaim(choice, false);
        v, age := choice, 0;
      } else if segs[choice].validCnt as real > 0.95 * segmentSize as real {
        PutBack(choice, false);
        var x := ChooseSegment(true);
        PickedFacts(x, true);
        Reclaim(x, true);
        v, age := x, 0;
      } else {
        NotTooFull(segs[choice], segmentSize);
        Condense(choice);
        v, age := choice, threshold;
      }
    }

    ghost predicate Compacting()
      reads this
    {
      Wanting(targetRate, totalSegments * segmentSize, globalValidBlocks)
    }

    /** One round: the target share of valid blocks decides between compacting and evicting.
        The source aborts on an empty heap, which is to say when nothing is sealed. */
    method Round() returns (ok: bool, ghost v: nat, ghost age: nat, ghost choice: nat)
      requires Ok(None) && (freePool != [] || SealedSet(spot) == {})
      modifies this, evictor, compactor, cold, cold.gcPolicy
      ensures Ok(None) && Store() == old(Store()) && Paid() == old(Paid()) && targetRate == old(targetRate)
      ensures ok <==> old(SealedSet(spot)) != {}
      ensures !ok ==> State() == old(State()) && threshold == old(threshold) && gThreshold == old(gThreshold)
      ensures ok ==> gThreshold == threshold
      ensures ok ==> RoundDone(old(State()), State(), v, age) && ModeOk(old(State()), State(), old(Compacting()), v, age, choice)
      ensures ok && !old(Compacting()) ==> Preferred(old(evictor.Scores()), old(Score(evictScore)), v)
    {
      hide Paid, Ok, Store, Picked, RoundDone, Preferred, ScoreOf, TooFull, CbEvictPolicy.Valid,
           CbEvictPolicy.Scores, SealedSet;
      v, age, choice := 0, 0, 0;
      PoliciesHere();
      var empty := evictor.Empty();
      if empty {
        return false, v, age, choice;
      }
      ok := true;
      if targetRate >= 0.1 && targetRate * (totalSegments * segmentSize) as real > globalValidBlocks as real {
        ghost var oldest;
        v, age, oldest, choice := CompactionRound();
      } else {
        var x := ChooseByAge(0);
        Reclaim(x, true);
        v, age, choice := x, 0, x;
      }
    }

    lemma PoliciesHere()
      requires Ok(None)
      ensures evictor.Valid() && (evictor.Scores() == map[] <==> SealedSet(spot) == {})
    {
      PolicyKeys();
    }

    method ResetScoreThreshold()
      requires Ok(None)
      modifies this`gThreshold
      ensures gThreshold == threshold + segmentSize
      ensures Ok(None) && Store() == old(Store()) && Paid() == old(Paid()) && State() == old(State())
    {
      hide Paid, LogOk, Held, Tracks, TiersApart, SealedSet, CbEvictPolicy.Valid, CbEvictPolicy.Scores,
           PageMappingFtl.Valid, PageMappingFtl.Contents, PageMappingFtl.Capacity;
      gThreshold := threshold + segmentSize;
    }

    /** Collects until more than EMERGENCY segments are free and, within the given number of
        victims, more than PROACTIVE. It ends and never runs out of room; it fails only when
        a victim is wanted and nothing is sealed, for which there must be few segments. */
    method CheckAndEvictIfNeeded(maxVictims: nat) returns (ok: bool, processed: nat)
      requires Ok(None) && (freePool != [] || SealedSet(spot) == {})
      modifies this, evictor, compactor, cold, cold.gcPolicy
      ensures Ok(None) && Store() == old(Store()) && HostKept(old(State()), State())
      ensures Paid() == old(Paid())
      ensures |freePool| >= old(|freePool|) && targetRate == old(targetRate)
      ensures ok ==> |freePool| > EMERGENCY && (processed < maxVictims ==> |freePool| > PROACTIVE)
      ensures processed > maxVictims ==> |freePool| <= EMERGENCY + 1
      ensures processed > 0 ==> |freePool| <= PROACTIVE + 1
      ensures ok && maxVictims == 0 && old(|freePool|) <= 3 ==> |freePool| == 4
      ensures processed > 0 ==> gThreshold == threshold
      ensures processed == 0 ==> threshold == old(threshold) && gThreshold == threshold + segmentSize
      ensures !ok ==> SealedSet(spot) == {} && |freePool| <= (if maxVictims > 0 then PROACTIVE else EMERGENCY)
      ensures |segs| >= (if maxVictims > 0 then ENOUGH_SEGMENTS else EMERGENCY + 3) ==> ok
      ensures old(|freePool|) > (if maxVictims > 0 then PROACTIVE else EMERGENCY) ==> ok && State() == old(State())
      ensures old(|freePool|) <= (if maxVictims > 0 then PROACTIVE else EMERGENCY) && old(SealedSet(spot)) == {} ==> !ok
      ensures maxVictims <= 1 && |segs| >= EMERGENCY + 3 ==>
                (ok <==> old(|freePool|) > (if maxVictims > 0 then PROACTIVE else EMERGENCY) || old(SealedSet(spot)) != {})
      ensures maxVictims == 1 && EMERGENCY < old(|freePool|) <= PROACTIVE && old(SealedSet(spot)) != {} ==>
                ok && OneRound(old(State()), State(), old(Compacting()))
    {
      hide Paid, Ok, Store, HostKept, Room, ModeOk, RoundDone, SealedSet, OneRound, Wanting;
      ghost var before := State();
      UntouchedHost(before);
      ResetScoreThreshold();
      processed := 0;
      while |freePool| <= EMERGENCY || (maxVictims > 0 && processed < maxVictims && |freePool| <= PROACTIVE)
        invariant Ok(None) && Store() == old(Store()) && HostKept(before, State())
        invariant Paid() == old(Paid()) && |freePool| >= old(|freePool|) && targetRate == old(targetRate)
        invariant freePool != [] || SealedSet(spot) == {}
        invariant processed == 0 ==> State() == before && threshold == old(threshold) && gThreshold == threshold + segmentSize
        invariant processed > 0 ==> gThreshold == threshold && |freePool| <= PROACTIVE + 1
        invariant processed > maxVictims ==> |freePool| <= EMERGENCY + 1
        invariant processed > 0 ==> old(|freePool|) <= (if maxVictims > 0 then PROACTIVE else EMERGENCY)
        invariant processed > 0 ==> before.spot == old(spot) && SealedSet(before.spot) != {}
        invariant processed == 1 ==> OneRound(before, State(), old(Compacting()))
        invariant processed <= 1 || maxVictims > 1 || old(|freePool|) <= EMERGENCY
        decreases PROACTIVE + 1 - |freePool|, segmentSize - Room(State())
      {
        ghost var mid := State();
        SegmentsKept(before, mid);
        ghost var compacting := Compacting();
        ghost var v, age, choice;
        ok, v, age, choice := Round();
        if !ok {
          Exhausted();
          return;
        }
        RoundFacts(mid, State(), v, age);
        RoundShown(mid, State(), compacting, v, age, choice);
        HostKeptTransitive(before, mid, State());
        RoomBound(State());
        RoomBound(mid);
        processed := processed + 1;
      }
      ok := true;
    }

    /** Nothing sealed: all segments are pooled or active. */
    lemma Exhausted()
      requires Ok(None) && SealedSet(spot) == {}
      ensures |segs| == |freePool| + |OptSet(activeSeg)| + |OptSet(gcActiveSeg)| <= |freePool| + 2
    {
      SealedCount(State());
    }

    // ---- host writes ----

    /** The store's keys are the keys of the two tiers. */
    lemma StoreKeys()
      requires Ok(None)
      ensures Store().Keys == mapping.Keys + cold.lpnToPpn.Keys
      ensures TiersApart(mapping.Keys, cold.lpnToPpn.Keys, cold.Capacity())
    {
      hide LogOk, Held, Tracks, TiersApart, SealedSet, CbEvictPolicy.Valid, CbEvictPolicy.Scores,
           PageMappingFtl.Valid, PageMappingFtl.Contents, PageMappingFtl.Capacity;
      Shape(State(), None);
      ContentsKeys(cold);
    }

    /** The host's active segment, a fresh one if there is none. */
    method GetHostActive() returns (ok: bool)
      requires Valid()
      modifies this, evictor, compactor, cold, cold.gcPolicy
      ensures Paid() == old(Paid())
      ensures Valid() && Store() == old(Store()) && timestamp == old(timestamp) && targetRate == old(targetRate)
      ensures |segs| == old(|segs|) && (|segs| >= EMERGENCY + 3 ==> ok)
      ensures ok ==> activeSeg.Some? && |freePool| >= EMERGENCY
      ensures old(activeSeg).None? && ok ==> |freePool| == if old(|freePool|) > 3 then old(|freePool|) - 1 else 3
      ensures old(activeSeg).Some? ==> ok && State() == old(State())
      ensures old(activeSeg).None? && ok ==>
                activeSeg.value < |segs| && segs[activeSeg.value].writePtr == 0 < segmentSize
      ensures old(activeSeg).None? && old(|freePool|) > EMERGENCY ==>
                && ok && old(freePool[0]) < old(|segs|) && old(freePool[0]) < old(|spot|)
                && State() == NewlyActive(old(State()), false)
      ensures old(activeSeg).None? && old(|freePool|) <= EMERGENCY && old(SealedSet(spot)) == {} ==> !ok
    {
      hide Paid, Ok, Store, HostKept, NewlyActive, SealedSet, OneRound;
      ghost var before := State();
      ok := true;
      if activeSeg.None? {
        var victims;
        ok, victims := CheckAndEvictIfNeeded(0);
        HostSame(before, State());
        if ok {
          HostOpened();
          OpenActive(false, None);
          SizeOverOne();
        }
      }
    }

    lemma HostOpened()
      requires Ok(None) && freePool != []
      ensures freePool[0] < |segs| && freePool[0] < |spot|
      ensures var l' := NewlyActive(State(), false);
              && l'.host == Some(freePool[0]) && l'.free == freePool[1..] && l'.now == timestamp
              && |l'.segs| == |segs| && l'.segs[freePool[0]].writePtr == 0
    {
      Shape(State(), None);
    }

    lemma SizeOverOne()
      requires Ok(None)
      ensures segmentSize > 1
    {
      Shape(State(), None);
    }

    lemma ForgetCached(key: nat)
      requires Ok(None) && key in mapping
      ensures var loc := mapping[key];
              && loc.seg < |segs| && loc.idx < |segs[loc.seg].blocks| && segs[loc.seg].blocks[loc.idx].valid
              && segs[loc.seg].validCnt > 0 && key !in cold.lpnToPpn
              && LogOk(Forgotten(State(), key), None)
              && Held(Forgotten(State(), key)) + cold.Contents() == Store() - {key}
      ensures TiersApart(mapping.Keys - {key}, cold.lpnToPpn.Keys, cold.Capacity())
    {
      hide LogOk, Held, Tracks, SealedSet, CbEvictPolicy.Valid, CbEvictPolicy.Scores, PageMappingFtl.Valid,
           PageMappingFtl.Contents, PageMappingFtl.Capacity, Policies;
      StepForget(State(), key);
      ContentsKeys(cold);
      UnionForget(Held(State()), cold.Contents(), key);
      SubsetSize((mapping.Keys - {key}) + cold.lpnToPpn.Keys, mapping.Keys + cold.lpnToPpn.Keys);
    }

    method InvalidateCached(key: nat)
      requires Ok(None) && key in mapping
      modifies this`segs, this`mapping, this`globalValidBlocks, evictor, compactor
      ensures Ok(None) && key !in mapping && key !in cold.lpnToPpn && Store() == old(Store()) - {key}
      ensures |segs| == old(|segs|) && forall x :: 0 <= x < |segs| ==> segs[x].writePtr == old(segs[x].writePtr)
      ensures State() == Superseded(old(State()), key)
      ensures old(mapping[key].seg) < |segs|
      ensures var x := old(mapping[key].seg);
              if segs[x].writePtr >= |segs[x].blocks| then
                && evictor.Scores() == Renewed(old(evictor.Scores()), x, ScoreNow(evictScore, x))
                && compactor.Scores() == Renewed(old(compactor.Scores()), x, ScoreNow(compactScore, x))
              else evictor.Scores() == old(evictor.Scores()) && compactor.Scores() == old(compactor.Scores())
    {
      hide Renewed, LogOk, Held, Tracks, TiersApart, SealedSet, CbEvictPolicy.Valid, CbEvictPolicy.Scores,
           PageMappingFtl.Valid, PageMappingFtl.Contents, PageMappingFtl.Capacity;
      ForgetCached(key);
      var loc := mapping[key];
      segs := segs[loc.seg := Invalidated(segs[loc.seg], loc.idx)];
      globalValidBlocks := globalValidBlocks - 1;
      if segs[loc.seg].writePtr >= |segs[loc.seg].blocks| {
        EvictPolicyUpdate(loc.seg);
      }
      mapping := mapping - {key};
    }

    lemma ForgetCold(key: nat)
      requires Ok(None) && key !in mapping
      ensures Held(State()) + (cold.Contents() - {key}) == Store() - {key}
      ensures TiersApart(mapping.Keys, cold.lpnToPpn.Keys - {key}, cold.Capacity())
    {
      hide LogOk, Held, Tracks, SealedSet, CbEvictPolicy.Valid, CbEvictPolicy.Scores, PageMappingFtl.Valid,
           PageMappingFtl.Contents, PageMappingFtl.Capacity, Policies;
      Shape(State(), None);
      UnionForget(Held(State()), cold.Contents(), key);
      SubsetSize(mapping.Keys + (cold.lpnToPpn.Keys - {key}), mapping.Keys + cold.lpnToPpn.Keys);
    }

    method InvalidateCold(key: nat, lbaSize: nat)
      requires Ok(None) && key !in mapping && 0 < lbaSize <= NAND_PAGE_SIZE && lbaSize % SECTOR_SIZE == 0
      modifies cold, cold.gcPolicy
      ensures Ok(None) && key !in cold.lpnToPpn && Store() == old(Store()) - {key}
    {
      hide LogOk, Held, Tracks, TiersApart, SealedSet, CbEvictPolicy.Valid, CbEvictPolicy.Scores,
           PageMappingFtl.Valid, PageMappingFtl.Contents, PageMappingFtl.Capacity, Span;
      BlockSpan(key, lbaSize);
      ForgetCold(key);
      cold.Trim(key * NAND_PAGE_SIZE, lbaSize);
    }

    /** Forgets a key before it is rewritten: its cached block, or its page in the cold tier. */
    method Invalidate(key: nat, lbaSize: nat)
      requires Ok(None) && 0 < lbaSize <= NAND_PAGE_SIZE && lbaSize % SECTOR_SIZE == 0
      modifies this`segs, this`mapping, this`globalValidBlocks, evictor, compactor, cold, cold.gcPolicy
      ensures Ok(None) && key !in mapping && key !in cold.lpnToPpn && Store() == old(Store()) - {key}
      ensures |segs| == old(|segs|) && forall x :: 0 <= x < |segs| ==> segs[x].writePtr == old(segs[x].writePtr)
      ensures State() == Superseded(old(State()), key)
      ensures old(key !in mapping) ==>
                evictor.Scores() == old(evictor.Scores()) && compactor.Scores() == old(compactor.Scores())
      ensures old(key in mapping) ==> old(mapping[key].seg) < |segs|
      ensures old(key in mapping) ==>
              var x := old(mapping[key].seg);
              if segs[x].writePtr >= |segs[x].blocks| then
                && evictor.Scores() == Renewed(old(evictor.Scores()), x, ScoreNow(evictScore, x))
                && compactor.Scores() == Renewed(old(compactor.Scores()), x, ScoreNow(compactScore, x))
              else evictor.Scores() == old(evictor.Scores()) && compactor.Scores() == old(compactor.Scores())
    {
      hide Ok, Store, Forgotten;
      if key in mapping {
        InvalidateCached(key);
      } else {
        InvalidateCold(key, lbaSize);
      }
    }

    lemma AppendFits(key: nat)
      requires Ok(None) && key !in mapping && key !in cold.lpnToPpn && |Store().Keys + {key}| <= cold.Capacity()
      requires activeSeg.Some? && activeSeg.value < |segs| && segs[activeSeg.value].writePtr < segmentSize
      ensures var y := activeSeg.value;
              && |segs[y].blocks| == segmentSize && LogOk(Stored(State(), y, key), None)
              && Held(Stored(State(), y, key)) + cold.Contents() == Store()[key := timestamp]
      ensures TiersApart(mapping.Keys + {key}, cold.lpnToPpn.Keys, cold.Capacity())
    {
      hide LogOk, Held, Tracks, TiersApart, SealedSet, CbEvictPolicy.Valid, CbEvictPolicy.Scores,
           PageMappingFtl.Valid, PageMappingFtl.Contents, PageMappingFtl.Capacity, Policies;
      StepWrite(State(), key);
      ContentsKeys(cold);
      UnionAdd(Held(State()), cold.Contents(), key, timestamp);
      KeyJoins(key);
    }

    lemma KeyJoins(key: nat)
      requires Ok(None) && key !in cold.lpnToPpn && |Store().Keys + {key}| <= cold.Capacity()
      ensures TiersApart(mapping.Keys + {key}, cold.lpnToPpn.Keys, cold.Capacity())
    {
      hide Ok, Store;
      StoreKeys();
      assert (mapping.Keys + {key}) + cold.lpnToPpn.Keys == Store().Keys + {key};
    }

    /** Appends the key's block to the host's active segment and advances the clock. */
    method AppendBlock(key: nat)
      requires Ok(None) && key !in mapping && key !in cold.lpnToPpn && |Store().Keys + {key}| <= cold.Capacity()
      requires activeSeg.Some? && activeSeg.value < |segs| && segs[activeSeg.value].writePtr < segmentSize
      modifies this`segs, this`mapping, this`globalValidBlocks, this`timestamp
      ensures Ok(None) && Store() == old(Store())[key := old(timestamp)] && timestamp == old(timestamp) + 1
      ensures |segs| == old(|segs|) && key in mapping && activeSeg == Some(mapping[key].seg)
      ensures State() == Extended(old(State()), key)
    {
      hide LogOk, Held, Tracks, TiersApart, SealedSet, CbEvictPolicy.Valid, CbEvictPolicy.Scores,
           PageMappingFtl.Valid, PageMappingFtl.Contents, PageMappingFtl.Capacity, Stored;
      AppendFits(key);
      var y := activeSeg.value;
      MapAdd(mapping, key, Loc(y, segs[y].writePtr));
      StoredFacts(State(), y, key);
      AppendTo(y, key);
    }

    method AppendTo(y: nat, key: nat)
      requires y < |segs| && segs[y].writePtr < |segs[y].blocks|
      modifies this`segs, this`mapping, this`globalValidBlocks, this`timestamp
      ensures mapping == old(mapping)[key := Loc(y, old(segs[y].writePtr))] && activeSeg == old(activeSeg)
      ensures State() == Stored(old(State()), y, key)
    {
      mapping := mapping[key := Loc(y, segs[y].writePtr)];
      segs := segs[y := Appended(segs[y], key, timestamp)];
      globalValidBlocks := globalValidBlocks + 1;
      timestamp := timestamp + 1;
    }

    /** Between host operations no victim is in hand, and the emergency reserve is intact
        unless the cache has not got going. */
    ghost predicate Valid()
      reads this, evictor, compactor, cold, cold.gcPolicy
    {
      Ok(None) && (|freePool| >= EMERGENCY || (activeSeg.None? && SealedSet(spot) == {}))
    }

    /** Replaces the host's active segment if it is full. */
    method RollHostActive() returns (ok: bool)
      requires Valid() && activeSeg.Some?
      modifies this, evictor, compactor, cold, cold.gcPolicy
      ensures Paid() == old(Paid())
      ensures Valid() && Store() == old(Store()) && timestamp == old(timestamp) && targetRate == old(targetRate)
      ensures |segs| == old(|segs|) && (|segs| >= EMERGENCY + 3 ==> ok)
      ensures ok ==> |freePool| >= EMERGENCY
      ensures ok ==> activeSeg.Some? && activeSeg.value < |segs| && segs[activeSeg.value].writePtr < segmentSize
      ensures !HostFull(old(State())) || old(|freePool|) > EMERGENCY ==> ok && State() == Rolled(old(State()))
    {
      hide Paid, Noted, CbEvictPolicy.Valid, CbEvictPolicy.Scores, Ok, Store, SealedSet, NewlyActive, Closed;
      HostSegment();
      ok := true;
      if segs[activeSeg.value].writePtr >= segmentSize {
        ClosedHere();
        CloseActive(false, None);
        ok := GetHostActive();
      }
    }

    lemma ClosedHere()
      requires Ok(None) && activeSeg.Some?
      ensures activeSeg.value < |spot| && Closed(State(), false).free == freePool && |Closed(State(), false).spot| == |spot|
      ensures Closed(State(), false).segs == segs
    {
      Shape(State(), None);
    }

    lemma HostSegment()
      requires Ok(None)
      ensures activeSeg.Some? ==> activeSeg.value < |segs|
      ensures segmentSize > 1
    {
      Shape(State(), None);
    }

    /** Puts one block in the host's segment, a new one if it is full. */
    method PlaceBlock(key: nat, lbaSize: nat) returns (ok: bool)
      requires Valid() && activeSeg.Some? && 0 < lbaSize <= NAND_PAGE_SIZE && lbaSize % SECTOR_SIZE == 0
      requires |Store().Keys + {key}| <= cold.Capacity()
      modifies this, evictor, compactor, cold, cold.gcPolicy
      ensures Valid() && |segs| == old(|segs|) && targetRate == old(targetRate)
      ensures ok ==> segmentSize > 1 && |freePool| >= EMERGENCY && key in mapping && activeSeg == Some(mapping[key].seg)
      ensures |segs| >= EMERGENCY + 3 ==> ok
      ensures Store() == if ok then old(Store())[key := old(timestamp)] else old(Store())
      ensures timestamp == old(timestamp) + Bit(ok)
      ensures !HostFull(old(State())) || old(|freePool|) > EMERGENCY ==> ok && State() == Placed(old(State()), key)
    {
      hide Ok, Store, PageMappingFtl.Capacity, HostKept, Rolled, Superseded, Extended, SealedSet, HostFull;
      ok := RollHostActive();
      if !ok {
        return;
      }
      KeysLess(Store(), key, timestamp);
      SupersededHost(State(), key);
      Invalidate(key, lbaSize);
      ExtendedHost(State(), key);
      AppendBlock(key);
      HostSegment();
    }

    /** Writes one block under the target rate in force. It can fail, as the source does on an
        empty heap, only when there are few segments. */
    method WriteBlock(key: nat, lbaSize: nat, rate: real) returns (ok: bool, written: bool, ghost placed: Log)
      requires Valid() && activeSeg.Some? && 0 < lbaSize <= NAND_PAGE_SIZE && lbaSize % SECTOR_SIZE == 0
      requires |Store().Keys + {key}| <= cold.Capacity()
      modifies this, evictor, compactor, cold, cold.gcPolicy
      ensures Valid() && |segs| == old(|segs|) && (|segs| >= ENOUGH_SEGMENTS ==> ok)
      ensures ok ==> written && activeSeg.Some?
      ensures |segs| >= EMERGENCY + 3 ==> written
      ensures Store() == if written then old(Store())[key := old(timestamp)] else old(Store())
      ensures timestamp == old(timestamp) + Bit(written)
      ensures !HostFull(old(State())) || old(|freePool|) > EMERGENCY ==> written && placed == Placed(old(State()), key)
      ensures written ==>
                BlockDone(old(State()), (placed, State()), ok, key, rate, Blocks())
      ensures !written ==> !ok
      ensures written ==> Collected(placed, State(), ok, Wanting(rate, Blocks(), placed.validBlocks))
    {
      hide Ok, Store, PageMappingFtl.Capacity, HostKept, Placed, SealedSet, OneRound, Wanting, HostFull;
      placed := State();
      SetRate(rate);
      ok := PlaceBlock(key, lbaSize);
      written := ok;
      if !ok {
        return;
      }
      placed := State();
      if timestamp % (segmentSize / 2) == 0 && |freePool| <= PROACTIVE {
        var victims;
        ok, victims := CheckAndEvictIfNeeded(1);
        HostSame(placed, State());
      }
    }

    /** The feedback loop that moves the target rate is left open. */
    method SetRate(rate: real)
      requires Ok(None)
      modifies this`targetRate
      ensures Ok(None) && Store() == old(Store()) && State() == old(State())
      ensures targetRate == rate
    {
      hide LogOk, Held, Tracks, TiersApart, SealedSet, CbEvictPolicy.Valid, CbEvictPolicy.Scores,
           PageMappingFtl.Valid, PageMappingFtl.Contents, PageMappingFtl.Capacity;
      targetRate := rate;
    }

    /** Writes the blocks one by one until the cache fails. */
    method WriteAll(newBlocks: seq<(nat, nat)>, rates: seq<real>) returns (ok: bool, n: nat, ghost steps: seq<(Log, Log)>)
      requires Valid() && activeSeg.Some? && |rates| == |newBlocks|
      requires forall i :: 0 <= i < |newBlocks| ==> 0 < newBlocks[i].1 <= NAND_PAGE_SIZE && newBlocks[i].1 % SECTOR_SIZE == 0
      requires |Store().Keys + KeysOf(newBlocks, |newBlocks|)| <= cold.Capacity()
      modifies this, evictor, compactor, cold, cold.gcPolicy
      ensures Valid() && |segs| == old(|segs|) && n <= |newBlocks|
      ensures (|segs| >= ENOUGH_SEGMENTS ==> ok) && (ok ==> n == |newBlocks|)
      ensures |steps| == n && (ok ==> State() == StateAt(old(State()), steps, n))
      ensures StepsDone(old(State()), steps, ok, newBlocks, rates, Blocks())
      ensures Store() == Written(old(Store()), newBlocks, n, old(timestamp)) && timestamp == old(timestamp) + n
    {
      hide Written, KeysOf, State, Blocks, Steps, StepsDone, StateAt, BlockDone, HostFull, Wanting, Ok, Store,
           PageMappingFtl.Capacity, Valid, Collected, Placed;
      ghost var start, last := State(), true;
      ok, n, steps := true, 0, [];
      WrittenNone(Store(), newBlocks, timestamp);
      StepsNone(start, newBlocks, rates, Blocks());
      while ok && n < |newBlocks|
        invariant n <= |newBlocks| && Valid() && (ok ==> activeSeg.Some?)
        invariant |segs| == old(|segs|) && (|segs| >= ENOUGH_SEGMENTS ==> ok)
        invariant Store() == Written(old(Store()), newBlocks, n, old(timestamp))
        invariant timestamp == old(timestamp) + n
        invariant |steps| == n && (ok ==> last && State() == StateAt(start, steps, n))
        invariant Steps(start, steps, last, newBlocks, rates, Blocks())
        decreases |newBlocks| - n, Bit(ok)
      {
        WrittenKeys(old(Store()), newBlocks, n, old(timestamp), cold.Capacity());
        var written;
        ghost var placed;
        ok, written, placed := WriteBlock(newBlocks[n].0, newBlocks[n].1, rates[n]);
        if written {
          StepsMore(start, steps, (placed, State()), ok, newBlocks, rates, Blocks());
          steps, last := steps + [(placed, State())], ok;
          n := n + 1;
        }
      }
      StepsEnd(start, steps, last, ok, newBlocks, rates, Blocks());
    }

    /** A batch of host writes, each under its own target rate. The first n blocks, all of
        them unless the cache fails, are in the store under the time of their write, and
        nothing else changes. A cache of enough segments never fails. */
    method BatchInsert(newBlocks: seq<(nat, nat)>, rates: seq<real>, isRead: bool)
      returns (ok: bool, n: nat, ghost start: Log, ghost steps: seq<(Log, Log)>)
      requires Valid() && |rates| == |newBlocks|
      requires forall i :: 0 <= i < |newBlocks| ==> 0 < newBlocks[i].1 <= NAND_PAGE_SIZE && newBlocks[i].1 % SECTOR_SIZE == 0
      requires |Store().Keys + KeysOf(newBlocks, |newBlocks|)| <= cold.Capacity()
      modifies this, evictor, compactor, cold, cold.gcPolicy
      ensures Valid() && |segs| == old(|segs|) && n <= |newBlocks|
      ensures |segs| >= ENOUGH_SEGMENTS ==> ok
      ensures ok && !isRead ==> n == |newBlocks|
      ensures isRead ==> ok && n == 0 && State() == old(State())
      ensures old(activeSeg).Some? || isRead || newBlocks == [] ==> start == old(State())
      ensures old(activeSeg).None? && newBlocks != [] && !isRead && old(|freePool|) > EMERGENCY ==>
                && old(freePool[0]) < old(|segs|) && old(freePool[0]) < old(|spot|)
                && start == NewlyActive(old(State()), false)
      ensures |steps| == n && (ok ==> State() == StateAt(start, steps, n))
      ensures StepsDone(start, steps, ok, newBlocks, rates, Blocks())
      ensures Store() == Written(old(Store()), newBlocks, n, old(timestamp)) && timestamp == old(timestamp) + n
    {
      hide Written, KeysOf, State, Blocks, Steps, StepsDone, StateAt, BlockDone, NewlyActive, HostFull, Wanting,
           Ok, Store, PageMappingFtl.Capacity, Valid, Collected, Placed;
      WrittenNone(Store(), newBlocks, timestamp);
      ok, n, start, steps := true, 0, State(), [];
      StepsNone(start, newBlocks, rates, Blocks());
      if isRead || newBlocks == [] {
        StepsEnd(start, steps, true, ok, newBlocks, rates, Blocks());
        return;
      }
      ok := GetHostActive();
      StepsNone(State(), newBlocks, rates, Blocks());
      start := State();
      StepsEnd(start, steps, true, ok, newBlocks, rates, Blocks());
      if ok {
        ok, n, steps := WriteAll(newBlocks, rates);
      }
    }
  }

  lemma TracksClosed(keys: set<nat>, l: Log, forGc: bool, hand: Option<nat>)
    requires LogOk(l, hand) && Tracks(keys, l.spot, hand)
    requires var active := if forGc then l.gc else l.host;
             active.Some? && active.value < |l.segs| && l.segs[active.value].writePtr >= l.size
    ensures var active := if forGc then l.gc else l.host;
            active.value < |l.spot| && Tracks(keys + {active.value}, Closed(l, forGc).spot, hand)
  {
    hide LogOk, SealedSet, Closed, Held;
    Shape(l, hand);
    StepClose(l, forGc, hand);
  }

  lemma TracksOpened(keys: set<nat>, l: Log, forGc: bool, hand: Option<nat>)
    requires LogOk(l, hand) && Tracks(keys, l.spot, hand) && l.free != []
    requires if forGc then l.gc.None? else l.host.None?
    ensures l.free[0] < |l.segs| && l.free[0] < |l.spot| && Tracks(keys, NewlyActive(l, forGc).spot, hand)
  {
    hide LogOk, SealedSet, NewlyActive, Held;
    StepOpen(l, forGc, hand);
  }

  lemma ClosedFacts(l: Log, forGc: bool)
    requires if forGc then l.gc.Some? && l.gc.value < |l.spot| else l.host.Some? && l.host.value < |l.spot|
    ensures var l' := Closed(l, forGc);
            && l'.mapping == l.mapping && l'.segs == l.segs && l'.free == l.free && l'.now == l.now && l'.size == l.size
            && |l'.spot| == |l.spot|
            && (if forGc then l'.gc.None? && l'.host == l.host else l'.host.None? && l'.gc == l.gc)
  {}

  lemma OpenedFacts(l: Log, forGc: bool)
    requires l.free != [] && l.free[0] < |l.segs| && l.free[0] < |l.spot|
    ensures var l' := NewlyActive(l, forGc);
            && l'.mapping == l.mapping && l'.free == l.free[1..] && l'.now == l.now && l'.size == l.size
            && |l'.segs| == |l.segs| && l'.segs == l.segs[l.free[0] := l'.segs[l.free[0]]] && l'.segs[l.free[0]].writePtr == 0
            && (if forGc then l'.gc == Some(l.free[0]) && l'.host == l.host else l'.host == Some(l.free[0]) && l'.gc == l.gc)
  {}

  lemma TracksRecycled(keys: set<nat>, l: Log, x: nat)
    requires LogOk(l, Some(x)) && x < |l.segs| && forall j :: 0 <= j < |l.segs[x].blocks| ==> !l.segs[x].blocks[j].valid
    requires Tracks(keys, l.spot, Some(x))
    ensures x < |l.spot| && Tracks(keys - {x}, Recycled(l, x).spot, None)
  {
    hide LogOk, SealedSet, Recycled, Held;
    StepRecycle(l, x);
  }

  lemma UntouchedHost(l: Log)
    ensures HostKept(l, l)
  {}

  lemma SameHost(l: Log, l': Log)
    requires l'.size == l.size && l'.now == l.now && l'.segs == l.segs && l'.host == l.host
    ensures HostKept(l, l')
  {}

  lemma CountStep(blocks: seq<Slot>, i: nat)
    requires i < |blocks|
    ensures CountValid(blocks, i + 1) == CountValid(blocks, i) + Bit(blocks[i].valid)
  {}

  lemma Chosen(cached: map<nat, real>, cached': map<nat, real>, score: nat -> real, choice: Option<nat>, sealed: set<nat>)
    requires cached.Keys == sealed && sealed != {}
    requires choice.None? <==> cached == map[]
    requires choice.Some? ==> TakenFirst(cached, cached', score, choice.value)
    ensures choice.Some? && choice.value in sealed && Preferred(cached, score, choice.value)
  {}

  lemma TracksAll(keys: set<nat>, spot: seq<Spot>)
    requires keys == SealedSet(spot)
    ensures Tracks(keys, spot, None)
  {}

  lemma TracksTaken(keys: set<nat>, l: Log, v: nat)
    requires LogOk(l, None) && v in SealedSet(l.spot)
    requires keys == SealedSet(l.spot) || keys == SealedSet(l.spot) - {v}
    ensures v < |l.spot| && Tracks(keys, l.spot[v := Hand], Some(v))
  {
    hide LogOk, Held;
    StepTake(l, v);
  }

  lemma TracksNone(keys: set<nat>, spot: seq<Spot>)
    requires Tracks(keys, spot, None)
    ensures keys == SealedSet(spot)
  {}

  lemma HandOnly(l: Log, v: nat)
    requires v < |l.spot|
    ensures HostKept(l, l.(spot := l.spot[v := Hand])) && Room(l.(spot := l.spot[v := Hand])) == Room(l)
  {}

  lemma SegmentsKept(l: Log, l': Log)
    requires HostKept(l, l')
    ensures |l'.segs| == |l.segs| && l'.size == l.size
  {}

  lemma LessNothing(m: map<nat, nat>)
    ensures m - {} == m
  {}

  lemma HostSame(l: Log, l': Log)
    requires HostKept(l, l')
    ensures l'.size == l.size && l'.now == l.now && |l'.segs| == |l.segs| && l'.host == l.host
  {}

  lemma StoredFacts(l: Log, y: nat, key: nat)
    requires y < |l.segs| && l.segs[y].writePtr < |l.segs[y].blocks|
    ensures var l' := Stored(l, y, key);
            && l'.now == l.now + 1 && l'.spot == l.spot && |l'.segs| == |l.segs| && l'.mapping == l.mapping[key := Loc(y, l.segs[y].writePtr)]
  {}

  lemma DroppedFacts(l: Log, x: nat, i: nat)
    requires x < |l.segs| && i < |l.segs[x].blocks|
    ensures var l' := Dropped(l, x, i); l'.spot == l.spot && l'.mapping == l.mapping - {l.segs[x].blocks[i].key}
  {}

  lemma NotTooFull(s: Segment, size: nat)
    requires !TooFull(s, size) && size > 0
    ensures s.validCnt < size
  {}

  lemma SupersededHost(l: Log, key: nat)
    ensures var l' := Superseded(l, key);
            && l'.host == l.host && |l'.segs| == |l.segs| && l'.free == l.free && l'.now == l.now && l'.spot == l.spot && l'.size == l.size
            && forall x :: 0 <= x < |l.segs| ==> l'.segs[x].writePtr == l.segs[x].writePtr
  {}

  lemma ExtendedHost(l: Log, key: nat)
    ensures var l' := Extended(l, key);
            && l'.host == l.host && |l'.segs| == |l.segs| && l'.free == l.free && l'.spot == l.spot && l'.size == l.size && l'.gc == l.gc
  {}
}
