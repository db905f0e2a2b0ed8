# A verified model of a log-structured flash cache simulator

The repository simulates a block cache that sits in front of a page-mapped SSD: traces of
host requests are split into blocks, held by one of several caches, and what a cache evicts
is written to a flash translation layer (FTL) whose write amplification is the point of the
exercise. This project models the parts where that simulation can go wrong quietly and
proves what they promise. `dafny verify dfyconfig.toml` checks all of it.

What is proved, part by part:

- **The FTL** (`GreedyPolicy`, `FlashPages`, `Ftl`, `FtlRuns`). Forward and reverse maps,
  valid bits and counts, a last-in-first-out pool, greedy garbage collection in the middle of
  a host write. Every run of writes and trims leaves exactly what its last operations wrote,
  garbage collection takes the block with the fewest valid pages, copies exactly those and loses
  nothing even while the page being written is stale, three blocks stay in reserve, and every page charged to NAND is accounted for by programmed pages, erases
  and migrations. The collection loop does not always end: it does exactly when four blocks
  are free already, or the live pages fit in all but four blocks and some full block has an
  invalid page. A device of four blocks shows the failure.
- **The miss-ratio curve** (`Fenwick`, `ReuseDistance`, `ScanModes`, `LruCache`, `Mrc`,
  `MrcCheckpoints`). The curve that one pass and a Fenwick tree produce is, at every bucket
  boundary, the miss ratio of a real LRU cache of that capacity run over the trace; the two
  scan directions give the same curve. A curve emitted at a checkpoint is the one computed
  from scratch; in the backward mode only if no access that shows in the curve is next used
  beyond the checkpoint. The clamped last point is an LRU cache only under an exact condition,
  and a trace of four accesses violates it.
- **FairyWren** (`FairyWrenState`, `FairyWrenRoom`, `FairyWren`, `FairyWrenLimits`). Three
  regions of log segments whose reclaims nest: migrating a block may force a reclaim of a
  colder region while a victim is in hand. No write is lost or duplicated, every segment is in
  one place, regions keep their sizes through trades, the counters are exact, no internal
  assertion can fail, and the recursion ends. Keys leave for the cold tier only with a fully
  valid segment, and one whose blocks fit colder without reclaiming keeps all its keys cached. Whether a block can be written, and whether a
  reclaim succeeds, is decided by the state before (`FairyWrenRoom`), and the condition is a
  plain one on room, free segments and next victims; a cache of one segment takes one block and
  fails on the next, and three regions of half-empty segments can be without room too.
- **LogCache** (`CostBenefit`, `LogCacheState`, `LogCache`, `LogCacheLimits`). Eviction and
  compaction with two victim policies over the same sealed segments. Collection ends, drops
  only what is old enough and moves the rest unchanged, and fails only for want of a sealed
  segment. Thirteen segments are enough for that never to happen, and no fewer are.
- **The two tiers** (`TwoTiers`, with both caches). Every key ever written is in the cache or
  in the cold FTL, never both, under the time of its last write.
- **The DP optimiser** (`DpOptimizer`), **the three footprint measures** (`Extents`,
  `IntervalMap`, `SortSweep`, `SectorBitmap`), **the prefill** that writes a footprint
  (`Prefill`), **the remap tables** (`Remap`) and **request splitting** (`RequestSplit`).

`Counting`, `Arithmetic`, `Places`, `HandleHeap` and `LogSegments` hold what several parts
share.

Conventions. Values the source passes by pointer are named by index (segments, blocks). A
physical page number is a pair of block and index; `PpnCodec` ties it to the number the
source stores. The FTL's pages carry a ghost payload, so that "the last write" can be
stated; the caches use the write's timestamp as that payload. `Valid` is what holds between
host operations; stronger-named predicates with extra parameters (`Consistent`, `TierOk`,
`LogOk`) hold in the middle of one. Geometry (pages per block, blocks, segment sizes) is
symbolic; the page and sector sizes are the source's 4096 and 512 bytes.

## Model

| member | source | states |
|---|---|---|
| GreedyEviction.GreedyEvictPolicy.ChooseSegment | evict_policy_greedy.cpp:32-36 | the chosen victim is listed and no listed segment has a smaller key (ties to the smaller id); nothing is chosen only from an empty heap |
| GreedyEviction.GreedyEvictPolicy.Add | evict_policy_greedy.cpp:5-10 | pushes a node and points the handle to it; every node stays reachable through its segment's handle iff the segment was not listed already |
| GreedyEviction.GreedyEvictPolicy.Update | evict_policy_greedy.cpp:20-30 | replaces a listed segment's key by its current valid count and ignores unlisted ones |
| GreedyEviction.GreedyEvictPolicy.Remove | evict_policy_greedy.cpp:12-18 | forgets exactly that segment |
| FlashPages.PpnCodec | ftl.cpp:23-23 | block-and-index pairs and the stored page numbers translate both ways, within the device's page count |
| FlashPages.SpanCoversBytes | ftl.cpp:98-103 | the pages computed from sector numbers are exactly the pages the byte range overlaps |
| Ftl.VictimExists | ftl.cpp:177-195 | with fewer than four free blocks and live pages below all but four blocks, some full block has an invalid page (the counting argument for progress) |
| Ftl.PageMappingFtl.constructor | ftl.cpp:26-41 | a device of at least four blocks starts empty and consistent: its last block is open for the host and all others are pooled in order |
| Ftl.PageMappingFtl.InvalidatePpn | ftl.cpp:44-60 | clearing a page leaves maps, bits, counts and victim keys consistent except for the one page about to be rewritten |
| Ftl.PageMappingFtl.AllocateNewGCActiveBlock | ftl.cpp:197-212 | opens a collection destination from a pool that is never empty here |
| Ftl.PageMappingFtl.GetOrAllocateGCActiveBlock | ftl.cpp:170-174 | a collection destination with room; the pool shrinks only when the old one was full |
| Ftl.PageMappingFtl.MigratePage | ftl.cpp:235-256 | one live page moves to the destination: what every logical page holds is unchanged, and one migrated page is charged |
| Ftl.PageMappingFtl.RunGC | ftl.cpp:216-267 | refuses exactly when every candidate is fully valid; otherwise the victim has the fewest valid pages of all listed blocks, exactly those are migrated, and it ends on top of the pool; all contents are kept, even with a stale page in flight, and the room for migration rises |
| Ftl.PageMappingFtl.SweepVictim | ftl.cpp:232-257 | copies every live page of the victim and opens at most one destination |
| Ftl.PageMappingFtl.EraseVictim | ftl.cpp:258-263 | the swept victim is erased, unlisted and on top of the pool; one erase accounts for its pages |
| Ftl.PageMappingFtl.CollectUntilFour | ftl.cpp:178-181 | the loop ends exactly when four blocks are free before it, or the live pages fit in all but four blocks and some listed block has an invalid page, and then with four free, and nothing touched if four were; a listed block with nothing valid makes it one round that copies nothing; otherwise it reaches a state no round changes, with live pages filling all but four blocks |
| Ftl.FreeBlocksWeigh | ftl.cpp:178-181 | with four free blocks the live pages fit in all but four blocks, so the loop cannot end when they do not |
| Ftl.PageMappingFtl.AllocateNewActiveBlock | ftl.cpp:177-195 | opens the block on top of the pool for the host exactly under that condition, and then three blocks are still free |
| Ftl.PageMappingFtl.GetOrAllocateActiveBlock | ftl.cpp:163-167 | a block with room for the host, without touching any contents, exactly when the active one has room or one can be opened |
| Ftl.PageMappingFtl.WritePage | ftl.cpp:108-130 | one page of a host write: exactly that page changes; it returns exactly when, with the page's old copy discounted, the host has room or a block can be opened; it copies nothing when the host's block has room, four blocks are free or a listed block holds nothing valid |
| Ftl.PageMappingFtl.Write | ftl.cpp:94-131 | exactly the pages of the span hold the new payload and everything else is unchanged; a write of one page returns exactly when that page can be programmed, one that fits in the host's block always does, one whose first page cannot be programmed never does, and failure means demand above all but four blocks |
| Ftl.PageMappingFtl.TrimPage | ftl.cpp:146-151 | unmaps one page and no other |
| Ftl.PageMappingFtl.Trim | ftl.cpp:134-152 | exactly the pages of the span are gone; nothing is programmed, copied or erased |
| FtlRuns.LastTouchDecides | ftl.cpp:94-152 | the expected store maps a page to its last write, unless a later trim touched it |
| FtlRuns.Run | ftl.cpp:94-152 | over every run of aligned writes and trims the device holds exactly the expected store and host and NAND counters are exact; a run whose store always fits in all but four blocks completes, and one whose store ever exceeds that by more than a block does not |
| FtlRuns.FourBlocks | ftl.cpp:177-195 | a device of four blocks takes one block's worth of distinct pages and never returns from the next |
| Fenwick.LowBitIsMask | mrc_calculator.cpp:23-23 | masking with the two's complement is the lowest set bit, at any word width |
| Fenwick.FenwickTree.Update | mrc_calculator.cpp:26-29 | adds to one position of the represented sequence and nowhere else |
| Fenwick.FenwickTree.Query | mrc_calculator.cpp:30-35 | is the sum of the represented sequence up to and including the index |
| ReuseDistance.LastMarksCount | mrc_calculator.cpp:75-88 | when the marks are the last occurrences so far, the marks in a stretch count its distinct addresses |
| ReuseDistance.ForwardDistances | mrc_calculator.cpp:55-88 | each access gets one plus the distinct addresses since its previous use, or none on first use |
| ReuseDistance.BackwardDistances | mrc_calculator.cpp:61-104 | each access gets one plus the distinct addresses before its next use, or none on last use |
| ReuseDistance.ComputeDistances | mrc_calculator.cpp:40-105 | the array of distances of the chosen mode |
| ScanModes.NextUseSeesSameDistance | mrc_calculator.cpp:61-104 | the backward scan gives an access what the forward scan gives its next use |
| ScanModes.ModesAgree | mrc_calculator.cpp:40-105 | both modes yield the same multiset of distances |
| ScanModes.LruDistancesOfPrefix | mrc_calculator.cpp:74-88 | forward distances of a prefix are a prefix of the forward distances |
| ScanModes.OptDistancesOfPrefix | mrc_calculator.cpp:89-104 | backward distances of a prefix are a prefix of the backward distances iff no access in the prefix is next used beyond it |
| ScanModes.OptDistancesSeeTheFuture | mrc_calculator.cpp:89-104 | a trace of two accesses on which they differ |
| LruCaching.DummyAllocator.Alloc | allocator.cpp:29-41 | hands out the block last put on the free stack, which was free, and marks it taken; the stack holds exactly the rest |
| LruCaching.DummyAllocator.Free | allocator.cpp:45-62 | returns a taken block to the stack |
| LruCaching.LruCache.Touch | lru_cache.cpp:102-114 | a present key becomes the newest, the others keep their order |
| LruCaching.LruCache.EvictOneBlock | lru_cache.cpp:116-132 | removes exactly the oldest key and puts its slot on top of the free stack |
| LruCaching.LruCache.Insert | lru_cache.cpp:134-162 | one access is one step of the recency list: hit iff present, evict the oldest iff full; keys that stay keep their slots, and in a full cache the new key takes the slot of the one evicted |
| LruCaching.ContentsAreNewest | lru_cache.cpp:102-166 | after any number of accesses a cache holds the newest distinct addresses, up to its capacity, in order |
| LruCaching.CountMisses | lru_cache.cpp:134-166 | running the cache over a trace counts the misses of the specification |
| MissRatioCurve.HitIffDistance | mrc_calculator.cpp:74-88 | an access hits a cache of capacity C iff its forward distance is at most C |
| MissRatioCurve.MissesFromDistances | mrc_calculator.cpp:119-137 | misses plus accesses at distance at most C make up the trace |
| MissRatioCurve.Tally | mrc_calculator.cpp:120-127 | one distance is counted in exactly its bucket |
| MissRatioCurve.EmitCurve | mrc_calculator.cpp:129-139 | the cumulative loop emits the curve the histogram describes, stopping at the dataset size |
| MissRatioCurve.BuildMrcFromDistances | mrc_calculator.cpp:109-140 | the curve of the distances, or none for an empty trace, dataset or bucket count |
| MissRatioCurve.CalculateMrc | mrc_calculator.cpp:142-151 | the curve of the trace in either mode; for a dataset that is a whole number of buckets its points are exactly the multiples of the quotient up to the dataset size |
| MissRatioCurve.BinSizeCovers | mrc_calculator.cpp:116-117 | a bucket's size is the least that lets the buckets cover the dataset |
| MissRatioCurve.CurveCapacities | mrc_calculator.cpp:129-138 | a curve has points at exactly the multiples of the bucket size below the dataset size, and at the dataset size |
| MissRatioCurve.MissRatioMeans | mrc_calculator.cpp:135-136 | a reported ratio times the accesses is the misses |
| MissRatioCurve.CurveUnique | mrc_calculator.cpp:129-139 | the description of a curve determines it |
| MissRatioCurve.CurveIsLru | mrc_calculator.cpp:109-151 | at every boundary within the dataset but the last bucket's, the curve is the miss ratio of a real LRU cache of that capacity |
| MissRatioCurve.LastPointIsLru | mrc_calculator.cpp:125-137 | the clamped last point is an LRU cache of the dataset size iff no counted distance exceeds the dataset size |
| MissRatioCurve.LastPointNotLru | mrc_calculator.cpp:125-137 | for the trace 1, 2, 3, 1 with a dataset of two and one bucket it is not: a distance is over-counted and the point differs from the LRU miss ratio |
| MissRatioCurve.SmallTraceNotOverCounted | mrc_calculator.cpp:125-137 | which cannot happen when the trace touches no more addresses than the dataset has |
| CurveCheckpoints.PermutedBuckets | mrc_calculator.cpp:119-127 | permuted distances fill the buckets alike |
| CurveCheckpoints.ModesGiveSameCurve | mrc_calculator.cpp:142-151 | both modes return the same whole-trace curve |
| CurveCheckpoints.CalculateMrcIntervals | mrc_calculator.cpp:155-224 | one point per checkpoint in any order: a checkpoint met in turn gets the curve of the accesses up to it, the first one missed and all after it get the whole trace's histogram against their own number of accesses |
| CurveCheckpoints.SortedPoints | mrc_calculator.cpp:155-224 | so sorted checkpoints all get the curve of the accesses up to them |
| CurveCheckpoints.CheckpointIsFromScratch | mrc_calculator.cpp:155-206 | in LRU mode that curve is the one computed from scratch on the prefix |
| CurveCheckpoints.OptCheckpointIsFromScratch | mrc_calculator.cpp:155-206 | in OPT mode it is so iff no access up to the checkpoint is next used after it with a distance in a bucket the curve reports |
| LogSegments.MapAppend | log_cache.cpp:361-370 | appending a block keeps key map and valid slots in one-to-one correspondence and adds one timestamp |
| LogSegments.MapMove | fairywren_cache.cpp:331-350 | so does moving a block, which changes no key's timestamp |
| TwoTiers.KeyMoves | icache.cpp:655-659 | handing a key to the cold tier keeps the tiers apart and never needs more room there than all keys together |
| FairyWrenState.PlacesMove | fairywren_cache.cpp:192-262 | moving one segment between hand and one region leaves every other region's lists as they are |
| FairyWrenState.SizesSwap | fairywren_cache.cpp:479-485 | trading two segments keeps every region's size |
| FairyWrenState.StepMoveRegion | fairywren_cache.cpp:250-262 | reassigning a segment moves its valid count between region counters, which stay exact |
| FairyWrenState.StepMigrate | fairywren_cache.cpp:330-350 | a migration keeps the whole structural invariant and every key's timestamp |
| FairyWrenState.StepDropBlock | fairywren_cache.cpp:392-404 | dropping one block removes exactly its key, which was held under the block's timestamp |
| FairyWrenState.RegionCountersAgree | fairywren_cache.cpp:273-305 | the three region counters add up to the number of cached keys and to the segments' own counts |
| FairyWren.Partition | fairywren_cache.cpp:92-115 | the regions share out all segments; the hot region is empty exactly when the log's share rounds to everything |
| FairyWren.PartitionShares | fairywren_cache.cpp:92-115 | the log and the hot region have their shares, rounded to the nearest but at least one, before the cold region may take one segment |
| FairyWren.FreshOk | fairywren_cache.cpp:117-143 | the initial layout satisfies every invariant |
| FairyWren.FairyWrenCache.constructor | fairywren_cache.cpp:92-144 | a new cache is valid, in the initial layout for its shares, and holds what the cold tier holds |
| FairyWrenRoom.FitsSame | fairywren_cache.cpp:158-181 | whether a region can take blocks depends only on that region and the colder ones |
| FairyWrenRoom.FitsAfterOne | fairywren_cache.cpp:353-383 | a region that can take v blocks can take v - 1 after one was appended, and only then: blocks migrated one by one fit if and only if all of them do |
| FairyWrenRoom.ReclaimsWhenClosed | fairywren_cache.cpp:547-559 | with nothing active and nothing free, a reclaim succeeds iff a fresh segment can be had at all |
| FairyWren.FairyWrenCache.EnsureActiveSegment | fairywren_cache.cpp:158-181 | an active segment with room is returned untouched; otherwise the result is the region's active segment and has room, the first free one if there is one; there is one exactly when the state before can take one more block; where none had to be reclaimed no key leaves the cache; segments in other hands are untouched, hotter regions unchanged, the store kept |
| FairyWren.FairyWrenCache.CloseActiveSegment | fairywren_cache.cpp:183-190 | the active segment is queued, or freed if empty |
| FairyWren.FairyWrenCache.PushToFifo | fairywren_cache.cpp:192-201 | the exact new lists: queued at the back, or freed when nothing in it is valid |
| FairyWren.FairyWrenCache.PopVictim | fairywren_cache.cpp:203-215 | the victim is the oldest queued segment, or the active one if the queue is empty and it holds anything; it is then in hand and no other segment is |
| FairyWren.FairyWrenCache.ReleaseSegmentToFree | fairywren_cache.cpp:227-237 | an emptied segment is reset and last in the free list; its two assertions hold |
| FairyWren.FairyWrenCache.MoveSegmentRegion | fairywren_cache.cpp:250-262 | reassigns one segment; the counter underflow assertion cannot fail |
| FairyWren.FairyWrenCache.StealFreeSegment | fairywren_cache.cpp:239-248 | moves the donor's first free segment to the end of the receiver's list, and nothing else |
| FairyWren.FairyWrenCache.StealAndSwap | fairywren_cache.cpp:479-485 | whenever the next colder region has a free segment its first is traded for the victim, which is queued there unchanged, last: both regions keep their sizes, and the victim's region has a free segment |
| FairyWren.FairyWrenCache.MigrateBlock | fairywren_cache.cpp:307-351 | on success the slot is cleared and its key is in the destination region's active segment; on failure the victim is untouched; either way no timestamp changes |
| FairyWren.FairyWrenCache.CopyValidBlocks | fairywren_cache.cpp:353-383 | the victim is emptied exactly when its valid blocks together fit in the destination region as it was, and then a block of it is in that region's active segment; if they fit without reclaiming, and within the cold region always, no key leaves the cache and the cold tier is not written; nested reclaims keep the victim in hand and unchanged; the store is kept |
| FairyWren.FairyWrenCache.DropSegment | fairywren_cache.cpp:385-415 | exactly the victim's keys leave the cache, with one page of the cold tier written for each; the store is the same, so all are there under their timestamps; its counters are exact |
| FairyWren.FairyWrenCache.ReclaimVictim | fairywren_cache.cpp:468-520 | an empty victim is freed, a fully valid one traded unchanged if that is possible, any other migrated and freed, with a block of it then in the next region's active segment, or queued first if it could not be emptied; no key leaves the cache if its blocks fit without reclaiming |
| FairyWren.FairyWrenCache.ReclaimColdVictim | fairywren_cache.cpp:522-545 | an empty victim is freed; of a fully valid one exactly the keys go to the cold tier; any other is compacted and freed, or queued first, and then no key leaves the cache and the cold tier is unchanged |
| FairyWren.FairyWrenCache.ReclaimFromFwlog | fairywren_cache.cpp:468-493 | keeps the store and every hand; succeeds exactly when the victim's blocks can be disposed of, and then leaves a free segment; no key leaves the cache if they fit in the hot region without reclaiming there; on failure the victim, if there was one, heads the queue; recursion only goes to colder regions |
| FairyWren.OneSegmentMore | fairywren_cache.cpp:533-540 | the step of an invariant of the cache: the cold tier has been written in whole segments only |
| FairyWren.FairyWrenCache.ReclaimFromHot | fairywren_cache.cpp:495-520 | the same, without touching the log region |
| FairyWren.FairyWrenCache.ReclaimFromCold | fairywren_cache.cpp:522-545 | the same, without touching the two hotter regions; no key leaves the cache unless the victim is fully valid |
| FairyWren.FairyWrenCache.ForceReclaim | fairywren_cache.cpp:547-559 | success means this region or a colder one has a free segment; where a segment is wanted, this region has one afterwards exactly when one could be had |
| FairyWren.ShortRegion | fairywren_cache.cpp:457-466 | a region is short iff it has segments and at most one is free or fewer than its share and one more; so one with none free always is |
| FairyWren.ShortGrows | fairywren_cache.cpp:457-466 | a short region stays short with fewer segments free or at a higher ratio |
| FairyWren.FairyWrenCache.Invalidate | fairywren_cache.cpp:417-434 | the key is in neither tier afterwards and nothing else changed |
| FairyWren.FairyWrenCache.AppendHostBlock | fairywren_cache.cpp:284-305 | the store maps the key to the current time, its block is in the log's active segment, and nothing else changes; or, exactly when the state before has no room for a block, the error is met and nothing changes |
| FairyWren.NoRoomMeans | fairywren_cache.cpp:284-288 | there is no room iff the log has no room and nothing to open, its next victim outgrows the hot region's active segment, the hot region has nothing to open and its next victim outgrows the cold one's, and the cold region has nothing to open and a next victim neither empty nor fully valid (as far down as there are segments) |
| FairyWrenLimits.JammedCannotWrite | fairywren_cache.cpp:284-288 | so with one queued segment in each of the three regions, each holding one valid block among any number of slots, the next block has no room |
| FairyWrenLimits.TwoWrites | fairywren_cache.cpp:284-288 | a cache of one segment, however large, takes one block and fails on the next |
| FairyWren.FairyWrenCache.MaybeRunGc | fairywren_cache.cpp:436-455 | the hot region, the cold one, the log and the hot one again are tried in that order at 1.5%, 1.5%, 15% and 5% until one succeeds; a region is reclaimed from iff it is short, and that succeeds iff the state before allows it; the store is kept and no segment left in hand |
| FairyWren.FairyWrenCache.BatchInsert | fairywren_cache.cpp:71-82 | a batch leaves each of its keys under the time of its last write in the batch and every other key alone, across all nested reclaims, drops and cold-tier collections; every block is written to the log and followed by the four attempts at reclaiming; it stops early only at a state without room, at its first block exactly if the state before has none |
| CostBenefit.CbEvictPolicy.Add | evict_policy_cost_benefit.cpp:11-17 | lists a segment once; a second add keeps the old score |
| CostBenefit.CbEvictPolicy.Remove | evict_policy_cost_benefit.cpp:19-25 | forgets exactly that segment |
| CostBenefit.CbEvictPolicy.Update | evict_policy_cost_benefit.cpp:27-32 | refreshes a listed segment's score and ignores others |
| CostBenefit.CbEvictPolicy.ChooseSegment | evict_policy_cost_benefit.cpp:34-59 | takes out a listed segment that the cached scores, at most ten of them refreshed and the rest unchanged, put first; with fewer than ten stale scores and none too low it is the true best under current scores; nothing only from an empty heap |
| LogCacheState.SealedCount | log_cache.cpp:534-563 | pooled, active and sealed segments add up to all segments |
| LogCacheState.SomeSealed | log_cache.cpp:534-563 | some segment is sealed iff there are more segments than pooled and active ones |
| LogCacheState.CountersAgree | log_cache.cpp:134-174 | the block counter, the size of the key map and the sum of the segments' counters are equal |
| LogCacheState.StepMove | log_cache.cpp:733-765 | moving a block keeps all invariants, among them creation times as lower bounds, and changes no key's timestamp |
| LogCacheState.StepDrop | log_cache.cpp:817-851 | dropping a block removes exactly its key, held under the block's timestamp |
| LogCacheState.StepWrite | log_cache.cpp:361-370 | a host block keeps all invariants and adds one key at the current time |
| LogCaching.LogCache.constructor | log_cache.cpp:68-103 | a new cache is valid, empty, with all segments pooled |
| LogCaching.LogCache.CloseActive | log_cache.cpp:350-354 | a full active segment is listed by both policies under its score of the moment; they keep listing the same segments, the others under their old scores |
| LogCaching.LogCache.OpenActive | log_cache.cpp:407-419 | the first pooled segment, reset and stamped, becomes active; nothing cached changes |
| LogCaching.LogCache.Evict | log_cache.cpp:817-851 | one block leaves the cache for the cold tier under its timestamp |
| LogCaching.LogCache.ResetSegment | log_cache.cpp:667-674 | the emptied victim is pooled and on neither policy |
| LogCaching.LogCache.EvictSegment | log_cache.cpp:776-812 | exactly the victim's keys leave the cache, none is lost, and one segment is gained |
| LogCaching.LogCache.NextBlock | log_cache.cpp:700-765 | one step of a compaction: a block at or past the threshold is evicted, any other is moved with its timestamp |
| LogCaching.LogCache.EvictAndCompaction | log_cache.cpp:693-773 | exactly the blocks at or past the age threshold leave the cache, the others stay cached unchanged; at most one segment is taken, so the pool does not shrink and room is gained |
| LogCaching.LogCache.CompactionRound | log_cache.cpp:545-623 | the threshold is one more than the age of the segment the evictor prefers, and the choice is the one the compactor prefers under that threshold; a choice above 95% valid, or empty, is not compacted |
| LogCaching.LogCache.Round | log_cache.cpp:534-638 | one round loses only blocks of one sealed victim and makes progress, at most one segment, and fails exactly when nothing is sealed; with the target met it evicts outright the segment the evictor prefers, and otherwise compacts the compactor's choice unless that is empty or more than 95% valid |
| LogCaching.LogCache.Settle | log_cache.cpp:560-623 | in place of a choice more than 95% valid the segment the evictor prefers is evicted; an empty choice is freed; any other is compacted |
| LogCaching.LogCache.CheckAndEvictIfNeeded | log_cache.cpp:511-652 | the loop ends, never runs out of pool, and meets an empty policy only with nothing sealed and too few free; with six segments and at most one victim asked for it succeeds iff enough are free or some segment is sealed, and with thirteen always; an emergency alone ends with exactly four free, and no round is run beyond need; it does nothing when none is needed, keeps the store, and writes one page of the cold tier for each block the cache loses |
| LogCaching.LogCache.GetHostActive | log_cache.cpp:480-507 | the host has an active segment and exactly three segments stay free if there were no more; it fails for a cache with at most three free segments and none sealed, never with six segments or more |
| LogCaching.LogCache.Invalidate | log_cache.cpp:134-174 | the key is in neither tier afterwards and nothing else changed; if its segment was full both policies now hold that segment's current score, and no other score moves |
| LogCaching.LogCache.WriteBlock | log_cache.cpp:338-380 | once written, the store maps the key to the current time and nothing else changes, whatever collection ran; with six segments the block is always written, and the collection after it fails iff it is due and nothing is sealed, which cannot happen with thirteen; the exact state is known when no collection was due |
| LogCaching.LogCache.BatchInsert | log_cache.cpp:329-386 | every block written is stored under its write's time and all other keys keep theirs; each is placed in the host's segment and followed by a collection exactly when one is due; with thirteen segments or more that is the whole batch, "no free segment" is never reached at any size, and reads change nothing |
| LogCacheLimits.FourWrites | log_cache.cpp:329-386 | thirteen is exact: four writes to a new cache of two-block segments succeed iff it has at least thirteen of them |
| DpOptimizer.TableIsLower | dp_optimizer.cpp:304-325 | no admissible choice of finite cost is cheaper than the table's value |
| DpOptimizer.BestSource | dp_optimizer.cpp:309-319 | within the window of five bins, the cell's value comes from its parent by an allowed move, no allowed move beats it and no earlier one equals it |
| DpOptimizer.FillTables | dp_optimizer.cpp:296-325 | every cell of the tables satisfies that |
| DpOptimizer.Backtrack | dp_optimizer.cpp:335-341 | following parents from a finite cell gives an admissible choice whose cost is the cell's value |
| DpOptimizer.Optimize | dp_optimizer.cpp:296-341 | the result is an admissible choice of least cost among all of them, and there is none exactly when no admissible choice has a finite cost |
| DpOptimizer.PlanMeans | dp_optimizer.cpp:296-320 | a choice is admissible iff it changes at decision steps only, by at most two bins, and by two only over a bin whose cost one step earlier is at least half of infinity |
| DpOptimizer.PathCostMeans | dp_optimizer.cpp:314-319 | its cost is the sum of the grid's entries along it |
| IntervalMap.RangeMap.AddRange | cache_sim.cpp:101-132 | the map covers exactly the old bytes and the new, stays ascending and non-touching, and the running total is the number of bytes covered |
| IntervalMap.UniqueBytes | cache_sim.cpp:101-132 | ranges added in turn leave as total the size of their union |
| Prefill.Scan | cache_sim.cpp:134-148 | rows, aligned down, are added until their union reaches the target or their sizes together the limit: at the first such row, or at the end of the trace |
| Prefill.IntervalsAligned | cache_sim.cpp:134-148 | the merged intervals begin and end at whole units |
| Prefill.Fill | cache_sim.cpp:150-175 | the writes are whole units of the footprint, ascending, so none twice; they are the lowest ones, and together the target or all of the footprint, whichever is less |
| Prefill.TracePrefill | cache_sim.cpp:74-178 | both together: nothing when the target rounds to none, and otherwise the lowest units of the rows scanned, once each, up to the target |
| SortSweep.ComputeUtilizedBytes | utilization.cpp:49-71 | the sweep over any order by begin measures the size of the union |
| SectorBitmap.MaskedWord | util_bitmap.cpp:31-45 | the shifted masks mark exactly the range's sectors of a word, in each of the five positions a word can have |
| SectorBitmap.SetSectorRange | util_bitmap.cpp:27-46 | exactly the sectors of the range are marked in addition |
| SectorBitmap.BitmapBytes | util_bitmap.cpp:68-88 | the bit count times 512 is the size of the union of the ranges grown to whole sectors |
| SectorBitmap.MeasureThreeWays | util_bitmap.cpp:83-87 | on sector-aligned ranges the three tools agree |
| Remap.NextFree | midas_cache.cpp:58-67 | returns the last entry of the list that is not taken, dropping what follows it, and fails exactly when every block is taken, despite stale and duplicate entries |
| Remap.RemapTable.GetOrAssign | midas_cache.cpp:69-91 | succeeds iff the key is mapped or fewer keys than blocks are live; a new key gets a block no key has: its preferred one if free, otherwise the last free one listed |
| Remap.RemapTable.Remove | midas_cache.cpp:93-110 | unmaps exactly that key and frees its block |
| Remap.RemapTable.RemoveByMapped | midas_cache.cpp:112-118 | unmaps the key holding that block, or nothing |
| Remap.Replay | midas_cache.cpp:45-118 | over any run of assignments and removals every result is as just stated, keys keep their blocks until removed, and the table is injective on exactly the live keys |
| Remap.BlockRemapper.Map | trace_remap.cpp:34-52 | a new key gets its modulo block if that is fresh, otherwise the last fresh one listed while there is one, and the modulo block afterwards; mapped keys keep theirs |
| Remap.BlockRemapper.InjectiveUpTo | trace_remap.cpp:22-65 | the remapping is injective iff no more keys than the working set have been mapped |
| Remap.MergeRuns | trace_remap.cpp:177-200 | the runs expand back to the mapped list and no two neighbours could be merged |
| Remap.RemapRow | trace_remap.cpp:167-200 | the runs of a row expand to what its blocks map to, and earlier mappings stand |
| RequestSplit.SplitRequest | cache_sim.cpp:45-63 | the parts are the touched blocks in order, each with the number of its bytes requested, and add up to the request |
| RequestSplit.PartsAccepted | cache_sim.cpp:45-63 | the parts of a sector-aligned request meet what the caches' batches ask for |

## Left out

- The MiDAS engine and its models: background threads, floating-point fixpoints and heuristics that overwrite exact counters. Only its remap table is modelled.
- The stream policies of LogCache, its dummy fill, and use of the FTL with more than one stream: the model is one host stream and one stream of compacted blocks. A full block stays listed as a stream's active block, so a second stream could see it erased.
- LogCache with an evicted block size above one: sibling blocks are cleared without lowering their own segment's counter, so the counters would not agree.
- The other eviction policies and the other caches (FIFO, log-FIFO).
- Score formulas, moving averages, the periodic feedback on the target rate and the ghost cache: scores are any functions of a segment, the time and the score threshold, and the target rate any number before each block. Infinite scores are not represented.
- Histograms, lifetime and snapshot statistics, CSV output, trace parsing, signal handling and plotting.
- Boost's heaps: a heap is the collection of its nodes together with the handle table. Ties are broken by index where the source compares addresses.
- Machine integers: counters and timestamps are unbounded, so 64-bit wrap-around is not modelled. Subtractions that would wrap are shown not to go below zero.
- Floating point: costs, rates and miss ratios are reals, and the histogram's bin size is the exact rounded-up quotient.
- The slot-level FTL inside the LRU cache and its over-provisioning, and the cold-tier writes of its evictions: the LRU model is the list, the map and the allocator.
- The caches' counters that only feed reports (evicted, migrated, invalidated and compacted blocks, ages).
- Cache blocks of a size other than the NAND page: both log caches are modelled with 4096-byte blocks, and their contracts ask that the keys together fit in the cold tier's capacity, which is what the FTL needs for its collection to end.
- Requests on raw devices, memory mapping and asynchronous I/O tools.
- Ftl.PageMappingFtl.Write: where the source's loop never ends, the model stops and says so; nothing is claimed about the device after that. Of a write of several pages that does not fit in the host's block, the exact condition is that of each page in turn.
- FtlRuns.Run: a run whose store comes to between all but four blocks and a block more is not decided by its operations alone; page by page it is, by `CanProgram`.
- CurveCheckpoints.CalculateMrcIntervals: asks that no checkpoint is zero; the source divides by it and goes on with what floating point gives.
- FairyWrenLimits.JammedCannotWrite: gives a state that meets every invariant; no run of writes leading to it is part of this model.
- LruCaching.LruCache.Insert: the write of the block's slot to the cache's own FTL is not part of this model.
- LruCaching.LruCache.EvictOneBlock: removes the key and frees its slot; the trim of the slot and the write to the cold tier are not part of this model.
- Prefill.TracePrefill: the share of the cold tier's capacity to fill is a parameter, where the source multiplies by 0.8 in floating point; rows without a device name are taken to be gone, and writes are listed, not issued to a cache.
- SectorBitmap.BitmapBytes: asks that ranges end within the device; the source indexes its bitmap without a check.
- Remap.MergeRuns: asks for a non-empty list, as the source does when it takes the first element; runs are in blocks, without the multiplication by the block size on output.
- DpOptimizer.Optimize: takes the cost matrix as given and reports no choice where the source goes on to index with -1; how costs are built from the trace files is not part of this model.
