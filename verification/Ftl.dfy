/** The page-mapping flash translation layer: one host stream, greedy garbage collection
    that runs in the middle of host writes and allocates from the pool it refills. */
module Ftl {
  import opened Counting
  import opened FlashPages
  import opened GreedyEviction

  /** What a device has written where, and what it has counted. */
  datatype Device = Device(blocks: seq<Block>, freePool: seq<nat>, activeBlk: Option<nat>, gcActiveBlk: Option<nat>,
                           lpnToPpn: map<nat, Ppn>, ppnToLpn: map<Ppn, nat>, hostWritePages: int, nandWritePages: int,
                           erases: int, migrated: int)

  /** The free pool lists the free blocks once each, the policy lists the full blocks with
      their current valid counts, and every other block is one of the `open` ones. */
  ghost predicate PoolOk(blocks: seq<Block>, pagesPerBlock: nat, free: seq<nat>, entries: map<nat, nat>, open: set<nat>) {
    && (forall i, j :: 0 <= i < j < |free| ==> free[i] != free[j])
    && (forall i :: 0 <= i < |free| ==> free[i] < |blocks| && blocks[free[i]].isFree)
    && (forall b :: 0 <= b < |blocks| && blocks[b].isFree ==> b in free)
    && (forall b :: b in entries ==> b < |blocks| && blocks[b].writePtr == pagesPerBlock && entries[b] == blocks[b].validCnt)
    && (forall b :: 0 <= b < |blocks| && blocks[b].writePtr == pagesPerBlock ==> b in entries)
    && (forall b :: 0 <= b < |blocks| && !blocks[b].isFree && blocks[b].writePtr < pagesPerBlock ==> b in open)
  }

  lemma PoolProgram(blocks: seq<Block>, pagesPerBlock: nat, free: seq<nat>, entries: map<nat, nat>, open: set<nat>, b: nat)
    requires BlocksOk(blocks, pagesPerBlock) && PoolOk(blocks, pagesPerBlock, free, entries, open)
    requires b < |blocks| && b in open && !blocks[b].isFree && blocks[b].writePtr < pagesPerBlock
    ensures var blocks' := blocks[b := Programmed(blocks[b])];
            var entries' := if blocks[b].writePtr + 1 == pagesPerBlock then entries[b := blocks[b].validCnt + 1] else entries;
            BlocksOk(blocks', pagesPerBlock) && PoolOk(blocks', pagesPerBlock, free, entries', open)
  {
    ProgrammedOk(blocks[b], pagesPerBlock);
  }

  lemma PoolOpen(blocks: seq<Block>, pagesPerBlock: nat, free: seq<nat>, entries: map<nat, nat>, open: set<nat>)
    requires pagesPerBlock > 0 && BlocksOk(blocks, pagesPerBlock) && PoolOk(blocks, pagesPerBlock, free, entries, open)
    requires free != []
    ensures var b := free[|free| - 1];
            var blocks' := blocks[b := Opened(pagesPerBlock)];
            && b < |blocks| && b !in entries && blocks[b].writePtr == 0 && blocks[b].validCnt == 0
            && blocks[b].valid == Opened(pagesPerBlock).valid
            && BlocksOk(blocks', pagesPerBlock)
            && PoolOk(blocks', pagesPerBlock, free[..|free| - 1], entries, open + {b})
  {
    var b := free[|free| - 1];
    ErasedOk(pagesPerBlock);
    FreeIsErased(blocks[b], pagesPerBlock);
    var blocks' := blocks[b := Opened(pagesPerBlock)];
    forall c | 0 <= c < |blocks'| && blocks'[c].isFree ensures c in free[..|free| - 1] {
      var i :| 0 <= i < |free| && free[i] == c;
      assert free[..|free| - 1][i] == c;
    }
  }

  lemma PoolErase(blocks: seq<Block>, pagesPerBlock: nat, free: seq<nat>, entries: map<nat, nat>, open: set<nat>, b: nat)
    requires pagesPerBlock > 0 && BlocksOk(blocks, pagesPerBlock) && PoolOk(blocks, pagesPerBlock, free, entries, open)
    requires b in entries
    ensures var blocks' := blocks[b := Erased(pagesPerBlock)];
            BlocksOk(blocks', pagesPerBlock) && PoolOk(blocks', pagesPerBlock, free + [b], entries - {b}, open)
  {
    ErasedOk(pagesPerBlock);
  }

  /** A page loses its bit; a full block's key follows its count. */
  lemma PoolInvalidate(blocks: seq<Block>, pagesPerBlock: nat, free: seq<nat>, entries: map<nat, nat>, open: set<nat>, p: Ppn)
    requires BlocksOk(blocks, pagesPerBlock) && PoolOk(blocks, pagesPerBlock, free, entries, open)
    requires IsSet(blocks, p)
    ensures blocks[p.blk].validCnt > 0
    ensures var b := blocks[p.blk];
            var b' := b.(valid := b.valid[p.idx := false], validCnt := b.validCnt - 1);
            var blocks' := blocks[p.blk := b'];
            && BlocksOk(blocks', pagesPerBlock)
            && PoolOk(blocks', pagesPerBlock, free, if p.blk in entries then entries[p.blk := b'.validCnt] else entries, open)
  {
    InvalidatedOk(blocks[p.blk], p.idx, pagesPerBlock);
  }

  lemma AtEntry(blocks: seq<Block>, pagesPerBlock: nat, free: seq<nat>, entries: map<nat, nat>, open: set<nat>, b: nat)
    requires BlocksOk(blocks, pagesPerBlock) && PoolOk(blocks, pagesPerBlock, free, entries, open)
    requires b in entries
    ensures b < |blocks| && BlockOk(blocks[b], pagesPerBlock)
    ensures blocks[b].writePtr == pagesPerBlock && entries[b] == blocks[b].validCnt
  {}

  lemma NotEntry(blocks: seq<Block>, pagesPerBlock: nat, free: seq<nat>, entries: map<nat, nat>, open: set<nat>, b: nat)
    requires BlocksOk(blocks, pagesPerBlock) && PoolOk(blocks, pagesPerBlock, free, entries, open)
    requires b < |blocks| && blocks[b].writePtr < pagesPerBlock
    ensures b !in entries && BlockOk(blocks[b], pagesPerBlock)
    ensures !blocks[b].valid[blocks[b].writePtr]
  {}

  /** Blocks that are full or free need not be counted as open. */
  lemma PoolClose(blocks: seq<Block>, pagesPerBlock: nat, free: seq<nat>, entries: map<nat, nat>,
                  open: set<nat>, open': set<nat>)
    requires PoolOk(blocks, pagesPerBlock, free, entries, open)
    requires forall b :: b in open && b !in open' && b < |blocks| ==> blocks[b].isFree || blocks[b].writePtr >= pagesPerBlock
    ensures PoolOk(blocks, pagesPerBlock, free, entries, open')
  {}

  // ---- the counting argument behind GC progress ----

  /** If all blocks but `others` are fully valid, the valid pages fill them, and those of one
      other block come on top. */
  lemma {:induction false} FullBlocksWeigh(blocks: seq<Block>, pagesPerBlock: nat, others: set<nat>, one: Option<nat>, n: nat)
    requires n <= |blocks| && (one.Some? ==> one.value in others)
    requires forall b :: 0 <= b < |blocks| && b !in others ==> blocks[b].validCnt == pagesPerBlock
    ensures TotalValid(blocks, n) + PagesIn(CountIn(others, n), pagesPerBlock) >=
            PagesIn(n, pagesPerBlock) + if one.Some? && one.value < n then blocks[one.value].validCnt else 0
  {
    if n > 0 { FullBlocksWeigh(blocks, pagesPerBlock, others, one, n - 1); }
  }

  ghost predicate AnyBelow(entries: map<nat, nat>, n: nat) {
    exists b :: b in entries && entries[b] < n
  }

  /** The block has the fewest valid pages of all that are listed. */
  ghost predicate Cheapest(entries: map<nat, nat>, b: nat) {
    b in entries && forall c :: c in entries ==> entries[b] <= entries[c]
  }

  lemma FewestValid(entries: map<nat, nat>, b: nat)
    requires Cheapest(entries, b)
    ensures AnyBelow(entries, 1) <==> entries[b] == 0
  {}

  /** A key that goes down leaves empty blocks listed. */
  lemma StillEmpty(entries: map<nat, nat>, b: nat, n: nat)
    requires b in entries && n < entries[b] && AnyBelow(entries, 1)
    ensures AnyBelow(entries[b := n], 1)
  {
    var c :| c in entries && entries[c] < 1;
    assert entries[b := n][c] < 1;
  }

  /** One key goes down by one. */
  lemma KeyDown(entries: map<nat, nat>, b: nat, n: nat)
    requires forall c :: c in entries ==> entries[c] <= n
    requires b in entries && entries[b] > 0
    ensures AnyBelow(entries[b := entries[b] - 1], n)
  {
    assert entries[b := entries[b] - 1][b] < n;
  }

  /** The GC destination, if there is one, holds something valid. */
  predicate DestinationUsed(blocks: seq<Block>, gc: Option<nat>) {
    gc.Some? ==> gc.value < |blocks| && blocks[gc.value].validCnt > 0
  }

  /** With fewer than four free blocks and no more live pages than all but four blocks hold,
      some full block has an invalid page; at the bound itself, if the destination is in use. */
  lemma VictimExists(blocks: seq<Block>, pagesPerBlock: nat, free: seq<nat>, entries: map<nat, nat>, gc: Option<nat>)
    requires BlocksOk(blocks, pagesPerBlock) && pagesPerBlock > 0
    requires PoolOk(blocks, pagesPerBlock, free, entries, OptSet(gc))
    requires |free| < GC_TRIGGER_THRESHOLD <= |blocks|
    requires TotalValid(blocks, |blocks|) <= PagesIn(|blocks| - GC_TRIGGER_THRESHOLD, pagesPerBlock)
    requires TotalValid(blocks, |blocks|) < PagesIn(|blocks| - GC_TRIGGER_THRESHOLD, pagesPerBlock) || DestinationUsed(blocks, gc)
    ensures AnyBelow(entries, pagesPerBlock)
  {
    hide PoolOk, BlocksOk, BlockOk, TotalValid, PagesIn;
    if forall b :: b in entries ==> entries[b] >= pagesPerBlock {
      var others := ToSet(free, |free|) + OptSet(gc);
      OthersFull(blocks, pagesPerBlock, free, entries, gc);
      FullBlocksWeigh(blocks, pagesPerBlock, others, gc, |blocks|);
      CountInBound(others, |blocks|);
      var most := if gc.Some? then GC_TRIGGER_THRESHOLD else GC_TRIGGER_THRESHOLD - 1;
      PagesInMono(CountIn(others, |blocks|), most, pagesPerBlock);
      PagesInSplit(|blocks| - GC_TRIGGER_THRESHOLD, GC_TRIGGER_THRESHOLD, pagesPerBlock);
      PagesInStep(GC_TRIGGER_THRESHOLD - 1, pagesPerBlock);
      assert false;
    }
  }

  /** If no full block has an invalid page, all blocks neither free nor the destination are
      fully valid. */
  lemma OthersFull(blocks: seq<Block>, pagesPerBlock: nat, free: seq<nat>, entries: map<nat, nat>, gc: Option<nat>)
    requires BlocksOk(blocks, pagesPerBlock) && PoolOk(blocks, pagesPerBlock, free, entries, OptSet(gc))
    requires forall b :: b in entries ==> entries[b] >= pagesPerBlock
    ensures forall b :: 0 <= b < |blocks| && b !in ToSet(free, |free|) + OptSet(gc) ==> blocks[b].validCnt == pagesPerBlock
  {
    forall b | 0 <= b < |blocks| && b !in ToSet(free, |free|) + OptSet(gc) ensures blocks[b].validCnt == pagesPerBlock {
      assert BlockOk(blocks[b], pagesPerBlock);
    }
  }

  /** A full block's key is at most the number of pages in it. */
  lemma EntriesBounded(blocks: seq<Block>, pagesPerBlock: nat, free: seq<nat>, entries: map<nat, nat>, open: set<nat>)
    requires BlocksOk(blocks, pagesPerBlock) && PoolOk(blocks, pagesPerBlock, free, entries, open)
    ensures forall b :: b in entries ==> entries[b] <= pagesPerBlock
  {
    forall b | b in entries ensures entries[b] <= pagesPerBlock {
      assert BlockOk(blocks[b], pagesPerBlock);
    }
  }

  /** Blocks known to hold nothing leave at most the others' pages. */
  lemma {:induction false} EmptyBlocksWeigh(blocks: seq<Block>, pagesPerBlock: nat, empty: set<nat>, n: nat)
    requires n <= |blocks|
    requires forall b :: 0 <= b < |blocks| ==> blocks[b].validCnt <= if b in empty then 0 else pagesPerBlock
    ensures TotalValid(blocks, n) + PagesIn(CountIn(empty, n), pagesPerBlock) <= PagesIn(n, pagesPerBlock)
  {
    if n > 0 { EmptyBlocksWeigh(blocks, pagesPerBlock, empty, n - 1); }
  }

  /** The free blocks, none listed twice, hold nothing. */
  lemma FreeBlocksEmpty(blocks: seq<Block>, pagesPerBlock: nat, free: seq<nat>, entries: map<nat, nat>, open: set<nat>)
    requires BlocksOk(blocks, pagesPerBlock) && PoolOk(blocks, pagesPerBlock, free, entries, open)
    ensures forall b :: 0 <= b < |blocks| ==> blocks[b].validCnt <= if b in ToSet(free, |free|) then 0 else pagesPerBlock
    ensures |free| <= |blocks| && CountIn(ToSet(free, |free|), |blocks|) == |free|
  {
    hide BlockOk;
    FreeOnce(blocks, pagesPerBlock, free, entries, open);
    forall b | 0 <= b < |blocks| ensures blocks[b].validCnt <= if b in ToSet(free, |free|) then 0 else pagesPerBlock {
      AtBlock(blocks, pagesPerBlock, b);
      ValidAtMost(blocks[b], pagesPerBlock);
      if b in ToSet(free, |free|) { FreeIsErased(blocks[b], pagesPerBlock); }
    }
  }

  lemma ValidAtMost(b: Block, pagesPerBlock: nat)
    requires BlockOk(b, pagesPerBlock)
    ensures b.validCnt <= pagesPerBlock
  {}

  lemma FreeOnce(blocks: seq<Block>, pagesPerBlock: nat, free: seq<nat>, entries: map<nat, nat>, open: set<nat>)
    requires PoolOk(blocks, pagesPerBlock, free, entries, open)
    ensures forall b :: b in ToSet(free, |free|) ==> b < |blocks| && blocks[b].isFree
    ensures |free| <= |blocks| && CountIn(ToSet(free, |free|), |blocks|) == |free|
  {
    ToSetDistinct(free, |free|);
    CountInAll(ToSet(free, |free|), |blocks|);
    SubsetSize(ToSet(free, |free|), Range(|blocks|));
  }

  lemma PagesLeft(free: nat, n: nat, pagesPerBlock: nat)
    requires GC_TRIGGER_THRESHOLD <= free <= n
    ensures PagesIn(n, pagesPerBlock) - PagesIn(free, pagesPerBlock) <= PagesIn(n - GC_TRIGGER_THRESHOLD, pagesPerBlock)
  {
    hide PagesIn;
    PagesInMono(GC_TRIGGER_THRESHOLD, free, pagesPerBlock);
    PagesInSplit(n - GC_TRIGGER_THRESHOLD, GC_TRIGGER_THRESHOLD, pagesPerBlock);
  }

  /** Four free blocks mean that the live pages fit in the rest. */
  lemma FreeBlocksWeigh(blocks: seq<Block>, pagesPerBlock: nat, free: seq<nat>, entries: map<nat, nat>, open: set<nat>)
    requires BlocksOk(blocks, pagesPerBlock) && PoolOk(blocks, pagesPerBlock, free, entries, open)
    requires |free| >= GC_TRIGGER_THRESHOLD
    ensures |blocks| >= GC_TRIGGER_THRESHOLD
    ensures TotalValid(blocks, |blocks|) <= PagesIn(|blocks| - GC_TRIGGER_THRESHOLD, pagesPerBlock)
  {
    hide BlocksOk, PoolOk, PagesIn, TotalValid, CountIn, ToSet;
    FreeBlocksEmpty(blocks, pagesPerBlock, free, entries, open);
    EmptyBlocksWeigh(blocks, pagesPerBlock, ToSet(free, |free|), |blocks|);
    PagesLeft(|free|, |blocks|, pagesPerBlock);
  }

  function NewBlocks(totalBlocks: nat, pagesPerBlock: nat): seq<Block> {
    seq(totalBlocks, i => Erased(pagesPerBlock))
  }

  function NewPool(totalBlocks: nat): seq<nat> {
    seq(totalBlocks, i => i)
  }

  lemma NewDevice(totalBlocks: nat, pagesPerBlock: nat)
    requires pagesPerBlock > 0
    ensures var blocks := NewBlocks(totalBlocks, pagesPerBlock);
            && |blocks| == totalBlocks == |NewPool(totalBlocks)|
            && (forall i :: 0 <= i < totalBlocks ==> NewPool(totalBlocks)[i] == i)
            && BlocksOk(blocks, pagesPerBlock)
            && PoolOk(blocks, pagesPerBlock, NewPool(totalBlocks), map[], {})
            && MapsOk(blocks, map[], map[], map[], None, Idle)
            && TotalValid(blocks, totalBlocks) == 0 && TotalWritten(blocks, totalBlocks) == 0
    ensures PagesIn(0, pagesPerBlock) == 0
    ensures ContentsOf(map[], map[], None) == map[] && OptSet<nat>(None) == {}
  {
    var blocks, free := NewBlocks(totalBlocks, pagesPerBlock), NewPool(totalBlocks);
    ErasedOk(pagesPerBlock);
    TotalsZero(blocks, totalBlocks);
    assert forall b :: 0 <= b < totalBlocks ==> free[b] == b && blocks[b] == Erased(pagesPerBlock);
  }

  // ---- stored contents ----

  /** What reading each mapped logical page returns, the hole excepted. */
  ghost function ContentsOf(l2p: map<nat, Ppn>, data: map<Ppn, nat>, hole: Option<nat>): map<nat, nat> {
    map lpn | lpn in l2p && Some(lpn) != hole && l2p[lpn] in data :: data[l2p[lpn]]
  }

  lemma ContentsMove(blocks: seq<Block>, l2p: map<nat, Ppn>, p2l: map<Ppn, nat>, data: map<Ppn, nat>,
                     hole: Option<nat>, sw: Sweep, q: Ppn)
    requires sw.Sweeping? && MapsOk(blocks, l2p, p2l, data, hole, sw)
    requires Live(blocks, sw, Ppn(sw.blk, sw.cursor)) && !IsSet(blocks, q)
    ensures var from := Ppn(sw.blk, sw.cursor);
            && l2p[p2l[from] := q].Keys == l2p.Keys
            && ContentsOf(l2p[p2l[from] := q], data[q := data[from]], hole) == ContentsOf(l2p, data, hole)
  {}

  lemma ContentsErase(blocks: seq<Block>, l2p: map<nat, Ppn>, p2l: map<Ppn, nat>, data: map<Ppn, nat>, data': map<Ppn, nat>,
                      hole: Option<nat>, blk: nat, pagesPerBlock: nat)
    requires blk < |blocks| && |blocks[blk].valid| == pagesPerBlock
    requires MapsOk(blocks, l2p, p2l, data, hole, Sweeping(blk, pagesPerBlock))
    requires data' == map p | p in data && p.blk != blk :: data[p]
    ensures ContentsOf(l2p, data', hole) == ContentsOf(l2p, data, hole)
  {}

  lemma ContentsProgram(blocks: seq<Block>, l2p: map<nat, Ppn>, p2l: map<Ppn, nat>, data: map<Ppn, nat>,
                        lpn: nat, q: Ppn, payload: nat)
    requires MapsOk(blocks, l2p, p2l, data, Some(lpn), Idle) && !IsSet(blocks, q)
    ensures ContentsOf(l2p[lpn := q], data[q := payload], None) == ContentsOf(l2p, data, Some(lpn))[lpn := payload]
  {}

  lemma ContentsWrite(l2p: map<nat, Ppn>, data: map<Ppn, nat>, lpn: nat, payload: nat)
    ensures ContentsOf(l2p, data, Some(lpn))[lpn := payload] == ContentsOf(l2p, data, None)[lpn := payload]
  {}

  lemma MapWithout<K, V>(m: map<K, V>, k: K)
    ensures (m - {k}).Keys == m.Keys - {k}
    ensures k in m ==> |m - {k}| == |m| - 1
    ensures k !in m ==> m - {k} == m && m.Keys - {k} == m.Keys
  {
    assert (m - {k}).Keys == m.Keys - {k};
  }

  lemma ContentsTrim(l2p: map<nat, Ppn>, data: map<Ppn, nat>, lpn: nat)
    ensures ContentsOf(l2p - {lpn}, data, None) == ContentsOf(l2p, data, None) - {lpn}
  {}

  lemma ContentsKeys(ftl: PageMappingFtl)
    requires ftl.Valid()
    ensures ftl.Contents().Keys == ftl.lpnToPpn.Keys
  {}

  lemma ContentsUnmapped(l2p: map<nat, Ppn>, data: map<Ppn, nat>, lpn: nat)
    requires lpn !in l2p
    ensures l2p.Keys == l2p.Keys - {lpn}
    ensures ContentsOf(l2p, data, None) == ContentsOf(l2p, data, None) - {lpn}
  {}

  /** The contents after every page of `pages` has been written. */
  function Overwrite(m: map<nat, nat>, pages: set<nat>, payload: nat): map<nat, nat> {
    map lpn | lpn in m.Keys + pages :: if lpn in pages then payload else m[lpn]
  }

  lemma OverwriteNone(keys: set<nat>, m: map<nat, nat>, lo: nat, payload: nat)
    ensures keys + Between(lo, lo) == keys == keys - Between(lo, lo)
    ensures Overwrite(m, Between(lo, lo), payload) == m == m - Between(lo, lo)
  {}

  lemma BetweenStep(lo: nat, hi: nat)
    requires lo <= hi
    ensures Between(lo, hi + 1) == Between(lo, hi) + {hi}
  {}

  lemma OverwriteOne(m: map<nat, nat>, pages: set<nat>, x: nat, payload: nat)
    ensures Overwrite(m, pages, payload)[x := payload] == Overwrite(m, pages + {x}, payload)
  {}

  lemma WriteStep(keys: set<nat>, m: map<nat, nat>, lo: nat, i: nat, payload: nat)
    ensures keys + Between(lo, lo + i) + {lo + i} == keys + Between(lo, lo + i + 1)
    ensures Overwrite(m, Between(lo, lo + i), payload)[lo + i := payload] == Overwrite(m, Between(lo, lo + i + 1), payload)
  {
    hide Between, Overwrite;
    BetweenStep(lo, lo + i);
    OverwriteOne(m, Between(lo, lo + i), lo + i, payload);
  }

  lemma TrimStep(keys: set<nat>, m: map<nat, nat>, lo: nat, hi: nat)
    requires lo <= hi
    ensures keys - Between(lo, hi) - {hi} == keys - Between(lo, hi + 1)
    ensures m - Between(lo, hi) - {hi} == m - Between(lo, hi + 1)
  {
    hide Between;
    BetweenStep(lo, hi);
  }

  /** The live pages there would be if `pages` were written on top of `keys`. */
  function Demand(keys: set<nat>, pages: set<nat>): nat {
    |keys + pages|
  }

  lemma DemandOne(m: map<nat, Ppn>, x: nat)
    ensures Demand(m.Keys, {x}) == |m| + 1 - Bit(x in m)
  {
    if x in m { assert m.Keys + {x} == m.Keys; }
  }

  lemma KeysWithout(m: map<nat, Ppn>, x: nat)
    ensures |m.Keys - {x}| == |m| - Bit(x in m)
  {
    assert |m| == |m.Keys|;
  }

  lemma DemandGrows(keys: set<nat>, lo: nat, i: nat, n: nat)
    requires i < n
    ensures Demand(keys + Between(lo, lo + i), {lo + i}) <= Demand(keys, Between(lo, lo + n))
  {
    SubsetSize(keys + Between(lo, lo + i) + {lo + i}, keys + Between(lo, lo + n));
  }

  class PageMappingFtl {
    const pagesPerBlock: nat
    const totalBlocks: nat
    const gcPolicy: GreedyEvictPolicy
    var blocks: seq<Block>
    var lpnToPpn: map<nat, Ppn>
    var ppnToLpn: map<Ppn, nat>
    var freePool: seq<nat>
    var activeBlk: Option<nat>
    var gcActiveBlk: Option<nat>
    var nandWritePages: nat
    var hostWritePages: nat
    /** What was last programmed to each page since its block's erase. */
    ghost var data: map<Ppn, nat>
    ghost var erases: nat
    ghost var migrated: nat

    /** The invariant at any point: `hole` and `sw` as in MapsOk, `open` as in PoolOk. */
    ghost predicate Consistent(hole: Option<nat>, sw: Sweep, open: set<nat>)
      reads this, gcPolicy
    {
      && pagesPerBlock > 0 && |blocks| == totalBlocks >= GC_TRIGGER_THRESHOLD
      && gcPolicy.Valid()
      && BlocksOk(blocks, pagesPerBlock)
      && PoolOk(blocks, pagesPerBlock, freePool, gcPolicy.Entries(), open)
      && MapsOk(blocks, lpnToPpn, ppnToLpn, data, hole, sw)
    }

    /** Valid bits, less those of `moved` pages already copied away, against live pages. */
    ghost predicate LiveCount(hole: Option<nat>, moved: nat)
      reads this
    {
      TotalValid(blocks, |blocks|) + (if hole.Some? && hole.value in lpnToPpn then 1 else 0) == |lpnToPpn| + moved
    }

    /** Pages charged to NAND but not accounted for by programmed and erased pages. */
    ghost function WriteBalance(): int
      reads this
    {
      nandWritePages - TotalWritten(blocks, |blocks|) - PagesIn(erases, pagesPerBlock)
    }

    ghost function GcBalance(): int
      reads this
    {
      nandWritePages - hostWritePages - migrated
    }

    ghost function State(): Device
      reads this
    {
      Device(blocks, freePool, activeBlk, gcActiveBlk, lpnToPpn, ppnToLpn, hostWritePages, nandWritePages, erases, migrated)
    }

    /** The pages in all but four blocks: the live data GC can always keep up with. */
    ghost function Capacity(): nat {
      if totalBlocks < GC_TRIGGER_THRESHOLD then 0 else PagesIn(totalBlocks - GC_TRIGGER_THRESHOLD, pagesPerBlock)
    }

    ghost predicate InUse(b: Option<nat>)
      reads this
    {
      b.Some? ==> b.value < |blocks| && !blocks[b.value].isFree
    }

    /** Between GC rounds the GC destination is not in the free pool, unless the last
        round has just put it on top of a pool large enough to stop. */
    ghost predicate GcDestinationSafe()
      reads this
    {
      InUse(gcActiveBlk) || (|freePool| >= GC_TRIGGER_THRESHOLD && gcActiveBlk == Some(freePool[|freePool| - 1]))
    }

    /** Room for migrated pages: the free blocks and what is left of the GC destination. */
    ghost function GcRoom(): int
      reads this
    {
      PagesIn(|freePool|, pagesPerBlock) +
      (if gcActiveBlk.Some? && gcActiveBlk.value < |blocks| then pagesPerBlock - blocks[gcActiveBlk.value].writePtr else 0)
    }

    /** The structural invariant between page operations. */
    ghost predicate Settled()
      reads this, gcPolicy
    {
      && Consistent(None, Idle, OptSet(activeBlk) + OptSet(gcActiveBlk))
      && |freePool| >= GC_TRIGGER_THRESHOLD - 1
      && activeBlk.Some? && InUse(activeBlk) && InUse(gcActiveBlk)
      && LiveCount(None, 0)
      && |lpnToPpn| <= Capacity() + HostFill()
    }

    /** What the device holds never exceeds all but four blocks by more than a block. */
    lemma HoldsAtMost()
      requires Valid()
      ensures |lpnToPpn| <= Capacity() + pagesPerBlock
    {
      hide TotalWritten, PagesIn, MapsOk, GreedyEvictPolicy.Valid, GreedyEvictPolicy.Entries, PoolOk;
      AtBlock(blocks, pagesPerBlock, activeBlk.value);
    }

    /** The invariant between operations. */
    ghost predicate Valid()
      reads this, gcPolicy
    {
      Settled() && WriteBalance() == 0 && GcBalance() == 0
    }

    /** The abstract state: the payload of the last write to each mapped logical page. */
    ghost function Contents(): (m: map<nat, nat>)
      reads this
    {
      ContentsOf(lpnToPpn, data, None)
    }

    /** Pages programmed in the host's block. */
    ghost function HostFill(): nat
      reads this
    {
      if activeBlk.Some? && activeBlk.value < |blocks| then blocks[activeBlk.value].writePtr else pagesPerBlock
    }

    /** The next write of a page completes: the host's block has room, or four blocks are
        free, or the other live pages fit in all but four blocks and some full block has, or
        once the page is rewritten will have, an invalid page. */
    ghost predicate CanProgram(lpn: nat)
      reads this, gcPolicy
    {
      && gcPolicy.Valid()
      && (|| HostFill() < pagesPerBlock || |freePool| >= GC_TRIGGER_THRESHOLD
          || (|lpnToPpn.Keys - {lpn}| <= Capacity() && (SomeInvalid() || (lpn in lpnToPpn && lpnToPpn[lpn].blk in gcPolicy.Entries()))))
    }

    /** A block can be opened for the host: four blocks are free, or the live pages fit in all
        but four blocks and some full block has an invalid page. */
    ghost predicate CanOpen()
      reads this, gcPolicy
    {
      gcPolicy.Valid() && (|freePool| >= GC_TRIGGER_THRESHOLD || (TotalValid(blocks, |blocks|) <= Capacity() && SomeInvalid()))
    }

    /** The next write of a page copies nothing: the host's block has room, or four blocks are
        free, or some listed block holds nothing valid. */
    ghost predicate NoCopying()
      reads this, gcPolicy
    {
      && gcPolicy.Valid()
      && (HostFill() < pagesPerBlock || |freePool| >= GC_TRIGGER_THRESHOLD || AnyBelow(gcPolicy.Entries(), 1))
    }

    /** Some full block has an invalid page. */
    ghost predicate SomeInvalid()
      reads this, gcPolicy
    {
      gcPolicy.Valid() && AnyBelow(gcPolicy.Entries(), pagesPerBlock)
    }

    /** A GC round here changes nothing, so the loop that waits for four free blocks
        never ends. */
    ghost predicate Stuck()
      reads this, gcPolicy
    {
      && gcPolicy.Valid() && |freePool| < GC_TRIGGER_THRESHOLD
      && forall b :: b in gcPolicy.Entries() ==> gcPolicy.Entries()[b] == pagesPerBlock
    }

    /** A new device: every block free but the one the host writes first. */
    constructor (pagesPerBlock: nat, totalBlocks: nat)
      requires pagesPerBlock > 0 && totalBlocks >= GC_TRIGGER_THRESHOLD
      ensures Valid() && fresh(gcPolicy)
      ensures this.pagesPerBlock == pagesPerBlock && this.totalBlocks == totalBlocks
      ensures lpnToPpn == map[] && Contents() == map[]
      ensures hostWritePages == 0
      ensures HostFill() == 0 && nandWritePages == migrated == erases == 0
      ensures |freePool| == totalBlocks - 1 && activeBlk == Some(totalBlocks - 1) && gcActiveBlk.None?
      ensures forall i :: 0 <= i < |freePool| ==> freePool[i] == i
    {
      hide NewBlocks, NewPool, ContentsOf, BlocksOk, GreedyEvictPolicy.Valid, GreedyEvictPolicy.Entries, PoolOk,
           MapsOk, TotalValid, TotalWritten, PagesIn;
      this.pagesPerBlock, this.totalBlocks := pagesPerBlock, totalBlocks;
      gcPolicy := new GreedyEvictPolicy();
      blocks := NewBlocks(totalBlocks, pagesPerBlock);
      lpnToPpn, ppnToLpn, data := map[], map[], map[];
      freePool := NewPool(totalBlocks);
      activeBlk, gcActiveBlk := None, None;
      nandWritePages, hostWritePages, erases, migrated := 0, 0, 0, 0;
      new;
      NewDevice(totalBlocks, pagesPerBlock);
      var b := AllocateNewActiveBlock(None);
      assert lpnToPpn.Keys == {};
    }

    function GetPpn(lpn: nat): Option<Ppn>
      reads this
    {
      if lpn in lpnToPpn then Some(lpnToPpn[lpn]) else None
    }

    /** A page loses its bit; a full block's key in the policy follows its count. */
    method ClearPage(p: Ppn, ghost open: set<nat>)
      requires gcPolicy.Valid() && BlocksOk(blocks, pagesPerBlock) && IsSet(blocks, p)
      requires PoolOk(blocks, pagesPerBlock, freePool, gcPolicy.Entries(), open)
      modifies this`blocks, gcPolicy
      ensures gcPolicy.Valid() && BlocksOk(blocks, pagesPerBlock)
      ensures PoolOk(blocks, pagesPerBlock, freePool, gcPolicy.Entries(), open)
      ensures old(blocks[p.blk].validCnt) > 0
      ensures var b := old(blocks[p.blk]);
              blocks == old(blocks)[p.blk := b.(valid := b.valid[p.idx := false], validCnt := b.validCnt - 1)]
      ensures TotalValid(blocks, |blocks|) == old(TotalValid(blocks, |blocks|)) - 1
      ensures TotalWritten(blocks, |blocks|) == old(TotalWritten(blocks, |blocks|))
      ensures gcPolicy.Entries() ==
                if p.blk in old(gcPolicy.Entries()) then old(gcPolicy.Entries()[p.blk := blocks[p.blk].validCnt - 1])
                else old(gcPolicy.Entries())
      ensures AnyBelow(old(gcPolicy.Entries()), 1) ==> AnyBelow(gcPolicy.Entries(), 1)
      ensures AnyBelow(gcPolicy.Entries(), pagesPerBlock) <==>
                old(AnyBelow(gcPolicy.Entries(), pagesPerBlock)) || p.blk in old(gcPolicy.Entries())
    {
      hide AnyBelow, GreedyEvictPolicy.Valid, GreedyEvictPolicy.Entries, PoolOk, BlocksOk, TotalValid, TotalWritten;
      var blk := blocks[p.blk];
      EntriesBounded(blocks, pagesPerBlock, freePool, gcPolicy.Entries(), open);
      PoolInvalidate(blocks, pagesPerBlock, freePool, gcPolicy.Entries(), open, p);
      if p.blk in gcPolicy.Entries() {
        AtEntry(blocks, pagesPerBlock, freePool, gcPolicy.Entries(), open, p.blk);
        if AnyBelow(gcPolicy.Entries(), 1) { StillEmpty(gcPolicy.Entries(), p.blk, blk.validCnt - 1); }
        KeyDown(gcPolicy.Entries(), p.blk, pagesPerBlock);
      }
      ghost var before := blocks;
      blocks := blocks[p.blk := blk.(valid := blk.valid[p.idx := false], validCnt := blk.validCnt - 1)];
      TotalsUpdate(before, |before|, p.blk, blocks[p.blk]);
      if Full(blocks[p.blk], pagesPerBlock) {
        gcPolicy.Update(p.blk, blocks[p.blk].validCnt);
      }
    }

    method InvalidatePpn(ppn: Option<Ppn>, ghost lpn: nat)
      requires Consistent(None, Idle, OptSet(activeBlk) + OptSet(gcActiveBlk))
      requires LiveCount(None, 0)
      requires ppn == GetPpn(lpn)
      modifies this`blocks, this`ppnToLpn, gcPolicy
      ensures Consistent(Some(lpn), Idle, OptSet(activeBlk) + OptSet(gcActiveBlk))
      ensures LiveCount(Some(lpn), 0)
      ensures WriteBalance() == old(WriteBalance()) && GcBalance() == old(GcBalance())
      ensures old(InUse(activeBlk)) ==> InUse(activeBlk)
      ensures old(InUse(gcActiveBlk)) ==> InUse(gcActiveBlk)
      ensures HostFill() == old(HostFill())
      ensures gcPolicy.Valid() && old(gcPolicy.Valid())
      ensures old(NoCopying()) ==> NoCopying()
      ensures SomeInvalid() <==> old(SomeInvalid()) || (lpn in lpnToPpn && lpnToPpn[lpn].blk in old(gcPolicy.Entries()))
    {
      hide AnyBelow, MapsOk, GreedyEvictPolicy.Valid, GreedyEvictPolicy.Entries, PoolOk, BlocksOk, TotalValid,
           TotalWritten, PagesIn;
      if ppn.None? {
        MapsNoEntry(blocks, lpnToPpn, ppnToLpn, data, lpn);
        return;
      }
      var p := ppn.value;
      MappedPage(blocks, lpnToPpn, ppnToLpn, data, None, Idle, lpn);
      ghost var before := blocks;
      ClearPage(p, OptSet(activeBlk) + OptSet(gcActiveBlk));
      MapsInvalidate(before, blocks, lpnToPpn, ppnToLpn, data, lpn);
      ppnToLpn := ppnToLpn - {p};
    }

    /** Pops a block for `gcActiveBlk`; the source asserts the pool is not empty. */
    method AllocateNewGCActiveBlock(ghost hole: Option<nat>, ghost sw: Sweep) returns (blkId: nat)
      requires Consistent(hole, sw, OptSet(gcActiveBlk))
      requires freePool != []
      requires InUse(gcActiveBlk) && (gcActiveBlk.Some? ==> blocks[gcActiveBlk.value].writePtr == pagesPerBlock)
      modifies this`blocks, this`freePool, this`gcActiveBlk
      ensures Consistent(hole, sw, OptSet(gcActiveBlk))
      ensures gcActiveBlk == Some(blkId) && blkId < |blocks| && blkId == old(freePool[|freePool| - 1])
      ensures freePool == old(freePool[..|freePool| - 1])
      ensures blocks == old(blocks)[blkId := Opened(pagesPerBlock)]
      ensures TotalValid(blocks, |blocks|) == old(TotalValid(blocks, |blocks|))
      ensures TotalWritten(blocks, |blocks|) == old(TotalWritten(blocks, |blocks|))
      ensures GcRoom() == old(GcRoom())
      ensures blkId !in gcPolicy.Entries() && !blocks[blkId].isFree
    {
      hide MapsOk, GreedyEvictPolicy.Valid, GreedyEvictPolicy.Entries, PoolOk, BlocksOk, ContentsOf, TotalValid,
           TotalWritten, PagesIn;
      blkId := freePool[|freePool| - 1];
      ghost var was := OptSet(gcActiveBlk);
      PoolOpen(blocks, pagesPerBlock, freePool, gcPolicy.Entries(), OptSet(gcActiveBlk));
      ghost var before := blocks;
      PagesInStep(|freePool| - 1, pagesPerBlock);
      freePool := freePool[..|freePool| - 1];
      blocks := blocks[blkId := Opened(pagesPerBlock)];
      TotalsUpdate(before, |before|, blkId, blocks[blkId]);
      MapsSameBits(before, blocks, lpnToPpn, ppnToLpn, data, hole, sw);
      gcActiveBlk := Some(blkId);
      PoolClose(blocks, pagesPerBlock, freePool, gcPolicy.Entries(), was + {blkId}, OptSet(gcActiveBlk));
    }

    method GetOrAllocateGCActiveBlock(ghost hole: Option<nat>, ghost sw: Sweep) returns (blkId: nat)
      requires Consistent(hole, sw, OptSet(gcActiveBlk))
      requires InUse(gcActiveBlk)
      requires gcActiveBlk.None? || Full(blocks[gcActiveBlk.value], pagesPerBlock) ==> freePool != []
      modifies this`blocks, this`freePool, this`gcActiveBlk
      ensures Consistent(hole, sw, OptSet(gcActiveBlk))
      ensures gcActiveBlk == Some(blkId) && blkId < |blocks| && blocks[blkId].writePtr < pagesPerBlock
      ensures blkId !in gcPolicy.Entries() && !blocks[blkId].isFree
      ensures TotalValid(blocks, |blocks|) == old(TotalValid(blocks, |blocks|))
      ensures TotalWritten(blocks, |blocks|) == old(TotalWritten(blocks, |blocks|))
      ensures GcRoom() == old(GcRoom())
      ensures if old(gcActiveBlk.None? || Full(blocks[gcActiveBlk.value], pagesPerBlock)) then
                && blkId == old(freePool[|freePool| - 1]) && freePool == old(freePool[..|freePool| - 1])
                && blocks == old(blocks)[blkId := Opened(pagesPerBlock)]
              else blocks == old(blocks) && freePool == old(freePool) && gcActiveBlk == old(gcActiveBlk)
    {
      hide MapsOk, GreedyEvictPolicy.Valid, GreedyEvictPolicy.Entries, PoolOk, BlocksOk, ContentsOf, TotalValid,
           TotalWritten, PagesIn;
      if gcActiveBlk.Some? && !Full(blocks[gcActiveBlk.value], pagesPerBlock) {
        NotEntry(blocks, pagesPerBlock, freePool, gcPolicy.Entries(), OptSet(gcActiveBlk), gcActiveBlk.value);
        return gcActiveBlk.value;
      }
      if gcActiveBlk.Some? {
        AtBlock(blocks, pagesPerBlock, gcActiveBlk.value);
      }
      blkId := AllocateNewGCActiveBlock(hole, sw);
    }

    /** Programs the next page of an open block; a block that is full then is listed. */
    method ProgramNext(blkId: nat, ghost open: set<nat>)
      requires gcPolicy.Valid() && BlocksOk(blocks, pagesPerBlock)
      requires PoolOk(blocks, pagesPerBlock, freePool, gcPolicy.Entries(), open)
      requires blkId < |blocks| && blkId in open && !blocks[blkId].isFree && blocks[blkId].writePtr < pagesPerBlock
      modifies this`blocks, gcPolicy
      ensures gcPolicy.Valid() && BlocksOk(blocks, pagesPerBlock)
      ensures PoolOk(blocks, pagesPerBlock, freePool, gcPolicy.Entries(), open)
      ensures blocks == old(blocks)[blkId := Programmed(old(blocks[blkId]))]
      ensures old(gcPolicy.Entries()).Keys <= gcPolicy.Entries().Keys
    {
      hide GreedyEvictPolicy.Valid, GreedyEvictPolicy.Entries, PoolOk, BlocksOk;
      AtBlock(blocks, pagesPerBlock, blkId);
      NotEntry(blocks, pagesPerBlock, freePool, gcPolicy.Entries(), open, blkId);
      PoolProgram(blocks, pagesPerBlock, freePool, gcPolicy.Entries(), open, blkId);
      blocks := blocks[blkId := Programmed(blocks[blkId])];
      if Full(blocks[blkId], pagesPerBlock) {
        gcPolicy.Add(blkId, blocks[blkId].validCnt);
      }
    }

    /** Copies the live page at the sweep's cursor into the GC destination. */
    method CopyPage(src: nat, idx: nat, blkId: nat, ghost hole: Option<nat>, ghost moved: nat)
      requires Consistent(hole, Sweeping(src, idx), OptSet(gcActiveBlk))
      requires src in gcPolicy.Entries() && src < |blocks| && IsSet(blocks, Ppn(src, idx))
      requires gcActiveBlk == Some(blkId) && InUse(gcActiveBlk)
      requires blkId !in gcPolicy.Entries() && blocks[blkId].writePtr < pagesPerBlock
      requires LiveCount(hole, moved)
      modifies this`blocks, this`lpnToPpn, this`ppnToLpn, this`data, this`nandWritePages, this`migrated, gcPolicy
      ensures Consistent(hole, Sweeping(src, idx + 1), OptSet(gcActiveBlk))
      ensures blocks == old(blocks)[blkId := Programmed(old(blocks[blkId]))]
      ensures src in gcPolicy.Entries() && migrated == old(migrated) + 1
      ensures LiveCount(hole, moved + 1)
      ensures WriteBalance() == old(WriteBalance()) && GcBalance() == old(GcBalance())
      ensures lpnToPpn.Keys == old(lpnToPpn.Keys)
      ensures ContentsOf(lpnToPpn, data, hole) == old(ContentsOf(lpnToPpn, data, hole))
    {
      hide MapsOk, GreedyEvictPolicy.Valid, GreedyEvictPolicy.Entries, PoolOk, BlocksOk, ContentsOf, TotalValid,
           TotalWritten, PagesIn, Live, IsSet, BitSet, Programmed;
      ghost var sw := Sweeping(src, idx);
      var oldPpn := Ppn(src, idx);
      CursorLive(blocks, oldPpn);
      LivePage(blocks, lpnToPpn, ppnToLpn, data, hole, sw, oldPpn);
      NotEntry(blocks, pagesPerBlock, freePool, gcPolicy.Entries(), OptSet(gcActiveBlk), blkId);
      var lpn := ppnToLpn[oldPpn];
      var newPpn := Ppn(blkId, blocks[blkId].writePtr);
      ghost var before := blocks;
      ProgrammedBit(blocks, blkId);
      nandWritePages := nandWritePages + 1;
      ProgramNext(blkId, OptSet(gcActiveBlk));
      MapsMove(before, blocks, lpnToPpn, ppnToLpn, data, hole, sw, newPpn);
      ContentsMove(before, lpnToPpn, ppnToLpn, data, hole, sw, newPpn);
      data := data[newPpn := data[oldPpn]];
      lpnToPpn := lpnToPpn[lpn := newPpn];
      ppnToLpn := ppnToLpn[newPpn := lpn];
      migrated := migrated + 1;
    }

    /** Finds room for the live page at the sweep's cursor and copies it there. */
    method MigratePage(src: nat, idx: nat, ghost hole: Option<nat>, ghost moved: nat)
      requires Consistent(hole, Sweeping(src, idx), OptSet(gcActiveBlk))
      requires src in gcPolicy.Entries() && src < |blocks| && IsSet(blocks, Ppn(src, idx))
      requires InUse(gcActiveBlk)
      requires gcActiveBlk.None? || Full(blocks[gcActiveBlk.value], pagesPerBlock) ==> freePool != []
      requires LiveCount(hole, moved)
      modifies this, gcPolicy
      ensures Consistent(hole, Sweeping(src, idx + 1), OptSet(gcActiveBlk))
      ensures blocks[src] == old(blocks[src]) && src in gcPolicy.Entries()
      ensures gcActiveBlk.Some? && gcActiveBlk.value != src && InUse(gcActiveBlk)
      ensures DestinationUsed(blocks, gcActiveBlk)
      ensures if old(gcActiveBlk.None? || Full(blocks[gcActiveBlk.value], pagesPerBlock))
              then |freePool| == old(|freePool|) - 1 && blocks[gcActiveBlk.value].writePtr == 1
              else freePool == old(freePool) && gcActiveBlk == old(gcActiveBlk) &&
                   blocks[gcActiveBlk.value].writePtr == old(blocks[gcActiveBlk.value].writePtr) + 1
      ensures GcRoom() == old(GcRoom()) - 1 && migrated == old(migrated) + 1 && erases == old(erases)
      ensures LiveCount(hole, moved + 1)
      ensures WriteBalance() == old(WriteBalance()) && GcBalance() == old(GcBalance())
      ensures lpnToPpn.Keys == old(lpnToPpn.Keys)
      ensures ContentsOf(lpnToPpn, data, hole) == old(ContentsOf(lpnToPpn, data, hole))
      ensures hostWritePages == old(hostWritePages)
    {
      hide MapsOk, GreedyEvictPolicy.Valid, GreedyEvictPolicy.Entries, PoolOk, BlocksOk, ContentsOf, TotalValid,
           TotalWritten, PagesIn;
      var blkId := GetOrAllocateGCActiveBlock(hole, Sweeping(src, idx));
      CopyPage(src, idx, blkId, hole, moved);
    }

    /** One collection: false when there is nothing to gain, and then nothing changed. */
    method RunGC(ghost hole: Option<nat>) returns (ok: bool)
      requires Consistent(hole, Idle, OptSet(gcActiveBlk))
      requires InUse(gcActiveBlk) && freePool != []
      requires LiveCount(hole, 0)
      modifies this, gcPolicy
      ensures !ok ==> unchanged(this) && unchanged(gcPolicy)
      ensures !ok <==> forall b :: b in old(gcPolicy.Entries()) ==> old(gcPolicy.Entries())[b] == pagesPerBlock
      ensures ok ==> Consistent(hole, Idle, OptSet(gcActiveBlk)) && LiveCount(hole, 0)
      ensures ok ==> old(|freePool|) <= |freePool| <= old(|freePool|) + 1 && erases == old(erases) + 1
      ensures ok ==> Cheapest(old(gcPolicy.Entries()), freePool[|freePool| - 1])
                     && migrated == old(migrated) + old(gcPolicy.Entries())[freePool[|freePool| - 1]]
      ensures ok && AnyBelow(old(gcPolicy.Entries()), 1) ==> migrated == old(migrated) && |freePool| == old(|freePool|) + 1
      ensures ok && |freePool| == old(|freePool|) ==> DestinationUsed(blocks, gcActiveBlk)
      ensures ok ==> InUse(gcActiveBlk) || (|freePool| == old(|freePool|) + 1 && gcActiveBlk == Some(freePool[|freePool| - 1]))
      ensures ok ==> GcRoom() > old(GcRoom())
      ensures ok ==> WriteBalance() == old(WriteBalance()) && GcBalance() == old(GcBalance())
      ensures lpnToPpn.Keys == old(lpnToPpn.Keys)
      ensures ContentsOf(lpnToPpn, data, hole) == old(ContentsOf(lpnToPpn, data, hole))
      ensures hostWritePages == old(hostWritePages)
    {
      hide DestinationUsed, MapsOk, GreedyEvictPolicy.Valid, GreedyEvictPolicy.Entries, PoolOk, BlocksOk,
           ContentsOf, TotalValid, TotalWritten, PagesIn;
      var victim := gcPolicy.ChooseSegment();
      if victim.None? {
        return false;
      }
      var src := victim.value;
      AtEntry(blocks, pagesPerBlock, freePool, gcPolicy.Entries(), OptSet(gcActiveBlk), src);
      if blocks[src].validCnt == pagesPerBlock {
        forall b | b in gcPolicy.Entries() ensures gcPolicy.Entries()[b] == pagesPerBlock {
          AtEntry(blocks, pagesPerBlock, freePool, gcPolicy.Entries(), OptSet(gcActiveBlk), b);
        }
        return false;
      }
      assert gcPolicy.Entries()[src] < pagesPerBlock;
      FewestValid(gcPolicy.Entries(), src);
      SweepVictim(src, hole);
      EraseVictim(src, hole, blocks[src].validCnt);
      ok := true;
    }

    /** Copies every live page of the victim elsewhere, opening at most one destination. */
    method SweepVictim(src: nat, ghost hole: Option<nat>)
      requires Consistent(hole, Idle, OptSet(gcActiveBlk)) && InUse(gcActiveBlk)
      requires src in gcPolicy.Entries() && src < |blocks| && blocks[src].validCnt < pagesPerBlock
      requires freePool != [] && LiveCount(hole, 0)
      modifies this, gcPolicy
      ensures Consistent(hole, Sweeping(src, pagesPerBlock), OptSet(gcActiveBlk)) && InUse(gcActiveBlk)
      ensures src in gcPolicy.Entries() && blocks[src] == old(blocks[src])
      ensures LiveCount(hole, blocks[src].validCnt)
      ensures gcActiveBlk == Some(src) ==> freePool == old(freePool)
      ensures old(|freePool|) - 1 <= |freePool| <= old(|freePool|)
      ensures |freePool| < old(|freePool|) ==> gcActiveBlk.Some? && gcActiveBlk.value != src && DestinationUsed(blocks, gcActiveBlk)
      ensures GcRoom() == old(GcRoom()) - blocks[src].validCnt
      ensures migrated == old(migrated) + blocks[src].validCnt && erases == old(erases)
      ensures blocks[src].validCnt == 0 ==> freePool == old(freePool)
      ensures WriteBalance() == old(WriteBalance()) && GcBalance() == old(GcBalance())
      ensures lpnToPpn.Keys == old(lpnToPpn.Keys)
      ensures ContentsOf(lpnToPpn, data, hole) == old(ContentsOf(lpnToPpn, data, hole))
      ensures hostWritePages == old(hostWritePages)
    {
      hide WriteBalance, GcBalance, LiveCount, GcRoom, DestinationUsed, MapsOk, GreedyEvictPolicy.Valid,
           GreedyEvictPolicy.Entries, PoolOk, BlocksOk, ContentsOf, TotalValid, TotalWritten, PagesIn;
      AtEntry(blocks, pagesPerBlock, freePool, gcPolicy.Entries(), OptSet(gcActiveBlk), src);
      ghost var moved := 0;
      MapsStartSweep(blocks, lpnToPpn, ppnToLpn, data, hole, src);
      var idx := 0;
      while idx < pagesPerBlock
        invariant 0 <= idx <= pagesPerBlock
        invariant Consistent(hole, Sweeping(src, idx), OptSet(gcActiveBlk))
        invariant src in gcPolicy.Entries() && src < |blocks| && blocks[src] == old(blocks[src])
        invariant moved == Count(blocks[src].valid, idx) <= blocks[src].validCnt < pagesPerBlock
        invariant LiveCount(hole, moved)
        invariant InUse(gcActiveBlk)
        invariant moved == 0 ==> gcActiveBlk == old(gcActiveBlk) && freePool == old(freePool)
        invariant moved > 0 ==> gcActiveBlk.Some? && gcActiveBlk.value != src
        invariant moved > 0 ==> DestinationUsed(blocks, gcActiveBlk)
        invariant moved == 0 || gcActiveBlk != Some(src)
        invariant |freePool| == old(|freePool|) ||
                  (|freePool| == old(|freePool|) - 1 && gcActiveBlk.Some? && blocks[gcActiveBlk.value].writePtr <= moved)
        invariant GcRoom() == old(GcRoom()) - moved && migrated == old(migrated) + moved && erases == old(erases)
        invariant WriteBalance() == old(WriteBalance()) && GcBalance() == old(GcBalance())
        invariant lpnToPpn.Keys == old(lpnToPpn.Keys)
        invariant ContentsOf(lpnToPpn, data, hole) == old(ContentsOf(lpnToPpn, data, hole))
        invariant hostWritePages == old(hostWritePages)
      {
        CountMono(blocks[src].valid, idx + 1, pagesPerBlock);
        if blocks[src].valid[idx] {
          MigratePage(src, idx, hole, moved);
          moved := moved + 1;
        } else {
          MapsSkip(blocks, lpnToPpn, ppnToLpn, data, hole, Sweeping(src, idx));
        }
        idx := idx + 1;
      }
    }

    /** A listed block is erased, unlisted and pushed on the pool. */
    method EraseBlock(src: nat, ghost open: set<nat>)
      requires gcPolicy.Valid() && pagesPerBlock > 0 && BlocksOk(blocks, pagesPerBlock)
      requires PoolOk(blocks, pagesPerBlock, freePool, gcPolicy.Entries(), open) && src in gcPolicy.Entries()
      modifies this`blocks, this`freePool, gcPolicy
      ensures gcPolicy.Valid() && BlocksOk(blocks, pagesPerBlock)
      ensures PoolOk(blocks, pagesPerBlock, freePool, gcPolicy.Entries(), open)
      ensures src < old(|blocks|) && |old(blocks[src]).valid| == pagesPerBlock
      ensures blocks == old(blocks)[src := Erased(pagesPerBlock)] && freePool == old(freePool) + [src]
      ensures TotalValid(blocks, |blocks|) == old(TotalValid(blocks, |blocks|)) - old(blocks[src].validCnt)
      ensures TotalWritten(blocks, |blocks|) == old(TotalWritten(blocks, |blocks|)) - pagesPerBlock
    {
      hide GreedyEvictPolicy.Valid, GreedyEvictPolicy.Entries, PoolOk, BlocksOk, TotalValid, TotalWritten;
      ghost var before := blocks;
      AtEntry(blocks, pagesPerBlock, freePool, gcPolicy.Entries(), open, src);
      PoolErase(blocks, pagesPerBlock, freePool, gcPolicy.Entries(), open, src);
      blocks := blocks[src := Erased(pagesPerBlock)];
      gcPolicy.Remove(src);
      freePool := freePool + [src];
      TotalsUpdate(before, |before|, src, blocks[src]);
    }

    /** Erases a fully swept victim and returns it to the pool. */
    method EraseVictim(src: nat, ghost hole: Option<nat>, ghost moved: nat)
      requires Consistent(hole, Sweeping(src, pagesPerBlock), OptSet(gcActiveBlk))
      requires src in gcPolicy.Entries() && moved == blocks[src].validCnt < pagesPerBlock
      requires InUse(gcActiveBlk) && LiveCount(hole, moved)
      modifies this`blocks, this`freePool, this`data, this`erases, gcPolicy
      ensures Consistent(hole, Idle, OptSet(gcActiveBlk)) && LiveCount(hole, 0)
      ensures freePool == old(freePool) + [src] && erases == old(erases) + 1
      ensures InUse(gcActiveBlk) || gcActiveBlk == Some(src)
      ensures gcActiveBlk != Some(src) && old(DestinationUsed(blocks, gcActiveBlk)) ==> DestinationUsed(blocks, gcActiveBlk)
      ensures GcRoom() >= old(GcRoom()) + pagesPerBlock
      ensures WriteBalance() == old(WriteBalance())
      ensures ContentsOf(lpnToPpn, data, hole) == old(ContentsOf(lpnToPpn, data, hole))
    {
      hide MapsOk, GreedyEvictPolicy.Valid, GreedyEvictPolicy.Entries, PoolOk, BlocksOk, ContentsOf, TotalValid,
           TotalWritten, PagesIn;
      ghost var before := blocks;
      EraseBlock(src, OptSet(gcActiveBlk));
      ghost var data' := map p | p in data && p.blk != src :: data[p];
      MapsErase(before, blocks, lpnToPpn, ppnToLpn, data, data', hole, src, pagesPerBlock);
      ContentsErase(before, lpnToPpn, ppnToLpn, data, data', hole, src, pagesPerBlock);
      data := data';
      PagesInStep(|freePool| - 1, pagesPerBlock);
      PagesInStep(erases, pagesPerBlock);
      erases := erases + 1;
    }

    /** Collects until four blocks are free, then opens one for the host. `None` means that
        the loop never ends, which happens exactly when no block can be opened. */
    method AllocateNewActiveBlock(ghost hole: Option<nat>) returns (blkId: Option<nat>)
      requires Consistent(hole, Idle, OptSet(gcActiveBlk))
      requires InUse(gcActiveBlk) && |freePool| >= GC_TRIGGER_THRESHOLD - 1
      requires LiveCount(hole, 0)
      modifies this, gcPolicy
      ensures Consistent(hole, Idle, OptSet(activeBlk) + OptSet(gcActiveBlk))
      ensures LiveCount(hole, 0) && InUse(gcActiveBlk)
      ensures WriteBalance() == old(WriteBalance()) && GcBalance() == old(GcBalance())
      ensures blkId.Some? ==>
                && |freePool| >= GC_TRIGGER_THRESHOLD - 1
                && activeBlk == blkId && InUse(blkId) && blocks[blkId.value].writePtr == 0
      ensures blkId.None? ==> old(|freePool|) < GC_TRIGGER_THRESHOLD && Stuck() && TotalValid(blocks, |blocks|) >= Capacity()
      ensures blkId.Some? <==> old(CanOpen())
      ensures old(|freePool|) >= GC_TRIGGER_THRESHOLD ==>
                && blkId == Some(old(freePool[|freePool| - 1])) && freePool == old(freePool[..|freePool| - 1])
                && gcActiveBlk == old(gcActiveBlk) && migrated == old(migrated) && erases == old(erases)
      ensures old(|freePool|) < GC_TRIGGER_THRESHOLD && blkId.Some? ==> |freePool| == GC_TRIGGER_THRESHOLD - 1 && erases > old(erases)
      ensures AnyBelow(old(gcPolicy.Entries()), 1) ==> migrated == old(migrated) && erases <= old(erases) + 1
      ensures blkId.Some? ==> TotalValid(blocks, |blocks|) <= Capacity()
      ensures lpnToPpn.Keys == old(lpnToPpn.Keys)
      ensures ContentsOf(lpnToPpn, data, hole) == old(ContentsOf(lpnToPpn, data, hole))
      ensures hostWritePages == old(hostWritePages)
    {
      hide MapsOk, GreedyEvictPolicy.Valid, GreedyEvictPolicy.Entries, PoolOk, BlocksOk, ContentsOf, TotalValid,
           TotalWritten, PagesIn;
      var ok := CollectUntilFour(hole);
      if !ok {
        PoolClose(blocks, pagesPerBlock, freePool, gcPolicy.Entries(), OptSet(gcActiveBlk), OptSet(activeBlk) + OptSet(gcActiveBlk));
        return None;
      }
      FreeBlocksWeigh(blocks, pagesPerBlock, freePool, gcPolicy.Entries(), OptSet(gcActiveBlk));
      blkId := OpenForHost(hole);
    }

    /** Pops the block the host writes next. */
    method OpenForHost(ghost hole: Option<nat>) returns (blkId: Option<nat>)
      requires Consistent(hole, Idle, OptSet(gcActiveBlk)) && LiveCount(hole, 0)
      requires |freePool| >= GC_TRIGGER_THRESHOLD && GcDestinationSafe()
      modifies this`blocks, this`freePool, this`activeBlk
      ensures Consistent(hole, Idle, OptSet(activeBlk) + OptSet(gcActiveBlk)) && LiveCount(hole, 0)
      ensures InUse(gcActiveBlk) && freePool == old(freePool[..|freePool| - 1])
      ensures blkId == Some(old(freePool[|freePool| - 1])) && activeBlk == blkId && InUse(blkId) && blocks[blkId.value].writePtr == 0
      ensures WriteBalance() == old(WriteBalance())
      ensures TotalValid(blocks, |blocks|) == old(TotalValid(blocks, |blocks|))
    {
      hide MapsOk, GreedyEvictPolicy.Valid, GreedyEvictPolicy.Entries, PoolOk, BlocksOk, ContentsOf, TotalValid,
           TotalWritten, PagesIn;
      var b := freePool[|freePool| - 1];
      PoolOpen(blocks, pagesPerBlock, freePool, gcPolicy.Entries(), OptSet(gcActiveBlk));
      ghost var before := blocks;
      freePool := freePool[..|freePool| - 1];
      blocks := blocks[b := Opened(pagesPerBlock)];
      TotalsUpdate(before, |before|, b, blocks[b]);
      MapsSameBits(before, blocks, lpnToPpn, ppnToLpn, data, hole, Idle);
      activeBlk := Some(b);
      assert OptSet(gcActiveBlk) + {b} == OptSet(activeBlk) + OptSet(gcActiveBlk);
      return activeBlk;
    }

    /** The loop that runs GC rounds until four blocks are free. Each round raises GcRoom,
        so it ends, or reaches a state no round changes. */
    method CollectUntilFour(ghost hole: Option<nat>) returns (ok: bool)
      requires Consistent(hole, Idle, OptSet(gcActiveBlk))
      requires InUse(gcActiveBlk) && |freePool| >= GC_TRIGGER_THRESHOLD - 1
      requires LiveCount(hole, 0)
      modifies this, gcPolicy
      ensures Consistent(hole, Idle, OptSet(gcActiveBlk)) && LiveCount(hole, 0)
      ensures if ok then |freePool| >= GC_TRIGGER_THRESHOLD && GcDestinationSafe()
              else Stuck() && InUse(gcActiveBlk) && old(|freePool|) < GC_TRIGGER_THRESHOLD &&
                   TotalValid(blocks, |blocks|) >= Capacity()
      ensures ok <==> old(CanOpen())
      ensures old(|freePool|) >= GC_TRIGGER_THRESHOLD ==> unchanged(this) && unchanged(gcPolicy)
      ensures old(|freePool|) < GC_TRIGGER_THRESHOLD && ok ==> |freePool| == GC_TRIGGER_THRESHOLD && erases > old(erases)
      ensures AnyBelow(old(gcPolicy.Entries()), 1) ==> migrated == old(migrated) && erases <= old(erases) + 1
      ensures WriteBalance() == old(WriteBalance()) && GcBalance() == old(GcBalance())
      ensures lpnToPpn.Keys == old(lpnToPpn.Keys)
      ensures ContentsOf(lpnToPpn, data, hole) == old(ContentsOf(lpnToPpn, data, hole))
      ensures hostWritePages == old(hostWritePages)
    {
      hide MapsOk, GreedyEvictPolicy.Valid, GreedyEvictPolicy.Entries, PoolOk, BlocksOk, ContentsOf, TotalValid,
           TotalWritten, PagesIn;
      ghost var started := false;
      while |freePool| < GC_TRIGGER_THRESHOLD
        invariant Consistent(hole, Idle, OptSet(gcActiveBlk))
        invariant LiveCount(hole, 0)
        invariant |freePool| >= old(|freePool|) && |freePool| >= GC_TRIGGER_THRESHOLD - 1 && GcDestinationSafe()
        invariant WriteBalance() == old(WriteBalance()) && GcBalance() == old(GcBalance())
        invariant lpnToPpn.Keys == old(lpnToPpn.Keys)
        invariant ContentsOf(lpnToPpn, data, hole) == old(ContentsOf(lpnToPpn, data, hole))
        invariant hostWritePages == old(hostWritePages)
        invariant TotalValid(blocks, |blocks|) == old(TotalValid(blocks, |blocks|))
        invariant started ==> old(|freePool|) < GC_TRIGGER_THRESHOLD && old(SomeInvalid()) && |freePool| <= GC_TRIGGER_THRESHOLD && erases > old(erases)
        invariant started && AnyBelow(old(gcPolicy.Entries()), 1) ==>
                    migrated == old(migrated) && |freePool| >= GC_TRIGGER_THRESHOLD && erases == old(erases) + 1
        invariant !started ==> unchanged(this) && unchanged(gcPolicy)
        invariant old(CanOpen()) ==> CanOpen()
        decreases PagesIn(4, pagesPerBlock) - GcRoom()
      {
        GcRoomBound();
        EntriesBounded(blocks, pagesPerBlock, freePool, gcPolicy.Entries(), OptSet(gcActiveBlk));
        ghost var free := |freePool|;
        var ok := RunGC(hole);
        if !ok {
          if TotalValid(blocks, |blocks|) < Capacity() {
            VictimExists(blocks, pagesPerBlock, freePool, gcPolicy.Entries(), gcActiveBlk);
          }
          return false;
        }
        SameLive(hole, old(|lpnToPpn.Keys|));
        if !started {
          started := true;
        }
        if TotalValid(blocks, |blocks|) <= Capacity() && |freePool| == free {
          VictimExists(blocks, pagesPerBlock, freePool, gcPolicy.Entries(), gcActiveBlk);
        }
      }
      FreeBlocksWeigh(blocks, pagesPerBlock, freePool, gcPolicy.Entries(), OptSet(gcActiveBlk));
      return true;
    }

    lemma SameLive(hole: Option<nat>, keys: nat)
      requires LiveCount(hole, 0) && |lpnToPpn.Keys| == keys
      ensures TotalValid(blocks, |blocks|) == keys - if hole.Some? && hole.value in lpnToPpn then 1 else 0
    {
      assert |lpnToPpn| == |lpnToPpn.Keys|;
    }

    lemma GcRoomBound()
      requires |freePool| < GC_TRIGGER_THRESHOLD && pagesPerBlock > 0
      ensures GcRoom() <= PagesIn(4, pagesPerBlock)
    {
      PagesInMono(|freePool|, 3, pagesPerBlock);
    }

    method GetOrAllocateActiveBlock(ghost hole: Option<nat>) returns (blkId: Option<nat>)
      requires Consistent(hole, Idle, OptSet(activeBlk) + OptSet(gcActiveBlk)) && LiveCount(hole, 0)
      requires InUse(activeBlk) && InUse(gcActiveBlk) && |freePool| >= GC_TRIGGER_THRESHOLD - 1
      modifies this, gcPolicy
      ensures Consistent(hole, Idle, OptSet(activeBlk) + OptSet(gcActiveBlk)) && LiveCount(hole, 0)
      ensures WriteBalance() == old(WriteBalance()) && GcBalance() == old(GcBalance())
      ensures blkId.Some? ==>
                && |freePool| >= GC_TRIGGER_THRESHOLD - 1 && InUse(gcActiveBlk)
                && activeBlk == blkId && InUse(blkId) && blocks[blkId.value].writePtr < pagesPerBlock
      ensures blkId.None? ==> Stuck() && TotalValid(blocks, |blocks|) >= Capacity()
      ensures blkId.Some? <==> old(HostFill() < pagesPerBlock || CanOpen())
      ensures old(HostFill()) < pagesPerBlock ==> unchanged(this) && unchanged(gcPolicy) && HostFill() == old(HostFill())
      ensures old(NoCopying()) ==> migrated == old(migrated)
      ensures old(HostFill() < pagesPerBlock || |freePool| >= GC_TRIGGER_THRESHOLD) ==> erases == old(erases) && migrated == old(migrated)
      ensures blkId.Some? && old(HostFill()) >= pagesPerBlock ==> HostFill() == 0 && TotalValid(blocks, |blocks|) <= Capacity()
      ensures lpnToPpn.Keys == old(lpnToPpn.Keys)
      ensures ContentsOf(lpnToPpn, data, hole) == old(ContentsOf(lpnToPpn, data, hole))
      ensures hostWritePages == old(hostWritePages)
    {
      hide MapsOk, GreedyEvictPolicy.Valid, GreedyEvictPolicy.Entries, PoolOk, BlocksOk, ContentsOf, TotalValid,
           TotalWritten, PagesIn;
      if activeBlk.Some? && !Full(blocks[activeBlk.value], pagesPerBlock) {
        return activeBlk;
      }
      PoolClose(blocks, pagesPerBlock, freePool, gcPolicy.Entries(), OptSet(activeBlk) + OptSet(gcActiveBlk), OptSet(gcActiveBlk));
      blkId := AllocateNewActiveBlock(hole);
    }

    /** Programs the host's next page into the active block and points the hole at it. */
    method ProgramPage(lpn: nat, blkId: nat, ghost payload: nat)
      requires Consistent(Some(lpn), Idle, OptSet(activeBlk) + OptSet(gcActiveBlk)) && LiveCount(Some(lpn), 0)
      requires activeBlk == Some(blkId) && InUse(activeBlk) && blocks[blkId].writePtr < pagesPerBlock
      modifies this`blocks, this`lpnToPpn, this`ppnToLpn, this`data, gcPolicy
      ensures Consistent(None, Idle, OptSet(activeBlk) + OptSet(gcActiveBlk)) && LiveCount(None, 0)
      ensures WriteBalance() == old(WriteBalance()) - 1 && GcBalance() == old(GcBalance())
      ensures InUse(activeBlk) && (old(InUse(gcActiveBlk)) ==> InUse(gcActiveBlk))
      ensures lpnToPpn.Keys == old(lpnToPpn.Keys) + {lpn}
      ensures HostFill() == old(HostFill()) + 1
      ensures Contents() == old(ContentsOf(lpnToPpn, data, Some(lpn)))[lpn := payload]
    {
      hide MapsOk, GreedyEvictPolicy.Valid, GreedyEvictPolicy.Entries, PoolOk, BlocksOk, ContentsOf, TotalValid,
           TotalWritten, PagesIn, Live, IsSet, BitSet, Programmed;
      NotEntry(blocks, pagesPerBlock, freePool, gcPolicy.Entries(), OptSet(activeBlk) + OptSet(gcActiveBlk), blkId);
      ProgrammedBit(blocks, blkId);
      ghost var before := blocks;
      var ppn := Ppn(blkId, blocks[blkId].writePtr);
      ProgramNext(blkId, OptSet(activeBlk) + OptSet(gcActiveBlk));
      MapsProgram(before, blocks, lpnToPpn, ppnToLpn, data, lpn, ppn, payload);
      ContentsProgram(before, lpnToPpn, ppnToLpn, data, lpn, ppn, payload);
      data := data[ppn := payload];
      lpnToPpn := lpnToPpn[lpn := ppn];
      ppnToLpn := ppnToLpn[ppn := lpn];
    }

    /** One page of a host write. On false the source would never return: every block it
        could collect is fully valid, and more live pages are wanted than fit. */
    method WritePage(lpn: nat, ghost payload: nat) returns (done: bool)
      requires Settled()
      modifies this, gcPolicy
      ensures done ==> Settled()
      ensures WriteBalance() == old(WriteBalance()) - (if done then 1 else 0) && GcBalance() == old(GcBalance())
      ensures done ==> lpnToPpn.Keys == old(lpnToPpn.Keys) + {lpn} && Contents() == old(Contents())[lpn := payload]
      ensures !done ==> Stuck() && Demand(old(lpnToPpn.Keys), {lpn}) > Capacity()
      ensures done <==> old(CanProgram(lpn))
      ensures old(NoCopying()) ==> migrated == old(migrated)
      ensures old(HostFill() < pagesPerBlock || |freePool| >= GC_TRIGGER_THRESHOLD) ==> erases == old(erases) && migrated == old(migrated)
      ensures old(HostFill()) < pagesPerBlock ==> done && HostFill() == old(HostFill()) + 1
      ensures hostWritePages == old(hostWritePages)
    {
      hide MapsOk, GreedyEvictPolicy.Valid, GreedyEvictPolicy.Entries, PoolOk, BlocksOk, ContentsOf, TotalValid,
           TotalWritten, PagesIn, Consistent, WriteBalance, GcBalance, OptSet, InUse, Capacity;
      ContentsWrite(lpnToPpn, data, lpn, payload);
      DemandOne(lpnToPpn, lpn);
      KeysWithout(lpnToPpn, lpn);
      hide Demand;
      var old' := GetPpn(lpn);
      InvalidatePpn(old', lpn);
      var blkId := GetOrAllocateActiveBlock(Some(lpn));
      if blkId.None? {
        return false;
      }
      ProgramPage(lpn, blkId.value, payload);
      done := true;
    }

    /** The page loop of a host write. */
    method WritePages(startLpn: nat, numPages: nat, ghost payload: nat) returns (done: bool)
      requires Settled()
      modifies this, gcPolicy
      ensures done ==>
                && Settled() && WriteBalance() == old(WriteBalance()) - numPages
                && lpnToPpn.Keys == old(lpnToPpn.Keys) + Between(startLpn, startLpn + numPages)
                && Contents() == Overwrite(old(Contents()), Between(startLpn, startLpn + numPages), payload)
      ensures !done ==> Stuck() && Demand(old(lpnToPpn.Keys), Between(startLpn, startLpn + numPages)) > Capacity()
      ensures numPages > 0 && !old(CanProgram(startLpn)) ==> !done
      ensures numPages == 1 ==> (done <==> old(CanProgram(startLpn)))
      ensures old(HostFill()) + numPages <= pagesPerBlock ==>
                done && HostFill() == old(HostFill()) + numPages && migrated == old(migrated) && erases == old(erases)
      ensures numPages == 1 && old(NoCopying()) ==> migrated == old(migrated)
      ensures hostWritePages == old(hostWritePages) && GcBalance() == old(GcBalance())
    {
      hide Settled, HostFill, CanProgram, Consistent, LiveCount, InUse, Contents, WriteBalance, GcBalance,
           PagesIn, Capacity, Demand, Stuck, Between, Overwrite;
      OverwriteNone(lpnToPpn.Keys, Contents(), startLpn, payload);
      var i := 0;
      while i < numPages
        invariant 0 <= i <= numPages
        invariant Settled()
        invariant WriteBalance() == old(WriteBalance()) - i && GcBalance() == old(GcBalance())
        invariant lpnToPpn.Keys == old(lpnToPpn.Keys) + Between(startLpn, startLpn + i)
        invariant Contents() == Overwrite(old(Contents()), Between(startLpn, startLpn + i), payload)
        invariant hostWritePages == old(hostWritePages)
        invariant i == 0 ==> unchanged(this) && unchanged(gcPolicy)
        invariant i > 0 ==> old(CanProgram(startLpn))
        invariant old(HostFill()) + numPages <= pagesPerBlock ==>
                    HostFill() == old(HostFill()) + i && migrated == old(migrated) && erases == old(erases)
        invariant numPages == 1 && old(NoCopying()) ==> migrated == old(migrated)
      {
        WriteStep(old(lpnToPpn.Keys), old(Contents()), startLpn, i, payload);
        done := WritePage(startLpn + i, payload);
        if !done {
          DemandGrows(old(lpnToPpn.Keys), startLpn, i, numPages);
          return;
        }
        i := i + 1;
      }
      done := true;
    }

    /** A host write. When it completes, exactly the pages it spans read back its payload. */
    method Write(lbaOffset: nat, byteSize: nat, ghost payload: nat) returns (done: bool)
      requires Valid()
      requires lbaOffset % SECTOR_SIZE == 0 && byteSize % SECTOR_SIZE == 0 && byteSize > 0
      modifies this, gcPolicy
      ensures done ==> Valid()
      ensures done ==> lpnToPpn.Keys == old(lpnToPpn.Keys) + Span(lbaOffset, byteSize)
      ensures done ==> Contents() == Overwrite(old(Contents()), Span(lbaOffset, byteSize), payload)
      ensures done ==> hostWritePages == old(hostWritePages) + |Span(lbaOffset, byteSize)|
      ensures !done ==> Stuck() && Demand(old(lpnToPpn.Keys), Span(lbaOffset, byteSize)) > Capacity()
      ensures !old(CanProgram(FirstLpn(lbaOffset))) ==> !done
      ensures |Span(lbaOffset, byteSize)| == 1 ==> (done <==> old(CanProgram(FirstLpn(lbaOffset))))
      ensures old(HostFill()) + |Span(lbaOffset, byteSize)| <= pagesPerBlock ==>
                && done && HostFill() == old(HostFill()) + |Span(lbaOffset, byteSize)|
                && migrated == old(migrated) && erases == old(erases)
      ensures |Span(lbaOffset, byteSize)| == 1 && old(NoCopying()) ==> migrated == old(migrated)
    {
      hide PagesIn, TotalWritten, Consistent, Contents, Stuck, LiveCount, Between, Overwrite;
      SpanInPages(lbaOffset, byteSize);
      var startLpn := FirstLpn(lbaOffset);
      var numPages := LastLpn(lbaOffset, byteSize) - startLpn + 1;
      BetweenSize(startLpn, startLpn + numPages);
      ChargeHost(numPages);
      done := WritePages(startLpn, numPages, payload);
    }

    /** The counters are charged for the whole request up front. */
    method ChargeHost(numPages: nat)
      requires Settled()
      modifies this`hostWritePages, this`nandWritePages
      ensures Settled() && Contents() == old(Contents())
      ensures hostWritePages == old(hostWritePages) + numPages
      ensures HostFill() == old(HostFill()) && (NoCopying() <==> old(NoCopying())) && forall lpn :: CanProgram(lpn) <==> old(CanProgram(lpn))
      ensures WriteBalance() == old(WriteBalance()) + numPages && GcBalance() == old(GcBalance())
    {
      hide BlocksOk, PoolOk, MapsOk, GreedyEvictPolicy.Valid, GreedyEvictPolicy.Entries, ContentsOf, TotalValid,
           TotalWritten, PagesIn;
      hostWritePages := hostWritePages + numPages;
      nandWritePages := nandWritePages + numPages;
    }

    /** Drops the forward entry of a page that has just been invalidated. */
    method Unmap(lpn: nat)
      requires Consistent(Some(lpn), Idle, OptSet(activeBlk) + OptSet(gcActiveBlk)) && LiveCount(Some(lpn), 0)
      requires lpn in lpnToPpn
      modifies this`lpnToPpn
      ensures Consistent(None, Idle, OptSet(activeBlk) + OptSet(gcActiveBlk)) && LiveCount(None, 0)
      ensures WriteBalance() == old(WriteBalance()) && GcBalance() == old(GcBalance())
      ensures lpnToPpn.Keys == old(lpnToPpn.Keys) - {lpn}
      ensures Contents() == old(Contents()) - {lpn}
    {
      hide MapsOk, GreedyEvictPolicy.Valid, GreedyEvictPolicy.Entries, PoolOk, BlocksOk, ContentsOf, TotalValid,
           TotalWritten, PagesIn, OptSet;
      ContentsTrim(lpnToPpn, data, lpn);
      MapWithout(lpnToPpn, lpn);
      MapsUnmap(blocks, lpnToPpn, ppnToLpn, data, lpn);
      lpnToPpn := lpnToPpn - {lpn};
    }

    /** Drops one logical page. */
    method TrimPage(lpn: nat)
      requires Settled()
      modifies this`blocks, this`lpnToPpn, this`ppnToLpn, gcPolicy
      ensures Settled()
      ensures WriteBalance() == old(WriteBalance()) && GcBalance() == old(GcBalance())
      ensures lpnToPpn.Keys == old(lpnToPpn.Keys) - {lpn}
      ensures Contents() == old(Contents()) - {lpn}
      ensures HostFill() == old(HostFill())
    {
      hide Consistent, LiveCount, ContentsOf, WriteBalance, GcBalance, OptSet;
      var old' := GetPpn(lpn);
      if old'.None? {
        ContentsUnmapped(lpnToPpn, data, lpn);
        return;
      }
      InvalidatePpn(old', lpn);
      Unmap(lpn);
    }

    /** The page loop of a host trim. */
    method TrimPages(startLpn: nat, endLpn: nat)
      requires Settled() && startLpn <= endLpn + 1
      modifies this`blocks, this`lpnToPpn, this`ppnToLpn, gcPolicy
      ensures Settled()
      ensures WriteBalance() == old(WriteBalance()) && GcBalance() == old(GcBalance())
      ensures lpnToPpn.Keys == old(lpnToPpn.Keys) - Between(startLpn, endLpn + 1)
      ensures Contents() == old(Contents()) - Between(startLpn, endLpn + 1)
      ensures HostFill() == old(HostFill())
    {
      hide Settled, HostFill, CanProgram, Consistent, LiveCount, InUse, Contents, WriteBalance, GcBalance,
           PagesIn, Between;
      OverwriteNone(lpnToPpn.Keys, Contents(), startLpn, 0);
      var curLpn := startLpn;
      while curLpn <= endLpn
        invariant startLpn <= curLpn <= endLpn + 1
        invariant Settled()
        invariant WriteBalance() == old(WriteBalance()) && GcBalance() == old(GcBalance())
        invariant lpnToPpn.Keys == old(lpnToPpn.Keys) - Between(startLpn, curLpn)
        invariant Contents() == old(Contents()) - Between(startLpn, curLpn)
        invariant HostFill() == old(HostFill())
      {
        TrimStep(old(lpnToPpn.Keys), old(Contents()), startLpn, curLpn);
        TrimPage(curLpn);
        curLpn := curLpn + 1;
      }
    }

    /** A host trim drops exactly the pages it spans. */
    method Trim(lbaOffset: nat, byteSize: nat)
      requires Valid()
      requires lbaOffset % SECTOR_SIZE == 0 && byteSize % SECTOR_SIZE == 0
      modifies this`blocks, this`lpnToPpn, this`ppnToLpn, gcPolicy
      ensures Valid()
      ensures lpnToPpn.Keys == old(lpnToPpn.Keys) - Span(lbaOffset, byteSize)
      ensures Contents() == old(Contents()) - Span(lbaOffset, byteSize)
      ensures HostFill() == old(HostFill())
    {
      hide PagesIn, TotalWritten, Consistent, LiveCount;
      if byteSize == 0 {
        assert Contents() - {} == Contents();
        return;
      }
      hide Contents, Between;
      SpanInPages(lbaOffset, byteSize);
      TrimPages(FirstLpn(lbaOffset), LastLpn(lbaOffset, byteSize));
    }
  }
}
