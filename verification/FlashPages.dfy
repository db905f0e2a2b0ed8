/** Flash geometry, block metadata and the two page maps, as values: what the FTL's
    invariant says about them and what each elementary transition does to it. */
module FlashPages {
  import opened Arithmetic
  import opened Counting

  const SECTOR_SIZE: nat := 512
  const NAND_PAGE_SIZE: nat := 4096
  const SECTORS_PER_PAGE: nat := NAND_PAGE_SIZE / SECTOR_SIZE
  const GC_TRIGGER_THRESHOLD: nat := 4

  /** A physical page: page `idx` of block `blk`. */
  datatype Ppn = Ppn(blk: nat, idx: nat)

  datatype Block = Block(writePtr: nat, validCnt: nat, valid: seq<bool>, isFree: bool)

  /** A block under garbage collection whose pages below `cursor` have been moved away. */
  datatype Sweep = Idle | Sweeping(blk: nat, cursor: nat)

  /** The number of pages in n blocks. Recursive, so that proofs stay linear. */
  function PagesIn(n: nat, pagesPerBlock: nat): nat {
    if n == 0 then 0 else PagesIn(n - 1, pagesPerBlock) + pagesPerBlock
  }

  lemma PagesInStep(n: nat, pagesPerBlock: nat)
    ensures PagesIn(n + 1, pagesPerBlock) == PagesIn(n, pagesPerBlock) + pagesPerBlock
  {}

  lemma {:induction false} PagesInIsProduct(n: nat, pagesPerBlock: nat)
    ensures PagesIn(n, pagesPerBlock) == n * pagesPerBlock
  {
    if n > 0 {
      PagesInIsProduct(n - 1, pagesPerBlock);
      assert n * pagesPerBlock == (n - 1) * pagesPerBlock + pagesPerBlock;
    }
  }

  lemma {:induction false} PagesInMono(a: nat, b: nat, pagesPerBlock: nat)
    requires a <= b
    ensures PagesIn(a, pagesPerBlock) <= PagesIn(b, pagesPerBlock)
  {
    if a < b { PagesInMono(a, b - 1, pagesPerBlock); }
  }

  lemma {:induction false} PagesInSplit(a: nat, b: nat, pagesPerBlock: nat)
    ensures PagesIn(a + b, pagesPerBlock) == PagesIn(a, pagesPerBlock) + PagesIn(b, pagesPerBlock)
  {
    if b > 0 { PagesInSplit(a, b - 1, pagesPerBlock); }
  }

  // ---- physical page numbers ----

  function PpnNumber(p: Ppn, pagesPerBlock: nat): nat {
    p.blk * pagesPerBlock + p.idx
  }

  function PpnOfNumber(n: nat, pagesPerBlock: nat): Ppn
    requires pagesPerBlock > 0
  {
    Ppn(n / pagesPerBlock, n % pagesPerBlock)
  }

  /** The number the source stores and the pair used here name the same page, both ways,
      and the number stays below the device's page count. */
  lemma PpnCodec(p: Ppn, n: nat, pagesPerBlock: nat, totalBlocks: nat)
    requires p.idx < pagesPerBlock
    ensures PpnOfNumber(PpnNumber(p, pagesPerBlock), pagesPerBlock) == p
    ensures PpnNumber(PpnOfNumber(n, pagesPerBlock), pagesPerBlock) == n
    ensures p.blk < totalBlocks <==> PpnNumber(p, pagesPerBlock) < totalBlocks * pagesPerBlock
  {
    DivModUnique(PpnNumber(p, pagesPerBlock), pagesPerBlock, p.blk, p.idx);
    RowMajor(p.blk, totalBlocks, pagesPerBlock, p.idx);
  }

  // ---- byte ranges ----

  function FirstLpn(offset: nat): nat {
    (offset / SECTOR_SIZE) / SECTORS_PER_PAGE
  }

  function LastLpn(offset: nat, size: nat): nat
    requires size > 0
  {
    ((offset + size - 1) / SECTOR_SIZE) / SECTORS_PER_PAGE
  }

  /** The logical pages a request touches; none when it is empty. */
  function Span(offset: nat, size: nat): set<nat> {
    if size == 0 then {} else Between(FirstLpn(offset), LastLpn(offset, size) + 1)
  }

  /** The span computed from sectors is exactly the pages the byte range overlaps. */
  lemma SpanCoversBytes(offset: nat, size: nat, lpn: nat)
    ensures lpn in Span(offset, size) <==>
            exists b :: offset <= b < offset + size && b / 4096 == lpn
  {
    if size > 0 {
      SpanInPages(offset, size);
      var first, last := offset / NAND_PAGE_SIZE, (offset + size - 1) / NAND_PAGE_SIZE;
      if first <= lpn <= last {
        var b := if lpn == first then offset else lpn * NAND_PAGE_SIZE;
        assert offset <= b < offset + size && b / NAND_PAGE_SIZE == lpn;
      }
    }
  }

  /** Dividing by sectors and then by sectors per page is dividing by the page size. */
  lemma SpanInPages(offset: nat, size: nat)
    requires size > 0
    ensures FirstLpn(offset) == offset / NAND_PAGE_SIZE
    ensures LastLpn(offset, size) == (offset + size - 1) / NAND_PAGE_SIZE
    ensures FirstLpn(offset) <= LastLpn(offset, size)
  {
    PageOfByte(offset);
    PageOfByte(offset + size - 1);
    DivAtMost(offset, (offset + size - 1) / NAND_PAGE_SIZE, NAND_PAGE_SIZE);
    DivAtMost(offset + size - 1, (offset + size - 1) / NAND_PAGE_SIZE, NAND_PAGE_SIZE);
  }

  lemma PageOfByte(x: nat)
    ensures x / SECTOR_SIZE / SECTORS_PER_PAGE == x / NAND_PAGE_SIZE
  {
    var sector := x / SECTOR_SIZE;
    DivModUnique(x, NAND_PAGE_SIZE, sector / SECTORS_PER_PAGE, sector % SECTORS_PER_PAGE * SECTOR_SIZE + x % SECTOR_SIZE);
  }

  /** A request within one page's bytes touches exactly that page. */
  lemma BlockSpan(key: nat, size: nat)
    requires 0 < size <= NAND_PAGE_SIZE
    ensures Span(key * NAND_PAGE_SIZE, size) == {key}
    ensures key * NAND_PAGE_SIZE % SECTOR_SIZE == 0
  {
    hide FirstLpn, LastLpn;
    BlockPages(key, size);
    PageEdge(key);
    assert Between(key, key + 1) == {key};
  }

  lemma PageEdge(key: nat)
    ensures key * NAND_PAGE_SIZE % SECTOR_SIZE == 0
  {
    DivModUnique(key * NAND_PAGE_SIZE, SECTOR_SIZE, key * SECTORS_PER_PAGE, 0);
  }

  lemma BlockPages(key: nat, size: nat)
    requires 0 < size <= NAND_PAGE_SIZE
    ensures FirstLpn(key * NAND_PAGE_SIZE) == key == LastLpn(key * NAND_PAGE_SIZE, size)
  {
    hide FirstLpn, LastLpn;
    SpanInPages(key * NAND_PAGE_SIZE, size);
    DivModUnique(key * NAND_PAGE_SIZE, NAND_PAGE_SIZE, key, 0);
    DivModUnique(key * NAND_PAGE_SIZE + size - 1, NAND_PAGE_SIZE, key, size - 1);
  }

  // ---- blocks ----

  ghost predicate BlockOk(b: Block, pagesPerBlock: nat) {
    && |b.valid| == pagesPerBlock
    && b.writePtr <= pagesPerBlock
    && b.validCnt == Count(b.valid, pagesPerBlock)
    && (forall i :: b.writePtr <= i < pagesPerBlock ==> !b.valid[i])
    && (b.isFree ==> b.writePtr == 0)
  }

  ghost predicate BlocksOk(blocks: seq<Block>, pagesPerBlock: nat) {
    forall b :: 0 <= b < |blocks| ==> BlockOk(blocks[b], pagesPerBlock)
  }

  lemma AtBlock(blocks: seq<Block>, pagesPerBlock: nat, b: nat)
    requires BlocksOk(blocks, pagesPerBlock) && b < |blocks|
    ensures BlockOk(blocks[b], pagesPerBlock)
  {}

  function Full(b: Block, pagesPerBlock: nat): bool {
    b.writePtr >= pagesPerBlock
  }

  /** A block with the page at its write pointer programmed. */
  function Programmed(b: Block): Block
    requires b.writePtr < |b.valid|
  {
    b.(valid := b.valid[b.writePtr := true], validCnt := b.validCnt + 1, writePtr := b.writePtr + 1, isFree := false)
  }

  function Erased(pagesPerBlock: nat): Block {
    Block(0, 0, seq(pagesPerBlock, i => false), true)
  }

  function Opened(pagesPerBlock: nat): Block {
    Erased(pagesPerBlock).(isFree := false)
  }

  lemma ProgrammedOk(b: Block, pagesPerBlock: nat)
    requires BlockOk(b, pagesPerBlock) && b.writePtr < pagesPerBlock
    ensures BlockOk(Programmed(b), pagesPerBlock)
  {
    CountUpdate(b.valid, pagesPerBlock, b.writePtr, true);
  }

  lemma InvalidatedOk(b: Block, i: nat, pagesPerBlock: nat)
    requires BlockOk(b, pagesPerBlock) && i < pagesPerBlock && b.valid[i]
    ensures b.validCnt > 0
    ensures BlockOk(b.(valid := b.valid[i := false], validCnt := b.validCnt - 1), pagesPerBlock)
  {
    CountUpdate(b.valid, pagesPerBlock, i, false);
  }

  lemma ErasedOk(pagesPerBlock: nat)
    ensures BlockOk(Erased(pagesPerBlock), pagesPerBlock)
    ensures BlockOk(Opened(pagesPerBlock), pagesPerBlock)
  {
    CountZero(Erased(pagesPerBlock).valid, pagesPerBlock);
  }

  /** A free block is indistinguishable from a freshly erased one. */
  lemma FreeIsErased(b: Block, pagesPerBlock: nat)
    requires BlockOk(b, pagesPerBlock) && b.writePtr == 0
    ensures b.validCnt == 0 && b.valid == Erased(pagesPerBlock).valid
  {
    CountZero(b.valid, pagesPerBlock);
  }

  // ---- totals over all blocks ----

  /** Valid pages in the first n blocks. */
  function TotalValid(blocks: seq<Block>, n: nat): nat
    requires n <= |blocks|
  {
    if n == 0 then 0 else TotalValid(blocks, n - 1) + blocks[n - 1].validCnt
  }

  /** Pages of the first n blocks programmed since their block's last erase. */
  function TotalWritten(blocks: seq<Block>, n: nat): nat
    requires n <= |blocks|
  {
    if n == 0 then 0 else TotalWritten(blocks, n - 1) + blocks[n - 1].writePtr
  }

  lemma {:induction false} TotalsUpdate(blocks: seq<Block>, n: nat, i: nat, b: Block)
    requires n <= |blocks| && i < |blocks|
    ensures TotalValid(blocks[i := b], n) ==
            if i < n then TotalValid(blocks, n) - blocks[i].validCnt + b.validCnt else TotalValid(blocks, n)
    ensures TotalWritten(blocks[i := b], n) ==
            if i < n then TotalWritten(blocks, n) - blocks[i].writePtr + b.writePtr else TotalWritten(blocks, n)
  {
    if n > 0 { TotalsUpdate(blocks, n - 1, i, b); }
  }

  lemma {:induction false} TotalsZero(blocks: seq<Block>, n: nat)
    requires n <= |blocks|
    requires forall b :: 0 <= b < n ==> blocks[b].validCnt == 0 && blocks[b].writePtr == 0
    ensures TotalValid(blocks, n) == 0 && TotalWritten(blocks, n) == 0
  {
    if n > 0 { TotalsZero(blocks, n - 1); }
  }

  // ---- the page maps ----

  predicate IsSet(blocks: seq<Block>, p: Ppn) {
    p.blk < |blocks| && p.idx < |blocks[p.blk].valid| && blocks[p.blk].valid[p.idx]
  }

  predicate Swept(sw: Sweep, p: Ppn) {
    sw.Sweeping? && p.blk == sw.blk && p.idx < sw.cursor
  }

  /** A page that holds the current copy of some logical page. */
  predicate Live(blocks: seq<Block>, sw: Sweep, p: Ppn) {
    IsSet(blocks, p) && !Swept(sw, p)
  }

  /** A page at the cursor has not been moved away. */
  lemma CursorLive(blocks: seq<Block>, p: Ppn)
    requires IsSet(blocks, p)
    ensures Live(blocks, Sweeping(p.blk, p.idx), p)
  {}

  /** Forward and reverse maps are inverse on live pages and every live page has its
      payload. `hole` is a logical page in the middle of being rewritten: its forward
      entry may be stale, and no live page belongs to it. */
  ghost predicate MapsOk(blocks: seq<Block>, l2p: map<nat, Ppn>, p2l: map<Ppn, nat>, data: map<Ppn, nat>,
                         hole: Option<nat>, sw: Sweep)
  {
    && (forall lpn :: lpn in l2p && Some(lpn) != hole ==>
                        Live(blocks, sw, l2p[lpn]) && l2p[lpn] in p2l && p2l[l2p[lpn]] == lpn)
    && (forall p :: Live(blocks, sw, p) ==>
                      p in data && p in p2l && Some(p2l[p]) != hole && p2l[p] in l2p && l2p[p2l[p]] == p)
  }

  lemma MappedPage(blocks: seq<Block>, l2p: map<nat, Ppn>, p2l: map<Ppn, nat>, data: map<Ppn, nat>,
                   hole: Option<nat>, sw: Sweep, lpn: nat)
    requires MapsOk(blocks, l2p, p2l, data, hole, sw)
    requires lpn in l2p && Some(lpn) != hole
    ensures Live(blocks, sw, l2p[lpn]) && l2p[lpn] in p2l && p2l[l2p[lpn]] == lpn && l2p[lpn] in data
  {}

  lemma LivePage(blocks: seq<Block>, l2p: map<nat, Ppn>, p2l: map<Ppn, nat>, data: map<Ppn, nat>,
                 hole: Option<nat>, sw: Sweep, p: Ppn)
    requires MapsOk(blocks, l2p, p2l, data, hole, sw)
    requires Live(blocks, sw, p)
    ensures p in data && p in p2l && Some(p2l[p]) != hole && p2l[p] in l2p && l2p[p2l[p]] == p
  {}

  /** Only the bits matter to the maps. */
  lemma MapsSameBits(blocks: seq<Block>, blocks': seq<Block>, l2p: map<nat, Ppn>, p2l: map<Ppn, nat>,
                     data: map<Ppn, nat>, hole: Option<nat>, sw: Sweep)
    requires MapsOk(blocks, l2p, p2l, data, hole, sw)
    requires |blocks'| == |blocks| && forall b :: 0 <= b < |blocks| ==> blocks'[b].valid == blocks[b].valid
    ensures MapsOk(blocks', l2p, p2l, data, hole, sw)
  {
    forall p ensures Live(blocks', sw, p) == Live(blocks, sw, p) {}
  }

  lemma MapsInvalidate(blocks: seq<Block>, blocks': seq<Block>, l2p: map<nat, Ppn>, p2l: map<Ppn, nat>,
                       data: map<Ppn, nat>, lpn: nat)
    requires MapsOk(blocks, l2p, p2l, data, None, Idle)
    requires lpn in l2p
    requires var p := l2p[lpn];
             && IsSet(blocks, p) && |blocks'| == |blocks|
             && (forall b :: 0 <= b < |blocks| ==>
                               blocks'[b].valid == if b == p.blk then blocks[b].valid[p.idx := false] else blocks[b].valid)
    ensures MapsOk(blocks', l2p, p2l - {l2p[lpn]}, data, Some(lpn), Idle)
  {
    forall p ensures Live(blocks', Idle, p) <==> Live(blocks, Idle, p) && p != l2p[lpn] {}
  }

  lemma MapsUnmap(blocks: seq<Block>, l2p: map<nat, Ppn>, p2l: map<Ppn, nat>, data: map<Ppn, nat>, lpn: nat)
    requires MapsOk(blocks, l2p, p2l, data, Some(lpn), Idle)
    ensures MapsOk(blocks, l2p - {lpn}, p2l, data, None, Idle)
  {}

  lemma MapsNoEntry(blocks: seq<Block>, l2p: map<nat, Ppn>, p2l: map<Ppn, nat>, data: map<Ppn, nat>, lpn: nat)
    requires MapsOk(blocks, l2p, p2l, data, None, Idle)
    requires lpn !in l2p
    ensures MapsOk(blocks, l2p, p2l, data, Some(lpn), Idle)
  {}

  ghost predicate BitSet(blocks: seq<Block>, blocks': seq<Block>, q: Ppn) {
    && |blocks'| == |blocks| && q.blk < |blocks| && q.idx < |blocks[q.blk].valid|
    && !blocks[q.blk].valid[q.idx]
    && (forall b :: 0 <= b < |blocks| ==>
                      blocks'[b].valid == if b == q.blk then blocks[b].valid[q.idx := true] else blocks[b].valid)
  }

  /** Programming a block's next page, as the maps and the totals see it. */
  lemma ProgrammedBit(blocks: seq<Block>, b: nat)
    requires b < |blocks| && blocks[b].writePtr < |blocks[b].valid| && !blocks[b].valid[blocks[b].writePtr]
    ensures var q := Ppn(b, blocks[b].writePtr);
            var blocks' := blocks[b := Programmed(blocks[b])];
            && BitSet(blocks, blocks', q) && !IsSet(blocks, q)
            && blocks'[b].writePtr == blocks[b].writePtr + 1 && blocks'[b].validCnt == blocks[b].validCnt + 1
            && !blocks'[b].isFree
            && TotalValid(blocks', |blocks|) == TotalValid(blocks, |blocks|) + 1
            && TotalWritten(blocks', |blocks|) == TotalWritten(blocks, |blocks|) + 1
  {
    TotalsUpdate(blocks, |blocks|, b, Programmed(blocks[b]));
  }

  /** A host write fills the hole. */
  lemma MapsProgram(blocks: seq<Block>, blocks': seq<Block>, l2p: map<nat, Ppn>, p2l: map<Ppn, nat>,
                    data: map<Ppn, nat>, lpn: nat, q: Ppn, payload: nat)
    requires MapsOk(blocks, l2p, p2l, data, Some(lpn), Idle)
    requires BitSet(blocks, blocks', q)
    ensures MapsOk(blocks', l2p[lpn := q], p2l[q := lpn], data[q := payload], None, Idle)
  {
    forall p ensures Live(blocks', Idle, p) <==> Live(blocks, Idle, p) || p == q {}
  }

  /** Garbage collection moves the page at the cursor to q. */
  lemma MapsMove(blocks: seq<Block>, blocks': seq<Block>, l2p: map<nat, Ppn>, p2l: map<Ppn, nat>,
                 data: map<Ppn, nat>, hole: Option<nat>, sw: Sweep, q: Ppn)
    requires sw.Sweeping? && q.blk != sw.blk
    requires MapsOk(blocks, l2p, p2l, data, hole, sw)
    requires Live(blocks, sw, Ppn(sw.blk, sw.cursor))
    requires BitSet(blocks, blocks', q)
    ensures var old' := Ppn(sw.blk, sw.cursor);
            MapsOk(blocks', l2p[p2l[old'] := q], p2l[q := p2l[old']], data[q := data[old']], hole, Sweeping(sw.blk, sw.cursor + 1))
  {
    hide Live, BitSet;
    LiveMove(blocks, blocks', sw, q);
  }

  /** A page swept past the cursor is no longer live, and the one programmed is. */
  lemma LiveMove(blocks: seq<Block>, blocks': seq<Block>, sw: Sweep, q: Ppn)
    requires sw.Sweeping? && q.blk != sw.blk && BitSet(blocks, blocks', q)
    ensures !Live(blocks, sw, q)
    ensures forall p :: Live(blocks', Sweeping(sw.blk, sw.cursor + 1), p) <==>
                          (Live(blocks, sw, p) && p != Ppn(sw.blk, sw.cursor)) || p == q
  {}

  lemma MapsSkip(blocks: seq<Block>, l2p: map<nat, Ppn>, p2l: map<Ppn, nat>, data: map<Ppn, nat>,
                 hole: Option<nat>, sw: Sweep)
    requires sw.Sweeping? && MapsOk(blocks, l2p, p2l, data, hole, sw)
    requires !IsSet(blocks, Ppn(sw.blk, sw.cursor))
    ensures MapsOk(blocks, l2p, p2l, data, hole, Sweeping(sw.blk, sw.cursor + 1))
  {
    var sw' := Sweeping(sw.blk, sw.cursor + 1);
    forall p ensures Live(blocks, sw', p) == Live(blocks, sw, p) {}
  }

  lemma MapsStartSweep(blocks: seq<Block>, l2p: map<nat, Ppn>, p2l: map<Ppn, nat>, data: map<Ppn, nat>,
                       hole: Option<nat>, blk: nat)
    requires MapsOk(blocks, l2p, p2l, data, hole, Idle)
    ensures MapsOk(blocks, l2p, p2l, data, hole, Sweeping(blk, 0))
  {
    forall p ensures Live(blocks, Sweeping(blk, 0), p) == Live(blocks, Idle, p) {}
  }

  /** Erasing a swept block, and with it everything stored there, loses no live page. */
  lemma MapsErase(blocks: seq<Block>, blocks': seq<Block>, l2p: map<nat, Ppn>, p2l: map<Ppn, nat>,
                  data: map<Ppn, nat>, data': map<Ppn, nat>, hole: Option<nat>, blk: nat, pagesPerBlock: nat)
    requires blk < |blocks| && |blocks'| == |blocks| && |blocks[blk].valid| == pagesPerBlock
    requires MapsOk(blocks, l2p, p2l, data, hole, Sweeping(blk, pagesPerBlock))
    requires forall b :: 0 <= b < |blocks| && b != blk ==> blocks'[b].valid == blocks[b].valid
    requires blocks'[blk].valid == Erased(pagesPerBlock).valid
    requires forall p :: p in data && p.blk != blk ==> p in data'
    ensures MapsOk(blocks', l2p, p2l, data', hole, Idle)
  {
    var sw := Sweeping(blk, pagesPerBlock);
    forall p ensures Live(blocks', Idle, p) == Live(blocks, sw, p)
    {}
    forall p | Live(blocks, sw, p) ensures p.blk != blk {}
  }
}
