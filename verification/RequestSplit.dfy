/** Splitting a host request into the cache blocks it touches. */
module RequestSplit {
  import opened Arithmetic
  import opened Extents
  import FlashPages

  /** Where a block begins. */
  function Edge(block: nat, blockSize: nat): nat { block * blockSize }

  /** The bytes of one cache block. */
  function Block(block: nat, blockSize: nat): Extent { Extent(Edge(block, blockSize), Edge(block, blockSize) + blockSize) }

  lemma EdgeStep(block: nat, blockSize: nat)
    ensures Edge(block + 1, blockSize) == Edge(block, blockSize) + blockSize
  {}

  /** An offset lies between the edges of its block. */
  lemma EdgeAround(offset: nat, blockSize: nat)
    requires blockSize > 0
    ensures Edge(offset / blockSize, blockSize) <= offset < Edge(offset / blockSize + 1, blockSize)
  {
    DivAtMost(offset, offset / blockSize, blockSize);
    EdgeStep(offset / blockSize, blockSize);
    assert offset == offset / blockSize * blockSize + offset % blockSize;
  }

  /** Where two ranges of bytes meet; empty when they do not. */
  function Meet(a: Extent, b: Extent): Extent {
    Extent(if a.begin >= b.begin then a.begin else b.begin, if a.end <= b.end then a.end else b.end)
  }

  function Size(e: Extent): nat { if e.begin < e.end then e.end - e.begin else 0 }

  lemma MeetIsBoth(a: Extent, b: Extent)
    ensures Bytes(Meet(a, b)) == Bytes(a) * Bytes(b) && |Bytes(Meet(a, b))| == Size(Meet(a, b))
  {
    forall x: nat ensures In(x, Meet(a, b)) <==> In(x, a) && In(x, b) {}
    if Meet(a, b).begin <= Meet(a, b).end {
      BytesSize(Meet(a, b));
    } else {
      assert Bytes(Meet(a, b)) == {};
    }
  }

  /** The sizes of the first n parts together. */
  function TotalSize(parts: seq<(nat, nat)>, n: nat): nat
    requires n <= |parts|
  {
    if n == 0 then 0 else TotalSize(parts, n - 1) + parts[n - 1].1
  }

  lemma {:induction false} TotalAppend(parts: seq<(nat, nat)>, p: (nat, nat), n: nat)
    requires n <= |parts|
    ensures TotalSize(parts + [p], n) == TotalSize(parts, n)
  {
    if n > 0 { TotalAppend(parts, p, n - 1); }
  }

  /** A part is a block the request touches, with the number of its bytes requested. */
  ghost predicate PartsOk(parts: seq<(nat, nat)>, request: Extent, blockSize: nat) {
    && (forall i, j :: 0 <= i < j < |parts| ==> parts[i].0 < parts[j].0)
    && (forall i :: 0 <= i < |parts| ==> PartOk(parts[i], request, blockSize))
  }

  ghost predicate PartOk(part: (nat, nat), request: Extent, blockSize: nat) {
    part.1 == |Bytes(request) * Bytes(Block(part.0, blockSize))| > 0
  }

  /** The parts of the blocks before `block`. */
  ghost predicate SplitTo(parts: seq<(nat, nat)>, request: Extent, blockSize: nat, block: nat) {
    && PartsOk(parts, request, blockSize)
    && (forall i :: 0 <= i < |parts| ==> parts[i].0 < block)
    && TotalSize(parts, |parts|) == Size(Meet(request, Extent(0, Edge(block, blockSize))))
  }

  lemma SplitStep(parts: seq<(nat, nat)>, request: Extent, blockSize: nat, block: nat)
    requires SplitTo(parts, request, blockSize, block)
    ensures var part := Size(Meet(Block(block, blockSize), request));
            && (part == 0 ==> SplitTo(parts, request, blockSize, block + 1))
            && (part > 0 ==> SplitTo(parts + [(block, part)], request, blockSize, block + 1))
  {
    hide Bytes, Edge;
    var part := Size(Meet(Block(block, blockSize), request));
    EdgeStep(block, blockSize);
    MeetIsBoth(request, Block(block, blockSize));
    assert Size(Meet(request, Block(block, blockSize))) == part;
    hide Block;
    if part > 0 {
      TotalAppend(parts, (block, part), |parts|);
      assert PartOk((block, part), request, blockSize);
    }
  }

  /** The blocks a request touches, in order, with the bytes of each; together all of it. */
  method SplitRequest(offset: nat, size: nat, blockSize: nat) returns (parts: seq<(nat, nat)>)
    requires blockSize > 0
    ensures PartsOk(parts, Extent(offset, offset + size), blockSize)
    ensures TotalSize(parts, |parts|) == size
  {
    hide SplitTo, Edge, PartsOk;
    ghost var request := Extent(offset, offset + size);
    var startBlock := offset / blockSize;
    EndAfterStart(offset, size, blockSize);
    var endBlock := (offset + size) / blockSize;
    parts := [];
    var block := startBlock;
    SplitNone(request, blockSize);
    while block <= endBlock
      invariant startBlock <= block <= endBlock + 1
      invariant SplitTo(parts, request, blockSize, block)
    {
      SplitStep(parts, request, blockSize, block);
      var part := Meet(Block(block, blockSize), Extent(offset, offset + size));
      if part.begin < part.end {
        parts := parts + [(block, part.end - part.begin)];
      }
      block := block + 1;
    }
    SplitAll(parts, request, blockSize);
  }

  lemma EndAfterStart(offset: nat, size: nat, blockSize: nat)
    requires blockSize > 0
    ensures offset / blockSize <= (offset + size) / blockSize
  {
    EdgeAround(offset + size, blockSize);
    DivAtMost(offset, (offset + size) / blockSize, blockSize);
  }

  lemma SplitNone(request: Extent, blockSize: nat)
    requires blockSize > 0
    ensures SplitTo([], request, blockSize, request.begin / blockSize)
  {
    hide Edge;
    EdgeAround(request.begin, blockSize);
  }

  lemma SplitAll(parts: seq<(nat, nat)>, request: Extent, blockSize: nat)
    requires blockSize > 0 && request.begin <= request.end && SplitTo(parts, request, blockSize, request.end / blockSize + 1)
    ensures PartsOk(parts, request, blockSize) && TotalSize(parts, |parts|) == request.end - request.begin
  {
    hide Edge, PartsOk;
    EdgeAround(request.end, blockSize);
  }

  /** With page-sized blocks, the parts of a sector-aligned request are what the caches accept. */
  lemma PartsAccepted(part: (nat, nat), request: Extent)
    requires PartOk(part, request, FlashPages.NAND_PAGE_SIZE)
    requires request.begin % FlashPages.SECTOR_SIZE == 0 && request.end % FlashPages.SECTOR_SIZE == 0
    ensures 0 < part.1 <= FlashPages.NAND_PAGE_SIZE && part.1 % FlashPages.SECTOR_SIZE == 0
  {
    hide Bytes, Meet;
    var block := Block(part.0, FlashPages.NAND_PAGE_SIZE);
    MeetIsBoth(request, block);
    BlockEdges(part.0);
    hide Block;
    MeetEdges(request, block);
  }

  lemma BlockEdges(block: nat)
    ensures var b := Block(block, FlashPages.NAND_PAGE_SIZE);
            && b.end == b.begin + FlashPages.NAND_PAGE_SIZE
            && b.begin % FlashPages.SECTOR_SIZE == 0 && b.end % FlashPages.SECTOR_SIZE == 0
  {
    DivModUnique(block * FlashPages.NAND_PAGE_SIZE, FlashPages.SECTOR_SIZE, block * FlashPages.SECTORS_PER_PAGE, 0);
  }

  lemma MeetEdges(a: Extent, b: Extent)
    requires a.begin % FlashPages.SECTOR_SIZE == 0 && a.end % FlashPages.SECTOR_SIZE == 0
    requires b.begin % FlashPages.SECTOR_SIZE == 0 && b.end % FlashPages.SECTOR_SIZE == 0
    ensures Size(Meet(a, b)) % FlashPages.SECTOR_SIZE == 0
    ensures b.begin <= b.end ==> Size(Meet(a, b)) <= b.end - b.begin
  {
    if Meet(a, b).begin < Meet(a, b).end {
      SectorsBetween(Meet(a, b).begin, Meet(a, b).end);
    }
  }

  lemma SectorsBetween(lo: nat, hi: nat)
    requires lo <= hi && lo % FlashPages.SECTOR_SIZE == 0 && hi % FlashPages.SECTOR_SIZE == 0
    ensures (hi - lo) % FlashPages.SECTOR_SIZE == 0
  {
    DivModUnique(hi - lo, FlashPages.SECTOR_SIZE, hi / FlashPages.SECTOR_SIZE - lo / FlashPages.SECTOR_SIZE, 0);
  }
}
