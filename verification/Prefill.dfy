/** Filling the cache with the addresses a trace touches: its rows are aligned to whole units
    and measured until enough is covered, and then the lowest covered units are written once
    each, up to the target. */
module Prefill {
  import opened Counting
  import opened Arithmetic
  import opened Extents
  import opened IntervalMap
  import FlashPages

  predicate Multiple(x: nat, unit: nat)
    requires unit > 0
  {
    x % unit == 0
  }

  /** Rounded down to a whole number of units. */
  function AlignDown(x: nat, unit: nat): (r: nat)
    requires unit > 0
    ensures r <= x < r + unit && Multiple(r, unit)
  {
    assert x == x / unit * unit + x % unit;
    DivModUnique(x / unit * unit, unit, x / unit, 0);
    x / unit * unit
  }

  /** What is counted of a row: offset and size, each rounded down. */
  function Aligned(row: (nat, nat), unit: nat): Extent
    requires unit > 0
  {
    Extent(AlignDown(row.0, unit), AlignDown(row.0, unit) + AlignDown(row.1, unit))
  }

  function AlignedRows(rows: seq<(nat, nat)>, unit: nat): (r: seq<Extent>)
    requires unit > 0
    ensures |r| == |rows|
  {
    seq(|rows|, i requires 0 <= i < |rows| => Aligned(rows[i], unit))
  }

  /** The aligned sizes of the first n rows, repetitions included. */
  function Accessed(rows: seq<(nat, nat)>, unit: nat, n: nat): nat
    requires unit > 0 && n <= |rows|
  {
    if n == 0 then 0 else Accessed(rows, unit, n - 1) + AlignDown(rows[n - 1].1, unit)
  }

  /** Enough rows have been seen. */
  ghost predicate Enough(rows: seq<(nat, nat)>, unit: nat, target: nat, limit: nat, n: nat)
    requires unit > 0 && n <= |rows|
  {
    |CoveredBy(AlignedRows(rows, unit), n)| >= target || Accessed(rows, unit, n) >= limit
  }

  /** The scan stops at the first row with enough seen, or at the end of the trace. */
  ghost predicate StopsAt(rows: seq<(nat, nat)>, unit: nat, target: nat, limit: nat, n: nat)
    requires unit > 0
  {
    && n <= |rows| && (n < |rows| ==> Enough(rows, unit, target, limit, n))
    && (forall k :: 0 <= k < n ==> !Enough(rows, unit, target, limit, k))
  }

  lemma ScanStep(rows: seq<(nat, nat)>, unit: nat, n: nat)
    requires unit > 0 && n < |rows|
    ensures CoveredBy(AlignedRows(rows, unit), n + 1) == CoveredBy(AlignedRows(rows, unit), n) + Bytes(Aligned(rows[n], unit))
    ensures Accessed(rows, unit, n + 1) == Accessed(rows, unit, n) + AlignDown(rows[n].1, unit)
    ensures AlignDown(rows[n].1, unit) == 0 ==> Bytes(Aligned(rows[n], unit)) == {}
  {}

  /** Scans rows until enough is covered, and no further. */
  method Scan(rows: seq<(nat, nat)>, unit: nat, target: nat, limit: nat) returns (m: RangeMap, n: nat)
    requires unit > 0 && target > 0 && limit > 0
    ensures fresh(m) && m.Valid() && StopsAt(rows, unit, target, limit, n)
    ensures Covered(m.ranges) == CoveredBy(AlignedRows(rows, unit), n)
  {
    hide Bytes, AlignDown, AlignedRows, CoveredBy, Covered, Apart;
    m := new RangeMap();
    n := 0;
    ghost var lens := AlignedRows(rows, unit);
    var accumulated := 0;
    StartEmpty(lens);
    while n < |rows| && m.uniqueBytes < target
      invariant n <= |rows| && m.Valid() && fresh(m) && Covered(m.ranges) == CoveredBy(lens, n)
      invariant accumulated == Accessed(rows, unit, n) < limit
      invariant forall k :: 0 <= k < n ==> !Enough(rows, unit, target, limit, k)
    {
      ScanStep(rows, unit, n);
      var size := AlignDown(rows[n].1, unit);
      var offset := AlignDown(rows[n].0, unit);
      n := n + 1;
      if size == 0 {
        continue;
      }
      m.AddRange(offset, offset + size);
      accumulated := accumulated + size;
      if accumulated >= limit {
        break;
      }
    }
  }

  lemma StartEmpty(s: seq<Extent>)
    ensures CoveredBy(s, 0) == {}
  {}

  // aligned intervals

  lemma MultipleOf(q: nat, unit: nat)
    requires unit > 0
    ensures Multiple(q * unit, unit)
  {
    DivModUnique(q * unit, unit, q, 0);
  }

  lemma StepsBetween(a: nat, b: nat, unit: nat)
    requires unit > 0 && Multiple(a, unit) && Multiple(b, unit)
    ensures Multiple(a + unit, unit) && (a < b ==> a + unit <= b && Multiple(b - a, unit))
  {
    assert a == a / unit * unit && b == b / unit * unit;
    MultipleOf(a / unit + 1, unit);
    assert (a / unit + 1) * unit == a + unit;
    if a < b {
      RowMajor(a / unit, b / unit, unit, 0);
      MulMono(a / unit + 1, b / unit, unit);
      MultipleOf(b / unit - a / unit, unit);
      assert (b / unit - a / unit) * unit == b - a;
    }
  }

  /** Whole units only. */
  ghost predicate WholeUnits(s: set<nat>, unit: nat)
    requires unit > 0
  {
    forall x: nat, y: nat :: x in s && x / unit == y / unit ==> y in s
  }

  lemma ExtentWhole(e: Extent, unit: nat)
    requires unit > 0 && Multiple(e.begin, unit) && Multiple(e.end, unit)
    ensures WholeUnits(Bytes(e), unit)
  {
    hide Bytes;
    forall x: nat, y: nat | x in Bytes(e) && x / unit == y / unit ensures y in Bytes(e) {
      SameSide(x, y, e.begin, unit);
      SameSide(x, y, e.end, unit);
    }
  }

  lemma SameSide(x: nat, y: nat, edge: nat, unit: nat)
    requires unit > 0 && Multiple(edge, unit) && x / unit == y / unit
    ensures x < edge <==> y < edge
  {
    assert edge == edge / unit * unit;
    RowMajor(x / unit, edge / unit, unit, x % unit);
    RowMajor(y / unit, edge / unit, unit, y % unit);
    assert x == x / unit * unit + x % unit && y == y / unit * unit + y % unit;
  }

  lemma {:induction false} RowsWhole(rows: seq<(nat, nat)>, unit: nat, n: nat)
    requires unit > 0 && n <= |rows|
    ensures WholeUnits(CoveredBy(AlignedRows(rows, unit), n), unit)
  {
    hide Bytes, AlignDown;
    if n > 0 {
      RowsWhole(rows, unit, n - 1);
      var e := Aligned(rows[n - 1], unit);
      SumAligned(e.begin, e.end - e.begin, unit);
      ExtentWhole(e, unit);
    }
  }

  lemma SumAligned(a: nat, b: nat, unit: nat)
    requires unit > 0 && Multiple(a, unit) && Multiple(b, unit)
    ensures Multiple(a + b, unit)
  {
    assert a == a / unit * unit && b == b / unit * unit;
    assert a + b == (a / unit + b / unit) * unit;
    MultipleOf(a / unit + b / unit, unit);
  }

  /** The intervals that make up whole units begin and end at their edges. */
  lemma IntervalsAligned(s: seq<Extent>, unit: nat, i: nat)
    requires unit > 0 && Apart(s) && WholeUnits(Covered(s), unit) && i < |s|
    ensures Multiple(s[i].begin, unit) && Multiple(s[i].end, unit)
  {
    hide Covered, Bytes;
    assert In(s[i].begin, s[i]) && In(s[i].end - 1, s[i]);
    CoveredHas(s, s[i].begin);
    CoveredHas(s, s[i].end - 1);
    OutsideAt(s, i);
    NotAtEdge(s[i].end, unit);
    if s[i].begin > 0 {
      NotAtEdge(s[i].begin, unit);
    }
  }

  lemma NotAtEdge(x: nat, unit: nat)
    requires unit > 0 && x > 0
    ensures x % unit != 0 ==> x / unit == (x - 1) / unit
  {
    if x % unit != 0 {
      DivModUnique(x - 1, unit, x / unit, x % unit - 1);
    }
  }

  lemma OutsideAt(s: seq<Extent>, i: nat)
    requires Apart(s) && i < |s|
    ensures s[i].end !in Covered(s) && (s[i].begin > 0 ==> s[i].begin - 1 !in Covered(s))
  {
    hide Covered;
    CoveredHas(s, s[i].end);
    if s[i].begin > 0 {
      CoveredHas(s, s[i].begin - 1);
    }
  }

  // writing

  /** A part of a set with nothing of the rest below any of it. */
  ghost predicate Lowest(part: set<nat>, whole: set<nat>) {
    part <= whole && forall x, y :: x in whole && y in part && x <= y ==> x in part
  }

  ghost function Below(s: set<nat>, cut: nat): set<nat> { set x | x in s && x < cut }

  /** A cut inside the i-th interval. */
  lemma CutAt(s: seq<Extent>, i: nat, cut: nat)
    requires Apart(s) && i < |s| && s[i].begin <= cut <= s[i].end
    ensures Below(Covered(s), cut) == CoveredBy(s, i) + Bytes(Extent(s[i].begin, cut))
    ensures CoveredBy(s, i) !! Bytes(s[i])
  {
    hide Covered, CoveredBy, Bytes;
    forall x: nat ensures x in Covered(s) && x < cut <==> x in CoveredBy(s, i) || In(x, Extent(s[i].begin, cut))
      ensures !(x in CoveredBy(s, i) && In(x, s[i]))
    {
      CoveredHas(s, x);
      CoveredByHas(s, i, x);
      if j :| 0 <= j < |s| && In(x, s[j]) && x < cut {
        assert j <= i;
      }
      if x in CoveredBy(s, i) {
        var j :| 0 <= j < i && In(x, s[j]);
        assert s[j].end < s[i].begin;
      } else if In(x, Extent(s[i].begin, cut)) {
        assert In(x, s[i]);
      }
    }
  }

  lemma {:induction false} CoveredPrefix(s: seq<Extent>, e: Extent, n: nat)
    requires n <= |s|
    ensures CoveredBy(s + [e], n) == CoveredBy(s, n)
  {
    hide Bytes;
    if n > 0 { CoveredPrefix(s, e, n - 1); }
  }

  lemma CoveredSnoc(s: seq<Extent>, e: Extent)
    ensures Covered(s + [e]) == Covered(s) + Bytes(e)
  {
    hide Bytes;
    CoveredPrefix(s, e, |s|);
  }

  /** Every chunk is one aligned unit, and they ascend. */
  ghost predicate Chunks(chunks: seq<Extent>, unit: nat)
    requires unit > 0
  {
    && (forall i :: 0 <= i < |chunks| ==> Multiple(chunks[i].begin, unit) && chunks[i].end == chunks[i].begin + unit)
    && (forall i, j :: 0 <= i < j < |chunks| ==> chunks[i].end <= chunks[j].begin)
  }

  lemma SplitBytes(a: nat, b: nat, c: nat)
    requires a <= b <= c
    ensures Bytes(Extent(a, c)) == Bytes(Extent(a, b)) + Bytes(Extent(b, c))
    ensures Bytes(Extent(a, b)) !! Bytes(Extent(b, c))
  {}

  lemma ChunksEnd(chunks: seq<Extent>, unit: nat, offset: nat)
    requires unit > 0 && Chunks(chunks, unit) && forall x: nat :: x in Covered(chunks) ==> x < offset
    ensures forall j :: 0 <= j < |chunks| ==> chunks[j].end <= offset
  {
    hide Covered;
    forall j | 0 <= j < |chunks| ensures chunks[j].end <= offset {
      CoveredHas(chunks, chunks[j].end - 1);
      assert In(chunks[j].end - 1, chunks[j]);
    }
  }

  /** One more unit, after all the others. */
  lemma ChunksSnoc(chunks: seq<Extent>, unit: nat, offset: nat)
    requires unit > 0 && Chunks(chunks, unit) && Multiple(offset, unit)
    requires forall j :: 0 <= j < |chunks| ==> chunks[j].end <= offset
    ensures Chunks(chunks + [Extent(offset, offset + unit)], unit)
  {
    hide Multiple;
  }

  lemma CoveredMore(s: seq<Extent>, e: Extent)
    requires e.begin <= e.end && Covered(s) !! Bytes(e)
    ensures |Covered(s + [e])| == |Covered(s)| + (e.end - e.begin)
  {
    hide Covered, Bytes;
    CoveredSnoc(s, e);
    BytesSize(e);
    UnionSize(Covered(s), Bytes(e));
  }

  /** The next unit lies beyond what has been written so far. */
  lemma ChunkBeyond(s: seq<Extent>, i: nat, chunks: seq<Extent>, unit: nat, offset: nat)
    requires Apart(s) && i < |s| && s[i].begin <= offset && offset + unit <= s[i].end
    requires Covered(chunks) == CoveredBy(s, i) + Bytes(Extent(s[i].begin, offset))
    ensures Covered(chunks) !! Bytes(Extent(offset, offset + unit))
    ensures forall x: nat :: x in Covered(chunks) ==> x < offset
  {
    hide Covered, CoveredBy, Apart;
    CutAt(s, i, offset);
  }

  lemma ChunkStep(s: seq<Extent>, i: nat, chunks: seq<Extent>, unit: nat, offset: nat)
    requires unit > 0 && Chunks(chunks, unit) && Multiple(offset, unit) && Apart(s) && i < |s|
    requires s[i].begin <= offset && offset + unit <= s[i].end
    requires Covered(chunks) == CoveredBy(s, i) + Bytes(Extent(s[i].begin, offset))
    ensures Chunks(chunks + [Extent(offset, offset + unit)], unit)
    ensures Covered(chunks + [Extent(offset, offset + unit)]) == CoveredBy(s, i) + Bytes(Extent(s[i].begin, offset + unit))
    ensures |Covered(chunks + [Extent(offset, offset + unit)])| == |Covered(chunks)| + unit
  {
    hide Bytes, Covered, CoveredBy, Chunks, Multiple, Apart;
    ChunkBeyond(s, i, chunks, unit, offset);
    ChunksEnd(chunks, unit, offset);
    ChunksSnoc(chunks, unit, offset);
    CoveredMore(chunks, Extent(offset, offset + unit));
    CoveredSnoc(chunks, Extent(offset, offset + unit));
    SplitBytes(s[i].begin, offset, offset + unit);
  }

  /** What has been written with n intervals done: everything below the cut, and while the
      target is not met all of them. */
  ghost predicate Writing(s: seq<Extent>, n: nat, chunks: seq<Extent>, unit: nat, target: nat, cut: nat)
    requires unit > 0 && n <= |s|
  {
    && Chunks(chunks, unit) && |Covered(chunks)| <= target && Multiple(|Covered(chunks)|, unit)
    && Covered(chunks) == Below(Covered(s), cut)
    && (|Covered(chunks)| < target ==> Covered(chunks) == CoveredBy(s, n))
  }

  lemma WritingStart(s: seq<Extent>, unit: nat, target: nat)
    requires unit > 0
    ensures Writing(s, 0, [], unit, target, 0)
  {
    hide Multiple;
    MultipleOf(0, unit);
    assert 0 * unit == 0;
    assert Below(Covered(s), 0) == {};
  }

  lemma WritingDone(s: seq<Extent>, n: nat, chunks: seq<Extent>, unit: nat, target: nat, cut: nat)
    requires unit > 0 && n <= |s| && Writing(s, n, chunks, unit, target, cut)
    requires |Covered(chunks)| >= target || n == |s|
    ensures Chunks(chunks, unit) && Lowest(Covered(chunks), Covered(s))
    ensures |Covered(chunks)| == Min(target, |Covered(s)|)
  {
    hide CoveredBy, Chunks;
    SubsetSize(Covered(chunks), Covered(s));
  }

  /** Writing one interval, or as much of it as the target leaves. */
  method FillInterval(ghost s: seq<Extent>, ghost i: nat, chunks: seq<Extent>, e: Extent, unit: nat, target: nat, written: nat)
    returns (chunks': seq<Extent>, written': nat, ghost cut: nat)
    requires unit > 0 && Apart(s) && i < |s| && e == s[i] && Multiple(e.begin, unit) && Multiple(e.end, unit) && Multiple(target, unit)
    requires Chunks(chunks, unit) && Covered(chunks) == CoveredBy(s, i)
    requires written == |Covered(chunks)| < target && Multiple(written, unit)
    ensures written' == |Covered(chunks')| && Writing(s, i + 1, chunks', unit, target, cut)
  {
    hide Multiple, Apart, Chunks, Covered, CoveredBy, Bytes, Below, Writing;
    chunks', written' := chunks, written;
    FillStart(s, i, unit, target, written);
    var len := Min(e.end - e.begin, target - written);
    var offset, left := e.begin, len;
    while left > 0
      invariant e.begin <= offset && offset + left == e.begin + len && written' + left == written + len
      invariant Multiple(offset, unit) && Multiple(left, unit) && Multiple(written', unit)
      invariant Chunks(chunks', unit) && written' == |Covered(chunks')|
      invariant Covered(chunks') == CoveredBy(s, i) + Bytes(Extent(e.begin, offset))
    {
      StepsBetween(0, left, unit);
      StepsBetween(offset, offset, unit);
      StepsBetween(written', written', unit);
      ChunkStep(s, i, chunks', unit, offset);
      var chunk := Min(unit, left);
      chunks' := chunks' + [Extent(offset, offset + chunk)];
      StepsBetween(chunk, left, unit);
      offset := offset + chunk;
      left := left - chunk;
      written' := written' + chunk;
    }
    cut := offset;
    CutAt(s, i, offset);
    FillEnd(s, i, e.begin + len);
    WritingNow(s, i + 1, chunks', unit, target, cut);
  }

  lemma WritingNow(s: seq<Extent>, n: nat, chunks: seq<Extent>, unit: nat, target: nat, cut: nat)
    requires unit > 0 && n <= |s| && Chunks(chunks, unit) && |Covered(chunks)| <= target && Multiple(|Covered(chunks)|, unit)
    requires Covered(chunks) == Below(Covered(s), cut)
    requires |Covered(chunks)| < target ==> Covered(chunks) == CoveredBy(s, n)
    ensures Writing(s, n, chunks, unit, target, cut)
  {
    hide Chunks, Covered, CoveredBy, Multiple, Below;
  }

  lemma FillStart(s: seq<Extent>, i: nat, unit: nat, target: nat, written: nat)
    requires unit > 0 && Apart(s) && i < |s| && Multiple(s[i].begin, unit) && Multiple(s[i].end, unit)
    requires Multiple(target, unit) && Multiple(written, unit) && written < target
    ensures Multiple(Min(s[i].end - s[i].begin, target - written), unit)
    ensures s[i].begin < s[i].end && Multiple(0, unit) && Bytes(Extent(s[i].begin, s[i].begin)) == {}
  {
    StepsBetween(s[i].begin, s[i].end, unit);
    StepsBetween(written, target, unit);
  }

  lemma FillEnd(s: seq<Extent>, i: nat, end: nat)
    requires i < |s|
    ensures end == s[i].end ==> CoveredBy(s, i) + Bytes(Extent(s[i].begin, end)) == CoveredBy(s, i + 1)
  {}

  /** Writes intervals of whole units in order until the target is met. */
  method Fill(s: seq<Extent>, unit: nat, target: nat) returns (chunks: seq<Extent>)
    requires unit > 0 && Multiple(target, unit) && Apart(s) && WholeUnits(Covered(s), unit)
    ensures Chunks(chunks, unit) && Lowest(Covered(chunks), Covered(s))
    ensures |Covered(chunks)| == Min(target, |Covered(s)|)
  {
    hide Chunks, Covered, CoveredBy, Writing, WholeUnits, Lowest;
    chunks := [];
    ghost var cut := 0;
    var written, i := 0, 0;
    WritingStart(s, unit, target);
    CoveredNone();
    while i < |s| && written < target
      invariant i <= |s| && written == |Covered(chunks)| && Writing(s, i, chunks, unit, target, cut)
    {
      IntervalsAligned(s, unit, i);
      WritingHead(s, i, chunks, unit, target, cut);
      chunks, written, cut := FillInterval(s, i, chunks, s[i], unit, target, written);
      i := i + 1;
    }
    WritingDone(s, i, chunks, unit, target, cut);
  }

  lemma CoveredNone()
    ensures Covered([]) == {}
  {}

  lemma WritingHead(s: seq<Extent>, n: nat, chunks: seq<Extent>, unit: nat, target: nat, cut: nat)
    requires unit > 0 && n <= |s| && Writing(s, n, chunks, unit, target, cut) && |Covered(chunks)| < target
    ensures Chunks(chunks, unit) && Covered(chunks) == CoveredBy(s, n) && Multiple(|Covered(chunks)|, unit)
  {}

  /** The unit of alignment and the target, none when there is too little to fill. */
  function Unit(blockSize: nat): (unit: nat)
    ensures unit >= blockSize && unit >= FlashPages.SECTOR_SIZE && (unit == blockSize || unit == FlashPages.SECTOR_SIZE)
  {
    if blockSize >= FlashPages.SECTOR_SIZE then blockSize else FlashPages.SECTOR_SIZE
  }

  /** With the rows scanned, the lowest units they cover are written once each, up to the
      target. */
  ghost predicate Prefilled(rows: seq<(nat, nat)>, unit: nat, target: nat, limit: nat, chunks: seq<Extent>)
    requires unit > 0
  {
    && Chunks(chunks, unit)
    && exists n :: StopsAt(rows, unit, target, limit, n) &&
         var covered := CoveredBy(AlignedRows(rows, unit), n);
         Lowest(Covered(chunks), covered) && |Covered(chunks)| == Min(target, |covered|)
  }

  /** Fills from a trace, unless the limit or the target rounds down to nothing. */
  method TracePrefill(rows: seq<(nat, nat)>, byteLimit: nat, blockSize: nat, share: nat) returns (chunks: seq<Extent>)
    ensures var unit := Unit(blockSize);
            var limit := AlignDown(byteLimit, unit);
            var target := Min(limit, AlignDown(share, unit));
            if target == 0 then chunks == [] else Prefilled(rows, unit, target, limit, chunks)
  {
    hide AlignDown, AlignedRows, Chunks, Covered, CoveredBy, Enough, WholeUnits, Lowest;
    chunks := [];
    var unit := Unit(blockSize);
    var limit := AlignDown(byteLimit, unit);
    var target := AlignDown(share, unit);
    if limit == 0 || target == 0 {
      return;
    }
    target := Min(limit, target);
    var m, n := Scan(rows, unit, target, limit);
    RowsWhole(rows, unit, n);
    chunks := Fill(m.ranges, unit, target);
  }
}
