/** The measure of a trace's write ranges by marking sectors in a bitmap of 64-bit words and
    counting the marks. A word is its bits, least significant first. */
module SectorBitmap {
  import opened Counting
  import opened Extents
  import IntervalMap
  import SortSweep

  const SECTOR: nat := 512

  type Word = w: seq<bool> | |w| == 64 witness seq(64, _ => false)

  function Ones(): Word { seq(64, _ => true) }

  function Zero(): Word { seq(64, _ => false) }

  function ShiftLeft(w: Word, k: nat): (r: Word)
    ensures forall b :: 0 <= b < 64 ==> r[b] == (b >= k && w[b - k])
  {
    seq(64, b requires 0 <= b < 64 => b >= k && w[b - k])
  }

  function ShiftRight(w: Word, k: nat): (r: Word)
    ensures forall b :: 0 <= b < 64 ==> r[b] == (b + k < 64 && w[b + k])
  {
    seq(64, b requires 0 <= b < 64 => b + k < 64 && w[b + k])
  }

  function And(v: Word, w: Word): (r: Word)
    ensures forall b :: 0 <= b < 64 ==> r[b] == (v[b] && w[b])
  {
    seq(64, b requires 0 <= b < 64 => v[b] && w[b])
  }

  function Or(v: Word, w: Word): (r: Word)
    ensures forall b :: 0 <= b < 64 ==> r[b] == (v[b] || w[b])
  {
    seq(64, b requires 0 <= b < 64 => v[b] || w[b])
  }

  /** Bit b of word w stands for this sector. */
  function Sector(w: nat, b: nat): nat { 64 * w + b }

  /** The sectors marked in the first k bits of word number w. */
  function MarkedBits(word: Word, w: nat, k: nat): set<nat>
    requires k <= 64
  {
    if k == 0 then {} else if word[k - 1] then MarkedBits(word, w, k - 1) + {Sector(w, k - 1)} else MarkedBits(word, w, k - 1)
  }

  /** The sectors marked in the first n words. */
  function MarkedBy(bm: seq<Word>, n: nat): set<nat>
    requires n <= |bm|
  {
    if n == 0 then {} else MarkedBy(bm, n - 1) + MarkedBits(bm[n - 1], n - 1, 64)
  }

  function Marked(bm: seq<Word>): set<nat> { MarkedBy(bm, |bm|) }

  lemma {:induction false} MarkedBitsHas(word: Word, w: nat, k: nat, x: nat)
    requires k <= 64
    ensures x in MarkedBits(word, w, k) <==> 64 * w <= x < 64 * w + k && word[x - 64 * w]
    ensures |MarkedBits(word, w, k)| == Count(word, k)
  {
    if k > 0 {
      MarkedBitsHas(word, w, k - 1, x);
      MarkedBitsHas(word, w, k - 1, Sector(w, k - 1));
    }
  }

  lemma {:induction false} MarkedByHas(bm: seq<Word>, n: nat, x: nat)
    requires n <= |bm|
    ensures x in MarkedBy(bm, n) <==> x < 64 * n && bm[x / 64][x % 64]
  {
    if n > 0 {
      MarkedByHas(bm, n - 1, x);
      MarkedBitsHas(bm[n - 1], n - 1, 64, x);
      assert x / 64 == n - 1 <==> 64 * (n - 1) <= x < 64 * n;
    }
  }

  function TotalBits(bm: seq<Word>, n: nat): nat
    requires n <= |bm|
  {
    if n == 0 then 0 else TotalBits(bm, n - 1) + Count(bm[n - 1], 64)
  }

  /** Counting bits counts marked sectors. */
  lemma {:induction false} MarkedSize(bm: seq<Word>, n: nat)
    requires n <= |bm|
    ensures |MarkedBy(bm, n)| == TotalBits(bm, n)
  {
    if n > 0 {
      MarkedSize(bm, n - 1);
      MarkedBitsHas(bm[n - 1], n - 1, 64, 0);
      var below, here := MarkedBy(bm, n - 1), MarkedBits(bm[n - 1], n - 1, 64);
      forall x | x in below ensures x !in here {
        MarkedByHas(bm, n - 1, x);
        MarkedBitsHas(bm[n - 1], n - 1, 64, x);
      }
      UnionSize(below, here);
    }
  }

  /** Word w after the sectors from first to last - 1 have been marked. */
  ghost predicate WordMarked(was: Word, word: Word, w: nat, first: nat, last: nat) {
    forall b :: 0 <= b < 64 ==> (word[b] <==> was[b] || first <= Sector(w, b) < last)
  }

  /** The words a range starts and ends in need the masks, those between are filled, and the
      others are left alone. */
  lemma MaskedWord(was: Word, w: nat, first: nat, last: nat)
    requires first < last
    ensures var wordBeg, wordEnd := first / 64, (last - 1) / 64;
            var headMask, tailMask := ShiftLeft(Ones(), first % 64), ShiftRight(Ones(), 63 - (last - 1) % 64);
            && (w == wordBeg == wordEnd ==> WordMarked(was, Or(was, And(headMask, tailMask)), w, first, last))
            && (w == wordBeg < wordEnd ==> WordMarked(was, Or(was, headMask), w, first, last))
            && (w == wordEnd > wordBeg ==> WordMarked(was, Or(was, tailMask), w, first, last))
            && (wordBeg < w < wordEnd ==> WordMarked(was, Ones(), w, first, last))
            && (w < wordBeg || w > wordEnd ==> WordMarked(was, was, w, first, last))
  {}

  lemma MarkedAfter(was: seq<Word>, bm: seq<Word>, first: nat, last: nat)
    requires |was| == |bm| && first < last <= 64 * |bm|
    requires forall w :: 0 <= w < |bm| ==> WordMarked(was[w], bm[w], w, first, last)
    ensures Marked(bm) == Marked(was) + Between(first, last)
  {
    forall x: nat ensures x in Marked(bm) <==> x in Marked(was) || first <= x < last {
      MarkedByHas(bm, |bm|, x);
      MarkedByHas(was, |bm|, x);
      if x < 64 * |bm| {
        assert WordMarked(was[x / 64], bm[x / 64], x / 64, first, last);
        assert Sector(x / 64, x % 64) == x;
      }
    }
  }

  /** Marks a range of sectors, a word at a time. */
  method SetSectorRange(first: nat, last: nat, bm: array<Word>)
    requires first < last <= 64 * bm.Length
    modifies bm
    ensures Marked(bm[..]) == old(Marked(bm[..])) + Between(first, last)
  {
    hide Marked, WordMarked, ShiftLeft, ShiftRight, And, Or;
    var wordBeg := first / 64;
    var wordEnd := (last - 1) / 64;
    var headMask := ShiftLeft(Ones(), first % 64);
    var tailMask := ShiftRight(Ones(), 63 - (last - 1) % 64);
    ghost var was := bm[..];
    if wordBeg == wordEnd {
      bm[wordBeg] := Or(bm[wordBeg], And(headMask, tailMask));
    } else {
      bm[wordBeg] := Or(bm[wordBeg], headMask);
      bm[wordEnd] := Or(bm[wordEnd], tailMask);
      var w := wordBeg + 1;
      while w < wordEnd
        invariant wordBeg < w <= wordEnd
        invariant forall v :: 0 <= v < bm.Length && !(wordBeg <= v < w) && v != wordEnd ==> bm[v] == was[v]
        invariant forall v :: wordBeg < v < w ==> bm[v] == Ones()
        invariant bm[wordBeg] == Or(was[wordBeg], headMask) && bm[wordEnd] == Or(was[wordEnd], tailMask)
      {
        bm[w] := Ones();
        w := w + 1;
      }
    }
    forall w | 0 <= w < bm.Length ensures WordMarked(was[w], bm[w], w, first, last) {
      MaskedWord(was[w], w, first, last);
    }
    MarkedAfter(was, bm[..], first, last);
  }

  // ---- sectors and bytes ----

  ghost function SectorBytes(k: nat): (r: set<nat>)
    ensures forall x: nat :: x in r <==> x / SECTOR == k
  {
    hide Between;
    forall x: nat ensures k * SECTOR <= x < k * SECTOR + SECTOR <==> x / SECTOR == k {}
    Between(k * SECTOR, k * SECTOR + SECTOR)
  }

  /** The bytes of a set of sectors. */
  ghost function Wide(s: set<nat>): (r: set<nat>)
    ensures forall x: nat :: x in r <==> x / SECTOR in s
  {
    hide SectorBytes;
    if k :| k in s then Wide(s - {k}) + SectorBytes(k) else {}
  }

  lemma {:induction false} WideSize(s: set<nat>)
    ensures |Wide(s)| == SECTOR * |s|
  {
    hide Wide, SectorBytes;
    if k :| k in s {
      WideSize(s - {k});
      SectorSize(k);
      assert Wide(s) == Wide(s - {k}) + SectorBytes(k);
      UnionSize(Wide(s - {k}), SectorBytes(k));
    } else {
      assert Wide(s) == {};
    }
  }

  lemma SectorSize(k: nat)
    ensures |SectorBytes(k)| == SECTOR
  {
    BetweenSize(k * SECTOR, k * SECTOR + SECTOR);
  }

  /** A range grown to whole sectors; an empty one stays empty. */
  function Rounded(e: Extent): Extent {
    if e.begin < e.end then Extent(e.begin / SECTOR * SECTOR, (e.end + SECTOR - 1) / SECTOR * SECTOR)
    else Extent(e.begin, e.begin)
  }

  function RoundedAll(s: seq<Extent>): (r: seq<Extent>)
    ensures |r| == |s| && forall i :: 0 <= i < |s| ==> r[i] == Rounded(s[i])
  {
    seq(|s|, i requires 0 <= i < |s| => Rounded(s[i]))
  }

  predicate Aligned(s: seq<Extent>) {
    forall i :: 0 <= i < |s| ==> s[i].begin <= s[i].end && s[i].begin % SECTOR == 0 && s[i].end % SECTOR == 0
  }

  lemma AlignedIsRounded(s: seq<Extent>)
    requires Aligned(s)
    ensures RoundedAll(s) == s
  {
    forall i | 0 <= i < |s| ensures Rounded(s[i]) == s[i] {
      assert s[i].end == s[i].end / SECTOR * SECTOR;
      assert (s[i].end + SECTOR - 1) / SECTOR == s[i].end / SECTOR;
    }
  }

  lemma WideMore(s: set<nat>, e: Extent)
    requires e.begin < e.end
    ensures Wide(s + Between(e.begin / SECTOR, (e.end + SECTOR - 1) / SECTOR)) == Wide(s) + Bytes(Rounded(e))
  {
    hide Wide, Between, Bytes;
    var first, last := e.begin / SECTOR, (e.end + SECTOR - 1) / SECTOR;
    forall x: nat ensures first <= x / SECTOR < last <==> In(x, Rounded(e)) {}
  }

  /** How many words the bitmap of a device has; its last sector has a bit. */
  function WordCount(deviceSize: nat): nat {
    ((deviceSize + SECTOR - 1) / SECTOR + 63) / 64
  }

  lemma WordsReach(e: Extent, deviceSize: nat)
    requires e.begin < e.end ==> e.end <= deviceSize
    ensures InReach(e, WordCount(deviceSize))
  {}

  method NewBitmap(n: nat) returns (bm: array<Word>)
    ensures fresh(bm) && bm.Length == n && Marked(bm[..]) == {}
  {
    bm := new Word[n](_ => Zero());
    forall x: nat ensures x !in Marked(bm[..]) {
      MarkedByHas(bm[..], n, x);
    }
  }

  method CountBits(bm: array<Word>) returns (touched: nat)
    ensures touched == |Marked(bm[..])|
  {
    touched := 0;
    var w := 0;
    while w < bm.Length
      invariant w <= bm.Length && touched == TotalBits(bm[..], w)
    {
      touched := touched + Count(bm[w], 64);
      w := w + 1;
    }
    MarkedSize(bm[..], bm.Length);
  }

  /** The range's sectors have bits among so many words. */
  predicate InReach(e: Extent, words: nat) {
    e.begin < e.end ==> (e.end + SECTOR - 1) / SECTOR <= 64 * words
  }

  /** Marks one range of the trace; an empty one is skipped. */
  method MarkRange(e: Extent, bm: array<Word>)
    requires InReach(e, bm.Length)
    modifies bm
    ensures Wide(Marked(bm[..])) == Wide(old(Marked(bm[..]))) + Bytes(Rounded(e))
  {
    hide Marked, Wide, Bytes;
    if e.begin >= e.end {
      return;
    }
    var first := e.begin / SECTOR;
    var last := (e.end + SECTOR - 1) / SECTOR;
    WideMore(Marked(bm[..]), e);
    SetSectorRange(first, last, bm);
  }

  /** The bytes of the sectors a trace touches. */
  method BitmapBytes(trace: seq<Extent>, deviceSize: nat) returns (bytes: nat)
    requires forall i :: 0 <= i < |trace| && trace[i].begin < trace[i].end ==> trace[i].end <= deviceSize
    ensures bytes == |Covered(RoundedAll(trace))|
  {
    hide Marked, Wide, Bytes, Rounded, RoundedAll, WordCount, InReach;
    var bm := NewBitmap(WordCount(deviceSize));
    assert Wide({}) == {};
    var i := 0;
    while i < |trace|
      invariant i <= |trace| && bm.Length == WordCount(deviceSize)
      invariant Wide(Marked(bm[..])) == CoveredBy(RoundedAll(trace), i)
    {
      WordsReach(trace[i], deviceSize);
      MarkRange(trace[i], bm);
      i := i + 1;
    }
    var touched := CountBits(bm);
    WideSize(Marked(bm[..]));
    bytes := touched * SECTOR;
  }

  /** On sector-aligned ranges the three tools measure the same. */
  method MeasureThreeWays(trace: seq<Extent>, deviceSize: nat) returns (byMap: nat, bySweep: nat, byBitmap: nat)
    requires Aligned(trace) && forall i :: 0 <= i < |trace| ==> trace[i].end <= deviceSize
    ensures byMap == bySweep == byBitmap == |Covered(trace)|
  {
    byMap := IntervalMap.UniqueBytes(trace);
    bySweep := SortSweep.ComputeUtilizedBytes(trace);
    byBitmap := BitmapBytes(trace, deviceSize);
    AlignedIsRounded(trace);
  }
}
