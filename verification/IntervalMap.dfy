/** The incremental measure of a trace's footprint: an ordered map from the begin of each
    covered interval to its end, merged as ranges arrive, with a running total. The map is
    its entries in key order. */
module IntervalMap {
  import opened Counting
  import opened Extents

  /** Ascending, none empty, and no two touching. */
  predicate Apart(s: seq<Extent>) {
    && (forall i :: 0 <= i < |s| ==> s[i].begin < s[i].end)
    && (forall i, j :: 0 <= i < j < |s| ==> s[i].end < s[j].begin)
  }

  function Erase(s: seq<Extent>, i: nat): seq<Extent>
    requires i < |s|
  {
    s[..i] + s[i + 1..]
  }

  function Insert(s: seq<Extent>, i: nat, e: Extent): seq<Extent>
    requires i <= |s|
  {
    s[..i] + [e] + s[i..]
  }

  lemma ErasedAt(s: seq<Extent>, i: nat)
    requires i < |s|
    ensures |Erase(s, i)| == |s| - 1
    ensures forall j :: 0 <= j < i ==> Erase(s, i)[j] == s[j]
    ensures forall j :: i <= j < |s| - 1 ==> Erase(s, i)[j] == s[j + 1]
  {}

  lemma EraseApart(s: seq<Extent>, i: nat)
    requires Apart(s) && i < |s|
    ensures Apart(Erase(s, i))
  {
    ErasedAt(s, i);
  }

  lemma EraseHas(s: seq<Extent>, i: nat, x: nat)
    requires i < |s|
    ensures (exists j :: 0 <= j < |s| && In(x, s[j])) <==> In(x, s[i]) || (exists j :: 0 <= j < |s| - 1 && In(x, Erase(s, i)[j]))
  {
    ErasedAt(s, i);
    hide In;
    if j :| 0 <= j < |s| && In(x, s[j]) && j != i {
      assert In(x, Erase(s, i)[if j < i then j else j - 1]);
    }
    if j :| 0 <= j < |s| - 1 && In(x, Erase(s, i)[j]) {
      assert In(x, s[if j < i then j else j + 1]);
    }
  }

  /** The bytes of an erased extent were covered by it alone. */
  lemma EraseCovered(s: seq<Extent>, i: nat)
    requires Apart(s) && i < |s|
    ensures Covered(s) == Covered(Erase(s, i)) + Bytes(s[i])
    ensures Covered(Erase(s, i)) !! Bytes(s[i])
  {
    hide Covered, Erase, Bytes;
    forall x: nat ensures x in Covered(s) <==> x in Covered(Erase(s, i)) || In(x, s[i]) {
      CoveredHas(s, x);
      CoveredHas(Erase(s, i), x);
      ErasedAt(s, i);
      EraseHas(s, i, x);
    }
    forall x: nat | x in Covered(Erase(s, i)) ensures !In(x, s[i]) {
      CoveredHas(Erase(s, i), x);
      ErasedAt(s, i);
      var j :| 0 <= j < |s| - 1 && In(x, Erase(s, i)[j]);
      assert In(x, s[if j < i then j else j + 1]);
    }
  }

  lemma InsertedAt(s: seq<Extent>, i: nat, e: Extent)
    requires i <= |s|
    ensures |Insert(s, i, e)| == |s| + 1 && Insert(s, i, e)[i] == e
    ensures forall j :: 0 <= j < i ==> Insert(s, i, e)[j] == s[j]
    ensures forall j :: i < j <= |s| ==> Insert(s, i, e)[j] == s[j - 1]
  {}

  lemma InsertErase(s: seq<Extent>, i: nat, e: Extent)
    requires i <= |s|
    ensures |Insert(s, i, e)| == |s| + 1 && Erase(Insert(s, i, e), i) == s
  {
    InsertedAt(s, i, e);
    hide Insert;
    ErasedAt(Insert(s, i, e), i);
  }

  lemma InsertApart(s: seq<Extent>, i: nat, e: Extent)
    requires Apart(s) && i <= |s| && e.begin < e.end
    requires i > 0 ==> s[i - 1].end < e.begin
    requires i < |s| ==> e.end < s[i].begin
    ensures Apart(Insert(s, i, e))
  {
    hide Insert;
    var t := Insert(s, i, e);
    InsertedAt(s, i, e);
    forall j, k | 0 <= j < k < |t| ensures t[j].end < t[k].begin {
      if k == i {
        assert t[j] == s[j];
        assert j < i - 1 ==> s[j].end < s[i - 1].begin;
      } else if j == i {
        assert t[k] == s[k - 1];
        assert i < k - 1 ==> s[i].end < s[k - 1].begin;
      }
    }
  }

  lemma InsertCovered(s: seq<Extent>, i: nat, e: Extent)
    requires Apart(s) && i <= |s| && e.begin < e.end
    requires i > 0 ==> s[i - 1].end < e.begin
    requires i < |s| ==> e.end < s[i].begin
    ensures Apart(Insert(s, i, e))
    ensures Covered(Insert(s, i, e)) == Covered(s) + Bytes(e)
    ensures Covered(s) !! Bytes(e)
  {
    hide Covered, Bytes, Insert, Erase;
    InsertApart(s, i, e);
    InsertedAt(s, i, e);
    InsertErase(s, i, e);
    EraseCovered(Insert(s, i, e), i);
  }

  /** An insertion in progress: `gone` has been taken out of the map, and together with the
      new range makes up the interval to be put in at position it. */
  datatype Merge = Merge(ranges: seq<Extent>, gone: set<nat>, whole: Extent, it: nat)

  ghost predicate Merging(m: Merge, was: set<nat>, e: Extent) {
    && Apart(m.ranges) && m.it <= |m.ranges|
    && Covered(m.ranges) !! m.gone && Covered(m.ranges) + m.gone == was
    && m.whole.begin <= e.begin < e.end <= m.whole.end && Bytes(m.whole) == m.gone + Bytes(e)
    && (m.it > 0 ==> m.ranges[m.it - 1].end < m.whole.begin)
    && (m.it < |m.ranges| ==> m.ranges[m.it].begin >= m.whole.begin)
  }

  function Hull(a: Extent, b: Extent): Extent {
    Extent(if a.begin <= b.begin then a.begin else b.begin, if a.end >= b.end then a.end else b.end)
  }

  lemma HullBytes(a: Extent, b: Extent)
    requires a.begin <= a.end && b.begin <= b.end && a.begin <= b.end && b.begin <= a.end
    ensures Bytes(Hull(a, b)) == Bytes(a) + Bytes(b)
  {
    forall x: nat ensures In(x, Hull(a, b)) <==> In(x, a) || In(x, b) {}
  }

  /** Taking out one more interval that touches the one in the making. */
  lemma AbsorbStep(m: Merge, was: set<nat>, e: Extent)
    requires Merging(m, was, e) && m.it < |m.ranges| && m.ranges[m.it].begin <= m.whole.end
    ensures var r := m.ranges[m.it];
            && r.begin < r.end && Hull(m.whole, r).begin == m.whole.begin
            && |m.gone + Bytes(r)| == |m.gone| + (r.end - r.begin)
            && |Erase(m.ranges, m.it)| < |m.ranges|
            && Merging(Merge(Erase(m.ranges, m.it), m.gone + Bytes(r), Hull(m.whole, r), m.it), was, e)
  {
    hide Covered, Bytes, Erase, In;
    var r := m.ranges[m.it];
    EraseCovered(m.ranges, m.it);
    EraseApart(m.ranges, m.it);
    ErasedAt(m.ranges, m.it);
    HullBytes(m.whole, r);
    BytesSize(r);
    UnionSize(m.gone, Bytes(r));
  }

  /** The first interval at or after the new range is where to look for intervals to merge. */
  lemma MergeStart(s: seq<Extent>, e: Extent, it: nat)
    requires Apart(s) && e.begin < e.end && it <= |s|
    requires forall i :: 0 <= i < it ==> s[i].begin < e.begin
    requires forall i :: it <= i < |s| ==> s[i].begin >= e.begin
    ensures it == 0 || s[it - 1].end < e.begin ==> Merging(Merge(s, {}, e, it), Covered(s), e)
    ensures it > 0 && s[it - 1].end >= e.begin ==>
              var r := s[it - 1];
              && r.begin < r.end && |Bytes(r)| == r.end - r.begin && Hull(e, r).begin == r.begin
              && Merging(Merge(Erase(s, it - 1), Bytes(r), Hull(e, r), it - 1), Covered(s), e)
  {
    hide Covered, Bytes;
    if it > 0 && s[it - 1].end >= e.begin {
      var r := s[it - 1];
      EraseCovered(s, it - 1);
      EraseApart(s, it - 1);
      ErasedAt(s, it - 1);
      HullBytes(e, r);
      BytesSize(r);
      hide Erase;
    }
  }

  /** Putting the merged interval in covers the old bytes and the new ones. */
  lemma MergeEnd(m: Merge, was: set<nat>, e: Extent)
    requires Merging(m, was, e) && (m.it < |m.ranges| ==> m.ranges[m.it].begin > m.whole.end)
    ensures var t := Insert(m.ranges, m.it, m.whole);
            && Apart(t) && Covered(t) == was + Bytes(e)
            && m.whole.end - m.whole.begin >= |m.gone|
            && |Covered(t)| == |was| + (m.whole.end - m.whole.begin) - |m.gone|
  {
    hide Covered, Bytes, Insert;
    InsertCovered(m.ranges, m.it, m.whole);
    UnionSize(Covered(m.ranges), m.gone);
    UnionSize(Covered(m.ranges), Bytes(m.whole));
    SubsetSize(m.gone, Bytes(m.whole));
    BytesSize(m.whole);
    assert Covered(m.ranges) + Bytes(m.whole) == (Covered(m.ranges) + m.gone) + Bytes(e);
  }

  class RangeMap {
    var ranges: seq<Extent>
    var uniqueBytes: nat

    ghost predicate Valid()
      reads this
    {
      Apart(ranges) && uniqueBytes == |Covered(ranges)|
    }

    constructor ()
      ensures Valid() && Covered(ranges) == {}
    {
      ranges, uniqueBytes := [], 0;
    }

    /** Where the first interval that does not begin before `start` is. */
    method LowerBound(start: nat) returns (it: nat)
      requires Apart(ranges)
      ensures it <= |ranges|
      ensures forall i :: 0 <= i < it ==> ranges[i].begin < start
      ensures forall i :: it <= i < |ranges| ==> ranges[i].begin >= start
    {
      it := 0;
      while it < |ranges| && ranges[it].begin < start
        invariant it <= |ranges| && forall i :: 0 <= i < it ==> ranges[i].begin < start
      {
        it := it + 1;
      }
      forall i | it < i < |ranges| ensures ranges[i].begin >= start {
        assert ranges[it].end < ranges[i].begin;
      }
    }

    /** Adds a range; the map covers exactly what it did and the new bytes, and the total
        stays exact. An empty range changes nothing. */
    method AddRange(start: nat, end: nat)
      requires Valid()
      modifies this
      ensures Valid() && Covered(ranges) == old(Covered(ranges)) + Bytes(Extent(start, end))
    {
      hide Apart, Covered, Bytes, Erase, Insert, Merging;
      if start >= end {
        return;
      }
      ghost var was, e := Covered(ranges), Extent(start, end);
      ghost var gone: set<nat> := {};
      var newStart: nat, newEnd: nat, removed: nat := start, end, 0;
      var it := LowerBound(start);
      MergeStart(ranges, e, it);
      if it != 0 && ranges[it - 1].end >= start {
        it := it - 1;
        var prev := ranges[it];
        newStart := prev.begin;
        newEnd := if newEnd >= prev.end then newEnd else prev.end;
        removed := removed + (prev.end - prev.begin);
        gone := Bytes(prev);
        ranges := Erase(ranges, it);
      }
      while it < |ranges| && ranges[it].begin <= newEnd
        invariant Merging(Merge(ranges, gone, Extent(newStart, newEnd), it), was, e)
        invariant removed == |gone| && uniqueBytes == |was|
        decreases |ranges|
      {
        AbsorbStep(Merge(ranges, gone, Extent(newStart, newEnd), it), was, e);
        gone := gone + Bytes(ranges[it]);
        newEnd := if newEnd >= ranges[it].end then newEnd else ranges[it].end;
        removed := removed + (ranges[it].end - ranges[it].begin);
        ranges := Erase(ranges, it);
      }
      ItBound(Merge(ranges, gone, Extent(newStart, newEnd), it), was, e);
      MergeEnd(Merge(ranges, gone, Extent(newStart, newEnd), it), was, e);
      ranges := Insert(ranges, it, Extent(newStart, newEnd));
      var added := newEnd - newStart;
      if added >= removed {
        uniqueBytes := uniqueBytes + (added - removed);
      }
    }
  }

  lemma ItBound(m: Merge, was: set<nat>, e: Extent)
    requires Merging(m, was, e)
    ensures m.it <= |m.ranges| && m.whole.begin < m.whole.end
  {}

  /** The footprint of a trace, range by range. */
  method UniqueBytes(trace: seq<Extent>) returns (bytes: nat)
    ensures bytes == |Covered(trace)|
  {
    hide RangeMap.Valid, Bytes;
    var m := new RangeMap();
    var i := 0;
    while i < |trace|
      invariant i <= |trace| && m.Valid() && fresh(m) && Covered(m.ranges) == CoveredBy(trace, i)
    {
      m.AddRange(trace[i].begin, trace[i].end);
      i := i + 1;
    }
    bytes := Total(m);
  }

  method Total(m: RangeMap) returns (bytes: nat)
    requires m.Valid()
    ensures bytes == |Covered(m.ranges)|
  {
    bytes := m.uniqueBytes;
  }
}
