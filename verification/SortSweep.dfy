/** The measure of a trace's write ranges in one pass over them in order of begin. */
module SortSweep {
  import opened Extents

  predicate Ascending(s: seq<Extent>, n: nat)
    requires n <= |s|
  {
    forall i, j :: 0 <= i < j < n ==> s[i].begin <= s[j].begin
  }

  /** A sorted copy; how ties are broken is left open. */
  method SortByBegin(s: seq<Extent>) returns (r: seq<Extent>)
    ensures multiset(r) == multiset(s) && Ascending(r, |r|)
  {
    hide Ascending;
    r := [];
    NothingSorted();
    var n := 0;
    while n < |s|
      invariant n <= |s| && multiset(r) == multiset(s[..n]) && Ascending(r, |r|)
    {
      var i := PlaceFor(r, s[n]);
      InsertSorted(r, i, s[n]);
      assert s[..n + 1] == s[..n] + [s[n]];
      r := r[..i] + [s[n]] + r[i..];
      n := n + 1;
    }
    assert s[..n] == s;
  }

  lemma NothingSorted()
    ensures Ascending([], 0)
  {}

  method PlaceFor(r: seq<Extent>, e: Extent) returns (i: nat)
    ensures i <= |r| && forall j :: 0 <= j < i ==> r[j].begin <= e.begin
    ensures i < |r| ==> e.begin < r[i].begin
  {
    i := 0;
    while i < |r| && r[i].begin <= e.begin
      invariant i <= |r| && forall j :: 0 <= j < i ==> r[j].begin <= e.begin
    {
      i := i + 1;
    }
  }

  lemma InsertSorted(r: seq<Extent>, i: nat, e: Extent)
    requires Ascending(r, |r|) && i <= |r|
    requires forall j :: 0 <= j < i ==> r[j].begin <= e.begin
    requires i < |r| ==> e.begin < r[i].begin
    ensures Ascending(r[..i] + [e] + r[i..], |r| + 1)
    ensures multiset(r[..i] + [e] + r[i..]) == multiset(r) + multiset{e}
  {
    assert r == r[..i] + r[i..];
    forall j | i <= j < |r| ensures e.begin <= r[j].begin {
      if i < j { assert r[i].begin <= r[j].begin; }
    }
  }

  /** The first n extents cover what has been counted, all before the current run, and the
      current run. */
  ghost predicate Swept(s: seq<Extent>, n: nat, counted: set<nat>, utilized: nat, run: Extent)
    requires n <= |s|
  {
    && |counted| == utilized && CoveredBy(s, n) == counted + Bytes(run)
    && run.begin <= run.end && (forall x :: x in counted ==> x < run.begin)
    && (n > 0 ==> run.begin <= s[n - 1].begin)
  }

  lemma SweepExtend(s: seq<Extent>, n: nat, counted: set<nat>, utilized: nat, run: Extent)
    requires n < |s| && Swept(s, n, counted, utilized, run)
    requires run.begin <= s[n].begin <= s[n].end && s[n].begin <= run.end
    ensures Swept(s, n + 1, counted, utilized, run.(end := if s[n].end > run.end then s[n].end else run.end))
  {
    hide Bytes;
    LongerRun(run, s[n]);
  }

  lemma LongerRun(run: Extent, e: Extent)
    requires run.begin <= e.begin <= e.end && e.begin <= run.end
    ensures Bytes(run.(end := if e.end > run.end then e.end else run.end)) == Bytes(run) + Bytes(e)
  {
    forall x: nat ensures In(x, run.(end := if e.end > run.end then e.end else run.end)) <==> In(x, run) || In(x, e) {}
  }

  lemma SweepNext(s: seq<Extent>, n: nat, counted: set<nat>, utilized: nat, run: Extent)
    requires n < |s| && Swept(s, n, counted, utilized, run)
    requires run.end < s[n].begin <= s[n].end
    ensures Swept(s, n + 1, counted + Bytes(run), utilized + (run.end - run.begin), s[n])
  {
    hide Bytes;
    BytesSize(run);
    UnionSize(counted, Bytes(run));
  }

  lemma SweepDone(s: seq<Extent>, counted: set<nat>, utilized: nat, run: Extent)
    requires Swept(s, |s|, counted, utilized, run)
    ensures |Covered(s)| == utilized + (run.end - run.begin)
  {
    hide Bytes;
    BytesSize(run);
    UnionSize(counted, Bytes(run));
  }

  /** The number of bytes the ranges cover. */
  method ComputeUtilizedBytes(ranges: seq<Extent>) returns (utilized: nat)
    requires forall i :: 0 <= i < |ranges| ==> ranges[i].begin <= ranges[i].end
    ensures utilized == |Covered(ranges)|
  {
    hide Swept, Covered, Bytes, In;
    if ranges == [] {
      NothingCovered();
      return 0;
    }
    var tmp := SortByBegin(ranges);
    CoveredPermuted(ranges, tmp);
    SameOrder(ranges, tmp);
    utilized := 0;
    var curBeg: nat, curEnd: nat := tmp[0].begin, tmp[0].end;
    ghost var counted: set<nat> := {};
    SweepStart(tmp);
    var i := 1;
    while i < |tmp|
      invariant 1 <= i <= |tmp| && curBeg <= curEnd && curBeg <= tmp[i - 1].begin
      invariant Swept(tmp, i, counted, utilized, Extent(curBeg, curEnd))
    {
      if tmp[i].begin <= curEnd {
        SweepExtend(tmp, i, counted, utilized, Extent(curBeg, curEnd));
        if tmp[i].end > curEnd {
          curEnd := tmp[i].end;
        }
      } else {
        SweepNext(tmp, i, counted, utilized, Extent(curBeg, curEnd));
        counted := counted + Bytes(Extent(curBeg, curEnd));
        utilized := utilized + (curEnd - curBeg);
        curBeg := tmp[i].begin;
        curEnd := tmp[i].end;
      }
      i := i + 1;
    }
    SweepDone(tmp, counted, utilized, Extent(curBeg, curEnd));
    utilized := utilized + (curEnd - curBeg);
  }

  lemma NothingCovered()
    ensures Covered([]) == {}
  {}

  lemma SweepStart(s: seq<Extent>)
    requires s != [] && s[0].begin <= s[0].end
    ensures Swept(s, 1, {}, 0, s[0])
  {
    hide Bytes;
    assert CoveredBy(s, 0) == {};
  }

  lemma SameOrder(s: seq<Extent>, t: seq<Extent>)
    requires multiset(s) == multiset(t) && forall i :: 0 <= i < |s| ==> s[i].begin <= s[i].end
    ensures |t| == |s| && forall i :: 0 <= i < |t| ==> t[i].begin <= t[i].end
  {
    assert |multiset(s)| == |multiset(t)|;
    forall i | 0 <= i < |t| ensures t[i].begin <= t[i].end {
      assert t[i] in multiset(s);
    }
  }
}
