/** Byte ranges and the set of bytes they cover: what the three utilisation tools measure. */
module Extents {
  import opened Counting

  /** The bytes from `begin` up to but not including `end`. */
  datatype Extent = Extent(begin: nat, end: nat)

  predicate In(x: nat, e: Extent) { e.begin <= x < e.end }

  function Bytes(e: Extent): (r: set<nat>)
    ensures forall x: nat :: x in r <==> In(x, e)
  {
    Between(e.begin, e.end)
  }

  /** The bytes the first n extents cover. */
  function CoveredBy(s: seq<Extent>, n: nat): set<nat>
    requires n <= |s|
  {
    if n == 0 then {} else CoveredBy(s, n - 1) + Bytes(s[n - 1])
  }

  function Covered(s: seq<Extent>): set<nat> { CoveredBy(s, |s|) }

  lemma {:induction false} CoveredByHas(s: seq<Extent>, n: nat, x: nat)
    requires n <= |s|
    ensures x in CoveredBy(s, n) <==> exists i :: 0 <= i < n && In(x, s[i])
  {
    hide Bytes, In;
    if n > 0 {
      CoveredByHas(s, n - 1, x);
      if i :| 0 <= i < n && In(x, s[i]) && i != n - 1 {
        assert 0 <= i < n - 1;
      }
    }
  }

  lemma CoveredHas(s: seq<Extent>, x: nat)
    ensures x in Covered(s) <==> exists i :: 0 <= i < |s| && In(x, s[i])
  {
    CoveredByHas(s, |s|, x);
  }

  /** The extents' order does not matter to what they cover. */
  lemma CoveredPermuted(s: seq<Extent>, t: seq<Extent>)
    requires multiset(s) == multiset(t)
    ensures Covered(s) == Covered(t)
  {
    hide Covered;
    forall x: nat ensures x in Covered(s) <==> x in Covered(t) {
      CoveredHas(s, x);
      CoveredHas(t, x);
      if x in Covered(s) {
        var i :| 0 <= i < |s| && In(x, s[i]);
        assert s[i] in multiset(t);
      }
      if x in Covered(t) {
        var i :| 0 <= i < |t| && In(x, t[i]);
        assert t[i] in multiset(s);
      }
    }
  }

  lemma BytesSize(e: Extent)
    requires e.begin <= e.end
    ensures |Bytes(e)| == e.end - e.begin
  {
    BetweenSize(e.begin, e.end);
  }

  lemma UnionSize<T>(a: set<T>, b: set<T>)
    requires a !! b
    ensures |a + b| == |a| + |b|
  {}
}
