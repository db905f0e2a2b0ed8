/** Reuse distances: what they are, the Fenwick-tree scans that compute them forwards
    (LRU) and backwards (OPT), and why both scans see the same distances. */
module ReuseDistance {
  import opened Counting
  import opened Fenwick

  /** The source's numeric_limits<long long>::max(): no reuse. */
  const NEVER: int := 0x7FFF_FFFF_FFFF_FFFF

  datatype AlgorithmType = LRU | OPT

  /** The addresses accessed in [lo, hi). */
  function Addresses(trace: seq<int>, lo: nat, hi: nat): (r: set<int>)
    requires hi <= |trace|
    ensures forall x :: x in r <==> exists k :: lo <= k < hi && trace[k] == x
    decreases hi
  {
    if lo >= hi then {} else Addresses(trace, lo, hi - 1) + {trace[hi - 1]}
  }

  /** The previous access to the same address. */
  function Prev(trace: seq<int>, i: nat): (p: Option<nat>)
    requires i < |trace|
    ensures p.Some? ==> p.value < i && trace[p.value] == trace[i]
    ensures forall k :: (if p.Some? then p.value + 1 else 0) <= k < i ==> trace[k] != trace[i]
  {
    LastIn(trace, trace[i], i)
  }

  /** The last access to `a` among the first n. */
  function LastIn(trace: seq<int>, a: int, n: nat): (p: Option<nat>)
    requires n <= |trace|
    ensures p.Some? ==> p.value < n && trace[p.value] == a
    ensures forall k :: (if p.Some? then p.value + 1 else 0) <= k < n ==> trace[k] != a
  {
    if n == 0 then None
    else if trace[n - 1] == a then Some(n - 1)
    else LastIn(trace, a, n - 1)
  }

  /** The next access to the same address. */
  function Next(trace: seq<int>, i: nat): (p: Option<nat>)
    requires i < |trace|
    ensures p.Some? ==> i < p.value < |trace| && trace[p.value] == trace[i]
    ensures forall k :: i < k < (if p.Some? then p.value else |trace|) ==> trace[k] != trace[i]
  {
    FirstFrom(trace, trace[i], i + 1)
  }

  /** The first access to `a` at or after position n. */
  function FirstFrom(trace: seq<int>, a: int, n: nat): (p: Option<nat>)
    requires n <= |trace|
    ensures p.Some? ==> n <= p.value < |trace| && trace[p.value] == a
    ensures forall k :: n <= k < (if p.Some? then p.value else |trace|) ==> trace[k] != a
    decreases |trace| - n
  {
    if n == |trace| then None
    else if trace[n] == a then Some(n)
    else FirstFrom(trace, a, n + 1)
  }

  /** One plus the number of distinct addresses since the previous access to this one. */
  function LruDistance(trace: seq<int>, i: nat): int
    requires i < |trace|
  {
    match Prev(trace, i)
    case None => NEVER
    case Some(p) => |Addresses(trace, p + 1, i)| + 1
  }

  /** One plus the number of distinct addresses until the next access to this one. */
  function OptDistance(trace: seq<int>, i: nat): int
    requires i < |trace|
  {
    match Next(trace, i)
    case None => NEVER
    case Some(n) => |Addresses(trace, i + 1, n)| + 1
  }

  function Distance(trace: seq<int>, kind: AlgorithmType, i: nat): int
    requires i < |trace|
  {
    if kind.LRU? then LruDistance(trace, i) else OptDistance(trace, i)
  }

  // ---- marks: one per address, at its last (first) occurrence ----

  predicate LastMark(trace: seq<int>, n: nat, j: nat)
    requires n <= |trace|
  {
    j < n && forall k :: j < k < n ==> trace[k] != trace[j]
  }

  predicate FirstMark(trace: seq<int>, n: nat, j: nat) {
    n <= j < |trace| && forall k :: n <= k < j ==> trace[k] != trace[j]
  }

  ghost predicate LastMarks(trace: seq<int>, n: nat, vals: seq<int>)
    requires n <= |trace|
  {
    |vals| == |trace| && forall j :: 0 <= j < |vals| ==> vals[j] == Bit(LastMark(trace, n, j))
  }

  ghost predicate FirstMarks(trace: seq<int>, n: nat, vals: seq<int>) {
    |vals| == |trace| && forall j :: 0 <= j < |vals| ==> vals[j] == Bit(FirstMark(trace, n, j))
  }

  lemma AddressesFirst(trace: seq<int>, lo: nat, hi: nat)
    requires lo < hi <= |trace|
    ensures Addresses(trace, lo, hi) == {trace[lo]} + Addresses(trace, lo + 1, hi)
  {}

  /** Last-occurrence marks from lo on count the distinct addresses from lo on. */
  lemma {:induction false} LastMarksCount(trace: seq<int>, n: nat, vals: seq<int>, lo: nat)
    requires lo <= n <= |trace| && LastMarks(trace, n, vals)
    ensures Prefix(vals, n) - Prefix(vals, lo) == |Addresses(trace, lo, n)|
    decreases n - lo
  {
    if lo < n {
      LastMarksCount(trace, n, vals, lo + 1);
      AddressesFirst(trace, lo, n);
      assert LastMark(trace, n, lo) <==> trace[lo] !in Addresses(trace, lo + 1, n);
      if !LastMark(trace, n, lo) {
        assert Addresses(trace, lo, n) == Addresses(trace, lo + 1, n);
      }
      assert Prefix(vals, lo + 1) == Prefix(vals, lo) + vals[lo];
    }
  }

  /** First-occurrence marks up to hi count the distinct addresses up to hi. */
  lemma {:induction false} FirstMarksCount(trace: seq<int>, n: nat, vals: seq<int>, hi: nat)
    requires n <= hi <= |trace| && FirstMarks(trace, n, vals)
    ensures Prefix(vals, hi) - Prefix(vals, n) == |Addresses(trace, n, hi)|
  {
    if n < hi {
      FirstMarksCount(trace, n, vals, hi - 1);
      assert FirstMark(trace, n, hi - 1) <==> trace[hi - 1] !in Addresses(trace, n, hi - 1);
      if !FirstMark(trace, n, hi - 1) {
        assert Addresses(trace, n, hi) == Addresses(trace, n, hi - 1);
      }
    }
  }

  // ---- the scans ----

  /** A table of last occurrences among the first n accesses. */
  ghost predicate LastTable(trace: seq<int>, n: nat, table: map<int, nat>)
    requires n <= |trace|
  {
    forall a :: LastIn(trace, a, n) == if a in table then Some(table[a]) else None
  }

  /** A table of first occurrences from position n on. */
  ghost predicate FirstTable(trace: seq<int>, n: nat, table: map<int, nat>)
    requires n <= |trace|
  {
    forall a :: FirstFrom(trace, a, n) == if a in table then Some(table[a]) else None
  }

  lemma ScanStarts(trace: seq<int>)
    ensures LastTable(trace, 0, map[]) && LastMarks(trace, 0, seq(|trace|, i => 0))
    ensures FirstTable(trace, |trace|, map[]) && FirstMarks(trace, |trace|, seq(|trace|, i => 0))
  {}

  lemma LastTableStep(trace: seq<int>, i: nat, table: map<int, nat>)
    requires i < |trace| && LastTable(trace, i, table)
    ensures Prev(trace, i) == if trace[i] in table then Some(table[trace[i]]) else None
    ensures LastTable(trace, i + 1, table[trace[i] := i])
  {}

  lemma FirstTableStep(trace: seq<int>, i: nat, table: map<int, nat>)
    requires i < |trace| && FirstTable(trace, i + 1, table)
    ensures Next(trace, i) == if trace[i] in table then Some(table[trace[i]]) else None
    ensures FirstTable(trace, i, table[trace[i] := i])
  {}

  /** Moving a mark: the address's old one, if it has one, is cleared and the new one set. */
  function Moved(vals: seq<int>, at: Option<nat>, i: nat): (r: seq<int>)
    requires i < |vals| && (at.Some? ==> at.value < |vals|)
    ensures |r| == |vals|
  {
    var cleared := if at.Some? then vals[at.value := vals[at.value] - 1] else vals;
    cleared[i := cleared[i] + 1]
  }

  lemma LastMarksStep(trace: seq<int>, i: nat, vals: seq<int>)
    requires i < |trace| && LastMarks(trace, i, vals)
    ensures LastMarks(trace, i + 1, Moved(vals, Prev(trace, i), i))
  {
    var marks := Moved(vals, Prev(trace, i), i);
    forall j | 0 <= j < |marks|
      ensures marks[j] == Bit(LastMark(trace, i + 1, j))
    {
      if j < i {
        assert LastMark(trace, i + 1, j) <==> LastMark(trace, i, j) && trace[j] != trace[i];
        if LastMark(trace, i, j) && trace[j] == trace[i] {
          assert Prev(trace, i) == Some(j);
        }
      }
    }
  }

  lemma FirstMarksStep(trace: seq<int>, i: nat, vals: seq<int>)
    requires i < |trace| && FirstMarks(trace, i + 1, vals)
    ensures FirstMarks(trace, i, Moved(vals, Next(trace, i), i))
  {
    var marks := Moved(vals, Next(trace, i), i);
    forall j | 0 <= j < |marks|
      ensures marks[j] == Bit(FirstMark(trace, i, j))
    {
      if j > i {
        assert FirstMark(trace, i, j) <==> FirstMark(trace, i + 1, j) && trace[j] != trace[i];
        if FirstMark(trace, i + 1, j) && trace[j] == trace[i] {
          assert Next(trace, i) == Some(j);
        }
      }
    }
  }

  ghost predicate LinkedBack(trace: seq<int>, link: seq<int>) {
    |link| == |trace| && forall i :: 0 <= i < |trace| ==> link[i] == match Prev(trace, i) case None => -1 case Some(p) => p
  }

  ghost predicate LinkedAhead(trace: seq<int>, link: seq<int>) {
    |link| == |trace| && forall i :: 0 <= i < |trace| ==> link[i] == match Next(trace, i) case None => -1 case Some(p) => p
  }

  lemma LinkAt(trace: seq<int>, link: seq<int>, i: nat)
    requires i < |trace|
    ensures LinkedBack(trace, link) ==> i < |link| && link[i] == match Prev(trace, i) case None => -1 case Some(p) => p
    ensures LinkedAhead(trace, link) ==> i < |link| && link[i] == match Next(trace, i) case None => -1 case Some(p) => p
  {}

  /** The forward pass that links each access to the previous one of its address. */
  method LinkBack(trace: seq<int>) returns (link: array<int>)
    ensures fresh(link) && link.Length == |trace|
    ensures LinkedBack(trace, link[..])
  {
    link := new int[|trace|](_ => -1);
    var last: map<int, nat> := map[];
    for i := 0 to |trace|
      invariant LastTable(trace, i, last)
      invariant forall k :: 0 <= k < i ==> link[k] == match Prev(trace, k) case None => -1 case Some(p) => p
    {
      link[i] := if trace[i] in last then last[trace[i]] else -1;
      last := last[trace[i] := i];
    }
  }

  /** The backward pass that links each access to the next one of its address. */
  method LinkAhead(trace: seq<int>) returns (link: array<int>)
    ensures fresh(link) && link.Length == |trace|
    ensures LinkedAhead(trace, link[..])
  {
    link := new int[|trace|](_ => -1);
    var last: map<int, nat> := map[];
    for i := |trace| downto 0
      invariant FirstTable(trace, i, last)
      invariant forall k :: i <= k < |trace| ==> link[k] == match Next(trace, k) case None => -1 case Some(p) => p
    {
      link[i] := if trace[i] in last then last[trace[i]] else -1;
      last := last[trace[i] := i];
    }
  }

  /** Clears an address's old mark, if it has one, and sets its new one. */
  method MoveMark(ft: FenwickTree, old': Option<nat>, i: nat)
    requires ft.Valid() && i < |ft.vals| && (old'.Some? ==> old'.value < |ft.vals|)
    modifies ft`vals, ft.tree
    ensures ft.Valid()
    ensures ft.vals == Moved(old(ft.vals), old', i)
  {
    hide FenwickTree.Valid;
    if old'.Some? {
      ft.Update(old'.value, -1);
    }
    ft.Update(i, 1);
  }

  /** The marks in (from, to]. */
  method MarksBetween(ft: FenwickTree, from: nat, to: nat) returns (count: int)
    requires ft.Valid() && from < |ft.vals| && to < |ft.vals|
    ensures count == Prefix(ft.vals, to + 1) - Prefix(ft.vals, from + 1)
  {
    var upTo := ft.Query(to);
    var before := ft.Query(from);
    count := upTo - before;
  }

  method DistanceBack(trace: seq<int>, i: nat, prev: int, ft: FenwickTree) returns (d: int)
    requires i < |trace| && ft.Valid() && |ft.vals| == |trace| && LastMarks(trace, i, ft.vals)
    requires prev == match Prev(trace, i) case None => -1 case Some(p) => p
    ensures d == LruDistance(trace, i)
  {
    hide LastMarks, Addresses, Prefix, FenwickTree.Valid;
    if prev == -1 {
      return NEVER;
    }
    var uniqueCount := MarksBetween(ft, prev, i - 1);
    LastMarksCount(trace, i, ft.vals, prev + 1);
    return uniqueCount + 1;
  }

  method DistanceAhead(trace: seq<int>, i: nat, next: int, ft: FenwickTree) returns (d: int)
    requires i < |trace| && ft.Valid() && |ft.vals| == |trace| && FirstMarks(trace, i + 1, ft.vals)
    requires next == match Next(trace, i) case None => -1 case Some(p) => p
    ensures d == OptDistance(trace, i)
  {
    hide FirstMarks, Addresses, Prefix, FenwickTree.Valid;
    if next == -1 {
      return NEVER;
    }
    var uniqueCount := MarksBetween(ft, i, next - 1);
    FirstMarksCount(trace, i + 1, ft.vals, next);
    return uniqueCount + 1;
  }

  /** One access of the forward scan: its distance, then its address's mark and table entry. */
  method ForwardStep(trace: seq<int>, i: nat, link: int, ft: FenwickTree, occ: map<int, nat>)
    returns (d: int, occ': map<int, nat>)
    requires i < |trace| && ft.Valid() && |ft.vals| == |trace|
    requires LastMarks(trace, i, ft.vals) && LastTable(trace, i, occ)
    requires link == match Prev(trace, i) case None => -1 case Some(p) => p
    modifies ft`vals, ft.tree
    ensures ft.Valid() && |ft.vals| == |trace|
    ensures LastMarks(trace, i + 1, ft.vals) && LastTable(trace, i + 1, occ')
    ensures d == LruDistance(trace, i)
  {
    hide LastMarks, LastTable, Prefix, FenwickTree.Valid, LruDistance, Moved;
    d := DistanceBack(trace, i, link, ft);
    LastMarksStep(trace, i, ft.vals);
    LastTableStep(trace, i, occ);
    MoveMark(ft, if trace[i] in occ then Some(occ[trace[i]]) else None, i);
    occ' := occ[trace[i] := i];
  }

  method ForwardDistances(trace: seq<int>) returns (distances: array<int>)
    requires |trace| < NEVER
    ensures fresh(distances) && distances.Length == |trace|
    ensures forall i :: 0 <= i < |trace| ==> distances[i] == LruDistance(trace, i)
  {
    hide LastMarks, LastTable, FenwickTree.Valid, LruDistance, LinkedBack;
    distances := new int[|trace|](_ => 0);
    var link := LinkBack(trace);
    ScanStarts(trace);
    var ft := new FenwickTree(|trace|);
    var occ: map<int, nat> := map[];
    for i := 0 to |trace|
      invariant ft.Valid() && fresh(ft) && fresh(ft.tree) && ft.tree != link && ft.tree != distances
      invariant |ft.vals| == |trace| && LastMarks(trace, i, ft.vals) && LastTable(trace, i, occ)
      invariant link.Length == |trace| && LinkedBack(trace, link[..])
      invariant forall k :: 0 <= k < i ==> distances[k] == LruDistance(trace, k)
    {
      LinkAt(trace, link[..], i);
      distances[i], occ := ForwardStep(trace, i, link[i], ft, occ);
    }
  }

  /** One access of the backward scan: its distance, then its address's mark and table entry. */
  method BackwardStep(trace: seq<int>, i: nat, link: int, ft: FenwickTree, occ: map<int, nat>)
    returns (d: int, occ': map<int, nat>)
    requires i < |trace| && ft.Valid() && |ft.vals| == |trace|
    requires FirstMarks(trace, i + 1, ft.vals) && FirstTable(trace, i + 1, occ)
    requires link == match Next(trace, i) case None => -1 case Some(p) => p
    modifies ft`vals, ft.tree
    ensures ft.Valid() && |ft.vals| == |trace|
    ensures FirstMarks(trace, i, ft.vals) && FirstTable(trace, i, occ')
    ensures d == OptDistance(trace, i)
  {
    hide FirstMarks, FirstTable, Prefix, FenwickTree.Valid, OptDistance, Moved;
    d := DistanceAhead(trace, i, link, ft);
    FirstMarksStep(trace, i, ft.vals);
    FirstTableStep(trace, i, occ);
    MoveMark(ft, if trace[i] in occ then Some(occ[trace[i]]) else None, i);
    occ' := occ[trace[i] := i];
  }

  method BackwardDistances(trace: seq<int>) returns (distances: array<int>)
    requires |trace| < NEVER
    ensures fresh(distances) && distances.Length == |trace|
    ensures forall i :: 0 <= i < |trace| ==> distances[i] == OptDistance(trace, i)
  {
    hide FirstMarks, FirstTable, FenwickTree.Valid, OptDistance, LinkedAhead;
    distances := new int[|trace|](_ => 0);
    var link := LinkAhead(trace);
    ScanStarts(trace);
    var ft := new FenwickTree(|trace|);
    var occ: map<int, nat> := map[];
    for i := |trace| downto 0
      invariant ft.Valid() && fresh(ft) && fresh(ft.tree) && ft.tree != link && ft.tree != distances
      invariant |ft.vals| == |trace| && FirstMarks(trace, i, ft.vals) && FirstTable(trace, i, occ)
      invariant link.Length == |trace| && LinkedAhead(trace, link[..])
      invariant forall k :: i <= k < |trace| ==> distances[k] == OptDistance(trace, k)
    {
      LinkAt(trace, link[..], i);
      distances[i], occ := BackwardStep(trace, i, link[i], ft, occ);
    }
  }

  method ComputeDistances(trace: seq<int>, kind: AlgorithmType) returns (distances: array<int>)
    requires |trace| < NEVER
    ensures fresh(distances) && distances.Length == |trace|
    ensures forall i :: 0 <= i < |trace| ==> distances[i] == Distance(trace, kind, i)
  {
    if kind == LRU {
      distances := ForwardDistances(trace);
    } else {
      distances := BackwardDistances(trace);
    }
  }
}
