/** The LRU cache: a recency list, a map from block to slot, and the slot allocator. */
module LruCaching {
  import opened Counting

  ghost predicate Distinct<T>(s: seq<T>) {
    forall i, j :: 0 <= i < j < |s| ==> s[i] != s[j]
  }

  /** Hands out slots from a stack of free ones. */
  class DummyAllocator {
    const taken: array<bool>
    var freeList: seq<nat>

    ghost predicate Valid()
      reads this, taken
    {
      && Distinct(freeList)
      && (forall i :: 0 <= i < |freeList| ==> freeList[i] < taken.Length)
      && (forall id :: 0 <= id < taken.Length ==> (taken[id] <==> id !in freeList))
    }

    constructor (maxBlocks: nat)
      ensures Valid() && fresh(taken) && taken.Length == maxBlocks && |freeList| == maxBlocks
      ensures forall id :: 0 <= id < maxBlocks ==> !taken[id] && freeList[id] == maxBlocks - 1 - id
    {
      taken := new bool[maxBlocks](_ => false);
      freeList := seq(maxBlocks, i requires 0 <= i < maxBlocks => maxBlocks - 1 - i);
      new;
      forall id | 0 <= id < maxBlocks ensures id in freeList {
        assert freeList[maxBlocks - 1 - id] == id;
      }
    }

    /** The source asserts that a slot is free. */
    method Alloc() returns (id: nat)
      requires Valid() && freeList != []
      modifies this, taken
      ensures Valid() && freeList == old(freeList[..|freeList| - 1])
      ensures id < taken.Length && !old(taken[id])
      ensures forall k :: 0 <= k < taken.Length ==> taken[k] == (old(taken[k]) || k == id)
    {
      id := freeList[|freeList| - 1];
      ghost var was := freeList;
      freeList := freeList[..|freeList| - 1];
      taken[id] := true;
      forall k | 0 <= k < taken.Length ensures taken[k] <==> k !in freeList {
        if k in was && k != id {
          var i :| 0 <= i < |was| && was[i] == k;
          assert freeList[i] == k;
        }
      }
    }

    /** The source asserts that the slot is in range and taken. */
    method Free(id: nat)
      requires Valid() && id < taken.Length && taken[id]
      modifies this, taken
      ensures Valid() && freeList == old(freeList) + [id]
      ensures forall k :: 0 <= k < taken.Length ==> taken[k] == (old(taken[k]) && k != id)
    {
      taken[id] := false;
      freeList := freeList + [id];
    }
  }

  /** A list with the node of one key unlinked. */
  function Without(s: seq<int>, x: int): (r: seq<int>)
    ensures if x in s then |r| < |s| else |r| == |s|
    ensures x !in r
    ensures forall y :: y in r <==> y in s && y != x
  {
    if s == [] then []
    else
      var init := Without(s[..|s| - 1], x);
      if s[|s| - 1] == x then init else init + [s[|s| - 1]]
  }

  lemma {:induction false} WithoutDistinct(s: seq<int>, x: int)
    requires Distinct(s)
    ensures Distinct(Without(s, x))
    ensures x in s ==> |Without(s, x)| == |s| - 1
    ensures x !in s ==> Without(s, x) == s
  {
    if s != [] {
      var init, last := s[..|s| - 1], s[|s| - 1];
      assert s == init + [last];
      WithoutDistinct(init, x);
      assert last !in init by {
        assert forall i :: 0 <= i < |init| ==> s[i] == init[i];
      }
    }
  }

  /** What one access does to the recency list, oldest block first. */
  function LruStep(list: seq<int>, key: int, capacity: nat): seq<int>
    requires 0 < capacity && |list| <= capacity
  {
    if key in list then Without(list, key) + [key]
    else (if |list| == capacity then list[1..] else list) + [key]
  }

  class LruCache {
    const capacity: nat
    const allocator: DummyAllocator
    var cacheList: seq<int>
    var cacheMap: map<int, nat>
    var evictedBlocks: nat

    ghost predicate Valid()
      reads this, allocator, allocator.taken
    {
      && allocator.Valid() && allocator.taken.Length == capacity > 0
      && Distinct(cacheList)
      && (forall k :: k in cacheMap <==> k in cacheList)
      && |cacheMap| == |cacheList|
      && |cacheList| + |allocator.freeList| == capacity
      && (forall k :: k in cacheMap ==> cacheMap[k] < capacity && allocator.taken[cacheMap[k]])
      && (forall k, l :: k in cacheMap && l in cacheMap && k != l ==> cacheMap[k] != cacheMap[l])
    }

    constructor (capacity: nat)
      requires capacity > 0
      ensures Valid() && fresh(allocator) && fresh(allocator.taken)
      ensures this.capacity == capacity && cacheList == [] && evictedBlocks == 0
    {
      this.capacity := capacity;
      allocator := new DummyAllocator(capacity);
      cacheList, cacheMap, evictedBlocks := [], map[], 0;
    }

    method Touch(key: int)
      requires Valid()
      modifies this`cacheList
      ensures Valid()
      ensures cacheList == if key in old(cacheList) then Without(old(cacheList), key) + [key] else old(cacheList)
    {
      if key in cacheMap {
        WithoutDistinct(cacheList, key);
        cacheList := Without(cacheList, key) + [key];
      }
    }

    /** Evicts the least recently used block and frees its slot. */
    method EvictOneBlock() returns (oldest: int)
      requires Valid() && cacheList != []
      modifies this, allocator, allocator.taken
      ensures Valid() && oldest == old(cacheList[0]) && cacheList == old(cacheList[1..])
      ensures old(oldest in cacheMap) && cacheMap == old(cacheMap) - {oldest}
      ensures allocator.freeList == old(allocator.freeList) + [old(cacheMap)[oldest]]
      ensures evictedBlocks == old(evictedBlocks)
    {
      oldest := cacheList[0];
      assert oldest in cacheMap;
      var id := cacheMap[oldest];
      cacheList := cacheList[1..];
      ghost var was := cacheMap;
      cacheMap := cacheMap - {oldest};
      assert cacheMap.Keys == was.Keys - {oldest};
      allocator.Free(id);
    }

    /** Takes a slot for a new most recently used block. */
    method Admit(key: int)
      requires Valid() && key !in cacheMap && |cacheList| < capacity
      modifies this`cacheList, this`cacheMap, allocator, allocator.taken
      ensures Valid() && cacheList == old(cacheList) + [key]
      ensures old(allocator.freeList) != []
      ensures cacheMap == old(cacheMap)[key := old(allocator.freeList[|allocator.freeList| - 1])]
    {
      cacheList := cacheList + [key];
      var id := allocator.Alloc();
      cacheMap := cacheMap[key := id];
    }

    /** One block of a batch. */
    method Insert(key: int) returns (hit: bool)
      requires Valid()
      modifies this, allocator, allocator.taken
      ensures Valid()
      ensures hit == (key in old(cacheList))
      ensures if hit then cacheMap == old(cacheMap)
              else key in cacheMap && cacheMap - {key} == old(cacheMap) - (if old(|cacheList|) == capacity then {old(cacheList[0])} else {})
      ensures !hit && old(|cacheList|) == capacity ==> old(cacheList[0] in cacheMap) && cacheMap[key] == old(cacheMap[cacheList[0]])
      ensures cacheList == LruStep(old(cacheList), key, capacity)
      ensures evictedBlocks == old(evictedBlocks) + if !hit && old(|cacheList|) == capacity then 1 else 0
    {
      hit := key in cacheMap;
      if hit {
        Touch(key);
      } else {
        while |cacheMap| >= capacity
          invariant Valid() && key !in cacheMap
          invariant || (cacheList == old(cacheList) && cacheMap == old(cacheMap) && evictedBlocks == old(evictedBlocks))
                    || (&& old(|cacheList|) == capacity && cacheList == old(cacheList[1..]) && evictedBlocks == old(evictedBlocks) + 1
                        && old(cacheList[0] in cacheMap) && cacheMap == old(cacheMap) - {old(cacheList[0])}
                        && |allocator.freeList| > 0
                        && allocator.freeList[|allocator.freeList| - 1] == old(cacheMap[cacheList[0]]))
          decreases |cacheMap|
        {
          var oldest := EvictOneBlock();
          evictedBlocks := evictedBlocks + 1;
        }
        Admit(key);
      }
    }
  }

  // ---- recency order ----

  /** Every address accessed so far, least recent first. */
  function Recency(trace: seq<int>, n: nat): seq<int>
    requires n <= |trace|
  {
    if n == 0 then [] else Without(Recency(trace, n - 1), trace[n - 1]) + [trace[n - 1]]
  }

  lemma {:induction false} RecencyDistinct(trace: seq<int>, n: nat)
    requires n <= |trace|
    ensures Distinct(Recency(trace, n))
  {
    if n > 0 {
      RecencyDistinct(trace, n - 1);
      WithoutDistinct(Recency(trace, n - 1), trace[n - 1]);
    }
  }

  /** The contents of an LRU cache after n accesses. */
  function Contents(trace: seq<int>, n: nat, capacity: nat): (list: seq<int>)
    requires n <= |trace| && capacity > 0
    ensures |list| <= capacity
  {
    if n == 0 then [] else LruStep(Contents(trace, n - 1, capacity), trace[n - 1], capacity)
  }

  function Newest(s: seq<int>, c: nat): seq<int> {
    if |s| <= c then s else s[|s| - c..]
  }

  lemma {:induction false} WithoutAppend(a: seq<int>, b: seq<int>, x: int)
    ensures Without(a + b, x) == Without(a, x) + Without(b, x)
  {
    if b == [] {
      assert a + b == a;
    } else {
      assert (a + b)[..|a + b| - 1] == a + b[..|b| - 1];
      WithoutAppend(a, b[..|b| - 1], x);
    }
  }

  /** Newest of a concatenation, when the cut falls k elements into the second part. */
  lemma NewestCut(a: seq<int>, b: seq<int>, k: nat, c: nat)
    requires k <= |b| == c + k && (a == [] || k > 0 || |b| == c)
    ensures Newest(a + b, c) == b[k..]
  {
    assert (a + b)[|a| + k..] == b[k..];
  }

  /** The cut list, when the access hits. */
  lemma NewestHit(older: seq<int>, newer: seq<int>, x: int, c: nat)
    requires Distinct(older + newer) && |newer| == c && x in newer
    ensures Newest(Without(older + newer, x) + [x], c) == Without(newer, x) + [x]
  {
    WithoutAppend(older, newer, x);
    DistinctParts(older, newer, x);
    hide Without;
    NewestCut(older, Without(newer, x) + [x], 0, c);
    assert older + Without(newer, x) + [x] == older + (Without(newer, x) + [x]);
  }

  /** The cut list, when it misses: the oldest cached address falls off. */
  lemma NewestMiss(older: seq<int>, newer: seq<int>, x: int, c: nat)
    requires |newer| == c > 0 && x !in newer
    ensures Newest(Without(older + newer, x) + [x], c) == newer[1..] + [x]
  {
    WithoutAppend(older, newer, x);
    WithoutAbsent(newer, x);
    hide Without;
    NewestCut(Without(older, x), newer + [x], 1, c);
    assert Without(older, x) + newer + [x] == Without(older, x) + (newer + [x]);
    assert (newer + [x])[1..] == newer[1..] + [x];
  }

  lemma {:induction false} WithoutAbsent(s: seq<int>, x: int)
    requires x !in s
    ensures Without(s, x) == s
  {
    if s != [] {
      WithoutAbsent(s[..|s| - 1], x);
      assert s == s[..|s| - 1] + [s[|s| - 1]];
    }
  }

  lemma DistinctParts(a: seq<int>, b: seq<int>, x: int)
    requires Distinct(a + b) && x in b
    ensures Without(a, x) == a && Distinct(b) && |Without(b, x)| == |b| - 1
  {
    assert forall i :: 0 <= i < |b| ==> (a + b)[|a| + i] == b[i];
    assert forall i :: 0 <= i < |a| ==> (a + b)[i] == a[i];
    WithoutAbsent(a, x);
    WithoutDistinct(b, x);
  }

  lemma NewestStep(r: seq<int>, x: int, c: nat)
    requires Distinct(r) && c > 0
    ensures Newest(Without(r, x) + [x], c) == LruStep(Newest(r, c), x, c)
  {
    if |r| < c {
      if x !in r {
        WithoutAbsent(r, x);
      }
    } else {
      var older, newer := r[..|r| - c], r[|r| - c..];
      assert r == older + newer;
      hide Without;
      if x in newer {
        NewestHit(older, newer, x, c);
      } else {
        NewestMiss(older, newer, x, c);
      }
    }
  }

  /** The cache always holds the most recently used addresses, in recency order. */
  lemma {:induction false} ContentsAreNewest(trace: seq<int>, n: nat, capacity: nat)
    requires n <= |trace| && capacity > 0
    ensures Contents(trace, n, capacity) == Newest(Recency(trace, n), capacity)
  {
    if n > 0 {
      ContentsAreNewest(trace, n - 1, capacity);
      RecencyDistinct(trace, n - 1);
      NewestStep(Recency(trace, n - 1), trace[n - 1], capacity);
    }
  }

  function Hit(trace: seq<int>, i: nat, capacity: nat): bool
    requires i < |trace| && capacity > 0
  {
    trace[i] in Contents(trace, i, capacity)
  }

  function Misses(trace: seq<int>, n: nat, capacity: nat): nat
    requires n <= |trace| && capacity > 0
  {
    if n == 0 then 0 else Misses(trace, n - 1, capacity) + Bit(!Hit(trace, n - 1, capacity))
  }

  /** Runs a cache of the given capacity over the trace, one block per batch. */
  method CountMisses(trace: seq<int>, capacity: nat) returns (misses: nat)
    requires capacity > 0
    ensures misses == Misses(trace, |trace|, capacity)
  {
    hide Contents;
    var cache := new LruCache(capacity);
    misses := 0;
    EmptyCache(trace, capacity);
    for i := 0 to |trace|
      invariant cache.Valid() && fresh(cache) && fresh(cache.allocator) && fresh(cache.allocator.taken)
      invariant cache.capacity == capacity && cache.cacheList == Contents(trace, i, capacity)
      invariant misses == Misses(trace, i, capacity)
    {
      ContentsStep(trace, i, capacity);
      var hit := cache.Insert(trace[i]);
      if !hit {
        misses := misses + 1;
      }
    }
  }

  lemma EmptyCache(trace: seq<int>, capacity: nat)
    requires capacity > 0
    ensures Contents(trace, 0, capacity) == []
  {}

  lemma ContentsStep(trace: seq<int>, n: nat, capacity: nat)
    requires n < |trace| && capacity > 0
    ensures Contents(trace, n + 1, capacity) == LruStep(Contents(trace, n, capacity), trace[n], capacity)
  {}
}
