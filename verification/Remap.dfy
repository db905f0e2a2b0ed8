/** Renaming blocks injectively into a fixed range: the table with removal that feeds the
    segment simulator, and the one without that rewrites traces. Both try the block number
    modulo the range first and then a free list they clean up only as they go. */
module Remap {
  import opened Counting

  predicate Injective(m: map<nat, nat>) {
    forall a, b :: a in m && b in m && m[a] == m[b] ==> a == b
  }

  /** rev undoes m, and m undoes rev. */
  ghost predicate Inverse(m: map<nat, nat>, rev: map<nat, nat>) {
    && (forall k :: k in m ==> m[k] in rev && rev[m[k]] == k)
    && (forall b :: b in rev ==> rev[b] in m && m[rev[b]] == b)
  }

  lemma InverseIsInjective(m: map<nat, nat>, rev: map<nat, nat>)
    requires Inverse(m, rev)
    ensures Injective(m) && |m| == |rev|
  {
    InverseSizes(m, rev);
  }

  lemma {:induction false} InverseSizes(m: map<nat, nat>, rev: map<nat, nat>)
    requires Inverse(m, rev)
    ensures |m| == |rev|
    decreases |m|
  {
    assert forall b :: b in rev ==> rev[b] in m;
    if k :| k in m {
      var m', rev' := m - {k}, rev - {m[k]};
      assert m'.Keys == m.Keys - {k} && |m'.Keys| == |m'| && |m.Keys| == |m|;
      assert rev'.Keys == rev.Keys - {m[k]} && |rev'.Keys| == |rev'| && |rev.Keys| == |rev|;
      InverseSizes(m', rev');
    } else {
      assert m.Keys == {} && rev.Keys == {} && |m.Keys| == |m| && |rev.Keys| == |rev|;
    }
  }

  /** An injective map into the first n numbers has at most n keys, and exactly n when it
      reaches all of them. */
  lemma {:induction false} Pigeonhole(m: map<nat, nat>, n: nat)
    requires Injective(m) && forall k :: k in m ==> m[k] < n
    ensures |m| <= n
    ensures (forall b :: 0 <= b < n ==> b in m.Values) ==> |m| == n
    ensures |m| == n ==> forall b :: 0 <= b < n ==> b in m.Values
  {
    ValuesSize(m);
    SubsetSize(m.Values, Range(n));
    if forall b :: 0 <= b < n ==> b in m.Values {
      assert m.Values == Range(n);
    }
  }

  lemma {:induction false} ValuesSize(m: map<nat, nat>)
    requires Injective(m)
    ensures |m.Values| == |m|
    decreases |m|
  {
    if k :| k in m {
      var m' := m - {k};
      assert m'.Keys == m.Keys - {k} && |m'.Keys| == |m'| && |m.Keys| == |m|;
      ValuesSize(m');
      ValuesWithout(m, k);
      assert |m'.Values + {m[k]}| == |m'.Values| + 1;
    } else {
      assert m.Keys == {} && |m.Keys| == |m|;
      assert m.Values == {};
    }
  }

  lemma ValuesWithout(m: map<nat, nat>, k: nat)
    requires Injective(m) && k in m
    ensures Injective(m - {k}) && m[k] !in (m - {k}).Values && m.Values == (m - {k}).Values + {m[k]}
  {
    var m' := m - {k};
    forall v | v in m.Values ensures v in m'.Values + {m[k]} {
      var a :| a in m && m[a] == v;
      if a != k { assert a in m' && m'[a] == v; }
    }
    forall v | v in m'.Values ensures v in m.Values && v != m[k] {
      var a :| a in m' && m'[a] == v;
      assert a in m && m[a] == v && a != k;
    }
  }

  /** Which blocks are taken, and a list with at least all those that are not; it may hold
      blocks taken since, and blocks more than once. */
  ghost predicate ListsFree(used: seq<bool>, freeList: seq<nat>) {
    && (forall i :: 0 <= i < |freeList| ==> freeList[i] < |used|)
    && (forall b :: 0 <= b < |used| && !used[b] ==> b in freeList)
  }

  lemma ListPop(used: seq<bool>, freeList: seq<nat>)
    requires ListsFree(used, freeList) && freeList != []
    ensures var b := freeList[|freeList| - 1];
            b < |used| && ListsFree(used[b := true], freeList[..|freeList| - 1])
  {
    var last := |freeList| - 1;
    var rest, used' := freeList[..last], used[freeList[last] := true];
    forall b | 0 <= b < |used'| && !used'[b] ensures b in rest {
      var i :| 0 <= i < |freeList| && freeList[i] == b;
      assert rest[i] == b;
    }
  }

  lemma ListTake(used: seq<bool>, freeList: seq<nat>, b: nat)
    requires ListsFree(used, freeList) && b < |used|
    ensures ListsFree(used[b := true], freeList)
  {}

  lemma ListPush(used: seq<bool>, freeList: seq<nat>, b: nat)
    requires ListsFree(used, freeList) && b < |used|
    ensures ListsFree(used[b := false], freeList + [b])
  {
    forall c | 0 <= c < |used| && (c == b || !used[c]) ensures c in freeList + [b] {
      assert (freeList + [b])[|freeList|] == b;
    }
  }

  lemma ListFresh(n: nat)
    ensures ListsFree(seq(n, _ => false), seq(n, i => i))
  {
    var list := seq(n, i => i);
    forall b | 0 <= b < n ensures b in list {
      assert list[b] == b;
    }
  }

  /** Exactly the named blocks are taken. */
  ghost predicate UsedIs(used: seq<bool>, taken: set<nat>) {
    && (forall b :: b in taken ==> b < |used|)
    && (forall b :: 0 <= b < |used| ==> (used[b] <==> b in taken))
  }

  lemma AllUsed(used: seq<bool>, taken: set<nat>)
    requires UsedIs(used, taken)
    ensures |taken| <= |used|
    ensures |taken| == |used| <==> forall b :: 0 <= b < |used| ==> used[b]
  {
    SubsetSize(taken, Range(|used|));
    if forall b :: 0 <= b < |used| ==> used[b] {
      assert taken == Range(|used|);
    }
    if |taken| == |used| {
      assert taken == Range(|used|);
    }
  }

  /** The last entry of the list that is not taken, and the list before it. */
  ghost predicate PopsTo(used: seq<bool>, freeList: seq<nat>, block: nat, freeList': seq<nat>) {
    && |freeList'| < |freeList| && freeList' == freeList[..|freeList'|] && freeList[|freeList'|] == block
    && forall i :: |freeList'| < i < |freeList| ==> freeList[i] < |used| && used[freeList[i]]
  }

  /** Drops entries off the end of the list until one is not taken. */
  method NextFree(used: seq<bool>, freeList: seq<nat>) returns (block: Option<nat>, freeList': seq<nat>)
    requires ListsFree(used, freeList)
    ensures block.None? <==> forall b :: 0 <= b < |used| ==> used[b]
    ensures block.Some? ==> block.value < |used| && !used[block.value] && ListsFree(used[block.value := true], freeList')
    ensures block.None? ==> ListsFree(used, freeList') && freeList' == []
    ensures block.Some? ==> PopsTo(used, freeList, block.value, freeList')
  {
    freeList' := freeList;
    while freeList' != []
      invariant ListsFree(used, freeList') && |freeList'| <= |freeList| && freeList' == freeList[..|freeList'|]
      invariant forall i :: |freeList'| <= i < |freeList| ==> freeList[i] < |used| && used[freeList[i]]
      decreases |freeList'|
    {
      var blk := freeList'[|freeList'| - 1];
      ListPop(used, freeList');
      freeList' := freeList'[..|freeList'| - 1];
      if !used[blk] {
        return Some(blk), freeList';
      }
      assert used[blk := true] == used;
    }
    block := None;
  }

  class RemapTable {
    const totalBlocks: nat
    var mapping: map<nat, nat>
    var revMapping: map<nat, nat>
    var used: seq<bool>
    var freeList: seq<nat>

    /** The two maps are inverse to each other, so that no two keys share a block. */
    ghost predicate Valid()
      reads this
    {
      && Inverse(mapping, revMapping) && |used| == totalBlocks
      && UsedIs(used, revMapping.Keys) && ListsFree(used, freeList)
    }

    constructor (totalBlocks: nat)
      ensures Valid() && this.totalBlocks == totalBlocks && mapping == map[]
    {
      this.totalBlocks := totalBlocks;
      mapping, revMapping := map[], map[];
      used, freeList := seq(totalBlocks, _ => false), seq(totalBlocks, i => i);
      ListFresh(totalBlocks);
    }

    /** Fails only when the key is new and every block is taken. */
    method GetOrAssign(key: nat) returns (block: Option<nat>)
      requires Valid()
      modifies this
      ensures Valid()
      ensures block.Some? <==> key in old(mapping) || |old(mapping)| < totalBlocks
      ensures key in old(mapping) ==> block == Some(old(mapping)[key]) && mapping == old(mapping)
      ensures block.None? ==> mapping == old(mapping)
      ensures key in old(mapping) ==> unchanged(this)
      ensures key !in old(mapping) && block.Some? && !(key % totalBlocks !in old(mapping).Values) ==>
                PopsTo(old(used), old(freeList), block.value, freeList)
      ensures key !in old(mapping) && block.Some? ==>
                block.value < totalBlocks && block.value !in old(mapping).Values && mapping == old(mapping)[key := block.value]
      ensures key !in old(mapping) && block.Some? && key % totalBlocks !in old(mapping).Values ==> block.value == key % totalBlocks
    {
      hide ListsFree, UsedIs, Inverse;
      TakenBlocks();
      if key in mapping {
        return Some(mapping[key]);
      }
      if totalBlocks == 0 {
        return None;
      }
      var candidate := key % totalBlocks;
      if !used[candidate] {
        block := Some(candidate);
        ListTake(used, freeList, candidate);
      } else {
        block, freeList := NextFree(used, freeList);
      }
      if block.Some? {
        AssignOk(mapping, revMapping, used, key, block.value);
        used := used[block.value := true];
        mapping := mapping[key := block.value];
        revMapping := revMapping[block.value := key];
      }
    }

    /** Counting the taken blocks counts the keys. */
    lemma TakenBlocks()
      requires Valid()
      ensures |mapping| == |revMapping.Keys| <= totalBlocks
      ensures |mapping| == totalBlocks <==> forall b :: 0 <= b < totalBlocks ==> used[b]
      ensures forall b :: 0 <= b < totalBlocks ==> (used[b] <==> b in mapping.Values)
    {
      InverseSizes(mapping, revMapping);
      AllUsed(used, revMapping.Keys);
      assert |revMapping.Keys| == |revMapping|;
    }

    /** The source asserts that the key is mapped. */
    method Remove(key: nat) returns (block: nat)
      requires Valid() && key in mapping
      modifies this
      ensures freeList == old(freeList) + [block]
      ensures Valid() && block == old(mapping)[key] && mapping == old(mapping) - {key}
    {
      block := mapping[key];
      ListPush(used, freeList, block);
      mapping := mapping - {key};
      revMapping := revMapping - {block};
      used := used[block := false];
      freeList := freeList + [block];
    }

    /** Frees a block by its own number; a block nobody holds is left alone. */
    method RemoveByMapped(block: nat) returns (removed: Option<nat>)
      requires Valid()
      modifies this
      ensures Valid()
      ensures block in old(revMapping) ==> removed == Some(block) && mapping == old(mapping) - {old(revMapping)[block]}
      ensures block !in old(revMapping) ==> removed.None? && mapping == old(mapping)
    {
      if block !in revMapping {
        return None;
      }
      var b := Remove(revMapping[block]);
      removed := Some(b);
    }
  }

  lemma AssignOk(m: map<nat, nat>, rev: map<nat, nat>, used: seq<bool>, key: nat, block: nat)
    requires Inverse(m, rev) && UsedIs(used, rev.Keys) && key !in m && block < |used| && !used[block]
    ensures Inverse(m[key := block], rev[block := key]) && UsedIs(used[block := true], rev[block := key].Keys)
  {}

  // ---- runs of the table ----

  datatype TableOp = Assign(key: nat) | Drop(key: nat)

  /** The keys live after the first n operations. */
  ghost function Live(ops: seq<TableOp>, n: nat, total: nat): set<nat>
    requires n <= |ops|
  {
    if n == 0 then {} else
      var live := Live(ops, n - 1, total);
      match ops[n - 1]
      case Assign(k) => if k in live || |live| < total then live + {k} else live
      case Drop(k) => live - {k}
  }

  /** What an operation of a run must report: a drop the block freed, an assignment a block
      just when its key is live or there is room. */
  ghost predicate Reported(ops: seq<TableOp>, i: nat, total: nat, r: Option<nat>)
    requires i < |ops|
  {
    match ops[i]
    case Assign(k) => r.Some? <==> k in Live(ops, i, total) || |Live(ops, i, total)| < total
    case Drop(k) => r.Some?
  }

  /** The block operation i reported is still its key's. */
  ghost predicate StillHeld(ops: seq<TableOp>, i: nat, n: nat, r: Option<nat>, m: map<nat, nat>)
    requires i < |ops| && n <= |ops|
  {
    ops[i].Assign? && r.Some? && Undisturbed(ops, i, n) ==> ops[i].key in m && m[ops[i].key] == r.value
  }

  /** One operation of a run. */
  method Apply(table: RemapTable, ops: seq<TableOp>, n: nat) returns (r: Option<nat>)
    requires table.Valid() && n < |ops| && table.mapping.Keys == Live(ops, n, table.totalBlocks)
    requires ops[n].Drop? ==> ops[n].key in Live(ops, n, table.totalBlocks)
    modifies table
    ensures table.Valid() && table.mapping.Keys == Live(ops, n + 1, table.totalBlocks)
    ensures Reported(ops, n, table.totalBlocks, r)
    ensures StillHeld(ops, n, n + 1, r, table.mapping)
    ensures forall k :: k in old(table.mapping) && ops[n] != Drop(k) ==> k in table.mapping && table.mapping[k] == old(table.mapping)[k]
    ensures ops[n].Assign? && ops[n].key in old(table.mapping) ==> r == Some(old(table.mapping)[ops[n].key])
  {
    hide RemapTable.Valid;
    assert |table.mapping.Keys| == |table.mapping|;
    match ops[n]
    case Assign(k) =>
      r := table.GetOrAssign(k);
    case Drop(k) =>
      var b := table.Remove(k);
      r := Some(b);
  }

  /** Over a whole run every operation reports what it must, a live key keeps its block until
      it is dropped, and the table ends up injective on exactly the live keys. */
  method Replay(table: RemapTable, ops: seq<TableOp>) returns (results: seq<Option<nat>>)
    requires table.Valid() && table.mapping == map[]
    requires forall i :: 0 <= i < |ops| && ops[i].Drop? ==> ops[i].key in Live(ops, i, table.totalBlocks)
    modifies table
    ensures table.Valid() && table.mapping.Keys == Live(ops, |ops|, table.totalBlocks) && Injective(table.mapping)
    ensures |results| == |ops| && forall i :: 0 <= i < |ops| ==> Reported(ops, i, table.totalBlocks, results[i])
    ensures forall i :: 0 <= i < |ops| ==> StillHeld(ops, i, |ops|, results[i], table.mapping)
  {
    hide RemapTable.Valid, Live, Reported, StillHeld;
    results := [];
    var n := 0;
    NoneLive(ops, table.totalBlocks);
    while n < |ops|
      invariant n <= |ops| && |results| == n && table.Valid()
      invariant table.mapping.Keys == Live(ops, n, table.totalBlocks)
      invariant forall i :: 0 <= i < n ==> Reported(ops, i, table.totalBlocks, results[i])
      invariant forall i :: 0 <= i < n ==> StillHeld(ops, i, n, results[i], table.mapping)
    {
      ghost var was := table.mapping;
      var r := Apply(table, ops, n);
      forall i | 0 <= i < n ensures StillHeld(ops, i, n + 1, results[i], table.mapping) {
        HeldOn(ops, i, n, results[i], was, table.mapping);
      }
      results := results + [r];
      n := n + 1;
    }
    TableInjective(table);
  }

  lemma NoneLive(ops: seq<TableOp>, total: nat)
    ensures Live(ops, 0, total) == {}
  {}

  lemma HeldOn(ops: seq<TableOp>, i: nat, n: nat, r: Option<nat>, was: map<nat, nat>, m: map<nat, nat>)
    requires i < n < |ops| && StillHeld(ops, i, n, r, was)
    requires forall k :: k in was && ops[n] != Drop(k) ==> k in m && m[k] == was[k]
    ensures StillHeld(ops, i, n + 1, r, m)
  {}

  /** The key operation i assigned is not dropped before operation j. */
  ghost predicate Undisturbed(ops: seq<TableOp>, i: nat, j: nat)
    requires i < |ops| && j <= |ops|
  {
    forall m :: i < m < j ==> ops[m] != Drop(ops[i].key)
  }

  lemma TableInjective(table: RemapTable)
    requires table.Valid()
    ensures Injective(table.mapping)
  {
    InverseIsInjective(table.mapping, table.revMapping);
  }

  // ---- the trace rewriter ----

  /** The remapper of a trace: no removal, and when every block is taken it reuses the block
      the key's number suggests. */
  class BlockRemapper {
    const workingSet: nat
    var mapping: map<nat, nat>
    var used: seq<bool>
    var freeList: seq<nat>

    /** Injective as long as there is room for all keys; after that all blocks are taken. */
    ghost predicate Valid()
      reads this
    {
      && |used| == workingSet > 0 && UsedIs(used, mapping.Values) && ListsFree(used, freeList)
      && (|mapping| <= workingSet ==> Injective(mapping))
      && (|mapping| >= workingSet ==> forall b :: 0 <= b < workingSet ==> used[b])
    }

    constructor (workingSet: nat)
      requires workingSet > 0
      ensures Valid() && this.workingSet == workingSet && mapping == map[]
    {
      this.workingSet := workingSet;
      mapping := map[];
      used, freeList := seq(workingSet, _ => false), seq(workingSet, i => i);
      ListFresh(workingSet);
    }

    lemma RoomLeft()
      requires Valid()
      ensures (forall b :: 0 <= b < workingSet ==> used[b]) <==> |mapping| >= workingSet
      ensures forall k :: k in mapping ==> mapping[k] < workingSet
    {
      forall k | k in mapping ensures mapping[k] < workingSet {
        assert mapping[k] in mapping.Values;
      }
      if |mapping| < workingSet && forall b :: 0 <= b < workingSet ==> used[b] {
        Pigeonhole(mapping, workingSet);
      }
    }

    method Map(key: nat) returns (block: nat)
      requires Valid()
      modifies this
      ensures Valid() && block < workingSet
      ensures mapping == old(mapping)[key := block]
      ensures key in old(mapping) ==> block == old(mapping)[key]
      ensures key !in old(mapping) && |old(mapping)| < workingSet ==> block !in old(mapping).Values
      ensures key !in old(mapping) && key % workingSet !in old(mapping).Values ==> block == key % workingSet && freeList == old(freeList)
      ensures key !in old(mapping) && key % workingSet in old(mapping).Values && |old(mapping)| < workingSet ==>
                PopsTo(old(used), old(freeList), block, freeList)
      ensures key !in old(mapping) && |old(mapping)| >= workingSet ==> block == key % workingSet
    {
      hide ListsFree;
      RoomLeft();
      if key in mapping {
        return mapping[key];
      }
      var candidate := key % workingSet;
      if !used[candidate] {
        block := candidate;
        ListTake(used, freeList, candidate);
      } else {
        var free;
        free, freeList := NextFree(used, freeList);
        if free.None? {
          block := candidate;
          ListTake(used, freeList, candidate);
        } else {
          block := free.value;
        }
      }
      MapExtends(mapping, key, block, workingSet, used);
      used := used[block := true];
      mapping := mapping[key := block];
    }

    /** The remapping is injective exactly up to the working-set size. */
    lemma InjectiveUpTo()
      requires Valid()
      ensures Injective(mapping) <==> |mapping| <= workingSet
    {
      RoomLeft();
      if Injective(mapping) {
        Pigeonhole(mapping, workingSet);
      }
    }
  }

  /** Adding a key to the map, on a new block if there is one. */
  lemma MapExtends(m: map<nat, nat>, key: nat, block: nat, total: nat, used: seq<bool>)
    requires key !in m && block < total == |used| && UsedIs(used, m.Values)
    requires |m| <= total ==> Injective(m)
    requires |m| >= total <==> forall b :: 0 <= b < total ==> used[b]
    requires |m| < total ==> !used[block]
    ensures var m', used' := m[key := block], used[block := true];
            && UsedIs(used', m'.Values) && |m'| == |m| + 1
            && (|m'| <= total ==> Injective(m'))
            && (|m'| >= total ==> forall b :: 0 <= b < total ==> used'[b])
  {
    hide Injective, UsedIs;
    ValuesAdd(m, key, block);
    UseOne(used, m.Values, block);
    var m' := m[key := block];
    if |m'| <= total {
      InjectiveAdd(m, key, block, used);
      if |m'| == total {
        FullMeansAllUsed(m', total, used[block := true]);
      }
    }
  }

  lemma KeysAdd(m: map<nat, nat>, key: nat, block: nat)
    requires key !in m
    ensures |m[key := block]| == |m| + 1
  {
    assert m[key := block].Keys == m.Keys + {key};
  }

  lemma ValuesAdd(m: map<nat, nat>, key: nat, block: nat)
    requires key !in m
    ensures |m[key := block]| == |m| + 1 && m[key := block].Values == m.Values + {block}
  {
    var m' := m[key := block];
    KeysAdd(m, key, block);
    forall v | v in m'.Values ensures v in m.Values + {block} {
      var a :| a in m' && m'[a] == v;
      if a != key { assert a in m && m[a] == v; }
    }
    forall v | v in m.Values ensures v in m'.Values {
      var a :| a in m && m[a] == v;
      assert a in m' && m'[a] == v;
    }
    assert m'[key] == block;
  }

  lemma InjectiveAdd(m: map<nat, nat>, key: nat, block: nat, used: seq<bool>)
    requires key !in m && Injective(m) && UsedIs(used, m.Values) && block < |used| && !used[block]
    ensures Injective(m[key := block])
  {
    forall a | a in m ensures m[a] != block {
      assert m[a] in m.Values;
    }
  }

  lemma UseOne(used: seq<bool>, taken: set<nat>, block: nat)
    requires UsedIs(used, taken) && block < |used|
    ensures UsedIs(used[block := true], taken + {block})
  {}

  lemma FullMeansAllUsed(m: map<nat, nat>, total: nat, used: seq<bool>)
    requires Injective(m) && |m| == total == |used| && UsedIs(used, m.Values)
    ensures forall b :: 0 <= b < total ==> used[b]
  {
    forall k | k in m ensures m[k] < total {
      assert m[k] in m.Values;
    }
    Pigeonhole(m, total);
  }

  // ---- merging runs ----

  /** A run of consecutive blocks. */
  datatype Run = Run(start: nat, len: nat)

  function Blocks(r: Run): seq<nat> { seq(r.len, i => r.start + i) }

  /** The blocks of the runs, one after the other. */
  function Expand(runs: seq<Run>): seq<nat> {
    if runs == [] then [] else Expand(runs[..|runs| - 1]) + Blocks(runs[|runs| - 1])
  }

  lemma ExpandAppend(runs: seq<Run>, r: Run)
    ensures Expand(runs + [r]) == Expand(runs) + Blocks(r)
  {
    assert (runs + [r])[..|runs|] == runs;
  }

  /** No run is empty and none continues the one before it. */
  predicate Maximal(runs: seq<Run>) {
    && (forall i :: 0 <= i < |runs| ==> runs[i].len > 0)
    && (forall i :: 0 < i < |runs| ==> runs[i].start != runs[i - 1].start + runs[i - 1].len)
  }

  /** The runs closed so far and the open one are what the first i blocks merge to. */
  ghost predicate Merged(mapped: seq<nat>, i: nat, runs: seq<Run>, last: Run) {
    && 0 < i <= |mapped| && last.start + last.len == mapped[i - 1] + 1
    && Expand(runs + [last]) == mapped[..i] && Maximal(runs + [last])
  }

  lemma MergeFirst(mapped: seq<nat>)
    requires mapped != []
    ensures Merged(mapped, 1, [], Run(mapped[0], 1))
  {
    ExpandAppend([], Run(mapped[0], 1));
  }

  lemma LastReplaced(runs: seq<Run>, r: Run, r': Run)
    requires Maximal(runs + [r]) && r'.start == r.start && r'.len > 0
    ensures Maximal(runs + [r'])
  {
    forall i | 0 <= i < |runs| + 1 ensures (runs + [r'])[i].len > 0 {
      assert (runs + [r])[i].len > 0;
    }
    forall i | 0 < i < |runs| + 1 ensures (runs + [r'])[i].start != (runs + [r'])[i - 1].start + (runs + [r'])[i - 1].len {
      assert (runs + [r])[i].start != (runs + [r])[i - 1].start + (runs + [r])[i - 1].len;
    }
  }

  lemma MergeGrow(mapped: seq<nat>, i: nat, runs: seq<Run>, last: Run)
    requires Merged(mapped, i, runs, last) && i < |mapped| && mapped[i] == mapped[i - 1] + 1
    ensures Merged(mapped, i + 1, runs, Run(last.start, last.len + 1))
  {
    hide Expand, Maximal;
    var longer := Run(last.start, last.len + 1);
    ExpandAppend(runs, last);
    ExpandAppend(runs, longer);
    assert Blocks(longer) == Blocks(last) + [mapped[i]];
    assert mapped[..i + 1] == mapped[..i] + [mapped[i]];
    assert Expand(runs) + (Blocks(last) + [mapped[i]]) == (Expand(runs) + Blocks(last)) + [mapped[i]];
    LastReplaced(runs, last, longer);
  }

  lemma MergeNew(mapped: seq<nat>, i: nat, runs: seq<Run>, last: Run)
    requires Merged(mapped, i, runs, last) && i < |mapped| && mapped[i] != mapped[i - 1] + 1
    ensures Merged(mapped, i + 1, runs + [last], Run(mapped[i], 1))
  {
    hide Expand, Maximal;
    ExpandAppend(runs + [last], Run(mapped[i], 1));
    assert Blocks(Run(mapped[i], 1)) == [mapped[i]];
    assert mapped[..i + 1] == mapped[..i] + [mapped[i]];
    MaximalMore(runs + [last], Run(mapped[i], 1));
  }

  lemma MaximalMore(runs: seq<Run>, r: Run)
    requires Maximal(runs) && r.len > 0
    requires runs != [] ==> r.start != runs[|runs| - 1].start + runs[|runs| - 1].len
    ensures Maximal(runs + [r])
  {}

  /** Merges neighbours that follow one another. The runs expand back to the list, and no
      two of them could be merged. */
  method MergeRuns(mapped: seq<nat>) returns (runs: seq<Run>)
    requires mapped != []
    ensures Expand(runs) == mapped && Maximal(runs)
  {
    hide Maximal, Expand;
    runs := [];
    var runStart: nat, runLen: nat := mapped[0], 1;
    MergeFirst(mapped);
    var i := 1;
    while i < |mapped|
      invariant 1 <= i <= |mapped| && Merged(mapped, i, runs, Run(runStart, runLen))
    {
      if mapped[i] == mapped[i - 1] + 1 {
        MergeGrow(mapped, i, runs, Run(runStart, runLen));
        runLen := runLen + 1;
      } else {
        MergeNew(mapped, i, runs, Run(runStart, runLen));
        runs := runs + [Run(runStart, runLen)];
        runStart, runLen := mapped[i], 1;
      }
      i := i + 1;
    }
    runs := runs + [Run(runStart, runLen)];
    assert mapped[..i] == mapped;
  }

  predicate MapsTo(m: map<nat, nat>, key: nat, block: nat) { key in m && m[key] == block }

  /** One row of a trace, remapped: the runs are the blocks its own blocks map to. */
  method RemapRow(remapper: BlockRemapper, startBlock: nat, spanBlocks: nat) returns (runs: seq<Run>)
    requires remapper.Valid() && spanBlocks > 0
    modifies remapper
    ensures remapper.Valid() && Maximal(runs) && |Expand(runs)| == spanBlocks
    ensures forall i :: 0 <= i < spanBlocks ==> MapsTo(remapper.mapping, startBlock + i, Expand(runs)[i])
    ensures forall k :: k in old(remapper.mapping) ==> MapsTo(remapper.mapping, k, old(remapper.mapping)[k])
  {
    hide BlockRemapper.Valid;
    var mapped: seq<nat> := [];
    var i := 0;
    while i < spanBlocks
      invariant i <= spanBlocks && remapper.Valid() && |mapped| == i
      invariant forall j :: 0 <= j < i ==> MapsTo(remapper.mapping, startBlock + j, mapped[j])
      invariant forall k :: k in old(remapper.mapping) ==> MapsTo(remapper.mapping, k, old(remapper.mapping)[k])
    {
      var b := remapper.Map(startBlock + i);
      mapped := mapped + [b];
      i := i + 1;
    }
    runs := MergeRuns(mapped);
  }
}
