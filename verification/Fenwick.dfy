/** The Fenwick tree behind the reuse-distance scan. */
module Fenwick {

  /** The lowest set bit of a positive index. */
  function LowBit(x: nat): (b: nat)
    requires x > 0
    ensures 1 <= b <= x
  {
    if x % 2 == 1 then 1 else 2 * LowBit(x / 2)
  }

  function And(x: nat, y: nat): nat {
    if x == 0 || y == 0 then 0
    else 2 * And(x / 2, y / 2) + if x % 2 == 1 && y % 2 == 1 then 1 else 0
  }

  function Pow2(w: nat): (p: nat)
    ensures p >= 1
  {
    if w == 0 then 1 else 2 * Pow2(w - 1)
  }

  lemma {:induction false} ComplementShares(x: nat, w: nat)
    requires x < Pow2(w)
    ensures And(x, Pow2(w) - 1 - x) == 0
  {
    if w > 0 {
      ComplementShares(x / 2, w - 1);
      assert (Pow2(w) - 1 - x) / 2 == Pow2(w - 1) - 1 - x / 2;
    }
  }

  /** The source's `x & (~x + 1)` in w-bit arithmetic is the lowest set bit. */
  lemma {:induction false} LowBitIsMask(x: nat, w: nat)
    requires 0 < x < Pow2(w)
    ensures And(x, Pow2(w) - x) == LowBit(x)
  {
    if x % 2 == 1 {
      ComplementShares(x / 2, w - 1);
      assert (Pow2(w) - x) / 2 == Pow2(w - 1) - 1 - x / 2;
    } else {
      LowBitIsMask(x / 2, w - 1);
      assert (Pow2(w) - x) / 2 == Pow2(w - 1) - x / 2;
    }
  }

  /** Between a node and the next one above it, no node reaches back past it. */
  lemma {:induction false} GapNodesStartAfter(j: nat, k: nat)
    requires 0 < j < k < j + LowBit(j)
    ensures k - LowBit(k) >= j
  {
    if k % 2 == 0 {
      GapNodesStartAfter(j / 2, k / 2);
    }
  }

  /** The next node above covers everything its predecessor covers. */
  lemma {:induction false} ParentCovers(j: nat)
    requires j > 0
    ensures LowBit(j + LowBit(j)) >= 2 * LowBit(j)
  {
    if j % 2 == 0 {
      ParentCovers(j / 2);
      assert (j + LowBit(j)) / 2 == j / 2 + LowBit(j / 2);
    }
  }

  /** The sum of the first n values. */
  function Prefix(vals: seq<int>, n: nat): int
    requires n <= |vals|
  {
    if n == 0 then 0 else Prefix(vals, n - 1) + vals[n - 1]
  }

  lemma {:induction false} PrefixUpdate(vals: seq<int>, i: nat, v: int, n: nat)
    requires i < |vals| && n <= |vals|
    ensures Prefix(vals[i := v], n) == Prefix(vals, n) + if i < n then v - vals[i] else 0
  {
    if n > 0 { PrefixUpdate(vals, i, v, n - 1); }
  }

  lemma {:induction false} PrefixZero(vals: seq<int>, n: nat)
    requires n <= |vals| && forall i :: 0 <= i < n ==> vals[i] == 0
    ensures Prefix(vals, n) == 0
  {
    if n > 0 { PrefixZero(vals, n - 1); }
  }

  /** What node k stores: the sum of the LowBit(k) values ending at position k. */
  function Node(vals: seq<int>, k: nat): int
    requires 0 < k <= |vals|
  {
    Prefix(vals, k) - Prefix(vals, k - LowBit(k))
  }

  lemma NodeUpdate(vals: seq<int>, i: nat, v: int, k: nat)
    requires i < |vals| && 0 < k <= |vals|
    ensures Node(vals[i := v], k) == Node(vals, k) + if k - LowBit(k) <= i < k then v - vals[i] else 0
  {
    PrefixUpdate(vals, i, v, k);
    PrefixUpdate(vals, i, v, k - LowBit(k));
  }

  class FenwickTree {
    const tree: array<int>
    ghost var vals: seq<int>

    ghost predicate Valid()
      reads this, tree
    {
      && tree.Length == |vals| + 1
      && forall k :: 0 < k < tree.Length ==> tree[k] == Node(vals, k)
    }

    constructor (n: nat)
      ensures Valid() && fresh(tree)
      ensures vals == seq(n, i => 0)
    {
      tree := new int[n + 1](i => 0);
      vals := seq(n, i => 0);
      new;
      forall k | 0 < k < tree.Length ensures Node(vals, k) == 0 {
        PrefixZero(vals, k);
        PrefixZero(vals, k - LowBit(k));
      }
    }

    method Update(i: nat, delta: int)
      requires Valid() && i < |vals|
      modifies this`vals, tree
      ensures Valid()
      ensures vals == old(vals)[i := old(vals)[i] + delta]
    {
      ghost var was, now := vals, vals[i := vals[i] + delta];
      forall k | 0 < k <= i ensures Node(was, k) == Node(now, k) {
        NodeUpdate(was, i, was[i] + delta, k);
      }
      var j := i + 1;
      while j < tree.Length
        invariant j > i && j - LowBit(j) <= i
        invariant forall k :: 0 < k < tree.Length ==> tree[k] == Node(if k < j then now else was, k)
        decreases tree.Length - j
      {
        NodeUpdate(was, i, was[i] + delta, j);
        tree[j] := tree[j] + delta;
        ghost var next := j + LowBit(j);
        forall k | j < k < next && k < tree.Length ensures Node(was, k) == Node(now, k) {
          GapNodesStartAfter(j, k);
          NodeUpdate(was, i, was[i] + delta, k);
        }
        ParentCovers(j);
        j := j + LowBit(j);
      }
      vals := now;
    }

    method Query(i: nat) returns (s: int)
      requires Valid() && i < |vals|
      ensures s == Prefix(vals, i + 1)
    {
      s := 0;
      var j := i + 1;
      while j > 0
        invariant 0 <= j <= i + 1
        invariant s == Prefix(vals, i + 1) - Prefix(vals, j)
      {
        s := s + tree[j];
        j := j - LowBit(j);
      }
    }
  }
}
