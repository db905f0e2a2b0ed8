/** Options, counts of bits and of members: the small vocabulary the other modules share.
    Counts run over prefixes, so that no proof slices a sequence. */
module Counting {

  datatype Option<+T> = None | Some(value: T)

  function OptSet<T>(o: Option<T>): set<T> {
    if o.Some? then {o.value} else {}
  }

  function Min(a: nat, b: nat): (r: nat)
    ensures r <= a && r <= b && (r == a || r == b)
  {
    if a <= b then a else b
  }

  function Bit(b: bool): nat { if b then 1 else 0 }

  /** The number of set bits among the first n. */
  function Count(s: seq<bool>, n: nat): (c: nat)
    requires n <= |s|
    ensures c <= n
  {
    if n == 0 then 0 else Count(s, n - 1) + Bit(s[n - 1])
  }

  lemma {:induction false} CountUpdate(s: seq<bool>, n: nat, i: nat, v: bool)
    requires n <= |s| && i < |s|
    ensures Count(s[i := v], n) == if i < n then Count(s, n) - Bit(s[i]) + Bit(v) else Count(s, n)
  {
    if n > 0 { CountUpdate(s, n - 1, i, v); }
  }

  lemma {:induction false} CountMono(s: seq<bool>, m: nat, n: nat)
    requires m <= n <= |s|
    ensures Count(s, m) <= Count(s, n) <= Count(s, m) + (n - m)
  {
    if m < n { CountMono(s, m, n - 1); }
  }

  lemma {:induction false} CountZero(s: seq<bool>, n: nat)
    requires n <= |s|
    ensures Count(s, n) == 0 <==> forall i :: 0 <= i < n ==> !s[i]
  {
    if n > 0 { CountZero(s, n - 1); }
  }

  lemma {:induction false} CountFull(s: seq<bool>, n: nat)
    requires n <= |s|
    ensures Count(s, n) == n <==> forall i :: 0 <= i < n ==> s[i]
  {
    if n > 0 { CountFull(s, n - 1); }
  }

  /** The first n naturals. */
  function Range(n: nat): (r: set<nat>)
    ensures forall i :: i in r <==> 0 <= i < n
    ensures |r| == n
  {
    if n == 0 then {} else Range(n - 1) + {n - 1}
  }

  function Between(lo: nat, hi: nat): (r: set<nat>)
    ensures forall i :: i in r <==> lo <= i < hi
  {
    Range(hi) - Range(lo)
  }

  lemma {:induction false} BetweenSize(lo: nat, hi: nat)
    requires lo <= hi
    ensures |Between(lo, hi)| == hi - lo
  {
    assert Range(lo) + Between(lo, hi) == Range(hi);
    assert |Range(lo)| + |Between(lo, hi)| == |Range(lo) + Between(lo, hi)|;
  }

  /** How many of the first n naturals are in a set. */
  function CountIn(s: set<nat>, n: nat): nat {
    if n == 0 then 0 else CountIn(s, n - 1) + Bit(n - 1 in s)
  }

  lemma {:induction false} CountInWithout(s: set<nat>, n: nat, x: nat)
    ensures CountIn(s, n) <= CountIn(s - {x}, n) + 1
    ensures x >= n ==> CountIn(s, n) == CountIn(s - {x}, n)
  {
    if n > 0 { CountInWithout(s, n - 1, x); }
  }

  lemma {:induction false} CountInBound(s: set<nat>, n: nat)
    ensures CountIn(s, n) <= |s|
    decreases |s|
  {
    if x :| x in s {
      CountInWithout(s, n, x);
      CountInBound(s - {x}, n);
    } else {
      CountInEmpty(n);
    }
  }

  lemma {:induction false} CountInEmpty(n: nat)
    ensures CountIn({}, n) == 0
  {
    if n > 0 { CountInEmpty(n - 1); }
  }

  /** All of a set of numbers below n is counted. */
  lemma {:induction false} CountInAll(s: set<nat>, n: nat)
    requires forall x :: x in s ==> x < n
    ensures CountIn(s, n) == |s|
  {
    if n == 0 {
      assert s == {};
    } else {
      CountInAll(s - {n - 1}, n - 1);
      CountInWithout(s, n - 1, n - 1);
      assert CountIn(s, n - 1) == CountIn(s - {n - 1}, n - 1);
    }
  }

  lemma {:induction false} SubsetSize<T>(a: set<T>, b: set<T>)
    requires a <= b
    ensures |a| <= |b|
    ensures |a| == |b| ==> a == b
  {
    if x :| x in a {
      SubsetSize(a - {x}, b - {x});
    }
  }

  function ToSet(s: seq<nat>, n: nat): (r: set<nat>)
    requires n <= |s|
    ensures forall i :: 0 <= i < n ==> s[i] in r
    ensures |r| <= n
  {
    if n == 0 then {} else ToSet(s, n - 1) + {s[n - 1]}
  }

  lemma {:induction false} ToSetDistinct(s: seq<nat>, n: nat)
    requires n <= |s| && forall i, j :: 0 <= i < j < n ==> s[i] != s[j]
    ensures |ToSet(s, n)| == n && forall x :: x in ToSet(s, n) ==> exists i :: 0 <= i < n && s[i] == x
  {
    if n > 0 { ToSetDistinct(s, n - 1); }
  }
}
