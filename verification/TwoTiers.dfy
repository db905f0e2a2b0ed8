/** A cache in front of a flash tier: every key is held by one of the two, and what a key
    maps to survives the moves between them. Both log-structured caches are used this way. */
module TwoTiers {
  import opened Counting
  import opened Ftl

  lemma UnionForget(a: map<nat, nat>, b: map<nat, nat>, k: nat)
    ensures k !in b ==> (a - {k}) + b == (a + b) - {k}
    ensures k !in a ==> a + (b - {k}) == (a + b) - {k}
    ensures k !in b ==> (a.Keys - {k}) + b.Keys == (a.Keys + b.Keys) - {k}
    ensures k !in a ==> a.Keys + (b.Keys - {k}) == (a.Keys + b.Keys) - {k}
  {}

  /** Moving a key from the first map to the second. */
  lemma UnionMove(a: map<nat, nat>, b: map<nat, nat>, k: nat)
    requires k in a && k !in b
    ensures (a - {k}) + Overwrite(b, {k}, a[k]) == a + b
    ensures (a.Keys - {k}) + (b.Keys + {k}) == a.Keys + b.Keys
  {}

  /** The tiers hold different keys, and no more than the cold tier could take. */
  ghost predicate TiersApart(cached: set<nat>, cold: set<nat>, capacity: nat) {
    cached !! cold && |cached + cold| <= capacity
  }

  /** The key sets behind UnionMove; the receiving tier never holds more than both did. */
  lemma KeyMoves(a: set<nat>, b: set<nat>, k: nat, capacity: nat)
    requires TiersApart(a, b, capacity) && k in a
    ensures TiersApart(a - {k}, b + {k}, capacity)
    ensures Demand(b, {k}) <= capacity
  {
    assert (a - {k}) + (b + {k}) == a + b;
    SubsetSize(b + {k}, a + b);
  }

  lemma UnionAdd(a: map<nat, nat>, b: map<nat, nat>, k: nat, v: nat)
    requires k !in b
    ensures a[k := v] + b == (a + b)[k := v]
  {}

  lemma MapAdd<T>(m: map<nat, T>, k: nat, l: T)
    ensures m[k := l].Keys == m.Keys + {k}
  {}

  lemma KeysLess(store: map<nat, nat>, k: nat, v: nat)
    ensures (store - {k})[k := v] == store[k := v]
    ensures (store - {k}).Keys + {k} == store.Keys + {k}
  {}

  /** The keys of the first n blocks of a batch. */
  function KeysOf(batch: seq<(nat, nat)>, n: nat): set<nat>
    requires n <= |batch|
  {
    set i | 0 <= i < n :: batch[i].0
  }

  /** The store after the first n blocks of a batch, the first one written at time ts. */
  function Written(store: map<nat, nat>, batch: seq<(nat, nat)>, n: nat, ts: nat): map<nat, nat>
    requires n <= |batch|
  {
    if n == 0 then store else Written(store, batch, n - 1, ts)[batch[n - 1].0 := ts + n - 1]
  }

  /** Part of a batch and the next of its keys never need more room than the whole batch. */
  lemma WrittenKeys(store: map<nat, nat>, batch: seq<(nat, nat)>, n: nat, ts: nat, capacity: nat)
    requires n < |batch| && |store.Keys + KeysOf(batch, |batch|)| <= capacity
    ensures |Written(store, batch, n, ts).Keys + {batch[n].0}| <= capacity
    ensures Written(store, batch, n + 1, ts) == Written(store, batch, n, ts)[batch[n].0 := ts + n]
  {
    WrittenAre(store, batch, n, ts);
    var all := store.Keys + KeysOf(batch, |batch|);
    assert batch[n].0 in KeysOf(batch, |batch|);
    SubsetSize(Written(store, batch, n, ts).Keys + {batch[n].0}, all);
  }

  lemma WrittenNone(store: map<nat, nat>, batch: seq<(nat, nat)>, ts: nat)
    ensures Written(store, batch, 0, ts) == store
  {}

  lemma {:induction false} WrittenAre(store: map<nat, nat>, batch: seq<(nat, nat)>, n: nat, ts: nat)
    requires n <= |batch|
    ensures Written(store, batch, n, ts).Keys == store.Keys + KeysOf(batch, n)
  {
    if n > 0 {
      WrittenAre(store, batch, n - 1, ts);
      assert KeysOf(batch, n) == KeysOf(batch, n - 1) + {batch[n - 1].0};
    }
  }

  lemma EmptyCacheStore(held: map<nat, nat>, keys: set<nat>, contents: map<nat, nat>, written: set<nat>, capacity: nat)
    requires held == map[] && keys == {} && |written| <= capacity
    ensures held + contents == contents
    ensures TiersApart(keys, written, capacity)
  {
    assert keys + written == written;
  }
}
