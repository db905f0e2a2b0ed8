/** The cost-benefit victim policy: a max-heap of segments under scores cached when they were
    last looked at. A choice re-scores the top a few times before it settles. What a score
    means is the caller's business. */
module CostBenefit {
  import opened Counting
  import opened HandleHeap

  /** A higher cached score comes first, and of equal ones the later segment. */
  predicate Beats(a: Node<real>, b: Node<real>) {
    a.key > b.key || (a.key == b.key && a.seg >= b.seg)
  }

  const K_VALIDATE: nat := 10

  /** The segments whose cached score is out of date. */
  ghost function Stale(cached: map<nat, real>, score: nat -> real): set<nat> {
    set s | s in cached && cached[s] != score(s)
  }

  /** Segment v under score c is at least as good as every segment tracked. */
  ghost predicate Best(c: real, v: nat, cached: map<nat, real>) {
    forall s :: s in cached ==> c > cached[s] || (c == cached[s] && v >= s)
  }

  /** A choice may bring cached scores up to date, and changes them in no other way. */
  ghost predicate Refreshed(cached: map<nat, real>, cached': map<nat, real>, score: nat -> real) {
    cached'.Keys == cached.Keys && forall s :: s in cached ==> cached'[s] == cached[s] || cached'[s] == score(s)
  }

  /** The segments whose cached score a choice has replaced. */
  ghost function Changed(cached: map<nat, real>, cached': map<nat, real>): set<nat> {
    set s | s in cached && s in cached' && cached'[s] != cached[s]
  }

  lemma ChangedOne(cached: map<nat, real>, cached': map<nat, real>, x: nat, s: real)
    requires cached'.Keys == cached.Keys && x in cached
    ensures |Changed(cached, cached'[x := s])| <= |Changed(cached, cached')| + 1
  {
    SubsetSize(Changed(cached, cached'[x := s]), Changed(cached, cached') + {x});
  }

  /** Taking a segment out changes no more scores. */
  lemma ChangedLess(cached: map<nat, real>, cached': map<nat, real>, v: nat)
    ensures |Changed(cached - {v}, cached' - {v})| <= |Changed(cached, cached')|
  {
    SubsetSize(Changed(cached - {v}, cached' - {v}), Changed(cached, cached'));
  }

  lemma RefreshOne(cached: map<nat, real>, cached': map<nat, real>, score: nat -> real, x: nat)
    requires Refreshed(cached, cached', score) && x in cached' && cached'[x] != score(x)
    ensures x in cached && Refreshed(cached, cached'[x := score(x)], score)
    ensures |Stale(cached'[x := score(x)], score)| == |Stale(cached', score)| - 1
  {
    assert Stale(cached'[x := score(x)], score) == Stale(cached', score) - {x};
  }

  /** A top whose score is current is the true best if no cached score is too low. */
  lemma TopIsBest(cached: map<nat, real>, cached': map<nat, real>, score: nat -> real, v: nat)
    requires Refreshed(cached, cached', score) && v in cached' && cached'[v] == score(v) && Best(score(v), v, cached')
    requires forall s :: s in cached ==> cached[s] >= score(s)
    ensures forall s :: s in cached ==> score(v) > score(s) || (score(v) == score(s) && v >= s)
  {
    forall s | s in cached ensures score(v) > score(s) || (score(v) == score(s) && v >= s) {
      assert score(v) > cached'[s] || (score(v) == cached'[s] && v >= s);
    }
  }

  /** Segment v is what a choice under these scores takes out, leaving the others tracked:
      the cached scores, refreshed where the choice looked, put it first. If few are stale
      and none is too low, so do the current scores. */
  ghost predicate TakenFirst(cached: map<nat, real>, cached': map<nat, real>, score: nat -> real, v: nat) {
    && v in cached && Refreshed(cached - {v}, cached', score)
    && (Best(cached[v], v, cached') || Best(score(v), v, cached'))
    && |Changed(cached - {v}, cached')| <= 10
    && (|Stale(cached, score)| < 10 && (forall s :: s in cached ==> cached[s] >= score(s)) ==>
          forall s :: s in cached ==> score(v) > score(s) || (score(v) == score(s) && v >= s))
  }

  /** A top taken out with its score up to date, or after ten that were not. */
  lemma TopTaken(before: map<nat, real>, cached: map<nat, real>, score: nat -> real, v: nat, i: nat)
    requires Refreshed(before, cached, score) && v in cached && Best(cached[v], v, cached)
    requires |Changed(before, cached)| <= i <= K_VALIDATE && |Stale(cached, score)| + i <= |Stale(before, score)|
    requires cached[v] == score(v) || i == K_VALIDATE
    ensures TakenFirst(before, cached - {v}, score, v)
  {
    ChangedLess(before, cached, v);
    if cached[v] == score(v) && forall s :: s in before ==> before[s] >= score(s) {
      TopIsBest(before, cached, score, v);
    }
  }

  lemma NoneChanged(cached: map<nat, real>, score: nat -> real)
    ensures Changed(cached, cached) == {} && Refreshed(cached, cached, score)
  {}

  ghost predicate Preferred(cached: map<nat, real>, score: nat -> real, v: nat) {
    exists cached' :: TakenFirst(cached, cached', score, v)
  }

  class CbEvictPolicy {
    var heap: map<nat, Node<real>>
    var handle: map<nat, nat>
    var nextHandle: nat

    ghost predicate Valid()
      reads this
    {
      Linked(heap, handle, nextHandle)
    }

    /** The segments tracked, with the score cached for each. */
    ghost function Scores(): map<nat, real>
      reads this
      requires Valid()
    {
      Tracked(heap, handle)
    }

    constructor ()
      ensures Valid() && Scores() == map[]
    {
      heap, handle, nextHandle := map[], map[], 0;
    }

    method Push(seg: nat, score: real)
      requires Valid() && seg !in handle
      modifies this
      ensures Valid() && Scores() == old(Scores())[seg := score]
    {
      hide Linked, Tracked;
      Pushed(heap, handle, nextHandle, seg, score);
      var h := nextHandle;
      nextHandle := nextHandle + 1;
      heap := heap[h := Node(score, seg)];
      handle := handle[seg := h];
    }

    /** A segment already tracked keeps its old score. */
    method Add(seg: nat, score: nat -> real)
      requires Valid()
      modifies this
      ensures Valid()
      ensures Scores() == if seg in old(Scores()) then old(Scores()) else old(Scores())[seg := score(seg)]
    {
      if seg in handle {
        return;
      }
      Push(seg, score(seg));
    }

    method Remove(seg: nat)
      requires Valid()
      modifies this
      ensures Valid() && Scores() == old(Scores()) - {seg}
    {
      if seg !in handle {
        return;
      }
      heap := heap - {handle[seg]};
      handle := handle - {seg};
    }

    method Update(seg: nat, score: nat -> real)
      requires Valid()
      modifies this
      ensures Valid()
      ensures Scores() == if seg in old(Scores()) then old(Scores())[seg := score(seg)] else old(Scores())
    {
      if seg !in handle {
        return;
      }
      heap := heap[handle[seg] := Node(score(seg), seg)];
    }

    method Empty() returns (empty: bool)
      requires Valid()
      ensures empty <==> Scores() == map[]
    {
      empty := heap == map[];
      if empty {
        NothingTracked();
      } else {
        var h :| h in heap;
        assert heap[h].seg in Scores();
      }
    }

    /** The node at the top of the heap. */
    method Top() returns (top: Node<real>)
      requires Valid() && heap != map[]
      ensures top.seg in Scores() && Scores()[top.seg] == top.key && Best(top.key, top.seg, Scores())
    {
      TopExists(heap, heap.Keys, Beats);
      var h :| h in heap && forall k :: k in heap ==> Beats(heap[h], heap[k]);
      top := heap[h];
      forall s | s in Scores() ensures top.key > Scores()[s] || (top.key == Scores()[s] && top.seg >= s) {
        assert Beats(heap[h], heap[handle[s]]);
      }
    }

    /** Replaces the top by a node with a new score. */
    method Reinsert(seg: nat, score: real)
      requires Valid() && seg in Scores()
      modifies this
      ensures Valid() && Scores() == old(Scores())[seg := score]
    {
      hide Linked, Tracked;
      Repushed(heap, handle, nextHandle, seg, score);
      heap := heap - {handle[seg]};
      var h := nextHandle;
      nextHandle := nextHandle + 1;
      heap := heap[h := Node(score, seg)];
      handle := handle[seg := h];
    }

    /** Takes out a segment that the cached scores, refreshed at most K_VALIDATE times, put
        first. If fewer scores than that are stale and none is too low, it is the segment the
        current scores put first. Nothing is found only in an empty heap. */
    method ChooseSegment(score: nat -> real) returns (seg: Option<nat>)
      requires Valid()
      modifies this
      ensures Valid()
      ensures seg.None? <==> old(Scores()) == map[]
      ensures seg.None? ==> Scores() == map[]
      ensures seg.Some? ==> TakenFirst(old(Scores()), Scores(), score, seg.value)
      ensures seg.Some? ==> Scores().Keys == old(Scores()).Keys - {seg.value}
    {
      hide Changed, Stale, Best, Refreshed, TakenFirst, Linked, Tracked;
      ghost var before := Scores();
      NoneChanged(before, score);
      var i := 0;
      while i < K_VALIDATE && heap != map[]
        invariant 0 <= i <= K_VALIDATE
        invariant Valid() && Refreshed(before, Scores(), score) && Scores().Keys == before.Keys
        invariant |Stale(Scores(), score)| + i <= |Stale(before, score)|
        invariant |Changed(before, Scores())| <= i
      {
        ghost var cached := Scores();
        var top := Top();
        var cur := score(top.seg);
        if cur == top.key {
          TopTaken(before, cached, score, top.seg, i);
          Remove(top.seg);
          return Some(top.seg);
        }
        RefreshOne(before, cached, score, top.seg);
        ChangedOne(before, cached, top.seg, cur);
        Reinsert(top.seg, cur);
        i := i + 1;
      }
      if heap == map[] {
        NothingTracked();
        return None;
      }
      var top := Top();
      TopTaken(before, Scores(), score, top.seg, i);
      Remove(top.seg);
      return Some(top.seg);
    }

    lemma NothingTracked()
      requires Valid() && heap == map[]
      ensures Scores() == map[]
    {}
  }
}
