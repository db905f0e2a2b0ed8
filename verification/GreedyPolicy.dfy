/** The greedy victim policy: a min-heap of blocks keyed by their valid-page count.
    Ties are broken by the block's address, which is its id. */
module GreedyEviction {
  import opened Counting
  import opened HandleHeap

  /** The heap's order: a is at least as good a victim as b. */
  predicate AtTop(a: Node<nat>, b: Node<nat>) {
    a.key < b.key || (a.key == b.key && a.seg <= b.seg)
  }

  class GreedyEvictPolicy {
    var heap: map<nat, Node<nat>>
    var handle: map<nat, nat>
    var nextHandle: nat

    ghost predicate Valid()
      reads this
    {
      Linked(heap, handle, nextHandle)
    }

    /** Each listed segment with the valid count stored for it. */
    ghost function Entries(): map<nat, nat>
      reads this
      requires Valid()
    {
      Tracked(heap, handle)
    }

    constructor ()
      ensures Valid() && Entries() == map[]
    {
      heap, handle, nextHandle := map[], map[], 0;
    }

    /** Pushes a node for the segment. Pushing a listed segment again leaves a node that no
        handle reaches. */
    method Add(seg: nat, validCnt: nat)
      requires Valid()
      modifies this
      ensures Valid() <==> seg !in old(Entries())
      ensures seg !in old(Entries()) ==> Entries() == old(Entries())[seg := validCnt]
      ensures heap == old(heap)[old(nextHandle) := Node(validCnt, seg)] && handle == old(handle)[seg := old(nextHandle)]
    {
      hide Linked;
      if seg !in handle {
        Pushed(heap, handle, nextHandle, seg, validCnt);
      } else {
        PushedTwice(heap, handle, nextHandle, seg, validCnt);
      }
      var h := nextHandle;
      nextHandle := nextHandle + 1;
      heap := heap[h := Node(validCnt, seg)];
      handle := handle[seg := h];
    }

    method Remove(seg: nat)
      requires Valid()
      modifies this
      ensures Valid() && Entries() == old(Entries()) - {seg}
    {
      if seg !in handle {
        return;
      }
      heap := heap - {handle[seg]};
      handle := handle - {seg};
    }

    method Update(seg: nat, validCnt: nat)
      requires Valid()
      modifies this
      ensures Valid()
      ensures Entries() == if seg in old(Entries()) then old(Entries())[seg := validCnt] else old(Entries())
    {
      if seg !in handle {
        return;
      }
      heap := heap[handle[seg] := Node(validCnt, seg)];
    }

    /** The top is a listed segment no other listed segment beats. */
    method ChooseSegment() returns (seg: Option<nat>)
      requires Valid()
      ensures seg.None? <==> Entries() == map[]
      ensures seg.Some? ==> seg.value in Entries()
      ensures seg.Some? ==>
                forall s :: s in Entries() ==>
                              Entries()[seg.value] < Entries()[s] || (Entries()[seg.value] == Entries()[s] && seg.value <= s)
    {
      if heap == map[] {
        assert handle == map[];
        return None;
      }
      var some :| some in heap;
      assert heap[some].seg in Entries();
      TopExists(heap, heap.Keys, AtTop);
      var h :| h in heap && forall k :: k in heap ==> AtTop(heap[h], heap[k]);
      return Some(heap[h].seg);
    }
  }
}
