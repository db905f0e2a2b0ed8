/** A heap whose nodes are reached through a table of handles, as both victim policies keep
    one: a map from handles to nodes, and for every segment the handle of its node. */
module HandleHeap {

  /** What the heap is ordered by, and the segment it is for. */
  datatype Node<K> = Node(key: K, seg: nat)

  /** Every node is reachable through exactly its own segment's handle. */
  ghost predicate Linked<K>(heap: map<nat, Node<K>>, handle: map<nat, nat>, nextHandle: nat) {
    && (forall s :: s in handle ==> handle[s] in heap && heap[handle[s]].seg == s)
    && (forall h :: h in heap ==> h < nextHandle && heap[h].seg in handle && handle[heap[h].seg] == h)
  }

  /** What the heap tracks: each listed segment with the key stored for it. */
  ghost function Tracked<K>(heap: map<nat, Node<K>>, handle: map<nat, nat>): (r: map<nat, K>)
    requires forall s :: s in handle ==> handle[s] in heap
    ensures r.Keys == handle.Keys
  {
    map s | s in handle :: heap[handle[s]].key
  }

  /** A node pushed for a segment without one, under the next handle. */
  lemma Pushed<K>(heap: map<nat, Node<K>>, handle: map<nat, nat>, nextHandle: nat, seg: nat, key: K)
    requires Linked(heap, handle, nextHandle) && seg !in handle
    ensures Linked(heap[nextHandle := Node(key, seg)], handle[seg := nextHandle], nextHandle + 1)
    ensures Tracked(heap[nextHandle := Node(key, seg)], handle[seg := nextHandle]) == Tracked(heap, handle)[seg := key]
  {}

  /** Pushed for a segment that has one, it leaves the old node without a handle. */
  lemma PushedTwice<K>(heap: map<nat, Node<K>>, handle: map<nat, nat>, nextHandle: nat, seg: nat, key: K)
    requires Linked(heap, handle, nextHandle) && seg in handle
    ensures !Linked(heap[nextHandle := Node(key, seg)], handle[seg := nextHandle], nextHandle + 1)
  {
    var orphan := handle[seg];
    assert heap[nextHandle := Node(key, seg)][orphan].seg == seg;
  }

  /** Taking a segment's node out, together with its handle. */
  lemma Unlinked<K>(heap: map<nat, Node<K>>, handle: map<nat, nat>, nextHandle: nat, seg: nat)
    requires Linked(heap, handle, nextHandle) && seg in handle
    ensures Linked(heap - {handle[seg]}, handle - {seg}, nextHandle)
    ensures Tracked(heap - {handle[seg]}, handle - {seg}) == Tracked(heap, handle) - {seg}
  {}

  /** Taking it out and pushing it again under another key. */
  lemma Repushed<K>(heap: map<nat, Node<K>>, handle: map<nat, nat>, nextHandle: nat, seg: nat, key: K)
    requires Linked(heap, handle, nextHandle) && seg in handle
    ensures var heap' := (heap - {handle[seg]})[nextHandle := Node(key, seg)];
            && Linked(heap', handle[seg := nextHandle], nextHandle + 1)
            && Tracked(heap', handle[seg := nextHandle]) == Tracked(heap, handle)[seg := key]
  {
    Unlinked(heap, handle, nextHandle, seg);
    Pushed(heap - {handle[seg]}, handle - {seg}, nextHandle, seg, key);
    assert (handle - {seg})[seg := nextHandle] == handle[seg := nextHandle];
  }

  /** At least as high in the heap, for any two nodes and any chain of them. */
  ghost predicate Order<K(!new)>(above: (Node<K>, Node<K>) -> bool) {
    && (forall a, b :: above(a, b) || above(b, a))
    && (forall a, b, c :: above(a, b) && above(b, c) ==> above(a, c))
  }

  lemma InOrder<K(!new)>(above: (Node<K>, Node<K>) -> bool, a: Node<K>, b: Node<K>, c: Node<K>)
    requires Order(above)
    ensures above(a, a) && (above(a, b) || above(b, a)) && (above(a, b) && above(b, c) ==> above(a, c))
  {}

  lemma {:induction false} TopExists<K(!new)>(nodes: map<nat, Node<K>>, keys: set<nat>, above: (Node<K>, Node<K>) -> bool)
    requires Order(above) && keys != {} && keys <= nodes.Keys
    ensures exists h :: h in keys && forall k :: k in keys ==> above(nodes[h], nodes[k])
  {
    hide Order;
    var x :| x in keys;
    InOrder(above, nodes[x], nodes[x], nodes[x]);
    if keys == {x} {
      assert forall k :: k in keys ==> above(nodes[x], nodes[k]);
    } else {
      TopExists(nodes, keys - {x}, above);
      var h :| h in keys - {x} && forall k :: k in keys - {x} ==> above(nodes[h], nodes[k]);
      var best := if above(nodes[h], nodes[x]) then h else x;
      forall k | k in keys ensures above(nodes[best], nodes[k]) {
        InOrder(above, nodes[x], nodes[h], nodes[k]);
      }
    }
  }
}
