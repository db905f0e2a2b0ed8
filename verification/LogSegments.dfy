/** Log segments as values: slots, the key map into them, and what each elementary step
    does to the correspondence between the two. Shared by both log-structured caches. */
module LogSegments {
  import opened Counting

  /** One block of a segment. */
  datatype Slot = Slot(key: nat, valid: bool, ts: nat)

  datatype Segment = Segment(writePtr: nat, validCnt: nat, createTs: nat, blocks: seq<Slot>)

  datatype Loc = Loc(seg: nat, idx: nat)

  function CountValid(blocks: seq<Slot>, n: nat): (c: nat)
    requires n <= |blocks|
    ensures c <= n
  {
    if n == 0 then 0 else CountValid(blocks, n - 1) + Bit(blocks[n - 1].valid)
  }

  lemma {:induction false} CountValidUpdate(blocks: seq<Slot>, n: nat, i: nat, b: Slot)
    requires n <= |blocks| && i < |blocks|
    ensures CountValid(blocks[i := b], n) ==
            CountValid(blocks, n) + if i < n then Bit(b.valid) - Bit(blocks[i].valid) else 0
  {
    if n > 0 { CountValidUpdate(blocks, n - 1, i, b); }
  }

  lemma {:induction false} CountValidMono(blocks: seq<Slot>, m: nat, n: nat)
    requires m <= n <= |blocks|
    ensures CountValid(blocks, m) <= CountValid(blocks, n)
  {
    if m < n { CountValidMono(blocks, m, n - 1); }
  }

  lemma {:induction false} CountValidZero(blocks: seq<Slot>, n: nat)
    requires n <= |blocks|
    ensures CountValid(blocks, n) == 0 <==> forall i :: 0 <= i < n ==> !blocks[i].valid
  {
    if n > 0 { CountValidZero(blocks, n - 1); }
  }

  lemma {:induction false} CountValidFull(blocks: seq<Slot>, n: nat, m: nat)
    requires m <= n <= |blocks| && forall i :: m <= i < n ==> !blocks[i].valid
    ensures CountValid(blocks, n) <= m
  {
    if m < n { CountValidFull(blocks, n - 1, m); }
  }

  /** The space below the write pointer is all a segment has used, and its counter is right. */
  ghost predicate SegOk(s: Segment, size: nat) {
    && |s.blocks| == size && s.writePtr <= size
    && s.validCnt == CountValid(s.blocks, size)
    && (forall i :: s.writePtr <= i < size ==> !s.blocks[i].valid)
  }

  /** All segments but one whose counter may be momentarily stale. */
  ghost predicate SegsOk(segs: seq<Segment>, size: nat, except: Option<nat>) {
    forall x :: 0 <= x < |segs| ==>
                  if Some(x) == except then |segs[x].blocks| == size else SegOk(segs[x], size)
  }

  predicate ValidAt(segs: seq<Segment>, l: Loc) {
    l.seg < |segs| && l.idx < |segs[l.seg].blocks| && segs[l.seg].blocks[l.idx].valid
  }

  /** The key map and the valid slots correspond one to one. */
  ghost predicate MapOk(segs: seq<Segment>, mapping: map<nat, Loc>) {
    && (forall k :: k in mapping ==> ValidAt(segs, mapping[k]) && segs[mapping[k].seg].blocks[mapping[k].idx].key == k)
    && (forall l :: ValidAt(segs, l) ==>
                      segs[l.seg].blocks[l.idx].key in mapping && mapping[segs[l.seg].blocks[l.idx].key] == l)
  }

  /** The timestamp held for each mapped key. */
  ghost function Cached(segs: seq<Segment>, mapping: map<nat, Loc>): map<nat, nat> {
    map k | k in mapping && ValidAt(segs, mapping[k]) :: segs[mapping[k].seg].blocks[mapping[k].idx].ts
  }

  lemma CachedKeys(segs: seq<Segment>, mapping: map<nat, Loc>)
    requires MapOk(segs, mapping)
    ensures Cached(segs, mapping).Keys == mapping.Keys
  {}

  lemma AtSeg(segs: seq<Segment>, size: nat, except: Option<nat>, x: nat)
    requires SegsOk(segs, size, except) && x < |segs|
    ensures |segs[x].blocks| == size
    ensures Some(x) != except ==> SegOk(segs[x], size) && segs[x].validCnt <= segs[x].writePtr
  {
    if Some(x) != except {
      CountValidFull(segs[x].blocks, size, segs[x].writePtr);
    }
  }

  lemma MappedSlot(segs: seq<Segment>, mapping: map<nat, Loc>, k: nat)
    requires MapOk(segs, mapping) && k in mapping
    ensures ValidAt(segs, mapping[k]) && segs[mapping[k].seg].blocks[mapping[k].idx].key == k
  {}

  lemma ValidSlot(segs: seq<Segment>, mapping: map<nat, Loc>, l: Loc)
    requires MapOk(segs, mapping) && ValidAt(segs, l)
    ensures segs[l.seg].blocks[l.idx].key in mapping && mapping[segs[l.seg].blocks[l.idx].key] == l
    ensures segs[l.seg].blocks[l.idx].key in Cached(segs, mapping)
    ensures Cached(segs, mapping)[segs[l.seg].blocks[l.idx].key] == segs[l.seg].blocks[l.idx].ts
  {}

  lemma SegsUpdate(segs: seq<Segment>, size: nat, except: Option<nat>, x: nat, s: Segment)
    requires SegsOk(segs, size, except) && x < |segs| && SegOk(s, size)
    ensures SegsOk(segs[x := s], size, except)
    ensures except == Some(x) ==> SegsOk(segs[x := s], size, None)
  {}

  // ---- reset ----

  function Cleared(blocks: seq<Slot>): (r: seq<Slot>)
    ensures |r| == |blocks|
    ensures forall i :: 0 <= i < |r| ==> !r[i].valid
  {
    seq(|blocks|, i requires 0 <= i < |blocks| => blocks[i].(valid := false))
  }

  function Reset(s: Segment): (r: Segment)
    ensures r.writePtr == 0 && r.validCnt == 0 && r.createTs == s.createTs && |r.blocks| == |s.blocks|
  {
    s.(writePtr := 0, validCnt := 0, blocks := Cleared(s.blocks))
  }

  lemma ResetOk(s: Segment, size: nat)
    requires |s.blocks| == size
    ensures SegOk(Reset(s), size)
  {
    CountValidZero(Cleared(s.blocks), size);
  }

  lemma NoneValid(s: Segment, size: nat)
    requires SegOk(s, size) && s.validCnt == 0
    ensures forall i :: 0 <= i < size ==> !s.blocks[i].valid
  {
    CountValidZero(s.blocks, size);
  }

  /** Replacing a segment without valid slots by another one loses and adds nothing. */
  lemma MapReplaceEmpty(segs: seq<Segment>, mapping: map<nat, Loc>, x: nat, s: Segment)
    requires MapOk(segs, mapping) && x < |segs|
    requires forall i :: 0 <= i < |segs[x].blocks| ==> !segs[x].blocks[i].valid
    requires forall i :: 0 <= i < |s.blocks| ==> !s.blocks[i].valid
    ensures MapOk(segs[x := s], mapping)
    ensures Cached(segs[x := s], mapping) == Cached(segs, mapping)
  {
    forall l ensures ValidAt(segs[x := s], l) <==> ValidAt(segs, l) {}
  }

  /** Changing only a segment's header leaves the correspondence alone. */
  lemma MapHeader(segs: seq<Segment>, mapping: map<nat, Loc>, x: nat, s: Segment)
    requires MapOk(segs, mapping) && x < |segs| && s.blocks == segs[x].blocks
    ensures MapOk(segs[x := s], mapping)
    ensures Cached(segs[x := s], mapping) == Cached(segs, mapping)
  {
    forall l ensures ValidAt(segs[x := s], l) <==> ValidAt(segs, l) {}
  }

  // ---- append ----

  function Appended(s: Segment, key: nat, ts: nat): (r: Segment)
    requires s.writePtr < |s.blocks|
    ensures r.createTs == s.createTs && |r.blocks| == |s.blocks|
  {
    s.(blocks := s.blocks[s.writePtr := Slot(key, true, ts)], writePtr := s.writePtr + 1, validCnt := s.validCnt + 1)
  }

  lemma AppendedOk(s: Segment, size: nat, key: nat, ts: nat)
    requires SegOk(s, size) && s.writePtr < size
    ensures SegOk(Appended(s, key, ts), size)
  {
    CountValidUpdate(s.blocks, size, s.writePtr, Slot(key, true, ts));
  }

  lemma MapAppend(segs: seq<Segment>, mapping: map<nat, Loc>, x: nat, key: nat, ts: nat)
    requires MapOk(segs, mapping) && key !in mapping
    requires x < |segs| && segs[x].writePtr < |segs[x].blocks| && !segs[x].blocks[segs[x].writePtr].valid
    ensures var segs' := segs[x := Appended(segs[x], key, ts)];
            var mapping' := mapping[key := Loc(x, segs[x].writePtr)];
            MapOk(segs', mapping') && Cached(segs', mapping') == Cached(segs, mapping)[key := ts]
  {
    var segs' := segs[x := Appended(segs[x], key, ts)];
    forall l ensures ValidAt(segs', l) <==> ValidAt(segs, l) || l == Loc(x, segs[x].writePtr) {}
  }

  // ---- invalidate ----

  function Unset(s: Segment, i: nat): (r: Segment)
    requires i < |s.blocks|
    ensures |r.blocks| == |s.blocks| && r.createTs == s.createTs && r.writePtr == s.writePtr
  {
    s.(blocks := s.blocks[i := s.blocks[i].(valid := false)])
  }

  function Invalidated(s: Segment, i: nat): (r: Segment)
    requires i < |s.blocks| && s.validCnt > 0
    ensures |r.blocks| == |s.blocks| && r.createTs == s.createTs && r.writePtr == s.writePtr
  {
    Unset(s, i).(validCnt := s.validCnt - 1)
  }

  lemma SlotInvalidatedOk(s: Segment, size: nat, i: nat)
    requires SegOk(s, size) && i < size && s.blocks[i].valid
    ensures s.validCnt > 0 && i < s.writePtr && SegOk(Invalidated(s, i), size)
  {
    CountValidUpdate(s.blocks, size, i, s.blocks[i].(valid := false));
  }

  /** Clearing a mapped slot and dropping its key, whatever the header becomes. */
  lemma MapUnset(segs: seq<Segment>, mapping: map<nat, Loc>, k: nat, s: Segment)
    requires MapOk(segs, mapping) && k in mapping
    requires s.blocks == Unset(segs[mapping[k].seg], mapping[k].idx).blocks
    ensures var segs' := segs[mapping[k].seg := s];
            MapOk(segs', mapping - {k}) && Cached(segs', mapping - {k}) == Cached(segs, mapping) - {k}
  {
    var segs' := segs[mapping[k].seg := s];
    forall l ensures ValidAt(segs', l) <==> ValidAt(segs, l) && l != mapping[k] {}
  }

  // ---- migrate ----

  /** Copying a mapped slot to the end of another segment and clearing the original. */
  lemma MapMove(segs: seq<Segment>, mapping: map<nat, Loc>, k: nat, y: nat, s: Segment)
    requires MapOk(segs, mapping) && k in mapping
    requires var l := mapping[k];
             && y < |segs| && y != l.seg && segs[y].writePtr < |segs[y].blocks| && !segs[y].blocks[segs[y].writePtr].valid
             && s.blocks == Unset(segs[l.seg], l.idx).blocks
    ensures var l := mapping[k];
            var segs' := segs[y := Appended(segs[y], k, segs[l.seg].blocks[l.idx].ts)][l.seg := s];
            var mapping' := mapping[k := Loc(y, segs[y].writePtr)];
            MapOk(segs', mapping') && Cached(segs', mapping') == Cached(segs, mapping) && mapping'.Keys == mapping.Keys
  {
    hide MapOk, Cached;
    MappedSlot(segs, mapping, k);
    var l := mapping[k];
    ValidSlot(segs, mapping, l);
    var ts := segs[l.seg].blocks[l.idx].ts;
    var mid := segs[l.seg := s];
    MapUnset(segs, mapping, k, s);
    MapAppend(mid, mapping - {k}, y, k, ts);
    assert segs[y := Appended(segs[y], k, ts)][l.seg := s] == mid[y := Appended(mid[y], k, ts)];
    assert (mapping - {k})[k := Loc(y, segs[y].writePtr)] == mapping[k := Loc(y, segs[y].writePtr)];
    assert (Cached(segs, mapping) - {k})[k := ts] == Cached(segs, mapping);
  }

  // ---- the key map is as large as the counters say ----

  function SumValid(segs: seq<Segment>, n: nat): nat
    requires n <= |segs|
  {
    if n == 0 then 0 else SumValid(segs, n - 1) + segs[n - 1].validCnt
  }

  /** The keys mapped into the first i blocks of segment x. */
  ghost function MappedIn(mapping: map<nat, Loc>, x: nat, i: nat): set<nat> {
    set k | k in mapping && mapping[k].seg == x && mapping[k].idx < i
  }

  ghost function MappedBelow(mapping: map<nat, Loc>, x: nat): set<nat> {
    set k | k in mapping && mapping[k].seg < x
  }

  lemma {:induction false} MappedInCount(segs: seq<Segment>, mapping: map<nat, Loc>, x: nat, i: nat)
    requires MapOk(segs, mapping) && x < |segs| && i <= |segs[x].blocks|
    ensures |MappedIn(mapping, x, i)| == CountValid(segs[x].blocks, i)
  {
    hide MapOk;
    if i == 0 {
      assert MappedIn(mapping, x, 0) == {};
    } else {
      MappedInCount(segs, mapping, x, i - 1);
      MappedInStep(segs, mapping, x, i - 1);
    }
  }

  lemma MappedInStep(segs: seq<Segment>, mapping: map<nat, Loc>, x: nat, i: nat)
    requires MapOk(segs, mapping) && x < |segs| && i < |segs[x].blocks|
    ensures var b := segs[x].blocks[i];
            && MappedIn(mapping, x, i + 1) == MappedIn(mapping, x, i) + (if b.valid then {b.key} else {})
            && (b.valid ==> b.key !in MappedIn(mapping, x, i))
  {
    assert ValidAt(segs, Loc(x, i)) <==> segs[x].blocks[i].valid;
  }

  lemma MappedRange(segs: seq<Segment>, size: nat, mapping: map<nat, Loc>)
    requires MapOk(segs, mapping) && SegsOk(segs, size, None)
    ensures forall k :: k in mapping ==> mapping[k].seg < |segs| && mapping[k].idx < size
  {
    forall k | k in mapping ensures mapping[k].seg < |segs| && mapping[k].idx < size {
      MappedSlot(segs, mapping, k);
      AtSeg(segs, size, None, mapping[k].seg);
    }
  }

  lemma {:induction false} MappedBelowCount(segs: seq<Segment>, size: nat, mapping: map<nat, Loc>, n: nat)
    requires MapOk(segs, mapping) && SegsOk(segs, size, None) && n <= |segs|
    ensures |MappedBelow(mapping, n)| == SumValid(segs, n)
  {
    hide MapOk, SegsOk;
    if n == 0 {
      assert MappedBelow(mapping, 0) == {};
    } else {
      MappedBelowCount(segs, size, mapping, n - 1);
      AtSeg(segs, size, None, n - 1);
      MappedInCount(segs, mapping, n - 1, size);
      MappedRange(segs, size, mapping);
      assert MappedBelow(mapping, n) == MappedBelow(mapping, n - 1) + MappedIn(mapping, n - 1, size);
      assert MappedBelow(mapping, n - 1) !! MappedIn(mapping, n - 1, size);
    }
  }

  lemma MappedIsValid(segs: seq<Segment>, size: nat, mapping: map<nat, Loc>)
    requires MapOk(segs, mapping) && SegsOk(segs, size, None)
    ensures |mapping| == SumValid(segs, |segs|)
  {
    hide MapOk, SegsOk;
    MappedBelowCount(segs, size, mapping, |segs|);
    MappedRange(segs, size, mapping);
    assert MappedBelow(mapping, |segs|) == mapping.Keys;
    assert |mapping.Keys| == |mapping|;
  }

  // ---- a fresh log ----

  function FreshSegments(total: nat, size: nat): (r: seq<Segment>)
    ensures |r| == total
  {
    seq(total, x => Segment(0, 0, 0, seq(size, i => Slot(0, false, 0))))
  }

  lemma FreshSegmentsOk(total: nat, size: nat)
    ensures SegsOk(FreshSegments(total, size), size, None) && MapOk(FreshSegments(total, size), map[])
    ensures Cached(FreshSegments(total, size), map[]) == map[]
  {
    CountValidZero(seq(size, i => Slot(0, false, 0)), size);
  }
}
