/** Lists of segments and the one place each segment is in. */
module Places {
  import opened Counting

  /** A list holds exactly the segments of one place, once each. */
  ghost predicate Listed<P>(list: seq<nat>, place: seq<P>, p: P) {
    && (forall i, j :: 0 <= i < j < |list| ==> list[i] != list[j])
    && (forall i :: 0 <= i < |list| ==> list[i] < |place| && place[list[i]] == p)
    && (forall x :: 0 <= x < |place| && place[x] == p ==> x in list)
  }

  lemma ListedAppend<P>(list: seq<nat>, place: seq<P>, x: nat, p: P)
    requires Listed(list, place, p) && x < |place| && place[x] != p
    ensures Listed(list + [x], place[x := p], p)
    ensures Listed([x] + list, place[x := p], p)
  {
    var place' := place[x := p];
    forall y | 0 <= y < |place'| && place'[y] == p ensures y in list + [x] && y in [x] + list {
      if y == x {
        assert (list + [x])[|list|] == x && ([x] + list)[0] == x;
      } else {
        var i :| 0 <= i < |list| && list[i] == y;
        assert (list + [x])[i] == y && ([x] + list)[i + 1] == y;
      }
    }
  }

  lemma ListedPop<P>(list: seq<nat>, place: seq<P>, p: P, q: P)
    requires Listed(list, place, p) && list != [] && q != p
    ensures Listed(list[1..], place[list[0] := q], p)
  {
    var place' := place[list[0] := q];
    forall y | 0 <= y < |place'| && place'[y] == p ensures y in list[1..] {
      var i :| 0 <= i < |list| && list[i] == y;
      assert list[1..][i - 1] == y;
    }
  }

  lemma ListedOther<P>(list: seq<nat>, place: seq<P>, x: nat, p: P, q: P)
    requires Listed(list, place, p) && x < |place| && place[x] != p && q != p
    ensures Listed(list, place[x := q], p)
  {}

  /** A slot names the only segment of one place, or none is there. */
  ghost predicate Only<P>(slot: Option<nat>, place: seq<P>, p: P) {
    && (slot.Some? ==> slot.value < |place| && place[slot.value] == p)
    && (forall x :: 0 <= x < |place| && place[x] == p ==> slot == Some(x))
  }

  lemma OnlyOther<P>(slot: Option<nat>, place: seq<P>, x: nat, p: P, q: P)
    requires Only(slot, place, p) && x < |place| && place[x] != p && q != p
    ensures Only(slot, place[x := q], p)
  {}
}
