/** How virt's list of free regions merges: what free does to the live regions, those of a length other than zero. */
module LiveRegions {
  import opened Words
  import opened Regions

  function LiveOnes(rs: seq<Region>): set<Region> {
    set r | r in rs && r.size != 0
  }

  /** The live regions of a list without overlap are all different. */
  lemma Distinct(rs: seq<Region>, i: nat, j: nat)
    requires Inv(rs) && i < |rs| && j < |rs| && i != j && rs[i].size != 0
    ensures rs[i] != rs[j]
  {
    InBounds(rs, i);
    LiveRegionsDisjoint(rs, if i < j then i else j, if i < j then j else i, rs[i].start);
  }

  /** A live region changed, or deleted. */
  lemma LiveUpdate(rs: seq<Region>, i: nat, r: Region)
    requires i < |rs| && forall j :: 0 <= j < |rs| && j != i ==> rs[j].size == 0 || rs[j] != rs[i]
    ensures LiveOnes(rs[i := r]) == LiveOnes(rs) - {rs[i]} + (if r.size != 0 then {r} else {})
  {
    var rs' := rs[i := r];
    forall x
      ensures x in LiveOnes(rs') <==> x in LiveOnes(rs) - {rs[i]} + (if r.size != 0 then {r} else {})
    {
      if x in LiveOnes(rs) && x != rs[i] {
        var j :| 0 <= j < |rs| && rs[j] == x;
        assert rs'[j] == x;
      }
      if x in LiveOnes(rs') {
        var j :| 0 <= j < |rs| && rs'[j] == x;
        assert j != i ==> rs[j] == x;
      }
      assert r.size != 0 ==> rs'[i] == r;
    }
  }

  /** The first live region that the range touches, at either end. */
  ghost predicate FirstTouched(rs: seq<Region>, start: int, end: int, i: nat) {
    && i < |rs| && rs[i].size != 0 && (rs[i].start == end || rs[i].End() == start)
    && forall j :: 0 <= j < i ==> rs[j].size == 0 || (rs[j].start != end && rs[j].End() != start)
  }

  /** A range that touches no live region becomes one of its own ... */
  lemma FreeApart(rs: seq<Region>, start: int, len: int)
    requires forall r :: r in rs && r.size != 0 ==> r.start != start + len && r.End() != start
    ensures Freed(rs, start, len) == rs + [Region(start, len)]
  {
    assert forall j :: 0 <= j < |rs| ==> !Touches(rs[j], start, start + len);
  }

  /** ... and otherwise no node is added. One that starts where the range ends grows down. */
  lemma FreeBefore(rs: seq<Region>, start: int, len: int, i: nat)
    requires Inv(rs) && len >= 0 && FirstTouched(rs, start, start + len, i) && rs[i].start == start + len
    ensures |Freed(rs, start, len)| == |rs|
    ensures LiveOnes(Freed(rs, start, len)) == LiveOnes(rs) - {rs[i]} + {Region(start, rs[i].size + len)}
  {
    TouchedFirst(rs, start, start + len, i);
    InBounds(rs, i);
    OthersDiffer(rs, i);
    hide Inv;
    var r := Region(start, rs[i].size + len);
    assert Freed(rs, start, len) == rs[i := r];
    LiveUpdate(rs, i, r);
  }

  lemma TouchedFirst(rs: seq<Region>, start: int, end: int, i: nat)
    requires FirstTouched(rs, start, end, i)
    ensures FirstTouching(rs, start, end) == i
  {
    assert Touches(rs[i], start, end);
  }

  /** The other live region that starts at an address is the only one. */
  lemma StartsOnce(rs: seq<Region>, i: nat, end: int, j: nat)
    requires Inv(rs) && i < |rs| && j < |rs| && j != i && rs[j].size != 0 && rs[j].start == end
    ensures FirstFrom(rs, i, end) == j
  {
    var k := FirstFrom(rs, i, end);
    assert StartsAt(rs, i, end, j);
    if k != j {
      InBounds(rs, k);
      InBounds(rs, j);
      LiveRegionsDisjoint(rs, k, j, end);
      assert false;
    }
  }

  lemma OthersDiffer(rs: seq<Region>, i: nat)
    requires Inv(rs) && i < |rs| && rs[i].size != 0
    ensures forall j :: 0 <= j < |rs| && j != i ==> rs[j] != rs[i]
  {
    forall j | 0 <= j < |rs| && j != i
      ensures rs[j] != rs[i]
    {
      Distinct(rs, i, j);
    }
  }

  /** One that ends where the range starts grows up, if no other live region starts where the range ends. */
  lemma FreeAfter(rs: seq<Region>, start: int, len: int, i: nat)
    requires Inv(rs) && len >= 0 && FirstTouched(rs, start, start + len, i) && rs[i].End() == start
    requires forall j :: 0 <= j < |rs| && j != i && rs[j].size != 0 ==> rs[j].start != start + len
    ensures |Freed(rs, start, len)| == |rs|
    ensures LiveOnes(Freed(rs, start, len)) == LiveOnes(rs) - {rs[i]} + {Region(rs[i].start, rs[i].size + len)}
  {
    TouchedFirst(rs, start, start + len, i);
    InBounds(rs, i);
    OthersDiffer(rs, i);
    LiveUpdate(rs, i, Region(rs[i].start, rs[i].size + len));
    assert FirstFrom(rs, i, start + len) == |rs|;
  }

  /** If one does, the three become one, and its node is left for dead. */
  lemma FreeBetween(rs: seq<Region>, start: int, len: int, i: nat, j: nat)
    requires Inv(rs) && len >= 0 && FirstTouched(rs, start, start + len, i) && rs[i].End() == start
    requires j < |rs| && j != i && rs[j].size != 0 && rs[j].start == start + len
    ensures |Freed(rs, start, len)| == |rs|
    ensures LiveOnes(Freed(rs, start, len)) ==
      LiveOnes(rs) - {rs[i], rs[j]} + {Region(rs[i].start, rs[i].size + len + rs[j].size)}
  {
    hide Inv;
    InBounds(rs, i);
    InBounds(rs, j);
    TouchedFirst(rs, start, start + len, i);
    StartsOnce(rs, i, start + len, j);
    var u := Region(rs[i].start, rs[i].size + len + rs[j].size);
    FreedBetween(rs, start, len, i, j);
    OthersDiffer(rs, i);
    OthersDiffer(rs, j);
    LiveBoth(rs, i, u, j);
  }

  lemma FreedBetween(rs: seq<Region>, start: int, len: int, i: nat, j: nat)
    requires i < |rs| && j < |rs| && FirstTouching(rs, start, start + len) == i && rs[i].start != start + len
    requires rs[i].End() == start && FirstFrom(rs, i, start + len) == j
    ensures Freed(rs, start, len) ==
      rs[i := Region(rs[i].start, rs[i].size + len + rs[j].size)][j := rs[j].(size := 0)]
  {
  }

  lemma LiveBoth(rs: seq<Region>, i: nat, u: Region, j: nat)
    requires i < |rs| && j < |rs| && i != j && u.size > rs[j].size > 0
    requires forall k :: 0 <= k < |rs| && k != i ==> rs[k] != rs[i]
    requires forall k :: 0 <= k < |rs| && k != j ==> rs[k] != rs[j]
    ensures LiveOnes(rs[i := u][j := rs[j].(size := 0)]) == LiveOnes(rs) - {rs[i], rs[j]} + {u}
  {
    LiveUpdate(rs, i, u);
    LiveUpdate(rs[i := u], j, rs[j].(size := 0));
  }

  /** Whatever it touches, the range is afterwards in one live region with that, and no node is added. */
  lemma FreeMerges(rs: seq<Region>, start: int, len: int, i: nat)
    requires Inv(rs) && len > 0 && FirstTouched(rs, start, start + len, i)
    ensures |Freed(rs, start, len)| == |rs|
    ensures exists g :: g in LiveOnes(Freed(rs, start, len)) && g.start <= start && start + len <= g.End() && g.size > len
  {
    InBounds(rs, i);
    if rs[i].start == start + len {
      FreeBefore(rs, start, len, i);
      assert Region(start, rs[i].size + len) in LiveOnes(Freed(rs, start, len));
    } else if j: nat :| j < |rs| && j != i && rs[j].size != 0 && rs[j].start == start + len {
      InBounds(rs, j);
      FreeBetween(rs, start, len, i, j);
      assert Region(rs[i].start, rs[i].size + len + rs[j].size) in LiveOnes(Freed(rs, start, len));
    } else {
      FreeAfter(rs, start, len, i);
      assert Region(rs[i].start, rs[i].size + len) in LiveOnes(Freed(rs, start, len));
    }
  }

  /** A region that follows and comes first in the list is merged with; one that goes before is then left alone,
      though the two now touch. */
  lemma NeighboursRemain()
    ensures var rs := [Region(8192, 4096), Region(0, 4096)];
      Inv(rs) && LiveOnes(Freed(rs, 4096, 4096)) == {Region(4096, 8192), Region(0, 4096)}
  {
    var rs := [Region(8192, 4096), Region(0, 4096)];
    forall a
      ensures Count(rs, a) == Weight(rs[0], a) + Weight(rs[1], a)
    {
      CountSplit(rs, 0, a);
      CountSplit(rs[1..], 0, a);
      assert rs[..0] == [] && rs[1..][1..] == [];
    }
    FreeBefore(rs, 4096, 4096, 0);
  }

  /** No live region starts where another ends. */
  ghost predicate Coalesced(rs: seq<Region>) {
    forall x, y :: x in LiveOnes(rs) && y in LiveOnes(rs) ==> x.End() != y.start
  }

  /** A list of which all touching regions have been merged stays so, unless the range lies between two and the upper one
      comes first in the list. */
  lemma FreeKeepsCoalesced(rs: seq<Region>, start: int, len: int)
    requires Inv(rs) && Coalesced(rs) && len > 0
    ensures Coalesced(Freed(rs, start, len)) <==> !UpperFirst(rs, start, start + len)
  {
    hide Inv, Coalesced, Freed, LiveOnes;
    var end := start + len;
    var i := FirstTouching(rs, start, end);
    if i == |rs| {
      CoalescedApart(rs, start, len);
    } else {
      assert forall j :: 0 <= j < i ==> !Touches(rs[j], start, end);
      assert FirstTouched(rs, start, end, i);
      if rs[i].start == end {
        CoalescedBefore(rs, start, len, i);
      } else {
        CoalescedAfter(rs, start, len, i);
      }
      forall k: nat | FirstTouched(rs, start, end, k)
        ensures k == i
      {
        TouchedFirst(rs, start, end, k);
      }
    }
  }

  lemma CoalescedApart(rs: seq<Region>, start: int, len: int)
    requires Coalesced(rs) && len > 0 && FirstTouching(rs, start, start + len) == |rs|
    ensures Coalesced(Freed(rs, start, len)) && !UpperFirst(rs, start, start + len)
  {
    assert forall j :: 0 <= j < |rs| ==> !Touches(rs[j], start, start + len);
    forall r | r in rs && r.size != 0
      ensures r.start != start + len && r.End() != start
    {
      var k :| 0 <= k < |rs| && rs[k] == r;
    }
    FreeApart(rs, start, len);
    LiveAppend(rs, Region(start, len));
  }

  /** The range lies between two live regions, and the upper one comes first. */
  ghost predicate UpperFirst(rs: seq<Region>, start: int, end: int) {
    exists i: nat, j: nat :: FirstTouched(rs, start, end, i) && rs[i].start == end && EndsAt(rs, j, start)
  }

  ghost predicate EndsAt(rs: seq<Region>, j: nat, end: int) {
    j < |rs| && rs[j].size != 0 && rs[j].End() == end
  }

  lemma CoalescedBefore(rs: seq<Region>, start: int, len: int, i: nat)
    requires Inv(rs) && Coalesced(rs) && len > 0
    requires FirstTouched(rs, start, start + len, i) && rs[i].start == start + len
    ensures Coalesced(Freed(rs, start, len)) <==> !exists j: nat :: EndsAt(rs, j, start)
  {
    FreeBefore(rs, start, len, i);
    InBounds(rs, i);
    var g, live := Region(start, rs[i].size + len), LiveOnes(Freed(rs, start, len));
    assert rs[i] in LiveOnes(rs) && g in live;
    if j: nat :| EndsAt(rs, j, start) {
      assert rs[j] in LiveOnes(rs) && rs[j] != rs[i] && rs[j] in live;
    } else {
      forall x, y | x in live && y in live
        ensures x.End() != y.start
      {
        if x != g && y == g {
          var k :| 0 <= k < |rs| && rs[k] == x;
          assert !EndsAt(rs, k, start);
        }
      }
    }
  }

  lemma CoalescedAfter(rs: seq<Region>, start: int, len: int, i: nat)
    requires Inv(rs) && Coalesced(rs) && len > 0
    requires FirstTouched(rs, start, start + len, i) && rs[i].End() == start
    ensures Coalesced(Freed(rs, start, len))
  {
    InBounds(rs, i);
    var live := LiveOnes(Freed(rs, start, len));
    assert rs[i] in LiveOnes(rs);
    if j: nat :| j < |rs| && j != i && rs[j].size != 0 && rs[j].start == start + len {
      InBounds(rs, j);
      FreeBetween(rs, start, len, i, j);
      assert rs[j] in LiveOnes(rs);
    } else {
      FreeAfter(rs, start, len, i);
      forall y | y in LiveOnes(rs) && y != rs[i]
        ensures y.start != start + len
      {
        var k :| 0 <= k < |rs| && rs[k] == y;
      }
    }
  }

  // ----- alloc, then free of what it returned -----

  /** The first live region of at least len bytes. */
  ghost predicate Serving(rs: seq<Region>, len: int, k: nat) {
    && k < |rs| && rs[k].size != 0 && rs[k].size >= len
    && forall j :: 0 <= j < k ==> rs[j].size == 0 || rs[j].size < len
  }

  /** The round trip of a region used in part: the list is restored exactly if no live region before it in the list ends
      where it starts; otherwise the live regions are others. */
  lemma PartRoundTrip(rs: seq<Region>, size: Word, k: nat)
    requires Inv(rs) && Serving(rs, AlignUp(size), k) && rs[k].size > AlignUp(size)
    ensures var (t, addr) := Alloc(rs, size);
      var r := Freed(t, addr, AlignUp(size));
      if forall j :: 0 <= j < k && rs[j].size != 0 ==> rs[j].End() != rs[k].start then r == rs
      else LiveOnes(r) != LiveOnes(rs)
  {
    var len := AlignUp(size);
    var t, addr := rs[k := Region(rs[k].start + len, rs[k].size - len)], rs[k].start;
    assert FirstServing(rs, len) == k by {
      assert Serves(rs[k], len);
    }
    AllocTakes(rs, len);
    assert Alloc(rs, size) == (t, addr);
    forall j | 0 <= j < |rs| && j != k && rs[j].size != 0
      ensures rs[j].start != addr + len
    {
      InBounds(rs, j);
      LiveRegionsDisjoint(rs, if j < k then j else k, if j < k then k else j, addr + len);
    }
    if forall j :: 0 <= j < k && rs[j].size != 0 ==> rs[j].End() != addr {
      TouchedFirst(t, addr, addr + len, k);
      assert t[k := rs[k]] == rs;
    } else {
      var j :| 0 <= j < k && rs[j].size != 0 && rs[j].End() == addr;
      PartMerges(rs, t, len, k, j);
    }
  }

  /** The three become one, which is not the region alloc took from. */
  lemma PartMerges(rs: seq<Region>, t: seq<Region>, len: nat, k: nat, j: nat)
    requires Inv(rs) && Inv(t) && j < k < |rs| && rs[k].size > len
    requires t == rs[k := Region(rs[k].start + len, rs[k].size - len)]
    requires rs[j].size != 0 && rs[j].End() == rs[k].start
    requires forall i :: 0 <= i < |rs| && i != k && rs[i].size != 0 ==> rs[i].start != rs[k].start + len
    ensures LiveOnes(Freed(t, rs[k].start, len)) != LiveOnes(rs)
  {
    var addr := rs[k].start;
    forall i | 0 <= i < j
      ensures rs[i].size == 0 || rs[i].End() != addr
    {
      InBounds(rs, i);
      InBounds(rs, j);
      LiveRegionsDisjoint(rs, i, j, addr - 1);
    }
    assert FirstTouched(t, addr, addr + len, j);
    InBounds(t, j);
    FreeBetween(t, addr, len, j, k);
    OthersDiffer(rs, k);
    var u := Region(t[j].start, t[j].size + len + t[k].size);
    assert u.start < addr;
    assert forall x :: x in LiveOnes(t) && x != t[k] ==> x != rs[k];
    assert rs[k] !in LiveOnes(t) - {t[j], t[k]} + {u};
    assert rs[k] in LiveOnes(rs);
  }

  /** The round trip of a region used up: the live regions are restored exactly if no other one touched it. */
  lemma WholeRoundTrip(rs: seq<Region>, size: Word, k: nat)
    requires Inv(rs) && Serving(rs, AlignUp(size), k) && rs[k].size == AlignUp(size)
    ensures var (t, addr) := Alloc(rs, size);
      LiveOnes(Freed(t, addr, AlignUp(size))) == LiveOnes(rs) <==>
        forall j :: 0 <= j < |rs| && j != k && rs[j].size != 0 ==> rs[j].End() != rs[k].start && rs[j].start != rs[k].End()
  {
    var len := AlignUp(size);
    var t, addr := rs[k := rs[k].(size := 0)], rs[k].start;
    assert FirstServing(rs, len) == k by {
      assert Serves(rs[k], len);
    }
    AllocTakes(rs, len);
    assert Alloc(rs, size) == (t, addr);
    OthersDiffer(rs, k);
    LiveUpdate(rs, k, rs[k].(size := 0));
    assert rs[k] in LiveOnes(rs) && rs[k] !in LiveOnes(t);
    var i := FirstTouching(t, addr, addr + len);
    if i == |t| {
      LiveAppend(t, rs[k]);
      assert forall j :: 0 <= j < |rs| && j != k ==> t[j] == rs[j] && !Touches(t[j], addr, addr + len);
    } else {
      assert Touches(t[i], addr, addr + len) && i != k && rs[i] == t[i];
      WholeMerges(t, addr, len, i);
    }
  }

  lemma LiveAppend(rs: seq<Region>, r: Region)
    ensures LiveOnes(rs + [r]) == LiveOnes(rs) + if r.size != 0 then {r} else {}
  {
  }

  /** Freeing a range that touches a live region does not make it one of its own. */
  lemma WholeMerges(rs: seq<Region>, start: int, len: int, i: nat)
    requires Inv(rs) && len > 0 && i == FirstTouching(rs, start, start + len) < |rs|
    requires Region(start, len) !in LiveOnes(rs)
    ensures Region(start, len) !in LiveOnes(Freed(rs, start, len))
  {
    assert forall j :: 0 <= j < i ==> !Touches(rs[j], start, start + len);
    assert FirstTouched(rs, start, start + len, i);
    InBounds(rs, i);
    if rs[i].start == start + len {
      FreeBefore(rs, start, len, i);
    } else if j: nat :| j < |rs| && j != i && rs[j].size != 0 && rs[j].start == start + len {
      InBounds(rs, j);
      FreeBetween(rs, start, len, i, j);
    } else {
      FreeAfter(rs, start, len, i);
    }
  }
}
