/** virtual.cpp: the allocator of address ranges, over a linked list of nodes it changes in place. */
module VirtualSpace {
  import opened Words
  import opened IList
  import opened Regions

  class RangeNode {
    var start: int
    var size: int

    constructor (start: int, size: int)
      ensures this.start == start && this.size == size
    {
      this.start, this.size := start, size;
    }

    ghost function Range(): Region
      reads this
    {
      Region(start, size)
    }
  }

  class Virt {
    const list: List<RangeNode>
    ghost var slots: seq<RangeNode>
    ghost var repr: set<object>

    /** The list holds the slots, all different, in objects of its own. */
    ghost predicate Linked()
      reads this, repr
      ensures Linked() ==> this in repr
    {
      && this in repr && list in repr
      && (forall n :: n in list.nodes ==> n in repr) && (forall s :: s in slots ==> s in repr)
      && list.Valid() && list.Contents() == slots
      && (forall i, j :: 0 <= i < j < |slots| ==> slots[i] != slots[j])
    }

    ghost predicate Valid()
      reads this, repr
      ensures Valid() ==> this in repr && Linked() && Inv(Ranges())
    {
      Linked() && Inv(Ranges())
    }

    /** The list's regions, deleted ones included. */
    ghost function Ranges(): (rs: seq<Region>)
      requires Linked()
      reads this, repr
      ensures |rs| == |slots| && forall i :: 0 <= i < |rs| ==> rs[i] == slots[i].Range()
    {
      seq(|slots|, i requires 0 <= i < |slots| && Linked() reads this, repr => slots[i].Range())
    }

    constructor ()
      ensures Valid() && Ranges() == [WHOLE] && fresh(repr)
    {
      list := new List<RangeNode>();
      slots := [];
      new;
      repr := {this, list};
      PushAll();
    }

    /** The constructor's push of the whole address space. */
    method PushAll()
      requires Linked() && Ranges() == []
      modifies repr
      ensures Valid() && Ranges() == [WHOLE] && fresh(repr - old(repr))
    {
      hide Linked, Inv;
      InitialConserves();
      Push(0, VADDR_SIZE);
      assert Ranges() == [WHOLE];
    }

    /** Appends a node to the list. */
    method Link(range: RangeNode)
      requires Linked() && range !in repr
      modifies this, list, list.nodes
      ensures Linked() && fresh(repr - old(repr) - {range}) && slots == old(slots) + [range]
    {
      assert range !in slots;
      ghost var node := list.PushBack(range);
      slots := slots + [range];
      repr := repr + {range, node};
    }

    /** Appends a new node. */
    method Push(start: int, size: int)
      requires Linked()
      modifies repr
      ensures Linked() && fresh(repr - old(repr)) && Ranges() == old(Ranges()) + [Region(start, size)]
    {
      ghost var rs := Ranges();
      var range := new RangeNode(start, size);
      ListOwned();
      hide Linked;
      Link(range);
      SameRanges(rs, Region(start, size));
    }

    lemma ListOwned()
      requires Linked()
      ensures list in repr && (forall n :: n in list.nodes ==> n in repr) && forall s :: s in slots ==> s in repr
    {
    }

    lemma SameRanges(rs: seq<Region>, r: Region)
      requires Linked() && |slots| == |rs| + 1 && slots[|rs|].Range() == r
      requires forall i :: 0 <= i < |rs| ==> slots[i].Range() == rs[i]
      ensures Ranges() == rs + [r]
    {
    }

    lemma SlotOwned(i: nat)
      requires Linked() && i < |slots|
      ensures slots[i] in repr && slots[i].Range() == Ranges()[i]
    {
    }

    /** Changes the node of slot i. */
    method Resize(spot: RangeNode, ghost i: nat, start: int, size: int)
      requires Linked() && i < |slots| && spot == slots[i]
      modifies spot
      ensures Linked() && Ranges() == old(Ranges())[i := Region(start, size)]
    {
      spot.start, spot.size := start, size;
      assert Ranges() == old(Ranges())[i := Region(start, size)];
    }

    /** Takes aligned bytes from the first region that has them; null when none has. */
    method Alloc(size: Word) returns (addr: int)
      requires Valid()
      modifies repr
      ensures Valid() && repr == old(repr) && (Ranges(), addr) == Regions.Alloc(old(Ranges()), size)
      ensures var rs, len := old(Ranges()), AlignUp(size);
        var i := FirstServing(rs, len);
        if i == |rs| then addr == 0 && Ranges() == rs
        else addr == rs[i].start && Ranges() == rs[i := Rest(rs[i], len)]
    {
      hide Inv, Linked;
      var len := AlignUp(size);
      var cur, i := FindServing(len);
      if cur == null {
        return 0;
      }
      var spot := cur.data;
      SlotOwned(i);
      addr := spot.start;
      InBounds(Ranges(), i);
      AllocTakes(Ranges(), len);
      if spot.size == len {
        Resize(spot, i, spot.start, 0);
      } else {
        Resize(spot, i, (spot.start + len) % TWO_64, spot.size - len);
      }
    }

    /** The loop of alloc: skips deleted and too small regions. */
    method FindServing(len: int) returns (cur: Node?<RangeNode>, ghost i: nat)
      requires Linked()
      ensures cur == list.NodeAt(FirstServing(Ranges(), len))
      ensures i == FirstServing(Ranges(), len) && (cur != null <==> i < |slots|)
      ensures cur != null ==> cur == list.nodes[i] && cur.data == slots[i]
    {
      hide Linked;
      ghost var rs := Ranges();
      cur, i := list.head, 0;
      StartOfList();
      AtSlot(i, cur);
      assert rs[0..] == rs;
      while cur != null && (cur.data.size == 0 || cur.data.size < len)
        invariant i <= |slots| && cur == list.NodeAt(i) && OnSlot(i, cur)
        invariant FirstServing(rs, len) == i + FirstServing(rs[i..], len)
        decreases |slots| - i
      {
        FirstServingStep(rs, len, i);
        cur, i := cur.next, i + 1;
        AtSlot(i, cur);
      }
      if i < |slots| {
        FirstServingStep(rs, len, i);
      }
    }

    /** Gives back the pages of [addr, addr + size), none of which may be free: merged with a region that it touches
        at either end, and then with one that follows, or else as a region of its own. */
    method Free(addr: int, size: Word)
      requires Valid() && 0 <= addr && addr % FRAME_SIZE == 0 && addr + AlignUp(size) <= VADDR_SIZE
      requires forall a :: addr <= a < addr + AlignUp(size) ==> !IsFree(Ranges(), a)
      modifies repr
      ensures Valid() && fresh(repr - old(repr)) && Ranges() == Freed(old(Ranges()), addr, AlignUp(size))
    {
      hide Inv, Linked;
      var len := AlignUp(size);
      FreeAdds(Ranges(), addr, len);
      var cur, i := FindTouching(addr, addr + len);
      if cur == null {
        Push(addr, len);
      } else if addr + len == cur.data.start {
        SlotOwned(i);
        Resize(cur.data, i, addr, cur.data.size + len);
      } else {
        GrowUp(cur.data, i, len);
      }
    }

    /** free's second kind of merge: the range follows the region, and another region may follow the range. */
    method GrowUp(spot: RangeNode, ghost i: nat, len: int)
      requires Linked() && i < |slots| && spot == slots[i]
      modifies repr
      ensures Linked() && repr == old(repr) && Ranges() == ExtendUp(old(Ranges()), i, len)
    {
      hide Linked;
      ghost var rs := Ranges();
      SlotOwned(i);
      Resize(spot, i, spot.start, spot.size + len);
      var next, j := FindFrom(spot, i, spot.start + spot.size);
      FirstFromUpdate(rs, i, Ranges()[i], spot.start + spot.size);
      if next != null {
        var other := next.data;
        SlotOwned(j);
        Resize(spot, i, spot.start, spot.size + other.size);
        Resize(other, j, other.start, 0);
      }
    }

    /** The outer loop of free: skips deleted regions and those the range does not touch. */
    method FindTouching(start: int, end: int) returns (cur: Node?<RangeNode>, ghost i: nat)
      requires Linked()
      ensures cur == list.NodeAt(FirstTouching(Ranges(), start, end))
      ensures i == FirstTouching(Ranges(), start, end) && (cur != null <==> i < |slots|)
      ensures cur != null ==> cur == list.nodes[i] && cur.data == slots[i]
    {
      hide Linked;
      ghost var rs := Ranges();
      cur, i := list.head, 0;
      StartOfList();
      AtSlot(i, cur);
      assert rs[0..] == rs;
      while cur != null
            && (cur.data.size == 0 || (end != cur.data.start && cur.data.start + cur.data.size != start))
        invariant i <= |slots| && cur == list.NodeAt(i) && OnSlot(i, cur)
        invariant FirstTouching(rs, start, end) == i + FirstTouching(rs[i..], start, end)
        decreases |slots| - i
      {
        FirstTouchingStep(rs, start, end, i);
        cur, i := cur.next, i + 1;
        AtSlot(i, cur);
      }
      if i < |slots| {
        FirstTouchingStep(rs, start, end, i);
      }
    }

    /** The inner loop of free: finds another region that starts at end. */
    method FindFrom(spot: RangeNode, ghost i: nat, end: int) returns (next: Node?<RangeNode>, ghost j: nat)
      requires Linked() && i < |slots| && spot == slots[i]
      ensures next == list.NodeAt(FirstFrom(Ranges(), i, end))
      ensures j == FirstFrom(Ranges(), i, end) && (next != null <==> j < |slots|)
      ensures next != null ==> next == list.nodes[j] && next.data == slots[j] && next.data != spot
    {
      hide Linked;
      ghost var rs := Ranges();
      next, j := list.head, 0;
      StartOfList();
      AtSlot(j, next);
      SlotsDiffer();
      while next != null && (next.data == spot || next.data.size == 0 || end != next.data.start)
        invariant j <= |slots| && next == list.NodeAt(j) && OnSlot(j, next)
        invariant FirstFrom(rs, i, end) == FirstFromAt(rs, i, end, j)
        decreases |slots| - j
      {
        next, j := next.next, j + 1;
        AtSlot(j, next);
      }
    }

    /** The copy constructor: nodes of its own, so that later changes to either space leave the other alone. */
    constructor Copy(other: Virt)
      requires other.Valid()
      ensures Valid() && Ranges() == other.Ranges() && fresh(repr)
    {
      hide Inv, Linked, Valid, Ranges;
      list := new List<RangeNode>();
      slots := [];
      new;
      repr := {this, list};
      NothingYet();
      ghost var mine := {this, list};
      CopyNodes(other);
      forall o | o in repr
        ensures fresh(o)
      {
        assert o in mine || o in repr - mine;
      }
    }

    lemma NothingYet()
      requires repr == {this, list} && slots == [] && list.Valid() && list.nodes == [] && list.Contents() == []
      ensures Linked() && Ranges() == []
    {
    }

    /** The assignment operator. */
    method Assign(other: Virt)
      requires Valid() && other.Valid() && (other == this || repr !! other.repr)
      modifies repr
      ensures Valid() && fresh(repr - old(repr)) && Ranges() == old(other.Ranges())
      ensures other.Valid() && other.Ranges() == old(other.Ranges()) && (other == this || repr !! other.repr)
    {
      ListOwned();
      hide Inv, Linked;
      if this != other {
        Reset();
        CopyNodes(other);
      }
    }

    /** Forgets every node. */
    method Reset()
      requires Linked()
      modifies this, list
      ensures Linked() && Ranges() == [] && repr == old(repr)
    {
      list.Clear();
      slots := [];
    }

    /** The loop both share: a new node for each of the other's, deleted ones included. */
    method CopyNodes(other: Virt)
      requires Linked() && slots == [] && other.Valid() && repr !! other.repr
      modifies repr
      ensures Valid() && fresh(repr - old(repr)) && Ranges() == other.Ranges()
    {
      hide Inv, Linked;
      ghost var rs := other.Ranges();
      var cur := other.list.head;
      ghost var i := 0;
      other.StartOfList();
      while cur != null
        invariant 0 <= i <= |rs| && other.Linked() && other.Ranges() == rs && cur == other.list.NodeAt(i)
        invariant Linked() && fresh(repr - old(repr)) && Ranges() == rs[..i]
        decreases |rs| - i
      {
        other.NextInList(i, cur);
        other.ListOwned();
        Push(cur.data.start, cur.data.size);
        other.NextInList(i, cur);
        assert rs[..i + 1] == rs[..i] + [rs[i]];
        cur, i := cur.next, i + 1;
      }
      other.EndOfList(i);
      assert rs[..i] == rs;
    }

    lemma StartOfList()
      requires Linked()
      ensures list.head == list.NodeAt(0)
    {
    }

    /** cur is the node of slot i, or past the end. */
    ghost predicate OnSlot(i: nat, cur: Node?<RangeNode>)
      requires Linked()
      reads this, repr
    {
      && (cur == null <==> i >= |slots|)
      && (cur != null ==> cur in repr && cur.data in repr && i < |list.nodes| && cur == list.nodes[i])
      && (cur != null ==> cur.data == slots[i] && cur.data.Range() == Ranges()[i])
      && (cur != null ==> cur.next == list.NodeAt(i + 1))
    }

    lemma AtSlot(i: nat, cur: Node?<RangeNode>)
      requires Linked() && cur == list.NodeAt(i)
      ensures OnSlot(i, cur)
    {
    }

    lemma SlotsDiffer()
      requires Linked()
      ensures forall i, j :: 0 <= i < j < |slots| ==> slots[i] != slots[j]
    {
    }

    lemma NextInList(i: nat, cur: Node<RangeNode>)
      requires Linked() && cur == list.NodeAt(i)
      ensures i < |slots| && cur.data.Range() == Ranges()[i] && cur.next == list.NodeAt(i + 1)
    {
    }

    lemma EndOfList(i: nat)
      requires Linked() && i <= |slots| && list.NodeAt(i) == null
      ensures i == |slots|
    {
    }
  }
}
