/** heap.cpp: the kernel heap, a list of blocks in regions that come from virt and are mapped to frames. */
module KernelHeap {
  import opened Words
  import opened Physical
  import opened PageMapping
  import opened VirtualSpace
  import opened Blocks
  import opened KernelHeapSpec
  import opened KernelLinks
  import opened KernelData
  import opened Memory
  import S = KernelHeapSpec
  import P = KernelHeapProperties
  import R = Regions

  class KHeap {
    const phys: FrameAllocator
    const virt: Virt
    const spaces: AddressSpaces
    const space: int              // the directory in force
    var heapSize: Word            // heap_size_
    var first: int                // first_block_, null until the first pages are mapped
    var charged: Word             // total_allocated_
    var free: Word                // total_free_
    var allocs: Word              // num_allocations_
    var frees: Word               // num_frees_
    var headers: map<int, Header> // the headers written so far
    var data: Bytes               // the known bytes of memory, but for headers
    ghost var heap: Heap          // what the fields and the headers amount to

    /** The fields and the linked headers represent the abstract heap. */
    ghost predicate Listed()
      reads this
    {
      && heapSize == heap.size && charged == heap.charged && free == heap.free
      && allocs == heap.allocs && frees == heap.frees
      && Represents(heap, first, headers) && Known(data, heap.blocks)
    }

    ghost predicate Separated()
      reads this, virt
    {
      this !in virt.repr && phys !in virt.repr && spaces !in virt.repr
    }

    /** What there is to grow from. */
    ghost function Source(): Supply
      requires virt.Valid()
      reads virt, virt.repr, phys, spaces
    {
      Supply(virt.Ranges(), VmOf(phys, spaces))
    }

    ghost predicate Valid()
      reads this, virt, virt.repr, phys, spaces
    {
      Listed() && Separated() && virt.Valid() && 0 !in phys.freeList && Owns(heap.regions, Source(), space)
    }

    /** Block i exists and its header is at p. */
    ghost predicate At(p: int, i: nat)
      reads this
    {
      i < |heap.blocks| && p == heap.blocks[i].addr
    }

    /** One block in the first region, or no list at all if there are too few frames. */
    constructor (phys: FrameAllocator, virt: Virt, spaces: AddressSpaces, space: int, start: int, size: Word)
      requires virt.Valid() && phys !in virt.repr && spaces !in virt.repr && 0 !in phys.freeList
      requires 0 < start && start % FRAME_SIZE == 0 && AlignUp(size) > H && start + AlignUp(size) < TWO_64
      requires forall a :: start <= a < start + AlignUp(size) ==> !R.IsFree(virt.Ranges(), a)
      modifies phys, spaces
      ensures this.phys == phys && this.virt == virt && this.spaces == spaces && this.space == space
      ensures first != 0 <==> AlignUp(size) / FRAME_SIZE <= |old(phys.freeList)|
      ensures first != 0 ==> Valid() && heap == Initial(start, size)
      ensures VmOf(phys, spaces) ==
              Requested(old(VmOf(phys, spaces)), space, start / FRAME_SIZE, AlignUp(size) / FRAME_SIZE)
    {
      this.phys, this.virt, this.spaces, this.space := phys, virt, spaces, space;
      heapSize := AlignUp(size);
      first, charged, free, allocs, frees, headers, data := 0, 0, 0, 0, 0, map[], map[];
      heap := Initial(start, size);
      new;
      MapFirst(start, size);
    }

    /** The end of the constructor. */
    method MapFirst(start: int, size: Word)
      requires virt.Valid() && Separated() && 0 !in phys.freeList
      requires 0 < start && start % FRAME_SIZE == 0 && AlignUp(size) > H && start + AlignUp(size) < TWO_64
      requires forall a :: start <= a < start + AlignUp(size) ==> !R.IsFree(virt.Ranges(), a)
      requires heapSize == AlignUp(size) && first == charged == free == allocs == frees == 0
      requires heap == Initial(start, size) && data == map[] && headers == map[]
      modifies this, phys, spaces
      ensures first != 0 <==> AlignUp(size) / FRAME_SIZE <= |old(phys.freeList)|
      ensures first != 0 ==> Valid() && heap == Initial(start, size)
      ensures VmOf(phys, spaces) ==
              Requested(old(VmOf(phys, spaces)), space, start / FRAME_SIZE, AlignUp(size) / FRAME_SIZE)
    {
      hide Represents, Owns, R.Inv, Virt.Valid, Virt.Linked, Virt.Ranges, AlignUp, Requested, R.IsFree, Wrap;
      if heapSize / FRAME_SIZE <= |phys.freeList| {
        InitialOwns(start, size, Source(), space);
      }
      var ok := MapPages(start, heapSize);
      if ok {
        ClearedForgotten(map[], data, start, heapSize);
        data := Forget(data, start, heapSize);
        first := start;
        WriteHeader(first, NewHeader(heapSize - H, true));
        free := heapSize - H;
        WrapSmall(heapSize - H);
        InitialRepresents(start, size);
      }
    }

    /** map_pages: the pages are cleared; if there are too few frames, what they held is lost. */
    method MapPages(start: int, len: int) returns (ok: bool)
      requires virt.Valid() && Separated() && 0 !in phys.freeList
      requires start % FRAME_SIZE == 0 && len >= 0 && len % FRAME_SIZE == 0
      modifies phys, spaces, this`data, this`headers
      ensures headers == Clobbered(old(headers), start, len)
      ensures if ok then FilledWith(old(data), data, start, len, 0) else data == Forget(old(data), start, len)
      ensures virt.Valid() && virt.Ranges() == old(virt.Ranges()) && 0 !in phys.freeList
      ensures ok == (len / FRAME_SIZE <= |old(phys.freeList)|)
      ensures VmOf(phys, spaces) == Requested(old(VmOf(phys, spaces)), space, start / FRAME_SIZE, len / FRAME_SIZE)
    {
      hide R.Inv, Virt.Valid, Virt.Linked, Virt.Ranges;
      RequestedNeverNull(VmOf(phys, spaces), space, start / FRAME_SIZE, len / FRAME_SIZE);
      ok := RequestPages(phys, spaces, space, start / FRAME_SIZE, len / FRAME_SIZE);
      headers := Clobbered(headers, start, len);
      if ok {
        ClearBytes(start, len);
      } else {
        data := Forget(data, start, len);
      }
    }

    /** memset to zero. */
    method ClearBytes(p: int, n: nat)
      modifies this`data
      ensures FilledWith(old(data), data, p, n, 0)
    {
      var k := 0;
      while k < n
        invariant 0 <= k <= n && FilledWith(old(data), data, p, k, 0)
      {
        data := data[p + k := 0];
        k := k + 1;
      }
    }

    /** Writes a header over whatever is there: known bytes, and other headers it overlaps. */
    method WriteHeader(p: int, h: Header)
      modifies this`headers, this`data
      ensures headers == Written(old(headers), p, h) && data == Forget(old(data), p, H)
    {
      headers := Written(headers, p, h);
      data := Forget(data, p, H);
    }

    /** The writes of split_block: a new header at q behind the one at p. */
    method InsertAfter(p: int, q: int, size: Word, rest: Word)
      requires p in headers && Clear(p, q)
      requires var n := headers[p].next; n != 0 ==> n in headers && Clear(n, p) && Clear(n, q)
      modifies this`headers, this`data
      ensures Inserted(old(headers), headers, p, q, size, rest)
      ensures var d, n := Forget(old(data), q, H), old(headers[p].next);
        data == Forget(Forget(if n != 0 then Forget(d, n, H) else d, p, H), p, H)
    {
      var next := headers[p].next;
      WriteHeader(q, NewHeader(rest, true).(next := next, prev := p));
      if next != 0 {
        WriteHeader(next, headers[next].(prev := q));
      }
      WriteHeader(p, headers[p].(next := q));
      WriteHeader(p, headers[p].(size := size));
    }

    /** The writes of coalesce_block: the header at p takes over the next one's space. */
    method AbsorbNext(p: int)
      requires p in headers && headers[p].next in headers
      requires var f := headers[headers[p].next].next; f != 0 ==> f in headers && Clear(f, p)
      modifies this`headers, this`data
      ensures Absorbed(old(headers), headers, p)
      ensures var d, f := Forget(Forget(old(data), p, H), p, H), old(headers[headers[p].next].next);
        data == if f != 0 then Forget(d, f, H) else d
    {
      var h := headers[p];
      var n := headers[h.next];
      WriteHeader(p, h.(size := (h.size + (H + n.size)) % TWO_64));
      WriteHeader(p, headers[p].(next := n.next));
      if n.next != 0 {
        WriteHeader(n.next, headers[n.next].(prev := p));
      }
    }

    /** The writes of expand_heap: a new header at q behind the last one, at p. */
    method LinkLast(p: int, q: int, size: Word)
      requires p in headers && Clear(q, p)
      modifies this`headers, this`data
      ensures Extended(old(headers), headers, p, q, size)
      ensures data == Forget(Forget(Forget(old(data), q, H), p, H), q, H)
    {
      WriteHeader(q, NewHeader(size, true));
      WriteHeader(p, headers[p].(next := q));
      WriteHeader(q, headers[q].(prev := p));
    }

    method Mark(p: int, free: bool)
      requires p in headers
      modifies this`headers, this`data
      ensures Marked(old(headers), headers, p, free)
      ensures data == Forget(Forget(old(data), p, H), p, H)
    {
      WriteHeader(p, headers[p].(isFree := free));
      WriteHeader(p, headers[p].(magic := MagicOf(free)));
    }

    /** What a caller does with a block. */
    method Store(ptr: int, k: nat, value: Byte)
      requires Valid() && Live(heap, ptr) && k < heap.blocks[LiveIndex(H, heap.blocks, ptr)].size
      modifies this`data, this`headers
      ensures Valid() && data == old(data)[ptr + k := value]
    {
      hide Represents, Owns, R.Inv, Virt.Valid, Virt.Linked, Virt.Ranges, Known;
      DataWrite(heap, first, headers, LiveIndex(H, heap.blocks, ptr), ptr + k, 1);
      headers := Clobbered(headers, ptr + k, 1);
      data := data[ptr + k := value];
      WriteKnown(old(data), data, heap.blocks, heap.blocks[LiveIndex(H, heap.blocks, ptr)], k + 1);
    }

    method FindFreeBlock(size: int) returns (p: int, ghost i: nat)
      requires Listed()
      ensures i == FirstFit(heap.blocks, size) && p == AddrOf(heap.blocks, FirstFit(heap.blocks, size))
      ensures p != 0 <==> i < |heap.blocks|
    {
      p, i := first, 0;
      assert heap.blocks[0..] == heap.blocks;
      CursorStarts(heap, first, headers);
      hide Represents;
      while p != 0
        invariant Cursor(heap.blocks, i, p)
        invariant FirstFit(heap.blocks, size) == i + FirstFit(heap.blocks[i..], size)
        decreases |heap.blocks| - i
      {
        CursorReads(heap, first, headers, i, p);
        var h := headers[p];
        FirstFitStep(heap.blocks, size, i);
        if h.isFree && h.size >= size {
          return;
        }
        p, i := h.next, i + 1;
      }
    }

    method SplitBlock(p: int, ghost i: nat, size: nat)
      requires Listed() && At(p, i) && size + H + MIN_DATA < TWO_64
      modifies this
      ensures Listed() && heap == SplitAt(old(heap), i, size)
      ensures data == if Splits(H, old(heap.blocks[i]), size)
                      then Forget(old(data), p + H + size, old(heap.blocks[i].size) - size) else old(data)
    {
      hide Represents, Known, Forget;
      BlockInPlace(heap, first, headers, i);
      var h := headers[p];
      if h.size < size + (H + MIN_DATA) {
        return;
      }
      ghost var m := headers;
      var q := p + H + size;
      var rest := h.size - size - H;
      SplitReady(heap, first, headers, i, size);
      SplitWrites(heap, first, headers, data, i, size);
      InsertAfter(p, q, size, rest);
      data := Forget(data, q, h.size - size);
      SplitStep(heap, first, m, headers, i, size);
      free := (free + H) % TWO_64;
      heap := SplitAt(heap, i, size);
    }

    /** Merges the block at p with its successor. */
    method MergeNext(p: int, ghost i: nat)
      requires Listed() && At(p, i) && JoinsNext(H, heap.blocks, i)
      modifies this
      ensures Listed() && heap == Merged(old(heap), i) && data == old(data)
    {
      hide Represents, Known, Forget;
      MergeReady(heap, first, headers, i);
      MergeWrites(heap, first, headers, data, i);
      ghost var m := headers;
      AbsorbNext(p);
      MergeStep(heap, first, m, headers, i);
      free := (free - H) % TWO_64;
      heap := Merged(heap, i);
    }

    /** Either half of coalesce_block: merges the block at p with its successor if both are free and adjacent. */
    method MergeIfAdjacent(p: int, ghost i: nat)
      requires Listed() && At(p, i)
      modifies this
      ensures Listed() && heap == Merged(old(heap), i) && data == old(data)
    {
      hide Represents, Known;
      BlockInPlace(heap, first, headers, i);
      var h := headers[p];
      if h.isFree && h.next != 0 {
        BlockInPlace(heap, first, headers, i + 1);
        if headers[h.next].isFree && (p + H + h.size) % TWO_64 == h.next {
          MergeNext(p, i);
        }
      }
    }

    method CoalesceBlock(p: int, ghost i: nat)
      requires Listed() && At(p, i) && heap.blocks[i].free
      modifies this
      ensures Listed() && heap == Coalesced(old(heap), i) && data == old(data)
    {
      hide Represents, Known;
      BlockInPlace(heap, first, headers, i);
      if !headers[p].isFree {
        return;
      }
      MergeIfAdjacent(p, i);
      BlockInPlace(heap, first, headers, i);
      var h := headers[p];
      if h.prev != 0 {
        BlockInPlace(heap, first, headers, i - 1);
        MergeIfAdjacent(h.prev, i - 1);
      }
    }

    /** The walk to the end of the list. */
    method LastBlock() returns (last: int)
      requires Listed()
      ensures last == AddrOf(heap.blocks, |heap.blocks| - 1) && last in headers && heap.blocks != []
    {
      last := first;
      ghost var i := 0;
      BlockInPlace(heap, first, headers, 0);
      hide Represents;
      while headers[last].next != 0
        invariant i < |heap.blocks| && last == heap.blocks[i].addr
        invariant last in headers && HeaderOf(headers[last], heap.blocks, i)
        invariant AddrOf(heap.blocks, i + 1) != 0 <==> i + 1 < |heap.blocks|
        decreases |heap.blocks| - i
      {
        i := i + 1;
        BlockInPlace(heap, first, headers, i);
        last := headers[last].next;
      }
    }

    /** Links a block in a new region at the end of the list. */
    method AppendBlock(start: int, len: Word)
      requires Listed() && Fresh(heap, start, len)
      modifies this
      ensures Listed() && heap == Grow(old(heap), start, len) && data == old(data)
    {
      hide Represents, Known, Forget;
      AppendWrites(heap, first, headers, data, start, len);
      var last := LastBlock();
      ghost var m := headers;
      RegionApart(heap, first, m, start, len);
      LinkLast(last, start, len - H);
      AppendStep(heap, first, m, headers, start, len);
      heapSize := (heapSize + len) % TWO_64;
      free := (free + (len - H)) % TWO_64;
      ghost var n := |heap.blocks|;
      heap := Appended(heap, start, len);
      CoalesceBlock(start, n);
    }

    method ExpandHeap(min: Word) returns (ok: bool)
      requires Valid() && (AlignUp(min) > H || GrantOf(Source(), AlignUp(min)).Refused?)
      modifies this, phys, spaces, virt.repr
      ensures Valid() && fresh(virt.repr - old(virt.repr)) && data == old(data)
      ensures Source() == Supplied(old(Source()), space, AlignUp(min))
      ensures var g := GrantOf(old(Source()), AlignUp(min));
        ok == g.Granted? && heap == if ok then Grow(old(heap), g.start, AlignUp(min)) else old(heap)
    {
      RoundedTwice(min);
      var len := AlignUp(min);
      hide Represents, Owns, Fresh, AlignUp, R.Inv, R.Freed, R.Rest, R.FirstServing;
      hide Unowned, Known, Forget, Clobbered;
      hide Virt.Valid, Virt.Linked, Virt.Ranges;
      SupplyGrants(heap, Source(), space, len);
      ghost var m, d := headers, data;
      var region := virt.Alloc(len);
      assert region != 0 ==> Returnable(virt.Ranges(), region, len) && Unowned(heap.regions, region, len);
      if region == 0 {
        return false;
      }
      RangeWrite(heap, first, m, d, region, len);
      ok := MapPages(region, len);
      if !ok {
        virt.Free(region, len);
        return false;
      }
      ClearedForgotten(d, data, region, len);
      data := Forget(data, region, len);
      AppendBlock(region, len);
    }

    /** The end of malloc: splits the block found, marks it used and charges for it. */
    method TakeBlock(p: int, ghost i: nat, size: nat)
      requires Listed() && At(p, i) && Fits(heap.blocks[i], size) && size + H + MIN_DATA < TWO_64
      modifies this
      ensures Listed() && heap == TakeAt(old(heap), i, size) && data == old(data)
    {
      hide Represents, Known, Forget;
      FreeSplitWrites(heap, first, headers, data, i, size);
      SplitBlock(p, i, size);
      ghost var m := headers;
      MarkWrites(heap, first, headers, data, i);
      BlockInPlace(heap, first, headers, i);
      Mark(p, false);
      MarkStep(heap, first, m, headers, i, false, size, (allocs + 1) % TWO_64, frees);
      charged := (charged + size) % TWO_64;
      free := (free - size) % TWO_64;
      allocs := (allocs + 1) % TWO_64;
      heap := TakeAt(old(heap), i, size);
    }

    method Malloc(size: Word) returns (ptr: int)
      requires Valid() && Safe(heap, Source(), size)
      modifies this, phys, spaces, virt.repr
      ensures Valid() && fresh(virt.repr - old(virt.repr)) && data == old(data)
      ensures (heap, ptr) == S.Malloc(old(heap), size, GrantFor(old(Source()), size))
      ensures Source() == SourceAfter(old(heap), old(Source()), space, size)
    {
      hide Represents, Owns, Fresh, AlignUp, R.Inv, GrantOf, Supplied, FirstFit, Grow, TakeAt, Safe;
      hide Virt.Valid, Virt.Linked, Virt.Ranges;
      if size == 0 {
        return 0;
      }
      var a := AlignUp(size);
      ghost var s := heap;
      MallocFinds(s, first, headers, Source(), space, size);
      var p, i := FindFreeBlock(a);
      if p == 0 {
        SafeGrows(s, Source(), size);
        var ok := ExpandHeap(a + H);
        if !ok {
          return 0;
        }
        p, i := FindFreeBlock(a);
      }
      if p == 0 {
        return 0;
      }
      TakeBlock(p, i, a);
      return p + H;
    }

    /** ptr is null, or what was last written in front of it is not the header of a block in use unless there is one.
        Pointers already freed are allowed. */
    ghost predicate Freeable(ptr: int)
      reads this
    {
      ptr == 0 || Live(heap, ptr) || (ptr - H in headers && !LooksLive(headers[ptr - H]))
    }

    /** What free and realloc check of the header in front of ptr. */
    method CheckPointer(ptr: int) returns (ok: bool)
      requires Listed() && Freeable(ptr) && ptr != 0
      ensures ok == Live(heap, ptr)
      ensures ok ==> At(ptr - H, LiveIndex(H, heap.blocks, ptr)) && ptr - H in headers
                     && headers[ptr - H].size == heap.blocks[LiveIndex(H, heap.blocks, ptr)].size
    {
      hide Represents;
      if Live(heap, ptr) {
        BlockInPlace(heap, first, headers, LiveIndex(H, heap.blocks, ptr));
      }
      var h := headers[ptr - H];
      ok := h.IsValid() && !h.isFree;
    }

    method Free(ptr: int)
      requires Valid() && Freeable(ptr)
      modifies this
      ensures Valid() && heap == S.Free(old(heap), ptr)
      ensures data == if Live(old(heap), ptr)
                      then Forget(old(data), ptr, old(heap.blocks[LiveIndex(H, heap.blocks, ptr)].size)) else old(data)
    {
      hide Represents, Known, Forget, Owns, R.Inv, Virt.Valid, Virt.Linked, Virt.Ranges;
      NullNotLive(heap, first, headers);
      if ptr == 0 {
        return;
      }
      var ok := CheckPointer(ptr);
      if ok {
        ReleaseBlock(ptr - H, LiveIndex(H, heap.blocks, ptr));
      }
    }

    /** The end of free: marks the block free, refunds it and coalesces it with its neighbours. */
    method ReleaseBlock(p: int, ghost i: nat)
      requires Listed() && At(p, i)
      modifies this
      ensures Listed() && heap == ReleaseAt(old(heap), i)
      ensures data == Forget(old(data), p + H, old(heap.blocks[i].size))
    {
      hide Represents, Known, Forget;
      MarkWrites(heap, first, headers, data, i);
      BlockInPlace(heap, first, headers, i);
      ghost var m := headers;
      var n: int := headers[p].size;
      Mark(p, true);
      MarkStep(heap, first, m, headers, i, true, 0 - n, allocs, (frees + 1) % TWO_64);
      data := Forget(data, p + H, n);
      charged := (charged - n) % TWO_64;
      free := (free + n) % TWO_64;
      frees := (frees + 1) % TWO_64;
      heap := heap.(blocks := SetFree(heap.blocks, i, true), charged := charged, free := free, frees := frees);
      CoalesceBlock(p, i);
    }

    method Realloc(ptr: int, size: Word) returns (p: int)
      requires Valid() && Freeable(ptr) && (Mallocs(heap, ptr, size) ==> Safe(heap, Source(), size))
      modifies this, phys, spaces, virt.repr
      ensures Valid() && fresh(virt.repr - old(virt.repr))
      ensures (heap, p) == S.Realloc(old(heap), ptr, size, GrantFor(old(Source()), size))
      ensures Reallocated(old(heap), old(data), data, ptr, size, p)
      ensures Source() == if Mallocs(old(heap), ptr, size) then SourceAfter(old(heap), old(Source()), space, size)
                          else old(Source())
    {
      hide Represents, Owns, R.Inv, Virt.Valid, Virt.Linked, Virt.Ranges, S.Malloc, S.Free;
      NullNotLive(heap, first, headers);
      RoundedTwice(size);
      if ptr == 0 {
        p := Malloc(size);
        return;
      }
      if size == 0 {
        Free(ptr);
        return 0;
      }
      var ok := CheckPointer(ptr);
      if !ok {
        return 0;
      }
      ghost var i := LiveIndex(H, heap.blocks, ptr);
      var oldSize := headers[ptr - H].size;
      var a := AlignUp(size);
      if a <= oldSize {
        ShrinkBlock(ptr - H, i, oldSize, a);
        return ptr;
      }
      SafeTwice(heap, Source(), size);
      p := MoveBlock(ptr, oldSize, a);
    }

    /** The end of realloc: a new block, the old data copied into it, and the old block freed. */
    method MoveBlock(ptr: int, oldSize: Word, size: Word) returns (p: int)
      requires Valid() && Live(heap, ptr) && Safe(heap, Source(), size) && oldSize < AlignUp(size)
      requires oldSize == heap.blocks[LiveIndex(H, heap.blocks, ptr)].size
      modifies this, phys, spaces, virt.repr
      ensures Valid() && fresh(virt.repr - old(virt.repr))
      ensures var (m, q) := S.Malloc(old(heap), size, GrantFor(old(Source()), size));
        p == q && heap == if q == 0 then m else S.Free(m, ptr)
      ensures Source() == SourceAfter(old(heap), old(Source()), space, size)
      ensures if p == 0 then data == old(data) else Moved(old(data), data, ptr, p, oldSize)
    {
      hide Represents, Owns, R.Inv, Virt.Valid, Virt.Linked, Virt.Ranges, S.Malloc, S.Free, AlignUp, Known;
      hide Moved, Copied, Forget;
      LiveStays(heap, first, headers, Source(), space, ptr, size);
      p := Malloc(size);
      if p != 0 {
        CopyData(p, LiveIndex(H, heap.blocks, p), ptr, oldSize);
        CopyThenForget(old(data), data, ptr, p, oldSize);
        Free(ptr);
      }
    }

    /** realloc's memcpy, into the first n bytes of block i. */
    method CopyData(dest: int, ghost i: nat, src: int, n: nat)
      requires Valid() && i < |heap.blocks| && !heap.blocks[i].free && heap.blocks[i].Data(H) == dest
      requires n <= heap.blocks[i].size && (dest + n <= src || src + n <= dest)
      modifies this`data, this`headers
      ensures Valid() && Copied(old(data), data, src, dest, n)
    {
      hide Represents, Owns, R.Inv, Virt.Valid, Virt.Linked, Virt.Ranges, Known, Copied;
      var k := 0;
      CopyNothing(data, src, dest);
      while k < n
        invariant 0 <= k <= n && Copied(old(data), data, src, dest, k) && Represents(heap, first, headers)
      {
        DataWrite(heap, first, headers, i, dest + k, 1);
        headers := Clobbered(headers, dest + k, 1);
        ghost var before := data;
        if src + k in data {
          data := data[dest + k := data[src + k]];
        } else {
          data := Forget(data, dest + k, 1);
        }
        CopyByte(old(data), before, data, src, dest, k, n);
        k := k + 1;
      }
      CopyKnown(old(data), data, heap.blocks, heap.blocks[i], src, n);
    }

    /** realloc within a block: gives up the rest of it if that is worth a header. */
    method ShrinkBlock(p: int, ghost i: nat, oldSize: Word, size: nat)
      requires Listed() && At(p, i) && oldSize == heap.blocks[i].size && size <= oldSize && size + H + MIN_DATA < TWO_64
      modifies this
      ensures Listed() && heap == Shrink(old(heap), i, size)
      ensures data == if oldSize > size + H + MIN_DATA then Forget(old(data), p + H + size, oldSize - size) else old(data)
    {
      hide Represents, Known, Forget;
      if oldSize > size + (H + MIN_DATA) {
        SplitBlock(p, i, size);
        RefundStep(heap, first, headers, oldSize - size);
        charged := (charged - (oldSize - size)) % TWO_64;
        free := (free + (oldSize - size)) % TWO_64;
        heap := heap.(charged := charged, free := free);
      }
    }

    /** calloc: all of the product is zeroed. */
    method Calloc(num: Word, size: Word) returns (ptr: int)
      requires Valid()
      requires Product(num, size) < TWO_64 ==> Zeroable(heap, Source(), Product(num, size))
      modifies this, phys, spaces, virt.repr
      ensures Valid() && fresh(virt.repr - old(virt.repr))
      ensures var total := Product(num, size);
        if total >= TWO_64 then ptr == 0 && heap == old(heap) && Source() == old(Source())
        else (heap, ptr) == S.Malloc(old(heap), total, GrantFor(old(Source()), total))
             && Source() == SourceAfter(old(heap), old(Source()), space, total)
      ensures if ptr == 0 then data == old(data) else FilledWith(old(data), data, ptr, Product(num, size), 0)
    {
      hide Listed, Separated, Owns, Virt.Valid, Virt.Linked, Virt.Ranges, S.Malloc, AlignUp, GrantFor, Product;
      hide FilledWith, SourceAfter, R.Inv;
      var total := CheckedProduct(num, size);
      if total == None {
        return 0;
      }
      ptr := MallocZeroed(total.value);
    }

    /** calloc once its check has passed. */
    method MallocZeroed(total: Word) returns (ptr: int)
      requires Valid() && Zeroable(heap, Source(), total)
      modifies this, phys, spaces, virt.repr
      ensures Valid() && fresh(virt.repr - old(virt.repr))
      ensures (heap, ptr) == S.Malloc(old(heap), total, GrantFor(old(Source()), total))
      ensures Source() == SourceAfter(old(heap), old(Source()), space, total)
      ensures if ptr == 0 then data == old(data) else FilledWith(old(data), data, ptr, total, 0)
    {
      hide Represents, Owns, R.Inv, Virt.Valid, Virt.Linked, Virt.Ranges, S.Malloc, GrantFor, Known, FilledWith;
      hide AlignUp, SourceAfter, LiveIndex;
      MallocHolds(heap, first, headers, Source(), space, total);
      ptr := Malloc(total);
      if ptr != 0 {
        ZeroData(ptr, LiveIndex(H, heap.blocks, ptr), total);
      }
    }

    /** calloc's memset, on the first n bytes of block i. */
    method ZeroData(ptr: int, ghost i: nat, n: nat)
      requires Valid() && i < |heap.blocks| && !heap.blocks[i].free && heap.blocks[i].Data(H) == ptr
      requires n <= heap.blocks[i].size
      modifies this`data, this`headers
      ensures Valid() && FilledWith(old(data), data, ptr, n, 0)
    {
      hide Represents, Owns, R.Inv, Virt.Valid, Virt.Linked, Virt.Ranges, Known;
      DataWrite(heap, first, headers, i, ptr, n);
      headers := Clobbered(headers, ptr, n);
      ClearBytes(ptr, n);
      WriteKnown(old(data), data, heap.blocks, heap.blocks[i], n);
    }

    /** calloc's check for overflow. */
    method CheckedProduct(num: Word, size: Word) returns (total: Option<Word>)
      ensures total == if Product(num, size) < TWO_64 then Some(Product(num, size)) else None
    {
      P.CallocGuard(num, size);
      var t: Word := (num * size) % TWO_64;
      if num > 0 && t / num != size {
        return None;
      }
      return Some(t);
    }

    /** validate_heap: true exactly when the two statistics are the sizes in the list. */
    method ValidateHeap() returns (ok: bool)
      requires Listed()
      ensures ok <==> P.Validates(heap)
    {
      hide Represents;
      var p, used, unused := first, 0, 0;
      ghost var i := 0;
      CursorStarts(heap, first, headers);
      while p != 0
        invariant Cursor(heap.blocks, i, p) && Counted(heap.blocks, i, used, unused)
        decreases |heap.blocks| - i
      {
        CursorReads(heap, first, headers, i, p);
        var h := headers[p];
        if !h.IsValid() {
          return false;
        }
        CountedStep(heap.blocks, i, used, unused);
        if h.isFree {
          unused := (unused + h.size) % TWO_64;
        } else {
          used := (used + h.size) % TWO_64;
        }
        p, i := h.next, i + 1;
      }
      assert heap.blocks[..i] == heap.blocks;
      return used == charged && unused == free;
    }
  }
}
