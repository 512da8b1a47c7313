/** user_allocator.cpp: the heap of a process, over a byte memory with in-band headers. */
module UserAllocator {
  import opened Words
  import opened Physical
  import opened PageMapping
  import opened Blocks
  import opened Memory
  import opened UserHeapSpec
  import opened UserLinks
  import P = UserHeapProperties
  import S = UserHeapSpec
  import U = UserHeader

  class Allocator {
    const ram: U.Ram
    const phys: FrameAllocator
    const spaces: AddressSpaces
    const space: int  // the process's page directory
    var brk: int      // heap_current_
    var first: int    // first_block_, null for an empty list
    var charged: int  // total_allocated_
    var count: int    // num_blocks_
    ghost var heap: Heap  // what the fields and the headers amount to, and the frames and pages last seen

    /** The heap with the frames and pages there are now: others use them too. */
    ghost function Now(): Heap
      reads this, phys, spaces
    {
      heap.(vm := VmOf(phys, spaces))
    }

    /** Between calls, whatever others do with frames and pages: theirs is only not to unmap this heap. */
    ghost predicate Valid()
      reads this, ram, ram.cells, phys, spaces
    {
      && ram.cells.Length == HEAP_MAX && ram.Coherent() && 0 !in phys.freeList
      && brk == heap.brk && charged == heap.charged && count == heap.count
      && Represents(space, Now(), first, ram.headers)
    }

    /** During a call. */
    ghost predicate Synced()
      reads this, ram, ram.cells, phys, spaces
    {
      Valid() && heap.vm == VmOf(phys, spaces)
    }

    /** A heap stays valid while others change frames and pages, as long as its own pages stay mapped. */
    twostate lemma OthersKeepValid()
      requires old(Valid()) && unchanged(this) && unchanged(ram) && unchanged(ram.cells)
      requires 0 !in phys.freeList && PagesPresent(space, Now())
      ensures Valid() && Now() == old(Now()).(vm := VmOf(phys, spaces))
    {
      InvOther(space, old(Now()), VmOf(phys, spaces));
    }

    /** Block i exists and its header is at p. */
    ghost predicate At(p: int, i: nat)
      reads this
    {
      i < |heap.blocks| && p == heap.blocks[i].addr
    }

    constructor (ram: U.Ram, phys: FrameAllocator, spaces: AddressSpaces, space: int)
      requires ram.cells.Length == HEAP_MAX && ram.Coherent() && 0 !in phys.freeList
      modifies ram, ram.cells, phys, spaces
      ensures this.ram == ram && this.phys == phys && this.spaces == spaces && this.space == space
      ensures Synced() && heap == Initial(space, old(VmOf(phys, spaces)))
    {
      this.ram, this.phys, this.spaces, this.space := ram, phys, spaces, space;
      brk, first, charged, count := HEAP_START, 0, 0, 0;
      heap := Initial(space, VmOf(phys, spaces));
      new;
      InvInitial(space, VmOf(phys, spaces));
      RequestedNeverNull(VmOf(phys, spaces), space, HEAP_START / FRAME_SIZE, INITIAL_SIZE / FRAME_SIZE);
      var ok := RequestPages(phys, spaces, space, HEAP_START / FRAME_SIZE, INITIAL_SIZE / FRAME_SIZE);
      if ok {
        brk := HEAP_START + INITIAL_SIZE;
        first := HEAP_START;
        ram.Put(first, U.Header(INITIAL_SIZE - H, U.FlagsOf(true), 0, 0));
      }
    }

    method FindFreeBlock(size: int) returns (p: int, ghost i: nat)
      requires Synced()
      ensures i == FirstFit(heap.blocks, size) && p == AddrOf(heap.blocks, FirstFit(heap.blocks, size))
      ensures p != 0 <==> i < |heap.blocks|
    {
      hide Represents;
      p, i := first, 0;
      assert heap.blocks[0..] == heap.blocks;
      CursorStarts(space, heap, first, ram.headers);
      while p != 0
        invariant Cursor(heap.blocks, i, p)
        invariant FirstFit(heap.blocks, size) == i + FirstFit(heap.blocks[i..], size)
        decreases |heap.blocks| - i
      {
        CursorReads(space, heap, first, ram.headers, i, p);
        var h := ram.Get(p);
        FirstFitStep(heap.blocks, size, i);
        if h.IsFree() && h.size >= size {
          return;
        }
        p, i := h.next, i + 1;
      }
    }

    method SplitBlock(p: int, ghost i: nat, size: nat)
      requires Synced() && At(p, i) && size % 8 == 0 && size < TWO_32
      modifies this, ram, ram.cells
      ensures Synced() && heap == SplitAt(old(heap), i, size)
      ensures KeepsData(old(ram.cells[..]), ram.cells[..], old(heap.blocks), heap.blocks)
    {
      hide Represents;
      BlocksInMemory(space, heap, first, ram.headers, i);
      var h := ram.Get(p);
      if h.size < size + H + MIN_DATA {
        return;
      }
      var q := p + H + size;
      SplitReady(space, heap, first, ram.headers, i, size);
      ghost var m, d := ram.headers, ram.cells[..];
      ram.InsertAfter(p, size, q, (h.size - size - H) % TWO_32);
      SplitStep(space, heap, first, m, ram.headers, i, size);
      SplitKeepsData(space, heap, first, m, d, ram.cells[..], i, size);
      count := (count + 1) % TWO_32;
      heap := SplitAt(heap, i, size);
    }

    /** The part of coalesce_block that merges the block at p with its successor. */
    method MergeNext(p: int, ghost i: nat)
      requires Synced() && At(p, i) && JoinsNext(H, heap.blocks, i)
      modifies this, ram, ram.cells
      ensures Synced()
      ensures heap == Merged(old(heap), i)
      ensures KeepsData(old(ram.cells[..]), ram.cells[..], old(heap.blocks), heap.blocks)
    {
      hide Represents;
      MergeReady(space, heap, first, ram.headers, i);
      ghost var m, d := ram.headers, ram.cells[..];
      ram.AbsorbNext(p);
      MergeStep(space, heap, first, m, ram.headers, i);
      MergeKeepsData(space, heap, first, m, d, ram.cells[..], i);
      count := (count - 1) % TWO_32;
      heap := Merged(heap, i);
    }

    /** Either half of coalesce_block: merges the block at p with its successor if both are free and adjacent. */
    method MergeIfAdjacent(p: int, ghost i: nat)
      requires Synced() && At(p, i)
      modifies this, ram, ram.cells
      ensures Synced() && heap == Merged(old(heap), i)
      ensures KeepsData(old(ram.cells[..]), ram.cells[..], old(heap.blocks), heap.blocks)
    {
      hide Represents;
      BlocksInMemory(space, heap, first, ram.headers, i);
      var h := ram.Get(p);
      U.FlagsMeaning(h, heap.blocks[i].free);
      if h.IsFree() && h.next != 0 {
        BlocksInMemory(space, heap, first, ram.headers, i + 1);
        var n := ram.Get(h.next);
        U.FlagsMeaning(n, heap.blocks[i + 1].free);
        if n.IsFree() && p + H + h.size == h.next {
          MergeNext(p, i);
        }
      }
    }

    method CoalesceBlock(p: int, ghost i: nat)
      requires Synced() && At(p, i)
      modifies this, ram, ram.cells
      ensures Synced() && heap == Coalesced(old(heap), i)
      ensures KeepsData(old(ram.cells[..]), ram.cells[..], old(heap.blocks), heap.blocks)
    {
      hide Represents;
      BlocksInMemory(space, heap, first, ram.headers, i);
      var h := ram.Get(p);
      U.FlagsMeaning(h, heap.blocks[i].free);
      if !h.IsFree() {
        return;
      }
      ghost var bs := heap.blocks;
      MergeIfAdjacent(p, i);
      ghost var d, bt := ram.cells[..], heap.blocks;
      BlocksInMemory(space, heap, first, ram.headers, i);
      h := ram.Get(p);
      if h.prev != 0 {
        BlocksInMemory(space, heap, first, ram.headers, i - 1);
        MergeIfAdjacent(h.prev, i - 1);
        MergeKeepsBlocks(bs, i);
        KeepsDataChain(old(ram.cells[..]), d, ram.cells[..], bs, bt, heap.blocks);
      }
    }

    /** The address of the last block, null for an empty list. */
    method LastBlock() returns (last: int)
      requires ram.Coherent() && ram.cells.Length == HEAP_MAX && Represents(space, heap, first, ram.headers)
      ensures last == AddrOf(heap.blocks, |heap.blocks| - 1)
    {
      hide Inv;
      last := first;
      if first == 0 {
        assert heap.blocks == [] by {
          if heap.blocks != [] {
            BlocksInMemory(space, heap, first, ram.headers, 0);
          }
        }
        return;
      }
      ghost var i := 0;
      BlocksInMemory(space, heap, first, ram.headers, 0);
      var h := ram.Get(last);
      while h.next != 0
        invariant i < |heap.blocks| && last == heap.blocks[i].addr && h == HeaderOf(heap.blocks, i)
        invariant h.next != 0 <==> i + 1 < |heap.blocks|
        decreases |heap.blocks| - i
      {
        i := i + 1;
        BlocksInMemory(space, heap, first, ram.headers, i);
        last := h.next;
        h := ram.Get(last);
      }
    }

    method ExpandHeap(min: Word) returns (ok: bool)
      requires Synced() && 0 < min <= MAX_ALLOC + H
      modifies this, ram, ram.cells, phys, spaces
      ensures Synced() && heap == Grow(space, old(heap), min) && ok == CanGrow(old(heap), min)
      ensures KeepsData(old(ram.cells[..]), ram.cells[..], old(heap.blocks), heap.blocks)
    {
      hide Represents;
      var len := AlignUp(min);
      if brk + len > HEAP_MAX {
        return false;
      }
      ghost var s, d := heap, ram.cells[..];
      RequestStep(space, heap, first, ram.headers, len);
      RequestedNeverNull(heap.vm, space, brk / FRAME_SIZE, len / FRAME_SIZE);
      ok := RequestPages(phys, spaces, space, brk / FRAME_SIZE, len / FRAME_SIZE);
      if !ok {
        heap := Grow(space, s, min);
        return false;
      }
      var last := LastBlock();
      AppendReady(space, heap, first, ram.headers);
      ghost var m := ram.headers;
      ram.Append(last, brk, len - H);
      AppendStep(space, heap, first, m, ram.headers, len, VmOf(phys, spaces));
      AppendKeepsData(space, heap, first, m, d, ram.cells[..], len, VmOf(phys, spaces));
      if first == 0 {
        first := brk;
      }
      var p := brk;
      brk := brk + len;
      heap := Appended(heap, len, VmOf(phys, spaces));
      ghost var d', bt := ram.cells[..], heap.blocks;
      CoalesceBlock(p, |s.blocks|);
      KeepsDataChain(d, d', ram.cells[..], s.blocks, bt, heap.blocks);
    }

    /** The end of malloc: splits the block found, marks it used and charges for it. */
    method TakeBlock(p: int, ghost i: nat, size: nat)
      requires Synced() && At(p, i) && heap.blocks[i].free && size % 8 == 0 && size < TWO_32
      modifies this, ram, ram.cells
      ensures Synced() && heap == TakeAt(old(heap), i, size)
      ensures KeepsData(old(ram.cells[..]), ram.cells[..], old(heap.blocks), heap.blocks)
    {
      hide Represents;
      ghost var s, d := heap, ram.cells[..];
      TakeKeeps(space, heap, first, ram.headers, i, size);
      SplitBlock(p, i, size);
      ghost var t, m, d' := heap, ram.headers, ram.cells[..];
      BlocksInMemory(space, heap, first, ram.headers, i);
      ram.Mark(p, false);
      MarkStep(space, t, first, m, ram.headers, i, false);
      MarkKeepsData(space, t, first, m, d', ram.cells[..], i, false);
      charged := (charged + size) % TWO_32;
      heap := TakeAt(s, i, size);
      ChargeStep(space, t.(blocks := SetFree(t.blocks, i, false)), first, ram.headers, charged);
      KeepsDataChain(d, d', ram.cells[..], s.blocks, t.blocks, heap.blocks);
    }

    method Malloc(size: Word) returns (ptr: int)
      requires Valid()
      modifies this, ram, ram.cells, phys, spaces
      ensures Synced() && (heap, ptr) == S.Malloc(space, old(Now()), size)
      ensures KeepsData(old(ram.cells[..]), ram.cells[..], old(heap.blocks), heap.blocks)
    {
      hide Represents, KeepsBlocks, Grow;
      heap := Now();
      if size == 0 || size > MAX_ALLOC {
        return 0;
      }
      var a := AlignUp(size);
      PageIsAligned8(a);
      ghost var s, d := heap, ram.cells[..];
      var p, i := FindFreeBlock(a);
      if p == 0 {
        var ok := ExpandHeap(a + H);
        if !ok {
          GrowFails(space, s, a + H);
          return 0;
        }
        p, i := FindFreeBlock(a);
      }
      ghost var t, d' := heap, ram.cells[..];
      if p == 0 {
        return 0;
      }
      GrowKeepsBlocks(space, s, a + H);
      TakeBlock(p, i, a);
      KeepsDataChain(d, d', ram.cells[..], s.blocks, t.blocks, heap.blocks);
      return p + H;
    }

    /** ptr is null, or what lies in front of it in the heap looks like a live header only if it is one.
        Pointers already freed, and any others without such a header in front, are allowed. */
    ghost predicate Freeable(ptr: int)
      requires Valid()
      reads this, ram, ram.cells, phys, spaces
    {
      ptr == 0 ||
      (HEAP_START + H <= ptr <= brk &&
        (LooksLive(U.HeaderAt(ram.cells[..], ptr - H)) ==> Live(heap, ptr)))
    }

    /** Reads the header in front of ptr as free and realloc do. */
    method CheckPointer(ptr: int) returns (h: U.Header)
      requires Synced() && Freeable(ptr) && ptr != 0
      ensures LooksLive(h) <==> Live(heap, ptr)
      ensures Live(heap, ptr) ==>
        h == HeaderOf(heap.blocks, LiveIndex(H, heap.blocks, ptr)) && h.size >= 0
        && At(ptr - H, LiveIndex(H, heap.blocks, ptr))
    {
      if Live(heap, ptr) {
        LiveHeader(space, heap, first, ram.headers, ptr);
      }
      h := ram.Get(ptr - H);
    }

    method Free(ptr: int)
      requires Valid() && Freeable(ptr)
      modifies this, ram, ram.cells
      ensures Synced() && heap == S.Free(old(Now()), ptr)
      ensures KeepsData(old(ram.cells[..]), ram.cells[..], old(heap.blocks), heap.blocks)
    {
      heap := Now();
      NullNotLive(space, heap, first, ram.headers);
      if ptr == 0 {
        return;
      }
      var h := CheckPointer(ptr);
      if !h.IsValid() || h.IsFree() {
        return;
      }
      hide Represents;
      ghost var i := LiveIndex(H, heap.blocks, ptr);
      ReleaseBlock(ptr - H, i);
    }

    /** The end of free: marks the block free, refunds it and coalesces it with its neighbours. */
    method ReleaseBlock(p: int, ghost i: nat)
      requires Synced() && At(p, i)
      modifies this, ram, ram.cells
      ensures Synced() && heap == ReleaseAt(old(heap), i)
      ensures KeepsData(old(ram.cells[..]), ram.cells[..], old(heap.blocks), heap.blocks)
    {
      hide Represents;
      ghost var s, m, d := heap, ram.headers, ram.cells[..];
      BlocksInMemory(space, heap, first, ram.headers, i);
      var h := ram.Get(p);
      ram.Mark(p, true);
      MarkStep(space, s, first, m, ram.headers, i, true);
      MarkKeepsData(space, s, first, m, d, ram.cells[..], i, true);
      charged := (charged - h.size) % TWO_32;
      heap := s.(blocks := SetFree(s.blocks, i, true), charged := charged);
      ChargeStep(space, s.(blocks := SetFree(s.blocks, i, true)), first, ram.headers, charged);
      ghost var t, d' := heap, ram.cells[..];
      CoalesceBlock(p, i);
      ReleaseData(d, d', ram.cells[..], s.blocks, i, heap.blocks);
    }

    method Calloc(num: Word, size: Word) returns (ptr: int)
      requires Valid()
      modifies this, ram, ram.cells, phys, spaces
      ensures Synced() && (heap, ptr) == S.Calloc(space, old(Now()), num, size)
      ensures KeepsData(old(ram.cells[..]), ram.cells[..], old(heap.blocks), heap.blocks)
      ensures ptr != 0 ==> Zeroed(ptr, num * size)
    {
      hide Represents;
      heap := Now();
      P.CallocGuard(num, size);
      if num > 0 && size > MAX_ALLOC / num {
        return 0;
      }
      ptr := MallocZeroed(num * size);
    }

    ghost predicate Zeroed(ptr: int, n: int)
      reads ram.cells
    {
      0 <= ptr && ptr + n <= ram.cells.Length && forall a :: ptr <= a < ptr + n ==> ram.cells[a] == 0
    }

    /** calloc once its guard has passed. */
    method MallocZeroed(total: Word) returns (ptr: int)
      requires Synced()
      modifies this, ram, ram.cells, phys, spaces
      ensures Synced() && (heap, ptr) == S.Malloc(space, old(heap), total)
      ensures KeepsData(old(ram.cells[..]), ram.cells[..], old(heap.blocks), heap.blocks)
      ensures ptr != 0 ==> Zeroed(ptr, total)
    {
      ghost var s, d := heap, ram.cells[..];
      assert Inv(space, s);
      hide Represents, KeepsData, P.Allocates, Inv;
      ptr := Malloc(total);
      if ptr != 0 {
        MallocGives(space, s, total, first, ram.headers);
        ghost var i, d' := LiveIndex(H, heap.blocks, ptr), ram.cells[..];
        ZeroData(ptr, i, total);
        FillNewKeepsData(space, s, heap, AlignUp(total), i, d, d', ram.cells[..], total);
      }
    }

    /** calloc's memset, on the first n bytes of block i. */
    method ZeroData(ptr: int, ghost i: nat, n: nat)
      requires Synced() && i < |heap.blocks| && heap.blocks[i].Data(H) == ptr && n <= heap.blocks[i].size
      modifies ram, ram.cells
      ensures Synced() && Zeroed(ptr, n)
      ensures ChangedWithin(old(ram.cells[..]), ram.cells[..], ptr, n)
    {
      hide Represents;
      DataInMemory(space, heap, first, ram.headers, i);
      ghost var m := ram.headers;
      ram.Fill(ptr, 0, n);
      DataStep(space, heap, first, m, ram.headers, i, n);
    }

    method Realloc(ptr: int, size: Word) returns (p: int)
      requires Valid() && Freeable(ptr)
      modifies this, ram, ram.cells, phys, spaces
      ensures Synced() && (heap, p) == S.Realloc(space, old(Now()), ptr, size)
      ensures KeepsData(old(ram.cells[..]), ram.cells[..], old(heap.blocks), heap.blocks)
      ensures p != 0 && p != ptr && old(Live(heap, ptr)) ==>
        Copied(old(ram.cells[..]), ram.cells[..], ptr, p, old(heap.blocks[LiveIndex(H, heap.blocks, ptr)].size))
    {
      heap := Now();
      NullNotLive(space, heap, first, ram.headers);
      if ptr == 0 {
        p := Malloc(size);
        return;
      }
      if size == 0 {
        Free(ptr);
        return 0;
      }
      var h := CheckPointer(ptr);
      if !h.IsValid() || h.IsFree() {
        return 0;
      }
      p := ResizeBlock(ptr, h.size, size);
    }

    /** realloc of a live block: in place if the rounded size, cut to 32 bits, fits. */
    method ResizeBlock(ptr: int, oldSize: nat, size: Word) returns (p: int)
      requires Synced() && ptr != 0 && size != 0
      requires Live(heap, ptr) && oldSize == heap.blocks[LiveIndex(H, heap.blocks, ptr)].size
      requires At(ptr - H, LiveIndex(H, heap.blocks, ptr))
      modifies this, ram, ram.cells, phys, spaces
      ensures Synced() && (heap, p) == S.Realloc(space, old(heap), ptr, size)
      ensures KeepsData(old(ram.cells[..]), ram.cells[..], old(heap.blocks), heap.blocks)
      ensures p != 0 && p != ptr ==> Copied(old(ram.cells[..]), ram.cells[..], ptr, p, oldSize)
    {
      hide Represents, KeepsData, Copied;
      ghost var i := LiveIndex(H, heap.blocks, ptr);
      var a := AlignUp(size) % TWO_32;
      Rounded32Aligned(size);
      if a <= oldSize {
        ShrinkBlock(ptr - H, i, oldSize, a);
        return ptr;
      }
      p := MoveBlock(ptr, oldSize, size);
    }

    /** realloc within a block: gives up the rest of it if that is worth a header. */
    method ShrinkBlock(p: int, ghost i: nat, oldSize: int, size: nat)
      requires Synced() && At(p, i) && oldSize == heap.blocks[i].size && size % 8 == 0 && size < TWO_32
      modifies this, ram, ram.cells
      ensures Synced() && heap == Shrink(old(heap), i, size)
      ensures KeepsData(old(ram.cells[..]), ram.cells[..], old(heap.blocks), heap.blocks)
    {
      hide Represents;
      if oldSize > size + H + MIN_DATA {
        SplitBlock(p, i, size);
      }
    }

    /** The end of realloc: a new block, the old data copied into it, and the old block freed. */
    method MoveBlock(ptr: int, oldSize: nat, size: Word) returns (p: int)
      requires Synced() && Live(heap, ptr) && oldSize == heap.blocks[LiveIndex(H, heap.blocks, ptr)].size
      requires oldSize < AlignUp(size)
      modifies this, ram, ram.cells, phys, spaces
      ensures Synced()
      ensures var (m, q) := S.Malloc(space, old(heap), size);
        p == q && heap == if q == 0 then m else S.Free(m, ptr)
      ensures KeepsData(old(ram.cells[..]), ram.cells[..], old(heap.blocks), heap.blocks)
      ensures p != 0 ==> Copied(old(ram.cells[..]), ram.cells[..], ptr, p, oldSize)
    {
      ghost var s, d := heap, ram.cells[..];
      assert Inv(space, s);
      hide Represents, KeepsData, Copied, ChangedWithin, P.Allocates, Inv;
      p := Malloc(size);
      if p == 0 {
        return;
      }
      ghost var t, d1 := heap, ram.cells[..];
      MallocMoves(space, s, size, first, ram.headers, ptr);
      MoveHappens(space, s, size, ptr);
      ghost var b, j := s.blocks[LiveIndex(H, s.blocks, ptr)], LiveIndex(H, t.blocks, p);
      CopyData(p, j, ptr, oldSize);
      ghost var d2 := ram.cells[..];
      Free(ptr);
      MoveKeeps(space, s, size, ptr, b, t, p, j, oldSize, d, d1, d2, ram.cells[..]);
      MoveCopies(space, s, size, ptr, b, t, p, j, oldSize, d, d1, d2, ram.cells[..]);
    }

    /** realloc's memcpy, into the first n bytes of block i. */
    method CopyData(dest: int, ghost i: nat, src: int, n: nat)
      requires Synced() && i < |heap.blocks| && heap.blocks[i].Data(H) == dest && n <= heap.blocks[i].size
      requires 0 <= src && src + n <= HEAP_MAX && (dest + n <= src || src + n <= dest)
      modifies ram, ram.cells
      ensures Synced() && ChangedWithin(old(ram.cells[..]), ram.cells[..], dest, n)
      ensures Copied(old(ram.cells[..]), ram.cells[..], src, dest, n)
    {
      hide Represents;
      DataInMemory(space, heap, first, ram.headers, i);
      ghost var m := ram.headers;
      ram.Copy(dest, src, n);
      DataStep(space, heap, first, m, ram.headers, i, n);
    }

    /** validate_heap: true exactly when the statistic is the bytes in use, in 32 bits. */
    method ValidateHeap() returns (ok: bool)
      requires Valid()
      ensures ok <==> Sum(heap.blocks, UsedSize()) % TWO_32 == charged
    {
      hide Represents;
      ghost var heap := Now();
      var p, counted := first, 0;
      ghost var i := 0;
      CursorStarts(space, heap, first, ram.headers);
      while p != 0
        invariant Cursor(heap.blocks, i, p) && Counted(heap.blocks, i, counted)
        decreases |heap.blocks| - i
      {
        CursorReads(space, heap, first, ram.headers, i, p);
        var h := ram.Get(p);
        if !h.IsValid() {
          return false;
        }
        CountedStep(heap.blocks, i, counted);
        if !h.IsFree() {
          counted := (counted + h.size) % TWO_32;
        }
        p, i := h.next, i + 1;
      }
      CountedAll(space, heap, first, ram.headers, i, counted);
      return counted == charged;
    }
  }
}
