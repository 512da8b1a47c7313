/** What callers of the user allocator may rely on. */
module UserHeapProperties {
  import opened Words
  import opened Blocks
  import opened LiveBlocks
  import opened UserHeapSpec

  lemma HeapApart(space: int, s: Heap)
    requires Inv(space, s)
    ensures AllApart(H, s.blocks)
  {
    TilesApart(H, s.blocks, HEAP_START, s.brk);
  }

  lemma UsedOfGrow(space: int, s: Heap, min: Word)
    ensures Used(Grow(space, s, min).blocks) == Used(s.blocks)
  {
    UsedOfExtend(H, s.blocks, s.brk, AlignUp(min));
  }

  // ----- malloc -----

  /** What a successful allocation gives: a new live block, big enough but wasting less than a header and 16 bytes,
      aligned, apart from every allocation there was, all of which remain as they were. */
  ghost predicate Allocates(s: Heap, r: Heap, p: int, size: int, b: Block) {
    && b.Data(H) == p && p % 8 == 0 && HEAP_START < p
    && size <= b.size < size + H + MIN_DATA
    && b !in Used(s.blocks) && Used(r.blocks) == Used(s.blocks) + {b}
    && forall c :: c in Used(s.blocks) ==> Apart(H, b, c)
  }

  lemma UsedOfTake(space: int, s: Heap, i: nat, size: nat)
    requires Inv(space, s) && i < |s.blocks| && s.blocks[i].free
    ensures var b := Block(s.blocks[i].addr, if Splits(H, s.blocks[i], size) then size else s.blocks[i].size, false);
      var bs := TakeAt(s, i, size).blocks;
      && i < |bs| && bs[i] == b && Used(bs) == Used(s.blocks) + {b} && b !in Used(s.blocks)
      && AllApart(H, bs) && (forall c :: c in Used(s.blocks) ==> Apart(H, b, c))
  {
    var t := Split(H, s.blocks, i, size);
    HeapApart(space, s);
    TilesSplit(H, s.blocks, i, size, HEAP_START, s.brk);
    TilesApart(H, t, HEAP_START, s.brk);
    TilesSetFree(H, t, i, false, HEAP_START, s.brk);
    TilesApart(H, SetFree(t, i, false), HEAP_START, s.brk);
    UsedOfAllocate(H, s.blocks, i, size);
  }

  lemma DataAligned(b: Block)
    requires b.addr % 8 == 0
    ensures b.Data(H) % 8 == 0
  {
    assert b.Data(H) == 8 * (b.addr / 8 + 3);
  }

  lemma TakeAllocates(space: int, s: Heap, i: nat, size: nat)
    requires Inv(space, s) && i < |s.blocks| && Fits(s.blocks[i], size)
    ensures var r := TakeAt(s, i, size);
      i < |r.blocks| && Allocates(s, r, s.blocks[i].Data(H), size, r.blocks[i])
  {
    UsedOfTake(space, s, i, size);
    TilesOrder(H, s.blocks, HEAP_START, s.brk);
    assert s.blocks[i] in s.blocks;
    DataAligned(TakeAt(s, i, size).blocks[i]);
  }

  /** After growing by enough for size bytes and a header, the second search always succeeds. */
  lemma GrowThenFits(space: int, s: Heap, size: Word)
    requires Inv(space, s) && size + H <= MAX_ALLOC + H && CanGrow(s, size + H)
    ensures FirstFit(Grow(space, s, size + H).blocks, size) < |Grow(space, s, size + H).blocks|
  {
    var len := AlignUp(size + H);
    var g := Grow(space, s, size + H);
    var last := g.blocks[|g.blocks| - 1];
    InvGrow(space, s, size + H);
    TilesOrder(H, s.blocks, HEAP_START, s.brk);
    assert last.free && last.size >= len - H;
  }

  lemma UsedOfReady(space: int, s: Heap, size: Word)
    requires size <= MAX_ALLOC
    ensures Used(Ready(space, s, size).blocks) == Used(s.blocks)
  {
    UsedOfGrow(space, s, size + H);
  }

  lemma MallocAllocates(space: int, s: Heap, size: Word)
    requires Inv(space, s) && Malloc(space, s, size).1 != 0
    ensures var (r, p) := Malloc(space, s, size);
      Live(r, p) && Allocates(s, r, p, AlignUp(size), r.blocks[LiveIndex(H, r.blocks, p)])
  {
    var a := AlignUp(size);
    var t, r := Ready(space, s, a), Malloc(space, s, size).0;
    InvReady(space, s, a);
    UsedOfReady(space, s, a);
    var j := FirstFit(t.blocks, a);
    TakeAllocates(space, t, j, a);
    InvMalloc(space, s, size);
    HeapApart(space, r);
    LiveMeansUsed(H, r.blocks, r.blocks[j]);
  }

  lemma TakeFirstFails(space: int, s: Heap, size: nat)
    requires Inv(space, s)
    ensures TakeFirst(s, size).1 == 0 <==> FirstFit(s.blocks, size) == |s.blocks|
  {
    TilesOrder(H, s.blocks, HEAP_START, s.brk);
  }

  lemma ReadyFits(space: int, s: Heap, size: Word)
    requires Inv(space, s) && size <= MAX_ALLOC
    ensures var t := Ready(space, s, size);
      FirstFit(t.blocks, size) == |t.blocks| <==> !CanGrow(s, size + H) && FirstFit(s.blocks, size) == |s.blocks|
    ensures FirstFit(Ready(space, s, size).blocks, size) == |Ready(space, s, size).blocks| ==>
      Ready(space, s, size).blocks == s.blocks
  {
    if CanGrow(s, size + H) {
      GrowThenFits(space, s, size);
    }
  }

  /** malloc returns null exactly for a zero or too large size, or when no free block fits and the heap cannot grow;
      then it leaves the blocks as they were. */
  lemma MallocFails(space: int, s: Heap, size: Word)
    requires Inv(space, s)
    ensures Malloc(space, s, size).1 == 0 <==>
      || size == 0 || size > MAX_ALLOC
      || (!CanGrow(s, AlignUp(size) + H) && forall b :: b in s.blocks ==> !Fits(b, AlignUp(size)))
    ensures Malloc(space, s, size).1 == 0 ==> Malloc(space, s, size).0.blocks == s.blocks
  {
    if 0 < size <= MAX_ALLOC {
      var a := AlignUp(size);
      InvReady(space, s, a);
      ReadyFits(space, s, a);
      TakeFirstFails(space, Ready(space, s, a), a);
      assert FirstFit(s.blocks, a) < |s.blocks| ==> s.blocks[FirstFit(s.blocks, a)] in s.blocks;
    }
  }

  // ----- free -----

  /** free ends the life of exactly the block it is given, and does nothing for any other pointer. */
  lemma FreeReleases(space: int, s: Heap, ptr: int)
    requires Inv(space, s)
    ensures Live(s, ptr) ==> Used(Free(s, ptr).blocks) == Used(s.blocks) - {s.blocks[LiveIndex(H, s.blocks, ptr)]}
    ensures !Live(s, ptr) ==> Free(s, ptr) == s
  {
    if Live(s, ptr) {
      var i := LiveIndex(H, s.blocks, ptr);
      HeapApart(space, s);
      UsedOfRelease(H, s.blocks, i);
    }
  }

  /** A block taken from the list and released: the blocks and their count are restored exactly unless the block
      had a free neighbour; the byte statistic is restored exactly if the block was not larger than asked for. */
  lemma ReleaseUndoesTake(space: int, s: Heap, i: nat, a: nat)
    requires Inv(space, s) && i < |s.blocks| && Fits(s.blocks[i], a) && a % 8 == 0
    ensures i < |TakeAt(s, i, a).blocks|
    ensures var f := ReleaseAt(TakeAt(s, i, a), i);
      && (f.blocks == s.blocks <==>
            !JoinsNext(H, s.blocks, i - 1) && (Splits(H, s.blocks[i], a) || !JoinsNext(H, s.blocks, i)))
      && (f.blocks == s.blocks ==> f.count == s.count)
  {
    RoundTrip(H, s.blocks, i, a);
    InvTake(space, s, i, a);
    InvRelease(space, TakeAt(s, i, a), i);
    UsedOfTake(space, s, i, a);
  }

  lemma ReleaseRefundsTake(space: int, s: Heap, i: nat, a: nat)
    requires Inv(space, s) && i < |s.blocks| && Fits(s.blocks[i], a)
    ensures i < |TakeAt(s, i, a).blocks|
    ensures ReleaseAt(TakeAt(s, i, a), i).charged == s.charged <==> Splits(H, s.blocks[i], a) || s.blocks[i].size == a
  {
    AllocatedBlock(H, s.blocks, i, a);
    BlockBounded(space, s, i);
    SmallDifference(s.charged, a, TakeAt(s, i, a).blocks[i].size);
  }

  lemma BlockBounded(space: int, s: Heap, i: nat)
    requires Inv(space, s) && i < |s.blocks|
    ensures HEAP_START <= s.blocks[i].addr && 0 <= s.blocks[i].size < HEAP_MAX
  {
    TilesOrder(H, s.blocks, HEAP_START, s.brk);
  }

  /** The round trip of the allocator: free of what malloc just returned from the list. */
  lemma FreeUndoesMalloc(space: int, s: Heap, size: Word)
    requires Inv(space, s) && 0 < size <= MAX_ALLOC && FirstFit(s.blocks, AlignUp(size)) < |s.blocks|
    ensures var (r, p) := Malloc(space, s, size);
      var i := FirstFit(s.blocks, AlignUp(size));
      && (Free(r, p).blocks == s.blocks <==>
            !JoinsNext(H, s.blocks, i - 1) && (Splits(H, s.blocks[i], AlignUp(size)) || !JoinsNext(H, s.blocks, i)))
      && (Free(r, p).blocks == s.blocks ==> Free(r, p) == s.(charged := Free(r, p).charged))
      && (Free(r, p).charged == s.charged <==>
            Splits(H, s.blocks[i], AlignUp(size)) || s.blocks[i].size == AlignUp(size))
  {
    var a := AlignUp(size);
    var i := FirstFit(s.blocks, a);
    var (r, p) := Malloc(space, s, size);
    PageIsAligned8(a);
    ReleaseUndoesTake(space, s, i, a);
    ReleaseRefundsTake(space, s, i, a);
    InvTake(space, s, i, a);
    UsedOfTake(space, s, i, a);
    OneBlockPerAddress(H, r.blocks, i);
    LiveMeansUsed(H, r.blocks, r.blocks[i]);
    assert LiveIndex(H, r.blocks, p) == i;
  }

  lemma SmallDifference(c: int, a: int, b: int)
    requires 0 <= c < TWO_32 && 0 <= b - a < TWO_32
    ensures ((c + a) % TWO_32 - b) % TWO_32 == c <==> a == b
  {
  }

  /** With every free neighbour merged, malloc followed by free restores the blocks. */
  lemma {:induction false} NoPairsNoJoin(bs: seq<Block>, i: int)
    requires FreePairs(H, bs) == 0
    ensures !JoinsNext(H, bs, i)
  {
    if JoinsNext(H, bs, i) {
      PairsOfMerge(H, bs, i);
    }
  }

  // ----- realloc and calloc -----

  /** The allocation b has become c; all others are as they were, and c is apart from them. */
  ghost predicate Replaces(s: Heap, r: Heap, b: Block, c: Block) {
    && Used(r.blocks) == Used(s.blocks) - {b} + {c}
    && forall d :: d in Used(s.blocks) && d != b ==> Apart(H, c, d)
  }

  /** realloc of a live block: null leaves every allocation alone; otherwise the block is replaced by the one returned,
      which holds the bytes asked for if and only if the rounded size survived its cut to 32 bits, or was cut to
      something the old block could not hold. */
  lemma ReallocReplaces(space: int, s: Heap, ptr: int, size: Word)
    requires Inv(space, s) && Live(s, ptr) && size > 0
    ensures var (r, p) := Realloc(space, s, ptr, size);
      var b := s.blocks[LiveIndex(H, s.blocks, ptr)];
      && (p == 0 ==> r.blocks == s.blocks)
      && (p != 0 ==> Live(r, p))
      && (p != 0 ==> Replaces(s, r, b, r.blocks[LiveIndex(H, r.blocks, p)]))
      && ((p == 0 || r.blocks[LiveIndex(H, r.blocks, p)].size >= size) <==>
            size <= TWO_32 - FRAME_SIZE || Rounded32(size) > b.size)
  {
    var i := LiveIndex(H, s.blocks, ptr);
    var b := s.blocks[i];
    TilesOrder(H, s.blocks, HEAP_START, s.brk);
    assert b.size < TWO_32 - FRAME_SIZE;
    if size <= TWO_32 - FRAME_SIZE {
      Rounded32Exact(size);
    }
    if Rounded32(size) <= b.size {
      Rounded32Aligned(size);
      ShrinkReplaces(space, s, i, Rounded32(size));
    } else {
      var (m, p) := Malloc(space, s, size);
      MallocFails(space, s, size);
      if p != 0 {
        MoveReplaces(space, s, ptr, size);
      }
    }
  }

  /** The cut to 32 bits spares exactly these sizes. */
  lemma Rounded32Exact(size: Word)
    ensures size <= Rounded32(size) <==> size <= TWO_32 - FRAME_SIZE
    ensures size <= TWO_32 - FRAME_SIZE ==> Rounded32(size) == AlignUp(size)
  {
  }

  lemma ShrinkReplaces(space: int, s: Heap, i: nat, size: nat)
    requires Inv(space, s) && i < |s.blocks| && !s.blocks[i].free && size <= s.blocks[i].size && size % 8 == 0
    ensures var r := Shrink(s, i, size);
      var b, p := s.blocks[i], s.blocks[i].Data(H);
      && Live(r, p) && var c := r.blocks[LiveIndex(H, r.blocks, p)];
      && c == b.(size := if b.size > size + H + MIN_DATA then size else b.size)
      && Replaces(s, r, b, c)
  {
    var r := Shrink(s, i, size);
    InvSplit(space, s, i, size);
    HeapApart(space, s);
    HeapApart(space, r);
    UsedOfSplit(H, s.blocks, i, size);
    OneBlockPerAddress(H, s.blocks, i);
    LiveMeansUsed(H, r.blocks, r.blocks[i]);
    OneBlockPerAddress(H, r.blocks, i);
  }

  lemma MoveReplaces(space: int, s: Heap, ptr: int, size: Word)
    requires Inv(space, s) && Live(s, ptr) && Malloc(space, s, size).1 != 0
    ensures var (m, p) := Malloc(space, s, size);
      var b := s.blocks[LiveIndex(H, s.blocks, ptr)];
      var r := Free(m, ptr);
      && Live(m, ptr) && m.blocks[LiveIndex(H, m.blocks, ptr)] == b && Live(r, p)
      && var c := r.blocks[LiveIndex(H, r.blocks, p)];
      && Allocates(s, m, p, AlignUp(size), c) && Replaces(s, r, b, c)
  {
    var (m, p) := Malloc(space, s, size);
    var b := s.blocks[LiveIndex(H, s.blocks, ptr)];
    MallocAllocates(space, s, size);
    InvMalloc(space, s, size);
    HeapApart(space, m);
    LiveMeansUsed(H, m.blocks, b);
    var c := m.blocks[LiveIndex(H, m.blocks, p)];
    FreeReleases(space, m, ptr);
    InvFree(space, m, ptr);
    var r := Free(m, ptr);
    HeapApart(space, r);
    LiveMeansUsed(H, r.blocks, c);
  }

  /** A request for 4 GiB less a byte is cut to zero: the old pointer comes back, its block split at size zero. */
  lemma ReallocTruncates(space: int, s: Heap, ptr: int)
    requires Inv(space, s) && Live(s, ptr)
    ensures Realloc(space, s, ptr, TWO_32 - 1).1 == ptr
    ensures s.blocks[LiveIndex(H, s.blocks, ptr)].size < TWO_32 - 1
  {
    TilesOrder(H, s.blocks, HEAP_START, s.brk);
    assert Rounded32(TWO_32 - 1) == 0;
  }

  /** calloc's guard rejects exactly the products above 2 GiB, so the product it computes never wraps. */
  lemma CallocGuard(num: Word, size: Word)
    ensures CallocRejects(num, size) <==> num * size > MAX_ALLOC
  {
    if num > 0 {
      var q := MAX_ALLOC / num;
      assert q * num <= MAX_ALLOC < (q + 1) * num;
      if size > q {
        assert (q + 1) * num <= size * num;
      } else {
        assert size * num <= q * num;
      }
    }
  }

  // ----- fragmentation -----

  /** A realloc that gives up the end of its block. */
  predicate Shrinks(s: Heap, op: Call) {
    && op.DoRealloc? && op.ptr != 0 && op.size > 0 && Live(s, op.ptr)
    && s.blocks[LiveIndex(H, s.blocks, op.ptr)].size > Rounded32(op.size) + H + MIN_DATA
  }

  ghost function CountShrinks(space: int, s: Heap, ops: seq<Call>): nat
    decreases |ops|
  {
    if ops == [] then 0
    else (if Shrinks(s, ops[0]) then 1 else 0) + CountShrinks(space, Step(space, s, ops[0]), ops[1..])
  }

  lemma ReadyPairs(space: int, s: Heap, size: Word)
    requires size <= MAX_ALLOC
    ensures FreePairs(H, Ready(space, s, size).blocks) == FreePairs(H, s.blocks)
  {
    hide FreePairs;
    PairsOfExtend(H, s.blocks, s.brk, AlignUp(size + H));
  }

  lemma TakeFirstPairs(s: Heap, size: int)
    ensures FreePairs(H, TakeFirst(s, size).0.blocks) <= FreePairs(H, s.blocks)
  {
    hide FreePairs;
    if FirstFit(s.blocks, size) < |s.blocks| {
      PairsOfAllocate(H, s.blocks, FirstFit(s.blocks, size), size);
    }
  }

  lemma MallocPairs(space: int, s: Heap, size: Word)
    ensures FreePairs(H, Malloc(space, s, size).0.blocks) <= FreePairs(H, s.blocks)
  {
    hide FreePairs, TakeFirst, Ready;
    if 0 < size <= MAX_ALLOC {
      ReadyPairs(space, s, AlignUp(size));
      TakeFirstPairs(Ready(space, s, AlignUp(size)), AlignUp(size));
    }
  }

  lemma FreePairsKept(s: Heap, ptr: int)
    ensures FreePairs(H, Free(s, ptr).blocks) == FreePairs(H, s.blocks)
  {
    if Live(s, ptr) {
      PairsOfRelease(H, s.blocks, LiveIndex(H, s.blocks, ptr));
    }
  }

  lemma MovePairs(space: int, s: Heap, ptr: int, size: Word)
    ensures FreePairs(H, Free(Malloc(space, s, size).0, ptr).blocks) <= FreePairs(H, s.blocks)
  {
    MallocPairs(space, s, size);
    FreePairsKept(Malloc(space, s, size).0, ptr);
  }

  lemma ShrinkPairs(s: Heap, i: nat, size: int)
    requires i < |s.blocks| && !s.blocks[i].free
    ensures FreePairs(H, Shrink(s, i, size).blocks) <= FreePairs(H, s.blocks) + 1
  {
    PairsOfSplit(H, s.blocks, i, size);
  }

  lemma ReallocPairs(space: int, s: Heap, ptr: int, size: Word)
    ensures FreePairs(H, Realloc(space, s, ptr, size).0.blocks) <=
      FreePairs(H, s.blocks) + if Shrinks(s, DoRealloc(ptr, size)) then 1 else 0
  {
    MallocPairs(space, s, size);
    FreePairsKept(s, ptr);
    MovePairs(space, s, ptr, size);
    if Live(s, ptr) {
      ShrinkPairs(s, LiveIndex(H, s.blocks, ptr), Rounded32(size));
    }
  }

  lemma StepPairs(space: int, s: Heap, op: Call)
    ensures FreePairs(H, Step(space, s, op).blocks) <= FreePairs(H, s.blocks) + if Shrinks(s, op) then 1 else 0
  {
    match op
    case DoMalloc(size) => MallocPairs(space, s, size);
    case DoFree(ptr) => FreePairsKept(s, ptr);
    case DoCalloc(num, size) =>
      if num * size < TWO_64 {
        MallocPairs(space, s, num * size);
      }
    case DoRealloc(ptr, size) => ReallocPairs(space, s, ptr, size);
    case DoOther(_) =>
  }

  /** Over every run the free neighbours left unmerged are no more than the reallocs that gave up part of a block. */
  lemma {:induction false} RunFragmentation(space: int, s: Heap, ops: seq<Call>)
    ensures FreePairs(H, Run(space, s, ops).blocks) <= FreePairs(H, s.blocks) + CountShrinks(space, s, ops)
    decreases |ops|
  {
    if ops != [] {
      StepPairs(space, s, ops[0]);
      RunFragmentation(space, Step(space, s, ops[0]), ops[1..]);
    }
  }

  /** So without such reallocs a fully coalesced heap stays so: malloc, free, calloc, and reallocs that grow or keep
      their block. */
  lemma FullCoalescing(space: int, s: Heap, ops: seq<Call>)
    requires FreePairs(H, s.blocks) == 0 && CountShrinks(space, s, ops) == 0
    ensures FreePairs(H, Run(space, s, ops).blocks) == 0
  {
    RunFragmentation(space, s, ops);
  }
}
