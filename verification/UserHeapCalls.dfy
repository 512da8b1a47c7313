/** What each call on the user heap returns, and what it leaves of the blocks, the frames and the pages. */
module UserHeapCalls {
  import opened Words
  import opened Blocks
  import opened LiveBlocks
  import opened PageMapping
  import opened UserHeapSpec
  import opened UserHeapProperties
  import S = UserHeapSpec

  /** What malloc cannot give: no bytes, more than 2 GiB, or what no free block holds when the heap cannot grow. */
  ghost predicate Unavailable(s: Heap, size: Word) {
    || size == 0 || size > MAX_ALLOC
    || (!CanGrow(s, AlignUp(size) + H) && forall b :: b in s.blocks ==> !Fits(b, AlignUp(size)))
  }

  /** A result that is null exactly under the given condition, with no block changed, and otherwise a new block of at
      least the rounded size. */
  ghost predicate Gives(s: Heap, r: Heap, p: int, size: Word, fails: bool) {
    && (p == 0 <==> fails)
    && (p == 0 ==> r.blocks == s.blocks)
    && (p != 0 ==> Live(r, p) && Allocates(s, r, p, AlignUp(size), r.blocks[LiveIndex(H, r.blocks, p)]))
  }

  // ----- malloc -----

  lemma MallocGives(space: int, s: Heap, size: Word)
    requires Inv(space, s)
    ensures var (r, p) := Malloc(space, s, size);
      Gives(s, r, p, size, Unavailable(s, size))
  {
    hide Inv, Allocates, Malloc;
    MallocFails(space, s, size);
    if Malloc(space, s, size).1 != 0 {
      MallocAllocates(space, s, size);
    }
  }

  /** If free blocks fit, malloc takes the one that comes first in the list. */
  lemma MallocTakesFirst(space: int, s: Heap, size: Word, k: nat)
    requires 0 < size <= MAX_ALLOC && k < |s.blocks| && Fits(s.blocks[k], AlignUp(size))
    requires forall j :: 0 <= j < k ==> !Fits(s.blocks[j], AlignUp(size))
    ensures Malloc(space, s, size).1 == s.blocks[k].addr + H
    ensures Malloc(space, s, size).0.brk == s.brk && Malloc(space, s, size).0.vm == s.vm
  {
    assert FirstFit(s.blocks, AlignUp(size)) == k;
  }

  /** Otherwise it grows the heap by the pages for the rounded size and a header, if it can. */
  lemma MallocGrows(space: int, s: Heap, size: Word)
    requires 0 < size <= MAX_ALLOC && CanGrow(s, AlignUp(size) + H)
    requires forall b :: b in s.blocks ==> !Fits(b, AlignUp(size))
    ensures Malloc(space, s, size).0.brk == s.brk + AlignUp(AlignUp(size) + 24)
  {
    hide Fits, Split, MergeIfJoins;
    assert FirstFit(s.blocks, AlignUp(size)) == |s.blocks| by {
      assert forall j :: 0 <= j < |s.blocks| ==> s.blocks[j] in s.blocks;
    }
  }

  // ----- realloc -----

  /** realloc of null is malloc. */
  lemma ReallocOfNull(space: int, s: Heap, size: Word)
    requires Inv(space, s)
    ensures var (r, p) := Realloc(space, s, 0, size);
      Gives(s, r, p, size, Unavailable(s, size))
  {
    hide Inv, Gives, Malloc;
    MallocGives(space, s, size);
  }

  /** realloc to no bytes frees the block. */
  lemma ReallocToZero(space: int, s: Heap, ptr: int)
    requires Inv(space, s) && Live(s, ptr)
    ensures var (r, p) := Realloc(space, s, ptr, 0);
      p == 0 && Used(r.blocks) == Used(s.blocks) - {s.blocks[LiveIndex(H, s.blocks, ptr)]} && !Live(r, ptr)
  {
    var i := LiveIndex(H, s.blocks, ptr);
    FreeReleases(space, s, ptr);
    HeapApart(space, s);
    LivePositive(space, s, ptr);
    var r := Free(s, ptr);
    if Live(r, ptr) {
      var c := r.blocks[LiveIndex(H, r.blocks, ptr)];
      assert c in Used(r.blocks) && c in Used(s.blocks) && c.addr == s.blocks[i].addr;
      OneBlockPerAddress(H, s.blocks, i);
      assert false;
    }
  }

  lemma LivePositive(space: int, s: Heap, ptr: int)
    requires Inv(space, s) && Live(s, ptr)
    ensures ptr > 0
  {
    TilesOrder(H, s.blocks, HEAP_START, s.brk);
  }

  /** realloc of a pointer that is not live gives null, and changes nothing. */
  lemma ReallocOfOther(space: int, s: Heap, ptr: int, size: Word)
    requires ptr != 0 && !Live(s, ptr)
    ensures Realloc(space, s, ptr, size) == (s, 0)
  {
  }

  /** realloc returns the old pointer if and only if the block holds the rounded size as cut to 32 bits; when it has to
      move and malloc gives nothing, it gives nothing. */
  lemma ReallocStays(space: int, s: Heap, ptr: int, size: Word)
    requires Inv(space, s) && Live(s, ptr) && size > 0
    ensures var p := Realloc(space, s, ptr, size).1;
      var n, cut := s.blocks[LiveIndex(H, s.blocks, ptr)].size, AlignUp(size) % TWO_32;
      && (p == ptr <==> cut <= n)
      && (p == 0 <==> cut > n && Unavailable(s, size))
  {
    LivePositive(space, s, ptr);
    var b := s.blocks[LiveIndex(H, s.blocks, ptr)];
    NewElsewhere(space, s, size, b);
    MallocFails(space, s, size);
  }

  /** The size of the block with its data at ptr, if it is in use. */
  function SizeAt(s: Heap, ptr: int): int {
    if Live(s, ptr) then s.blocks[LiveIndex(H, s.blocks, ptr)].size else -1
  }

  /** What a block of n bytes keeps when size bytes are asked of it: the rest goes if a header and 16 bytes fit in it. */
  function KeptSize(n: int, size: int): int {
    if n - size > 24 + 16 then size else n
  }

  /** A block that stays keeps what is asked of it, and more only if that is too little to be a block. */
  lemma ReallocKeeps(space: int, s: Heap, ptr: int, size: Word)
    requires Inv(space, s) && Live(s, ptr) && size > 0 && AlignUp(size) % TWO_32 <= SizeAt(s, ptr)
    ensures SizeAt(Realloc(space, s, ptr, size).0, ptr) == KeptSize(SizeAt(s, ptr), AlignUp(size) % TWO_32)
  {
    hide Inv, Malloc, Free, Shrink, LiveIndex;
    LivePositive(space, s, ptr);
    ShrinkReplaces(space, s, LiveIndex(H, s.blocks, ptr), AlignUp(size) % TWO_32);
  }

  /** malloc returns the data of no block in use. */
  lemma NewElsewhere(space: int, s: Heap, size: Word, b: Block)
    requires Inv(space, s) && b in s.blocks && !b.free
    ensures Malloc(space, s, size).1 != 0 ==> Malloc(space, s, size).1 != b.Data(H)
  {
    var (r, p) := Malloc(space, s, size);
    if p != 0 {
      MallocAllocates(space, s, size);
      TilesOrder(H, s.blocks, HEAP_START, s.brk);
      assert b in Used(s.blocks) && Apart(H, r.blocks[LiveIndex(H, r.blocks, p)], b);
    }
  }

  // ----- calloc -----

  /** calloc fails exactly for products that malloc cannot give; otherwise its block holds the true product. */
  lemma CallocGives(space: int, s: Heap, num: Word, size: Word)
    requires Inv(space, s)
    ensures var (r, p) := Calloc(space, s, num, size);
      if num * size > MAX_ALLOC then p == 0 && r == s else Gives(s, r, p, num * size, Unavailable(s, num * size))
  {
    hide Inv, Allocates, Malloc;
    CallocGuard(num, size);
    if num * size <= MAX_ALLOC {
      MallocGives(space, s, num * size);
    }
  }

  // ----- the constructor and growth -----

  /** A new heap has all of the first mebibyte to give, from its start; without frames for that it has nothing. */
  lemma NewHeapGives(space: int, vm: Vm, size: Word)
    ensures var s := Initial(space, vm);
      if INITIAL_SIZE / FRAME_SIZE <= |vm.frames| then
        && s.brk == HEAP_START + INITIAL_SIZE && s.vm.frames == vm.frames[INITIAL_SIZE / FRAME_SIZE..]
        && (0 < size && AlignUp(size) <= INITIAL_SIZE - H && size <= MAX_ALLOC ==>
              Malloc(space, s, size).1 == HEAP_START + H && Malloc(space, s, size).0.brk == s.brk)
      else s.blocks == [] && s.brk == HEAP_START && s.vm.frames == []
  {
    var s := Initial(space, vm);
    if INITIAL_SIZE / FRAME_SIZE <= |vm.frames| {
      MappedExactly(vm, space, HEAP_START / FRAME_SIZE, INITIAL_SIZE / FRAME_SIZE);
      if 0 < size && AlignUp(size) <= INITIAL_SIZE - H && size <= MAX_ALLOC {
        MallocTakesFirst(space, s, size, 0);
      }
    } else {
      RequestFails(vm, space, HEAP_START / FRAME_SIZE, INITIAL_SIZE / FRAME_SIZE);
    }
  }

  /** The pages of a heap end at its break. */
  ghost predicate EndsAtBreak(space: int, s: Heap) {
    forall p :: s.brk <= p * FRAME_SIZE < HEAP_MAX ==> Slot(space, p) !in s.vm.pages
  }

  /** Growth takes exactly the pages it needs, in order. It fails for lack of address space without using a frame, and
      for lack of frames after using them all, with every page mapped as before. */
  lemma GrowsExactly(space: int, s: Heap, min: Word)
    requires Inv(space, s) && EndsAtBreak(space, s) && 0 < min <= MAX_ALLOC + H
    ensures var g, n := Grow(space, s, min), AlignUp(min) / FRAME_SIZE;
      && (CanGrow(s, min) ==>
            && g.brk == s.brk + AlignUp(min) && g.vm.frames == s.vm.frames[n..] && EndsAtBreak(space, g)
            && Used(g.blocks) == Used(s.blocks) && g.charged == s.charged)
      && (s.brk + AlignUp(min) > HEAP_MAX ==> g == s)
      && (s.brk + AlignUp(min) <= HEAP_MAX && n > |s.vm.frames| ==>
            g == s.(vm := Vm([], s.vm.pages)))
  {
    var len := AlignUp(min);
    var page, n := s.brk / FRAME_SIZE, len / FRAME_SIZE;
    UsedOfGrow(space, s, min);
    if s.brk + len <= HEAP_MAX {
      if n <= |s.vm.frames| {
        MappedExactly(s.vm, space, page, n);
      } else {
        RequestOfUnmapped(s.vm, space, page, n);
      }
    }
  }

  // ----- that the pages end at the break, over runs -----

  /** A new heap has its pages below its break, whether it got its first mebibyte or not. */
  lemma NewHeapEnds(space: int, vm: Vm)
    requires forall p :: HEAP_START <= p * FRAME_SIZE < HEAP_MAX ==> Slot(space, p) !in vm.pages
    ensures EndsAtBreak(space, Initial(space, vm))
  {
    var page, n := HEAP_START / FRAME_SIZE, INITIAL_SIZE / FRAME_SIZE;
    if n <= |vm.frames| {
      MappedExactly(vm, space, page, n);
    } else {
      RequestOfUnmapped(vm, space, page, n);
    }
  }

  lemma GrowEnds(space: int, s: Heap, min: Word)
    requires Inv(space, s) && EndsAtBreak(space, s) && 0 < min <= MAX_ALLOC + H
    ensures EndsAtBreak(space, Grow(space, s, min))
  {
    GrowsExactly(space, s, min);
  }

  lemma MallocEnds(space: int, s: Heap, size: Word)
    requires Inv(space, s) && EndsAtBreak(space, s)
    ensures EndsAtBreak(space, Malloc(space, s, size).0)
  {
    hide Inv, Grow;
    if 0 < size <= MAX_ALLOC {
      GrowEnds(space, s, AlignUp(size) + H);
    }
  }

  lemma StepEnds(space: int, s: Heap, op: Call)
    requires Inv(space, s) && EndsAtBreak(space, s) && (op.DoOther? ==> EndsAtBreak(space, s.(vm := op.vm)))
    ensures EndsAtBreak(space, S.Step(space, s, op))
  {
    hide Inv, Malloc;
    match op
    case DoMalloc(size) => MallocEnds(space, s, size);
    case DoFree(_) =>
    case DoRealloc(_, size) => MallocEnds(space, s, size);
    case DoCalloc(num, size) =>
      if num * size < TWO_64 {
        MallocEnds(space, s, num * size);
      }
    case DoOther(_) =>
  }

  /** Others map nothing where the heap may grow. */
  ghost predicate Considerate(space: int, s: Heap, ops: seq<Call>)
    decreases |ops|
  {
    ops != [] ==>
      && (ops[0].DoOther? ==> EndsAtBreak(space, s.(vm := ops[0].vm)))
      && Considerate(space, S.Step(space, s, ops[0]), ops[1..])
  }

  /** So in every reachable heap the pages end at the break, and a growth that fails leaves the page map alone. */
  lemma {:induction false} RunEnds(space: int, s: Heap, ops: seq<Call>)
    requires Inv(space, s) && EndsAtBreak(space, s) && Considerate(space, s, ops)
    ensures EndsAtBreak(space, S.Run(space, s, ops))
    decreases |ops|
  {
    hide Inv, EndsAtBreak, S.Step;
    if ops != [] {
      InvStep(space, s, ops[0]);
      StepEnds(space, s, ops[0]);
      RunEnds(space, S.Step(space, s, ops[0]), ops[1..]);
    }
  }
}
