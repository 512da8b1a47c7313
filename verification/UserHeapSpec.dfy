/** What the operations of user_allocator.cpp do to the abstract heap, a list of blocks, and what follows on every run. */
module UserHeapSpec {
  import opened Words
  import opened Blocks
  import opened PageMapping

  const H: int := 24  // sizeof(user_block)
  const HEAP_START: int := 0x0800_0000
  const HEAP_MAX: int := 0x4000_0000
  const INITIAL_SIZE: int := 0x10_0000
  const MAX_ALLOC: int := 0x8000_0000

  /** brk is heap_current_; charged and count are the 32-bit statistics; growths counts successful
      requests for memory, the constructor's included. */
  datatype Heap = Heap(blocks: seq<Block>, brk: int, charged: int, count: int, growths: nat, vm: Vm)

  function Initial(space: int, vm: Vm): Heap {
    var vm' := Requested(vm, space, HEAP_START / FRAME_SIZE, INITIAL_SIZE / FRAME_SIZE);
    if INITIAL_SIZE / FRAME_SIZE <= |vm.frames|
    then Heap([Block(HEAP_START, INITIAL_SIZE - H, true)], HEAP_START + INITIAL_SIZE, 0, 0, 1, vm')
    else Heap([], HEAP_START, 0, 0, 0, vm')
  }

  /** The block counter after merging blocks i and i + 1, if they join. */
  function CountMerge(bs: seq<Block>, i: int, count: int): int {
    if JoinsNext(H, bs, i) then (count - 1) % TWO_32 else count
  }

  /** The heap after merging blocks i and i + 1, if they join. */
  function Merged(s: Heap, i: int): Heap {
    s.(blocks := MergeIfJoins(H, s.blocks, i), count := CountMerge(s.blocks, i, s.count))
  }

  /** The heap after coalesce_block on block i. */
  function Coalesced(s: Heap, i: nat): Heap
    requires i < |s.blocks|
  {
    Merged(Merged(s, i), i - 1)
  }

  /** The heap with len more bytes as one free block at the end, before it is coalesced. */
  function Appended(s: Heap, len: int, vm: Vm): Heap {
    s.(blocks := s.blocks + [Block(s.brk, len - H, true)], brk := s.brk + len, growths := s.growths + 1, vm := vm)
  }

  predicate CanGrow(s: Heap, min: Word) {
    s.brk + AlignUp(min) <= HEAP_MAX && AlignUp(min) / FRAME_SIZE <= |s.vm.frames|
  }

  /** expand_heap. Only the fixed maximum limits it; a lack of frames is found out by using them up. */
  function Grow(space: int, s: Heap, min: Word): Heap {
    var len := AlignUp(min);
    if s.brk + len > HEAP_MAX then s
    else
      var vm' := Requested(s.vm, space, s.brk / FRAME_SIZE, len / FRAME_SIZE);
      if len / FRAME_SIZE > |s.vm.frames| then s.(vm := vm')
      else Coalesced(Appended(s, len, vm'), |s.blocks|)
  }

  function SplitAt(s: Heap, i: nat, size: int): Heap
    requires i < |s.blocks|
  {
    s.(blocks := Split(H, s.blocks, i, size),
       count := if Splits(H, s.blocks[i], size) then (s.count + 1) % TWO_32 else s.count)
  }

  function TakeAt(s: Heap, i: nat, size: int): (r: Heap)
    requires i < |s.blocks|
    ensures r.blocks == Allocate(H, s.blocks, i, size)
  {
    var t := SplitAt(s, i, size);
    t.(blocks := SetFree(t.blocks, i, false), charged := (s.charged + size) % TWO_32)
  }

  function TakeFirst(s: Heap, size: int): (Heap, int) {
    var i := FirstFit(s.blocks, size);
    if i < |s.blocks| then (TakeAt(s, i, size), s.blocks[i].Data(H)) else (s, 0)
  }

  /** The heap malloc searches: grown first when nothing in it fits. */
  function Ready(space: int, s: Heap, size: Word): Heap
    requires size <= MAX_ALLOC
  {
    if FirstFit(s.blocks, size) < |s.blocks| then s else Grow(space, s, size + H)
  }

  function Malloc(space: int, s: Heap, size: Word): (Heap, int) {
    if size == 0 || size > MAX_ALLOC then (s, 0) else TakeFirst(Ready(space, s, AlignUp(size)), AlignUp(size))
  }

  predicate Live(s: Heap, ptr: int) {
    LiveIndex(H, s.blocks, ptr) < |s.blocks|
  }

  function ReleaseAt(s: Heap, i: nat): (r: Heap)
    requires i < |s.blocks|
    ensures r.blocks == Release(H, s.blocks, i)
  {
    Coalesced(s.(blocks := SetFree(s.blocks, i, true), charged := (s.charged - s.blocks[i].size) % TWO_32), i)
  }

  function Free(s: Heap, ptr: int): Heap {
    if Live(s, ptr) then ReleaseAt(s, LiveIndex(H, s.blocks, ptr)) else s
  }

  /** The rounded size as realloc computes it, cut to 32 bits. */
  function Rounded32(size: Word): nat {
    AlignUp(size) % TWO_32
  }

  function Shrink(s: Heap, i: nat, size: int): Heap
    requires i < |s.blocks|
  {
    if s.blocks[i].size > size + H + MIN_DATA then SplitAt(s, i, size) else s
  }

  function Realloc(space: int, s: Heap, ptr: int, size: Word): (Heap, int) {
    if ptr == 0 then Malloc(space, s, size)
    else if size == 0 then (Free(s, ptr), 0)
    else if !Live(s, ptr) then (s, 0)
    else
      var i := LiveIndex(H, s.blocks, ptr);
      if Rounded32(size) <= s.blocks[i].size then (Shrink(s, i, Rounded32(size)), ptr)
      else
        var (m, p) := Malloc(space, s, size);
        if p == 0 then (m, 0) else (Free(m, ptr), p)
  }

  /** calloc's guard against overflow. */
  predicate CallocRejects(num: Word, size: Word) {
    num > 0 && size > MAX_ALLOC / num
  }

  function Calloc(space: int, s: Heap, num: Word, size: Word): (Heap, int) {
    if CallocRejects(num, size) || num * size >= TWO_64 then (s, 0) else Malloc(space, s, num * size)
  }

  // ----- the invariant of every reachable heap -----

  ghost predicate Aligned(bs: seq<Block>) {
    forall b :: b in bs ==> b.addr % 8 == 0 && b.size % 8 == 0
  }

  ghost predicate PagesPresent(space: int, s: Heap) {
    forall p :: HEAP_START / FRAME_SIZE <= p < s.brk / FRAME_SIZE ==> Slot(space, p) in s.vm.pages
  }

  /** The blocks tile [HEAP_START, brk) exactly, every header and payload is 8-byte aligned, the break is a page boundary
      within the maximum, every heap page is mapped, and the block counter is the number of blocks less the growths. */
  ghost predicate Inv(space: int, s: Heap) {
    && Tiles(H, s.blocks, HEAP_START, s.brk)
    && Aligned(s.blocks)
    && s.brk <= HEAP_MAX && s.brk % FRAME_SIZE == 0
    && s.count == (|s.blocks| - s.growths) % TWO_32
    && 0 <= s.charged < TWO_32
    && PagesPresent(space, s)
  }

  /** Every address of every header and of all data lies in a mapped page. */
  lemma BlocksAreMapped(space: int, s: Heap, b: Block, a: int)
    requires Inv(space, s) && b in s.blocks && b.addr <= a < b.End(H)
    ensures Slot(space, a / FRAME_SIZE) in s.vm.pages
  {
    TilesOrder(H, s.blocks, HEAP_START, s.brk);
    assert HEAP_START / FRAME_SIZE <= a / FRAME_SIZE < s.brk / FRAME_SIZE;
  }

  lemma Eights(a: int, b: int)
    requires a % 8 == 0 && b % 8 == 0
    ensures (a + b) % 8 == 0 && (a - b) % 8 == 0
  {
  }

  lemma AlignedSplit(bs: seq<Block>, i: nat, size: int)
    requires Aligned(bs) && i < |bs| && size % 8 == 0
    ensures Aligned(Split(H, bs, i, size))
  {
    if Splits(H, bs[i], size) {
      var p := Halves(H, bs[i], size);
      var b := bs[i];
      assert b in bs;
      Eights(b.addr + H, size);
      Eights(b.size - H, size);
      assert forall x :: x in Split(H, bs, i, size) ==> x in bs || x == p[0] || x == p[1];
    }
  }

  lemma CountOneMore(count: int, n: int)
    requires count == n % TWO_32
    ensures (count + 1) % TWO_32 == (n + 1) % TWO_32
  {
  }

  lemma InvSplit(space: int, s: Heap, i: nat, size: nat)
    requires Inv(space, s) && i < |s.blocks| && size % 8 == 0
    ensures Inv(space, SplitAt(s, i, size))
  {
    hide Aligned, Tiles, PagesPresent;
    TilesSplit(H, s.blocks, i, size, HEAP_START, s.brk);
    AlignedSplit(s.blocks, i, size);
    CountOneMore(s.count, |s.blocks| - s.growths);
    SamePages(space, s, SplitAt(s, i, size));
  }

  lemma InvSetFree(space: int, s: Heap, i: nat, free: bool)
    requires Inv(space, s) && i < |s.blocks|
    ensures Inv(space, s.(blocks := SetFree(s.blocks, i, free)))
  {
    TilesSetFree(H, s.blocks, i, free, HEAP_START, s.brk);
    assert s.blocks[i] in s.blocks;
    assert forall b :: b in SetFree(s.blocks, i, free) ==> b in s.blocks || b == s.blocks[i].(free := free);
  }

  lemma InvMerge(space: int, s: Heap, i: int)
    requires Inv(space, s)
    ensures Inv(space, Merged(s, i))
  {
    TilesMerge(H, s.blocks, i, HEAP_START, s.brk);
    if JoinsNext(H, s.blocks, i) {
      var u := Union(H, s.blocks[i], s.blocks[i + 1]);
      assert s.blocks[i] in s.blocks && s.blocks[i + 1] in s.blocks;
      assert forall b :: b in Merge(H, s.blocks, i) ==> b in s.blocks || b == u;
    }
  }

  lemma InvCoalesce(space: int, s: Heap, i: nat)
    requires Inv(space, s) && i < |s.blocks|
    ensures Inv(space, Coalesced(s, i))
  {
    InvMerge(space, s, i);
    InvMerge(space, Merged(s, i), i - 1);
  }

  lemma InvTake(space: int, s: Heap, i: nat, size: nat)
    requires Inv(space, s) && i < |s.blocks| && size % 8 == 0
    ensures Inv(space, TakeAt(s, i, size))
  {
    InvSplit(space, s, i, size);
    InvSetFree(space, SplitAt(s, i, size), i, false);
  }

  lemma InvRelease(space: int, s: Heap, i: nat)
    requires Inv(space, s) && i < |s.blocks|
    ensures Inv(space, ReleaseAt(s, i))
  {
    var f := s.(charged := (s.charged - s.blocks[i].size) % TWO_32);
    InvSetFree(space, f, i, true);
    InvCoalesce(space, f.(blocks := SetFree(s.blocks, i, true)), i);
  }

  /** A request for len bytes at the break maps the pages up to the new break, or leaves the heap's pages alone. */
  lemma RequestPresent(space: int, s: Heap, len: nat)
    requires PagesPresent(space, s) && len % FRAME_SIZE == 0
    ensures var n := len / FRAME_SIZE;
      PagesPresent(space, s.(vm := Requested(s.vm, space, s.brk / FRAME_SIZE, n),
                             brk := if n <= |s.vm.frames| then s.brk + len else s.brk))
  {
    var page, n := s.brk / FRAME_SIZE, len / FRAME_SIZE;
    if n <= |s.vm.frames| {
      MappedExactly(s.vm, space, page, n);
      assert (s.brk + len) / FRAME_SIZE == page + n;
    } else {
      assert forall p :: p < page ==> Slot(space, p) !in Slots(space, page, |s.vm.frames|);
    }
  }

  lemma TilesAppend(bs: seq<Block>, lo: int, hi: int, b: Block)
    requires Tiles(H, bs, lo, hi) && b.addr == hi && b.size >= 0
    ensures Tiles(H, bs + [b], lo, b.End(H))
  {
    TilesConcat(H, bs, [b], lo, b.End(H));
    TilesConcat(H, bs, [], lo, hi);
    assert bs + [] == bs && [b][1..] == [];
  }

  lemma AppendAligned(s: Heap, len: nat)
    requires Aligned(s.blocks) && s.brk % FRAME_SIZE == 0 && len % FRAME_SIZE == 0
    ensures Aligned(s.blocks + [Block(s.brk, len - H, true)])
    ensures (s.brk + len) % FRAME_SIZE == 0
  {
    var b := Block(s.brk, len - H, true);
    PageIsAligned8(s.brk);
    PageIsAligned8(len);
    PagesAdd(s.brk, len);
    assert b.size == 8 * (len / 8 - 3);
    assert forall x :: x in s.blocks + [b] ==> x in s.blocks || x == b;
  }

  lemma InvAppend(space: int, s: Heap, len: nat, vm: Vm)
    requires Inv(space, s) && len % FRAME_SIZE == 0 && len > H && s.brk + len <= HEAP_MAX
    requires PagesPresent(space, s.(vm := vm, brk := s.brk + len))
    ensures Inv(space, Appended(s, len, vm))
  {
    hide Aligned, PagesPresent, Tiles;
    AppendAligned(s, len);
    TilesAppend(s.blocks, HEAP_START, s.brk, Block(s.brk, len - H, true));
    SamePages(space, s.(vm := vm, brk := s.brk + len), Appended(s, len, vm));
  }

  lemma SamePages(space: int, s: Heap, r: Heap)
    requires PagesPresent(space, s) && s.brk == r.brk && s.vm == r.vm
    ensures PagesPresent(space, r)
  {
  }

  lemma InvGrow(space: int, s: Heap, min: Word)
    requires Inv(space, s) && 0 < min <= MAX_ALLOC + H
    ensures Inv(space, Grow(space, s, min))
  {
    var len := AlignUp(min);
    if s.brk + len <= HEAP_MAX {
      RequestPresent(space, s, len);
      var vm := Requested(s.vm, space, s.brk / FRAME_SIZE, len / FRAME_SIZE);
      if len / FRAME_SIZE <= |s.vm.frames| {
        InvAppend(space, s, len, vm);
        InvCoalesce(space, Appended(s, len, vm), |s.blocks|);
      }
    }
  }

  lemma InvInitial(space: int, vm: Vm)
    ensures Inv(space, Initial(space, vm))
  {
    RequestPresent(space, Heap([], HEAP_START, 0, 0, 0, vm), INITIAL_SIZE);
    var b := Block(HEAP_START, INITIAL_SIZE - H, true);
    assert [b][1..] == [];
  }

  lemma InvReady(space: int, s: Heap, size: Word)
    requires Inv(space, s) && size <= MAX_ALLOC
    ensures Inv(space, Ready(space, s, size))
  {
    if FirstFit(s.blocks, size) == |s.blocks| {
      InvGrow(space, s, size + H);
    }
  }

  lemma InvMalloc(space: int, s: Heap, size: Word)
    requires Inv(space, s)
    ensures Inv(space, Malloc(space, s, size).0)
  {
    if 0 < size <= MAX_ALLOC {
      var a := AlignUp(size);
      PageIsAligned8(a);
      InvReady(space, s, a);
      var t := Ready(space, s, a);
      if FirstFit(t.blocks, a) < |t.blocks| {
        InvTake(space, t, FirstFit(t.blocks, a), a);
      }
    }
  }

  lemma Rounded32Aligned(size: Word)
    ensures Rounded32(size) % FRAME_SIZE == 0 && Rounded32(size) % 8 == 0
  {
    var a := AlignUp(size);
    assert a == FRAME_SIZE * (a / FRAME_SIZE);
    assert a % TWO_32 == a - TWO_32 * (a / TWO_32);
    assert Rounded32(size) == FRAME_SIZE * (a / FRAME_SIZE - 0x10_0000 * (a / TWO_32));
    PageIsAligned8(Rounded32(size));
  }

  lemma InvFree(space: int, s: Heap, ptr: int)
    requires Inv(space, s)
    ensures Inv(space, Free(s, ptr))
  {
    if Live(s, ptr) {
      InvRelease(space, s, LiveIndex(H, s.blocks, ptr));
    }
  }

  lemma InvRealloc(space: int, s: Heap, ptr: int, size: Word)
    requires Inv(space, s)
    ensures Inv(space, Realloc(space, s, ptr, size).0)
  {
    InvMalloc(space, s, size);
    InvFree(space, s, ptr);
    InvFree(space, Malloc(space, s, size).0, ptr);
    if Live(s, ptr) {
      Rounded32Aligned(size);
      InvSplit(space, s, LiveIndex(H, s.blocks, ptr), Rounded32(size));
    }
  }

  // ----- runs -----

  /** What happens to a heap: a call of its own, or others change the frames and pages they share with it. */
  datatype Call =
    | DoMalloc(size: Word)
    | DoFree(ptr: int)
    | DoRealloc(ptr: int, size: Word)
    | DoCalloc(num: Word, size: Word)
    | DoOther(vm: Vm)

  /** Others leave the pages of this heap mapped. */
  ghost function Step(space: int, s: Heap, op: Call): Heap {
    match op
    case DoMalloc(size) => Malloc(space, s, size).0
    case DoFree(ptr) => Free(s, ptr)
    case DoRealloc(ptr, size) => Realloc(space, s, ptr, size).0
    case DoCalloc(num, size) => Calloc(space, s, num, size).0
    case DoOther(vm) => if PagesPresent(space, s.(vm := vm)) then s.(vm := vm) else s
  }

  ghost function Run(space: int, s: Heap, ops: seq<Call>): Heap
    decreases |ops|
  {
    if ops == [] then s else Run(space, Step(space, s, ops[0]), ops[1..])
  }

  lemma InvStep(space: int, s: Heap, op: Call)
    requires Inv(space, s)
    ensures Inv(space, Step(space, s, op))
  {
    match op
    case DoMalloc(size) => InvMalloc(space, s, size);
    case DoFree(ptr) => InvFree(space, s, ptr);
    case DoRealloc(ptr, size) => InvRealloc(space, s, ptr, size);
    case DoCalloc(num, size) =>
      if num * size < TWO_64 {
        InvMalloc(space, s, num * size);
      }
    case DoOther(vm) => InvOther(space, s, vm);
  }

  lemma InvOther(space: int, s: Heap, vm: Vm)
    requires Inv(space, s)
    ensures PagesPresent(space, s.(vm := vm)) ==> Inv(space, s.(vm := vm))
  {
  }

  /** Whatever a process does with its heap, while others take frames and map pages of their own, the heap keeps the
      invariant. A pointer that is not live changes nothing, if the code can tell. */
  lemma {:induction false} RunKeepsInv(space: int, s: Heap, ops: seq<Call>)
    requires Inv(space, s)
    ensures Inv(space, Run(space, s, ops))
    decreases |ops|
  {
    if ops != [] {
      InvStep(space, s, ops[0]);
      RunKeepsInv(space, Step(space, s, ops[0]), ops[1..]);
    }
  }
}
