/** Mapping runs of pages to fresh frames: the loops that user_allocator.cpp (sys_request_memory, setup_stack) and
    heap.cpp (map_pages) run over the frame allocator and the page tables. */
module PageMapping {
  import opened Words
  import opened Placement
  import opened Physical

  /** A page of one directory's address space; all kernel-half pages belong to the one shared space. */
  datatype Slot = Slot(space: int, page: int)

  /** Free frames, and which frame each mapped page holds. */
  datatype Vm = Vm(frames: seq<Word>, pages: map<Slot, Word>)

  /** The translation a set of page directories implements; modules Translation and PageTables show how they do. */
  class AddressSpaces {
    var pages: map<Slot, Word>

    constructor ()
      ensures pages == map[]
    {
      pages := map[];
    }

    /** paging::map with the present bit set; it always succeeds. */
    method Map(space: int, page: int, frame: Word)
      modifies this
      ensures pages == old(pages)[Slot(space, page) := frame]
    {
      pages := pages[Slot(space, page) := frame];
    }

    method Unmap(space: int, page: int)
      modifies this
      ensures pages == old(pages) - {Slot(space, page)}
    {
      pages := pages - {Slot(space, page)};
    }
  }

  predicate Within(s: Slot, space: int, page: int, n: nat) {
    s.space == space && page <= s.page < page + n
  }

  function Slots(space: int, page: int, n: nat): set<Slot> {
    set p | page <= p < page + n :: Slot(space, p)
  }

  /** n pages mapped in order to the n frames on top of the free list. */
  function Mapped(vm: Vm, space: int, page: int, n: nat): (m: Vm)
    requires n <= |vm.frames|
    ensures |m.frames| == |vm.frames| - n
  {
    if n == 0 then vm else
      var m := Mapped(vm, space, page, n - 1);
      Vm(m.frames[1..], m.pages[Slot(space, page + n - 1) := m.frames[0]])
  }

  /** sys_request_memory and map_pages: all n pages, or none. A failed request has used up every frame
      and lost those it had mapped, since unmapping does not return them. */
  function Requested(vm: Vm, space: int, page: int, n: nat): Vm {
    if n <= |vm.frames| then Mapped(vm, space, page, n) else Vm([], vm.pages - Slots(space, page, |vm.frames|))
  }

  /** setup_stack: as above, but pages mapped before a failure stay mapped. */
  function Stacked(vm: Vm, space: int, page: int, n: nat): Vm {
    Mapped(vm, space, page, if n <= |vm.frames| then n else |vm.frames|)
  }

  /** The closed form: page p of the range holds the (p - page)-th free frame, everything else is as before. */
  lemma {:induction false} MappedExactly(vm: Vm, space: int, page: int, n: nat)
    requires n <= |vm.frames|
    ensures var m := Mapped(vm, space, page, n);
      && m.frames == vm.frames[n..]
      && (forall s :: s in m.pages <==> s in vm.pages || Within(s, space, page, n))
      && (forall s :: s in m.pages ==>
            m.pages[s] == if Within(s, space, page, n) then vm.frames[s.page - page] else vm.pages[s])
  {
    if n > 0 {
      MappedExactly(vm, space, page, n - 1);
    }
  }

  /** A request for more pages than there are frames uses up the frames and leaves none of its pages mapped. */
  lemma RequestFails(vm: Vm, space: int, page: int, n: nat)
    requires n > |vm.frames|
    ensures var r := Requested(vm, space, page, n);
      && r.frames == []
      && (forall p :: page <= p < page + |vm.frames| ==> Slot(space, p) !in r.pages)
      && (forall s: Slot :: !(s.space == space && page <= s.page < page + |vm.frames|) ==>
            (s in r.pages <==> s in vm.pages) && (s in vm.pages ==> r.pages[s] == vm.pages[s]))
  {
  }

  /** So if they were not mapped before, the pages are as they were. */
  lemma RequestOfUnmapped(vm: Vm, space: int, page: int, n: nat)
    requires n > |vm.frames| && forall p :: page <= p < page + n ==> Slot(space, p) !in vm.pages
    ensures Requested(vm, space, page, n) == Vm([], vm.pages)
  {
    RequestFails(vm, space, page, n);
    assert Requested(vm, space, page, n).pages == vm.pages;
  }

  /** setup_stack maps the pages of the stack in order, and as many as there are frames when these do not suffice. */
  lemma StackExactly(vm: Vm, space: int, size: Word)
    requires size <= USER_STACK_TOP
    ensures var bottom, n := USER_STACK_TOP - AlignUp(size), AlignUp(size) / FRAME_SIZE;
      var r := Stacked(vm, space, bottom / FRAME_SIZE, n);
      var k := if n <= |vm.frames| then n else |vm.frames|;
      && r.frames == vm.frames[k..]
      && (forall s :: s in r.pages <==> s in vm.pages || Within(s, space, bottom / FRAME_SIZE, k))
      && (forall s :: s in r.pages && Within(s, space, bottom / FRAME_SIZE, k) ==>
            r.pages[s] == vm.frames[s.page - bottom / FRAME_SIZE])
      && (forall s :: s in r.pages && !Within(s, space, bottom / FRAME_SIZE, k) ==> r.pages[s] == vm.pages[s])
  {
    var bottom, n := USER_STACK_TOP - AlignUp(size), AlignUp(size) / FRAME_SIZE;
    MappedExactly(vm, space, bottom / FRAME_SIZE, if n <= |vm.frames| then n else |vm.frames|);
  }

  lemma SlotsStep(space: int, page: int, n: nat)
    ensures Slots(space, page, n + 1) == Slots(space, page, n) + {Slot(space, page + n)}
  {
  }

  lemma NullMeansNone(vm: Vm, space: int, page: int, i: nat, left: seq<Word>)
    requires 0 !in vm.frames && i <= |vm.frames| && left == Mapped(vm, space, page, i).frames
    ensures left != [] ==> left[0] != 0
  {
    MappedExactly(vm, space, page, i);
  }

  lemma UnmappedAgain(vm: Vm, space: int, page: int, i: nat)
    requires i <= |vm.frames|
    ensures Mapped(vm, space, page, i).pages - Slots(space, page, i) == vm.pages - Slots(space, page, i)
  {
    MappedExactly(vm, space, page, i);
    assert forall s :: s in Slots(space, page, i) <==> Within(s, space, page, i);
  }

  ghost function VmOf(phys: FrameAllocator, spaces: AddressSpaces): Vm
    reads phys, spaces
  {
    Vm(phys.freeList, spaces.pages)
  }

  /** The loop shared by sys_request_memory and map_pages. Frames are never null. */
  method RequestPages(phys: FrameAllocator, spaces: AddressSpaces, space: int, page: int, n: nat) returns (ok: bool)
    requires 0 !in phys.freeList
    modifies phys, spaces
    ensures ok == (n <= |old(phys.freeList)|)
    ensures VmOf(phys, spaces) == Requested(old(VmOf(phys, spaces)), space, page, n)
    ensures phys.physicalEnd == old(phys.physicalEnd)
  {
    ghost var vm := VmOf(phys, spaces);
    var i := 0;
    while i < n
      invariant 0 <= i <= n && i <= |vm.frames|
      invariant VmOf(phys, spaces) == Mapped(vm, space, page, i)
      invariant phys.physicalEnd == old(phys.physicalEnd)
    {
      ghost var left := phys.freeList;
      var frame := phys.Alloc();
      if frame == 0 {
        NullMeansNone(vm, space, page, i, left);
        var j := 0;
        while j < i
          invariant 0 <= j <= i
          invariant phys.freeList == [] && phys.physicalEnd == old(phys.physicalEnd)
          invariant spaces.pages == Mapped(vm, space, page, i).pages - Slots(space, page, j)
        {
          spaces.Unmap(space, page + j);
          SlotsStep(space, page, j);
          j := j + 1;
        }
        UnmappedAgain(vm, space, page, i);
        return false;
      }
      spaces.Map(space, page + i, frame);
      i := i + 1;
    }
    return true;
  }

  lemma RequestedNeverNull(vm: Vm, space: int, page: int, n: nat)
    requires 0 !in vm.frames
    ensures 0 !in Requested(vm, space, page, n).frames
  {
    if n <= |vm.frames| {
      MappedExactly(vm, space, page, n);
    }
  }

  const USER_STACK_TOP: int := 0x7fff_0000

  /** process_memory::setup_stack. A stack larger than the space below its top would wrap past address zero. */
  method SetupStack(phys: FrameAllocator, spaces: AddressSpaces, space: int, size: Word) returns (ok: bool)
    requires 0 !in phys.freeList && size <= USER_STACK_TOP
    modifies phys, spaces
    ensures var n := AlignUp(size) / FRAME_SIZE;
      && ok == (n <= |old(phys.freeList)|)
      && VmOf(phys, spaces) == Stacked(old(VmOf(phys, spaces)), space, (USER_STACK_TOP - AlignUp(size)) / FRAME_SIZE, n)
  {
    ghost var vm := VmOf(phys, spaces);
    var stackSize := AlignUp(size);
    var page := (USER_STACK_TOP - stackSize) / FRAME_SIZE;
    var n := stackSize / FRAME_SIZE;
    var i := 0;
    while i < n
      invariant 0 <= i <= n && i <= |vm.frames|
      invariant VmOf(phys, spaces) == Mapped(vm, space, page, i)
    {
      ghost var left := phys.freeList;
      var frame := phys.Alloc();
      if frame == 0 {
        NullMeansNone(vm, space, page, i, left);
        return false;
      }
      spaces.Map(space, page + i, frame);
      i := i + 1;
    }
    return true;
  }

  /** After a successful setup_stack every address of [top - size, top) translates. */
  lemma StackTranslates(vm: Vm, space: int, size: Word, a: int)
    requires AlignUp(size) / FRAME_SIZE <= |vm.frames| && size <= USER_STACK_TOP
    requires USER_STACK_TOP - size <= a < USER_STACK_TOP
    ensures Slot(space, a / FRAME_SIZE) in
      Stacked(vm, space, (USER_STACK_TOP - AlignUp(size)) / FRAME_SIZE, AlignUp(size) / FRAME_SIZE).pages
  {
    var page, n := (USER_STACK_TOP - AlignUp(size)) / FRAME_SIZE, AlignUp(size) / FRAME_SIZE;
    assert page <= a / FRAME_SIZE < page + n;
    MappedExactly(vm, space, page, n);
  }

  // ----- runs over all address spaces -----

  /** Distinct mapped pages hold distinct frames, none of them free, and no free frame is listed twice. */
  ghost predicate NoSharing(vm: Vm) {
    && NoDuplicates(vm.frames)
    && (forall s, t :: s in vm.pages && t in vm.pages && s != t ==> vm.pages[s] != vm.pages[t])
    && (forall s :: s in vm.pages ==> vm.pages[s] !in vm.frames)
  }

  datatype Op =
    | MapPages(space: int, page: int, n: nat)
    | MapStack(space: int, page: int, n: nat)
    | UnmapPages(space: int, page: int, n: nat)

  function Step(vm: Vm, op: Op): Vm {
    match op
    case MapPages(s, p, n) => Requested(vm, s, p, n)
    case MapStack(s, p, n) => Stacked(vm, s, p, n)
    case UnmapPages(s, p, n) => vm.(pages := vm.pages - Slots(s, p, n))
  }

  function Run(vm: Vm, ops: seq<Op>): Vm
    decreases |ops|
  {
    if ops == [] then vm else Run(Step(vm, ops[0]), ops[1..])
  }

  lemma OneMoreSharesNothing(vm: Vm, slot: Slot)
    requires NoSharing(vm) && vm.frames != []
    ensures NoSharing(Vm(vm.frames[1..], vm.pages[slot := vm.frames[0]]))
  {
  }

  lemma {:induction false} MappedSharesNothing(vm: Vm, space: int, page: int, n: nat)
    requires NoSharing(vm) && n <= |vm.frames|
    ensures NoSharing(Mapped(vm, space, page, n))
  {
    if n > 0 {
      MappedSharesNothing(vm, space, page, n - 1);
      OneMoreSharesNothing(Mapped(vm, space, page, n - 1), Slot(space, page + n - 1));
    }
  }

  /** Over every run of heap growth, stack setup and release in any spaces, no two pages share a frame. */
  lemma {:induction false} RunSharesNothing(vm: Vm, ops: seq<Op>)
    requires NoSharing(vm)
    ensures NoSharing(Run(vm, ops))
    decreases |ops|
  {
    if ops != [] {
      match ops[0] {
        case MapPages(s, p, n) => if n <= |vm.frames| { MappedSharesNothing(vm, s, p, n); }
        case MapStack(s, p, n) => MappedSharesNothing(vm, s, p, if n <= |vm.frames| then n else |vm.frames|);
        case UnmapPages(s, p, n) =>
      }
      RunSharesNothing(Step(vm, ops[0]), ops[1..]);
    }
  }
}
