/** Many processes and the kernel, each with heaps and stacks, over one frame allocator and one set of page tables. */
module Processes {
  import opened Words
  import opened PageMapping
  import opened UserHeapSpec
  import S = UserHeapSpec
  import B = Blocks

  /** The frames and pages all share, and the heap of each process by its page directory. */
  datatype World = World(vm: Vm, heaps: map<int, Heap>)

  function HeapOf(w: World, d: int): Heap
    requires d in w.heaps
  {
    w.heaps[d].(vm := w.vm)
  }

  datatype Event =
    | Start(d: int)                        // a process builds its heap
    | HeapCall(d: int, call: Call)
    | Stack(d: int, size: Word)            // setup_stack
    | Request(d: int, page: int, n: nat)   // any other request for pages, as the kernel heap makes
    | Exit(d: int)                         // cleanup_on_exit

  const FIRST_PAGE: int := HEAP_START / FRAME_SIZE
  const END_PAGE: int := HEAP_MAX / FRAME_SIZE

  /** A process builds one heap, and nobody else asks for pages where it lies. */
  predicate Allowed(w: World, e: Event) {
    match e
    case Start(d) => d !in w.heaps
    case HeapCall(d, call) => d in w.heaps && !call.DoOther?
    case Stack(d, size) => size <= USER_STACK_TOP
    case Request(d, page, n) => d in w.heaps ==> page + n <= FIRST_PAGE || END_PAGE <= page
    case Exit(d) => d in w.heaps
  }

  ghost function Step(w: World, e: Event): World {
    if !Allowed(w, e) then w else
      match e
      case Start(d) => var h := Initial(d, w.vm); World(h.vm, w.heaps[d := h])
      case HeapCall(d, call) => var h := S.Step(d, HeapOf(w, d), call); World(h.vm, w.heaps[d := h])
      case Stack(d, size) =>
        w.(vm := Stacked(w.vm, d, (USER_STACK_TOP - AlignUp(size)) / FRAME_SIZE, AlignUp(size) / FRAME_SIZE))
      case Request(d, page, n) => w.(vm := Requested(w.vm, d, page, n))
      case Exit(d) =>
        var n := (w.heaps[d].brk - HEAP_START) / FRAME_SIZE;
        World(w.vm.(pages := w.vm.pages - Slots(d, FIRST_PAGE, if n < 0 then 0 else n)), w.heaps - {d})
  }

  ghost function Run(w: World, es: seq<Event>): World
    decreases |es|
  {
    if es == [] then w else Run(Step(w, es[0]), es[1..])
  }

  /** Every heap keeps its invariant over the shared pages, and no two pages of anyone share a frame. */
  ghost predicate Good(w: World) {
    NoSharing(w.vm) && forall d :: d in w.heaps ==> Inv(d, HeapOf(w, d))
  }

  // ----- what one client does to the pages of the others -----

  /** The slots outside the given ones hold what they held. */
  ghost predicate Leaves(vm: Vm, vm': Vm, d: int, page: int, n: int) {
    forall s: Slot :: !(s.space == d && page <= s.page < page + n) ==>
      (s in vm'.pages <==> s in vm.pages) && (s in vm.pages ==> vm'.pages[s] == vm.pages[s])
  }

  lemma MappedLeaves(vm: Vm, d: int, page: int, n: nat)
    requires n <= |vm.frames|
    ensures Leaves(vm, Mapped(vm, d, page, n), d, page, n)
  {
    MappedExactly(vm, d, page, n);
  }

  lemma RequestLeaves(vm: Vm, d: int, page: int, n: nat)
    ensures Leaves(vm, Requested(vm, d, page, n), d, page, n)
  {
    if n <= |vm.frames| {
      MappedLeaves(vm, d, page, n);
    }
  }

  lemma StackLeaves(vm: Vm, d: int, page: int, n: nat)
    ensures Leaves(vm, Stacked(vm, d, page, n), d, page, n)
    ensures forall s :: s in vm.pages ==> s in Stacked(vm, d, page, n).pages
  {
    var k := if n <= |vm.frames| then n else |vm.frames|;
    MappedLeaves(vm, d, page, k);
    MappedExactly(vm, d, page, k);
  }

  lemma RequestSharesNothing(vm: Vm, d: int, page: int, n: nat)
    requires NoSharing(vm)
    ensures NoSharing(Requested(vm, d, page, n))
  {
    if n <= |vm.frames| {
      MappedSharesNothing(vm, d, page, n);
    }
  }

  /** A call draws on frames and pages at most by one request for pages of its own heap. */
  ghost predicate Draws(d: int, vm: Vm, vm': Vm) {
    vm' == vm || exists page: int, n: nat :: OwnPages(page, n) && vm' == Requested(vm, d, page, n)
  }

  predicate OwnPages(page: int, n: int) {
    FIRST_PAGE <= page && page + n <= END_PAGE
  }

  lemma GrowDraws(d: int, s: Heap, min: Word)
    requires Inv(d, s)
    ensures Draws(d, s.vm, Grow(d, s, min).vm)
  {
    var len := AlignUp(min);
    TilesBrk(d, s);
    if s.brk + len <= HEAP_MAX {
      assert OwnPages(s.brk / FRAME_SIZE, len / FRAME_SIZE) by {
        PagesAdd(s.brk, len);
      }
    }
  }

  lemma TilesBrk(d: int, s: Heap)
    requires Inv(d, s)
    ensures HEAP_START <= s.brk <= HEAP_MAX && s.brk % FRAME_SIZE == 0
  {
    BlocksOrder(s.blocks, HEAP_START, s.brk);
  }

  lemma {:induction false} BlocksOrder(bs: seq<B.Block>, lo: int, hi: int)
    requires B.Tiles(H, bs, lo, hi)
    ensures lo <= hi
  {
    if bs != [] {
      BlocksOrder(bs[1..], bs[0].End(H), hi);
    }
  }

  lemma MallocDraws(d: int, s: Heap, size: Word)
    requires Inv(d, s)
    ensures Draws(d, s.vm, Malloc(d, s, size).0.vm)
  {
    hide Inv, Draws, Grow;
    NothingDrawn(d, s.vm);
    if 0 < size <= MAX_ALLOC {
      GrowDraws(d, s, AlignUp(size) + H);
    }
  }

  lemma NothingDrawn(d: int, vm: Vm)
    ensures Draws(d, vm, vm)
  {
  }

  lemma CallDraws(d: int, s: Heap, call: Call)
    requires Inv(d, s) && !call.DoOther?
    ensures Draws(d, s.vm, S.Step(d, s, call).vm)
  {
    hide Inv, Draws, Malloc;
    NothingDrawn(d, s.vm);
    match call
    case DoMalloc(size) => MallocDraws(d, s, size);
    case DoFree(_) =>
    case DoRealloc(_, size) => MallocDraws(d, s, size);
    case DoCalloc(num, size) =>
      if num * size < TWO_64 {
        MallocDraws(d, s, num * size);
      }
  }

  // ----- every event -----

  /** The heaps of directories other than d keep their pages, and so their invariant. */
  lemma OthersKept(w: World, vm: Vm, d: int, page: int, n: int, e: int)
    requires Good(w) && Leaves(w.vm, vm, d, page, n) && e in w.heaps
    requires e != d || page + n <= FIRST_PAGE || END_PAGE <= page
    ensures Inv(e, w.heaps[e].(vm := vm))
  {
    var s := HeapOf(w, e);
    TilesBrk(e, s);
    forall p | FIRST_PAGE <= p < s.brk / FRAME_SIZE
      ensures Slot(e, p) in vm.pages
    {
      assert Slot(e, p) in w.vm.pages;
      assert p < END_PAGE;
    }
    InvOther(e, s, vm);
    assert s.(vm := vm) == w.heaps[e].(vm := vm);
  }

  lemma StartGood(w: World, d: int)
    requires Good(w) && d !in w.heaps
    ensures Good(Step(w, Start(d)))
  {
    var h, n := Initial(d, w.vm), INITIAL_SIZE / FRAME_SIZE;
    InvInitial(d, w.vm);
    assert h.vm == Requested(w.vm, d, FIRST_PAGE, n);
    RequestSharesNothing(w.vm, d, FIRST_PAGE, n);
    RequestLeaves(w.vm, d, FIRST_PAGE, n);
    hide Inv, NoSharing, Leaves;
    forall e | e in w.heaps
      ensures Inv(e, w.heaps[e].(vm := h.vm))
    {
      OthersKept(w, h.vm, d, FIRST_PAGE, n, e);
    }
  }

  lemma CallGood(w: World, d: int, call: Call)
    requires Good(w) && d in w.heaps && !call.DoOther?
    ensures Good(Step(w, HeapCall(d, call)))
  {
    var s := HeapOf(w, d);
    var h := S.Step(d, s, call);
    InvStep(d, s, call);
    CallDraws(d, s, call);
    if h.vm != w.vm {
      var page: int, n: nat :| OwnPages(page, n) && h.vm == Requested(w.vm, d, page, n);
      RequestSharesNothing(w.vm, d, page, n);
      RequestLeaves(w.vm, d, page, n);
      forall e | e in w.heaps && e != d
        ensures Inv(e, w.heaps[e].(vm := h.vm))
      {
        OthersKept(w, h.vm, d, page, n, e);
      }
    }
    assert h.(vm := h.vm) == h;
  }

  lemma StackGood(w: World, d: int, size: Word)
    requires Good(w) && size <= USER_STACK_TOP
    ensures Good(Step(w, Stack(d, size)))
  {
    var page, n := (USER_STACK_TOP - AlignUp(size)) / FRAME_SIZE, AlignUp(size) / FRAME_SIZE;
    var vm := Stacked(w.vm, d, page, n);
    StackLeaves(w.vm, d, page, n);
    MappedSharesNothing(w.vm, d, page, if n <= |w.vm.frames| then n else |w.vm.frames|);
    forall e | e in w.heaps
      ensures Inv(e, w.heaps[e].(vm := vm))
    {
      InvOther(e, HeapOf(w, e), vm);
    }
  }

  lemma RequestGood(w: World, d: int, page: int, n: nat)
    requires Good(w) && Allowed(w, Request(d, page, n))
    ensures Good(Step(w, Request(d, page, n)))
  {
    var vm := Requested(w.vm, d, page, n);
    RequestLeaves(w.vm, d, page, n);
    RequestSharesNothing(w.vm, d, page, n);
    forall e | e in w.heaps
      ensures Inv(e, w.heaps[e].(vm := vm))
    {
      OthersKept(w, vm, d, page, n, e);
    }
  }

  /** A process that exits leaves none of its heap mapped, and everything else as it was. */
  lemma ExitUnmaps(w: World, d: int)
    requires Good(w) && d in w.heaps
    ensures var w' := Step(w, Exit(d));
      && d !in w'.heaps && w'.vm.frames == w.vm.frames
      && (forall p :: HEAP_START <= p * FRAME_SIZE < w.heaps[d].brk ==> Slot(d, p) !in w'.vm.pages)
      && (forall e :: e in w.heaps && e != d ==> e in w'.heaps && w'.heaps[e] == w.heaps[e])
      && Leaves(w.vm, w'.vm, d, FIRST_PAGE, (w.heaps[d].brk - HEAP_START) / FRAME_SIZE)
  {
    TilesBrk(d, HeapOf(w, d));
  }

  lemma ExitGood(w: World, d: int)
    requires Good(w) && d in w.heaps
    ensures Good(Step(w, Exit(d)))
  {
    var w' := Step(w, Exit(d));
    TilesBrk(d, HeapOf(w, d));
    var n := (w.heaps[d].brk - HEAP_START) / FRAME_SIZE;
    assert Leaves(w.vm, w'.vm, d, FIRST_PAGE, n);
    forall e | e in w'.heaps
      ensures Inv(e, HeapOf(w', e))
    {
      OthersKept(w, w'.vm, d, FIRST_PAGE, n, e);
    }
  }

  /** Over every run of all processes and the kernel together, each heap keeps its invariant and no two pages, in
      whatever directory, hold the same frame. */
  lemma {:induction false} RunGood(w: World, es: seq<Event>)
    requires Good(w)
    ensures Good(Run(w, es))
    decreases |es|
  {
    hide Good;
    if es != [] {
      if Allowed(w, es[0]) {
        match es[0] {
          case Start(d) => StartGood(w, d);
          case HeapCall(d, call) => CallGood(w, d, call);
          case Stack(d, size) => StackGood(w, d, size);
          case Request(d, page, n) => RequestGood(w, d, page, n);
          case Exit(d) => ExitGood(w, d);
        }
      }
      RunGood(Step(w, es[0]), es[1..]);
    }
  }
}
