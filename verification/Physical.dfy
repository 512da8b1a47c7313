/** The physical frame allocator of physical.cpp: a last-in first-out list of free frames. */
module Physical {
  import opened Words
  import opened Placement
  import opened Sequences

  const FRAME_RECORD: int := 16

  /** The frames a setup of [start, end) lists, lowest first. */
  function WholeFrames(addr: int, end: int): (fs: seq<Word>)
    requires 0 <= addr && end < TWO_64
    decreases end - addr
  {
    if addr >= end then [] else [addr] + WholeFrames(addr + FRAME_SIZE, end)
  }

  /** Listing one more frame: its effect on the frames done, and on those to do. */
  lemma NextFrame(done: seq<Word>, addr: Word, end: Word)
    requires addr < end
    ensures done + WholeFrames(addr, end) == (done + [addr]) + WholeFrames(addr + FRAME_SIZE, end)
    ensures Reversed(done + [addr]) == [addr] + Reversed(done)
  {
    ReversedPush(done, addr);
    assert WholeFrames(addr, end) == [addr] + WholeFrames(addr + FRAME_SIZE, end);
  }

  lemma DownBelow(top: Word)
    ensures AlignDown(top) <= top && AlignDown(top) % FRAME_SIZE == 0
  {
  }

  lemma NoFrames()
    ensures Reversed<Word>([]) == []
  {
  }

  lemma NoMoreFrames(addr: int, end: int)
    requires 0 <= addr && end < TWO_64 && addr >= end
    ensures WholeFrames(addr, end) == []
  {
  }

  lemma NextRecord(next: Word, n: nat)
    ensures ((next + FRAME_RECORD * n) % TWO_64 + FRAME_RECORD) % TWO_64 == (next + FRAME_RECORD * (n + 1)) % TWO_64
  {
  }

  class FrameAllocator {
    var physicalEnd: Word
    var freeList: seq<Word>  // most recently freed frame first
    const placement: Bump

    constructor (placement: Bump)
      ensures this.placement == placement && physicalEnd == 0 && freeList == []
    {
      this.placement := placement;
      physicalEnd := 0;
      freeList := [];
    }

    /** Lists every whole frame of [start, start + len). The end wraps around as the pointer sum does. */
    method Setup(start: Word, len: Word)
      modifies this, placement
      ensures physicalEnd == (start + len) % TWO_64
      ensures freeList == Reversed(WholeFrames(AlignUp(start), AlignDown((start + len) % TWO_64))) + old(freeList)
      ensures var n := |WholeFrames(AlignUp(start), AlignDown((start + len) % TWO_64))|;
        placement.next == (old(placement.next) + FRAME_RECORD * n) % TWO_64
    {
      hide Reversed, WholeFrames, AlignDown, AlignUp;
      NoFrames();
      var top: Word := (start + len) % TWO_64;
      DownBelow(top);
      physicalEnd := top;
      var addr: int, end := AlignUp(start), AlignDown(top);
      ghost var first := addr;
      ghost var done: seq<Word> := [];
      while addr < end
        invariant 0 <= addr && addr % FRAME_SIZE == 0
        invariant physicalEnd == top
        invariant WholeFrames(first, end) == done + WholeFrames(addr, end)
        invariant freeList == Reversed(done) + old(freeList)
        invariant placement.next == (old(placement.next) + FRAME_RECORD * |done|) % TWO_64
        decreases end - addr
      {
        Free(addr);
        NextFrame(done, addr, end);
        NextRecord(old(placement.next), |done|);
        PagesAdd(addr, FRAME_SIZE);
        done := done + [addr];
        addr := addr + FRAME_SIZE;
      }
      NoMoreFrames(addr, end);
    }

    /** Takes the most recently freed frame; zero (null) when there is none. */
    method Alloc() returns (frame: Word)
      modifies this
      ensures physicalEnd == old(physicalEnd)
      ensures old(freeList) == [] ==> frame == 0 && freeList == []
      ensures old(freeList) != [] ==> [frame] + freeList == old(freeList)
    {
      if freeList == [] {
        return 0;
      }
      frame := freeList[0];
      freeList := freeList[1..];
    }

    /** Each frame listed takes a record from the bump allocator.
        Ignores unaligned addresses and addresses past the end of memory. */
    method Free(addr: Word)
      modifies this, placement
      ensures physicalEnd == old(physicalEnd)
      ensures freeList == if addr % FRAME_SIZE == 0 && addr < physicalEnd
                          then [addr] + old(freeList) else old(freeList)
      ensures placement.next == if addr % FRAME_SIZE == 0 && addr < physicalEnd
                                then (old(placement.next) + FRAME_RECORD) % TWO_64 else old(placement.next)
    {
      if !IsAligned(addr) || addr >= physicalEnd {
        return;
      }
      var _, _ := placement.Kalloc(FRAME_RECORD, false);
      freeList := [addr] + freeList;
    }
  }

  // ----- runs of allocations and frees -----

  /** What a client does: take a frame, or return one. */
  datatype Op = Take | Return(frame: Word)

  /** The free list, and the frames clients hold. */
  datatype Pool = Pool(free: seq<Word>, held: set<Word>)

  predicate NoDuplicates<T(==)>(s: seq<T>) {
    forall i, j :: 0 <= i < j < |s| ==> s[i] != s[j]
  }

  /** Exactly the frames of all exist, each either listed once or held. */
  ghost predicate Conserves(p: Pool, all: set<Word>) {
    && NoDuplicates(p.free)
    && (forall f :: f in all <==> f in p.free || f in p.held)
    && (forall f :: f in p.free ==> f !in p.held)
  }

  /** One step of a client that returns only frames it holds. */
  function Step(p: Pool, op: Op, end: Word): Pool {
    match op
    case Take => if p.free == [] then p else Pool(p.free[1..], p.held + {p.free[0]})
    case Return(f) =>
      if f in p.held && f % FRAME_SIZE == 0 && f < end then Pool([f] + p.free, p.held - {f}) else p
  }

  function Run(p: Pool, ops: seq<Op>, end: Word): Pool
    decreases |ops|
  {
    if ops == [] then p else Run(Step(p, ops[0], end), ops[1..], end)
  }

  /** Over every run no frame is lost or doubled, so a frame is never handed out twice before it is returned. */
  lemma {:induction false} RunConserves(p: Pool, ops: seq<Op>, end: Word, all: set<Word>)
    requires Conserves(p, all)
    ensures Conserves(Run(p, ops, end), all)
    ensures var q := Run(p, ops, end); q.free != [] ==> q.free[0] in all && q.free[0] !in q.held
    decreases |ops|
  {
    if ops != [] {
      assert forall f :: f in p.free ==> p.free == [] || f == p.free[0] || f in p.free[1..];
      RunConserves(Step(p, ops[0], end), ops[1..], end, all);
    }
  }
}
