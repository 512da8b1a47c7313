/** Choosing the region of physical memory the kernel manages (memory_manager.cpp), and the frames that follow. */
module BootMemory {
  import opened Words
  import opened Placement
  import opened Physical
  import opened Sequences

  const MB: int := 0x10_0000
  const KERNEL_END: int := 8 * MB
  const MIN_REGION: int := 4 * MB
  const MEMORY_AVAILABLE: int := 1
  const TWO_31: int := 0x8000_0000
  const SIZE_OF_PHYSICAL: int := 16

  /** A memory map entry of section 3.3 of the Multiboot Specification 0.6.96; size does not count its own four bytes. */
  datatype MmapEntry = MmapEntry(size: nat, addr: Word, len: Word, kind: int)

  /** The parts of the boot information the kernel reads; entries holds the entry stored at each address. */
  datatype BootInfo = BootInfo(hasMap: bool, hasBasic: bool, mmapAddr: nat, mmapLength: nat,
                               memUpper: nat, entries: map<int, MmapEntry>)

  datatype Region = Region(start: Word, len: Word)

  /** The boot loader's side: the entries chained from p cover the buffer, which lies in the kernel's window. */
  ghost predicate Chained(entries: map<int, MmapEntry>, p: int, end: int)
    decreases end - p
  {
    p < end ==> p in entries && Chained(entries, p + entries[p].size + 4, end)
  }

  /** The entries met when stepping from p by each entry's own size. */
  ghost function Entries(entries: map<int, MmapEntry>, p: int, end: int): seq<MmapEntry>
    requires Chained(entries, p, end)
    decreases end - p
  {
    if p >= end then [] else [entries[p]] + Entries(entries, p + entries[p].size + 4, end)
  }

  /** What an entry offers above the kernel's first 8 MiB. */
  ghost predicate Offers(e: MmapEntry, r: Region) {
    && e.kind == MEMORY_AVAILABLE
    && r.start == (if e.addr < KERNEL_END then KERNEL_END else e.addr)
    && r.start + r.len == e.addr + e.len
  }

  ghost predicate WellFormed(es: seq<MmapEntry>) {
    forall e :: e in es ==> e.addr + e.len < TWO_64
  }

  /** r is the largest region any entry offers, or empty when none offers anything. */
  ghost predicate Largest(es: seq<MmapEntry>, r: Region) {
    && (forall e, s :: e in es && Offers(e, s) ==> s.len <= r.len)
    && (r.len == 0 || exists e :: e in es && Offers(e, r))
  }

  method SelectRegion(info: BootInfo) returns (known: bool, r: Region)
    requires info.mmapAddr + info.mmapLength < TWO_31 && info.memUpper < TWO_32
    requires info.hasMap ==> Chained(info.entries, info.mmapAddr, info.mmapAddr + info.mmapLength)
    ensures known == (info.hasMap || info.hasBasic)
    ensures info.hasMap ==>
      var es := Entries(info.entries, info.mmapAddr, info.mmapAddr + info.mmapLength);
      WellFormed(es) ==> Largest(es, r)
    ensures !info.hasMap && info.hasBasic ==>
      && r.start == KERNEL_END && (r.start + r.len) % TWO_64 == MB + (info.memUpper * 1024) % TWO_32
      && r.len == ((info.memUpper * 1024) % TWO_32 - 7 * MB) % TWO_64
  {
    hide Largest, WellFormed;
    NothingSeen();
    var start: Word, size: Word := 0, 0;
    if info.hasMap {
      var p, end := info.mmapAddr, info.mmapAddr + info.mmapLength;
      ghost var all, seen := Entries(info.entries, p, end), [];
      while p < end
        invariant Chained(info.entries, p, end) && all == seen + Entries(info.entries, p, end)
        invariant WellFormed(seen) ==> Largest(seen, Region(start, size))
        decreases end - p
      {
        var e := info.entries[p];
        ghost var before := Region(start, size);
        if e.kind == MEMORY_AVAILABLE {
          var top := (e.addr + e.len) % TWO_64;
          if e.addr < KERNEL_END {
            if top > KERNEL_END {
              var available := top - KERNEL_END;
              if available > size {
                start, size := KERNEL_END, available;
              }
            }
          } else if e.len > size {
            start, size := e.addr, e.len;
          }
        }
        LargestStep(seen, e, before, Region(start, size));
        seen := seen + [e];
        p := p + e.size + 4;
      }
      assert Entries(info.entries, p, end) == [] && all == seen;
      return true, Region(start, size);
    } else if info.hasBasic {
      var upper: Word := (info.memUpper * 1024) % TWO_32;
      size := (upper - (8 * MB - 1 * MB)) % TWO_64;
      return true, Region(KERNEL_END, size);
    }
    return false, Region(0, 0);
  }

  lemma NothingSeen()
    ensures Largest([], Region(0, 0))
  {
  }

  lemma LargestStep(seen: seq<MmapEntry>, e: MmapEntry, r: Region, r': Region)
    requires WellFormed(seen) ==> Largest(seen, r)
    requires e.addr + e.len < TWO_64 ==>
      || (r' == r && forall s :: Offers(e, s) ==> s.len <= r.len)
      || (Offers(e, r') && r'.len > r.len)
    ensures WellFormed(seen + [e]) ==> Largest(seen + [e], r')
  {
    var es := seen + [e];
    assert e in es && forall x :: x in seen ==> x in es;
    if WellFormed(es) {
      forall x, s | x in es && Offers(x, s)
        ensures s.len <= r'.len
      {
        assert x in seen || x == e;
        assert Offers(e, r') && x == e ==> s == r';
      }
      if r'.len > 0 && !Offers(e, r') {
        var x :| x in seen && Offers(x, r);
        assert x in es;
      }
    }
  }

  /** f is a page frame that lies wholly in [start, end). */
  predicate WholeFrameOf(f: int, start: int, end: int) {
    f % FRAME_SIZE == 0 && start <= f && f + FRAME_SIZE <= end
  }

  lemma {:induction false} WholeFramesExact(addr: Word, end: Word)
    requires addr % FRAME_SIZE == 0 && end % FRAME_SIZE == 0
    ensures forall f: Word :: f in WholeFrames(addr, end) <==> WholeFrameOf(f, addr, end)
    ensures NoDuplicates(WholeFrames(addr, end))
    decreases end - addr
  {
    if addr < end {
      var rest := WholeFrames(addr + FRAME_SIZE, end);
      if addr + FRAME_SIZE < end {
        WholeFramesExact(addr + FRAME_SIZE, end);
        assert !WholeFrameOf(addr, addr + FRAME_SIZE, end);
      }
      assert addr !in rest;
      assert WholeFrames(addr, end) == [addr] + rest;
      forall f: Word
        ensures f in [addr] + rest <==> WholeFrameOf(f, addr, end)
      {
        assert f in [addr] + rest <==> f == addr || f in rest;
      }
    }
  }

  lemma {:induction false} ReversedSameElements<T(!new)>(s: seq<T>)
    ensures forall x :: x in Reversed(s) <==> x in s
    ensures NoDuplicates(s) ==> NoDuplicates(Reversed(s))
  {
    forall x
      ensures x in Reversed(s) <==> x in s
    {
      if x in s {
        var i :| 0 <= i < |s| && s[i] == x;
        assert Reversed(s)[|s| - 1 - i] == x;
      }
    }
  }

  /** fs lists exactly the whole frames of [start, end), each once. */
  ghost predicate Lists(fs: seq<Word>, start: int, end: int) {
    NoDuplicates(fs) && forall f: Word :: f in fs <==> WholeFrameOf(f, start, end)
  }

  /** initialize_memory up to the frame allocator: the frames listed are exactly the whole frames of the chosen
      region, each once. Without a memory map it takes 4 MiB above the kernel, or so little memory that the size of the
      region wraps around, in which case no frame is listed. */
  method InitializeMemory(info: BootInfo, placement: Bump) returns (phys: FrameAllocator?, ghost region: Region)
    requires info.mmapAddr + info.mmapLength < TWO_31 && info.memUpper < TWO_32
    requires info.hasMap ==> Chained(info.entries, info.mmapAddr, info.mmapAddr + info.mmapLength)
    modifies placement
    ensures phys != null ==> fresh(phys)
    ensures !info.hasMap && !info.hasBasic ==> phys == null
    ensures info.hasMap ==>
      var es := Entries(info.entries, info.mmapAddr, info.mmapAddr + info.mmapLength);
      WellFormed(es) ==>
        && Largest(es, region) && (phys != null <==> region.len >= MIN_REGION)
        && (phys != null ==> Lists(phys.freeList, region.start, region.start + region.len))
    ensures !info.hasMap && info.hasBasic ==>
      var upper := (info.memUpper * 1024) % TWO_32;
      phys != null <==> upper >= 11 * MB || upper < 7 * MB
    ensures !info.hasMap && phys != null ==>
      Lists(phys.freeList, KERNEL_END, MB + (info.memUpper * 1024) % TWO_32)
  {
    var known, r := SelectRegion(info);
    region := r;
    if !known || r.len < MIN_REGION {
      return null, r;
    }
    var _, _ := placement.Kalloc(SIZE_OF_PHYSICAL, true);
    phys := new FrameAllocator(placement);
    phys.Setup(r.start, r.len);
    var top: Word := (r.start + r.len) % TWO_64;
    assert phys.freeList == Reversed(WholeFrames(AlignUp(r.start), AlignDown(top)));
    FramesOfRegion(r.start, top);
    if info.hasMap && WellFormed(Entries(info.entries, info.mmapAddr, info.mmapAddr + info.mmapLength)) {
      assert top == r.start + r.len;
    }
  }

  /** Every frame of the largest region is aligned, lies at or above 8 MiB and inside one available entry. */
  lemma FramesAreAvailable(es: seq<MmapEntry>, r: Region, fs: seq<Word>, f: Word)
    requires Largest(es, r) && Lists(fs, r.start, r.start + r.len) && f in fs
    ensures f % FRAME_SIZE == 0 && f >= KERNEL_END
    ensures exists e :: e in es && e.kind == MEMORY_AVAILABLE && e.addr <= f && f + FRAME_SIZE <= e.addr + e.len
  {
    assert WholeFrameOf(f, r.start, r.start + r.len);
    var e :| e in es && Offers(e, r);
  }

  /** End to end, over every run of the frame allocator after boot: each frame free or held is aligned, at or above
      8 MiB and inside one available entry; none is lost, and none is handed out while held. */
  lemma BootToFrames(es: seq<MmapEntry>, r: Region, fs: seq<Word>, ops: seq<Op>, end: Word)
    requires Largest(es, r) && Lists(fs, r.start, r.start + r.len)
    ensures var q := Run(Pool(fs, {}), ops, end);
      && NoDuplicates(q.free) && (forall f :: f in q.free ==> f !in q.held)
      && (forall f: Word :: f in q.free || f in q.held <==> WholeFrameOf(f, r.start, r.start + r.len))
      && (forall f: Word :: f in q.free || f in q.held ==>
            && f % FRAME_SIZE == 0 && f >= KERNEL_END
            && exists e :: e in es && e.kind == MEMORY_AVAILABLE && e.addr <= f && f + FRAME_SIZE <= e.addr + e.len)
  {
    var q := Run(Pool(fs, {}), ops, end);
    RunConserves(Pool(fs, {}), ops, end, set f | f in fs);
    forall f: Word | f in q.free || f in q.held
      ensures f % FRAME_SIZE == 0 && f >= KERNEL_END
      ensures exists e :: e in es && e.kind == MEMORY_AVAILABLE && e.addr <= f && f + FRAME_SIZE <= e.addr + e.len
    {
      FramesAreAvailable(es, r, fs, f);
    }
  }

  /** Rounding inwards loses no whole frame. */
  lemma FramesOfRegion(start: Word, end: Word)
    ensures start <= TWO_64 - FRAME_SIZE ==>
      Lists(Reversed(WholeFrames(AlignUp(start), AlignDown(end))), start, end)
  {
    WholeFramesExact(AlignUp(start), AlignDown(end));
    ReversedSameElements(WholeFrames(AlignUp(start), AlignDown(end)));
    if start <= TWO_64 - FRAME_SIZE {
      forall f: Word
        ensures WholeFrameOf(f, AlignUp(start), AlignDown(end)) <==> WholeFrameOf(f, start, end)
      {
      }
    }
  }

  // ----- the records of the frames -----

  lemma {:induction false} WholeFramesCount(addr: Word, end: Word)
    requires addr % FRAME_SIZE == 0 && end % FRAME_SIZE == 0
    ensures |WholeFrames(addr, end)| == if addr < end then (end - addr) / FRAME_SIZE else 0
    ensures forall i :: 0 <= i < |WholeFrames(addr, end)| ==> WholeFrames(addr, end)[i] == addr + FRAME_SIZE * i
    decreases end - addr
  {
    if addr < end {
      PagesAdd(addr, FRAME_SIZE);
      WholeFramesCount(addr + FRAME_SIZE, end);
      var fs, rest := WholeFrames(addr, end), WholeFrames(addr + FRAME_SIZE, end);
      assert forall i :: 0 < i < |fs| ==> fs[i] == rest[i - 1];
    }
  }

  /** Frame f has nothing of what the bump allocator hands out while its pointer moves from next to next'. */
  predicate ClearOfRecords(f: int, next: int, next': int) {
    next' - KVIRTUAL_ADDRESS <= f || f + FRAME_SIZE <= next - KVIRTUAL_ADDRESS
  }

  /** setup writes a record for each frame through the bump allocator. From below the first frame, the records stay clear
      of all frames if and only if the pointer comes to rest at or below that frame, at 8 MiB for a region from there. */
  lemma RecordsClearOfFrames(start: Word, end: Word, next: Word)
    requires KVIRTUAL_ADDRESS <= next <= KVIRTUAL_ADDRESS + AlignUp(start) && AlignUp(start) < AlignDown(end)
    ensures var fs := WholeFrames(AlignUp(start), AlignDown(end));
      var next' := next + FRAME_RECORD * |fs|;
      (forall f :: f in fs ==> ClearOfRecords(f, next, next')) <==> next' <= KVIRTUAL_ADDRESS + AlignUp(start)
  {
    var first := AlignUp(start);
    var fs := WholeFrames(first, AlignDown(end));
    WholeFramesExact(first, AlignDown(end));
    assert fs[0] == first && first in fs;
  }

  /** A region of 2 GiB from 8 MiB on has so many frames that their records always run into them. */
  lemma LargeRegionsOverlap(end: Word, next: Word)
    requires KVIRTUAL_ADDRESS < next <= KVIRTUAL_ADDRESS + KERNEL_END && end >= KERNEL_END + 0x8000_0000
    ensures var fs := WholeFrames(KERNEL_END, AlignDown(end));
      KERNEL_END in fs && !ClearOfRecords(KERNEL_END, next, next + FRAME_RECORD * |fs|)
  {
    var last := AlignDown(end);
    var fs := WholeFrames(KERNEL_END, last);
    WholeFramesCount(KERNEL_END, last);
    assert last >= KERNEL_END + 0x8000_0000;
    assert fs[0] == KERNEL_END;
  }
}
