/** A doubly linked list of heap_block headers represents the blocks of a kernel heap; and what the heap draws on
    when it grows: address space from virt, frames, and page tables. */
module KernelLinks {
  import opened Words
  import opened Blocks
  import opened LiveBlocks
  import opened KernelHeapSpec
  import opened KernelHeapProperties
  import opened PageMapping
  import R = Regions

  const MAGIC_FREE: int := 0xDEADBEEF
  const MAGIC_USED: int := 0xCAFEBABE

  datatype Header = Header(size: Word, isFree: bool, next: int, prev: int, magic: int) {
    predicate IsValid() { magic == MAGIC_FREE || magic == MAGIC_USED }
  }

  /** Headers by address. */
  type View = map<int, Header>

  function MagicOf(free: bool): int {
    if free then MAGIC_FREE else MAGIC_USED
  }

  /** The heap_block constructor. */
  function NewHeader(size: Word, free: bool): Header {
    Header(size, free, 0, 0, MagicOf(free))
  }

  predicate LooksLive(h: Header) {
    h.IsValid() && !h.isFree
  }

  /** The address of block i, null outside the list. */
  function AddrOf(bs: seq<Block>, i: int): int {
    if 0 <= i < |bs| then bs[i].addr else 0
  }

  /** h is the header of block i: linked to its neighbours in list order, its magic number agreeing with is_free. */
  ghost predicate HeaderOf(h: Header, bs: seq<Block>, i: int)
    requires 0 <= i < |bs|
  {
    && h.size == bs[i].size && h.isFree == bs[i].free && h.magic == MagicOf(bs[i].free)
    && h.next == AddrOf(bs, i + 1) && h.prev == AddrOf(bs, i - 1)
  }

  ghost predicate InPlace(m: View, bs: seq<Block>, i: int)
    requires 0 <= i < |bs|
  {
    bs[i].addr in m && HeaderOf(m[bs[i].addr], bs, i)
  }

  ghost predicate Linked(m: View, bs: seq<Block>) {
    forall i :: 0 <= i < |bs| ==> InPlace(m, bs, i)
  }

  /** Headers at the two addresses do not overlap. */
  predicate Clear(p: int, q: int) {
    p + H <= q || q + H <= p
  }

  /** No block is at null, and no two headers overlap. */
  ghost predicate Separate(bs: seq<Block>) {
    && (forall i :: 0 <= i < |bs| ==> bs[i].addr != 0)
    && (forall i, j :: 0 <= i < |bs| && 0 <= j < |bs| && i != j ==> Clear(bs[i].addr, bs[j].addr))
  }

  ghost predicate Represents(s: Heap, first: int, m: View) {
    Inv(s) && s.blocks != [] && first == AddrOf(s.blocks, 0) && Linked(m, s.blocks)
  }

  lemma InvSeparates(s: Heap)
    requires Inv(s)
    ensures Separate(s.blocks)
  {
    HeapApart(s);
    forall i | 0 <= i < |s.blocks|
      ensures s.blocks[i].addr != 0
    {
      AddressPositive(s, i);
    }
    forall i, j | 0 <= i < |s.blocks| && 0 <= j < |s.blocks| && i != j
      ensures Clear(s.blocks[i].addr, s.blocks[j].addr)
    {
      AddressPositive(s, i);
      AddressPositive(s, j);
      assert Apart(H, s.blocks[i], s.blocks[j]);
    }
  }

  lemma BlockInPlace(s: Heap, first: int, m: View, i: nat)
    requires Represents(s, first, m) && i < |s.blocks|
    ensures s.blocks[i].addr in m && HeaderOf(m[s.blocks[i].addr], s.blocks, i) && s.blocks[i].size >= 0
    ensures 0 < s.blocks[i].addr && s.blocks[i].End(H) < TWO_64
    ensures AddrOf(s.blocks, i + 1) != 0 <==> i + 1 < |s.blocks|
    ensures AddrOf(s.blocks, i - 1) != 0 <==> i > 0
  {
    InvSeparates(s);
    AddressPositive(s, i);
    assert InPlace(m, s.blocks, i);
  }

  /** Every header clear of those at ps is as it was. */
  ghost predicate Kept(m: View, m': View, ps: set<int>) {
    forall k :: k in m && ClearOf(k, ps) ==> k in m' && m'[k] == m[k]
  }

  predicate ClearOf(k: int, ps: set<int>) {
    forall p :: p in ps ==> Clear(k, p)
  }

  function NonNull(p: int): set<int> {
    if p == 0 then {} else {p}
  }

  /** Writing n bytes at p destroys the headers they overlap. */
  function Clobbered(m: View, p: int, n: int): View {
    map k | k in m && (n <= 0 || k + H <= p || p + n <= k) :: m[k]
  }

  function Written(m: View, p: int, h: Header): View {
    Clobbered(m, p, H)[p := h]
  }

  // ----- list surgery -----

  /** split_block's writes: a new header at q, the links around it, and the smaller size at p. */
  ghost predicate Inserted(m: View, m': View, p: int, q: int, size: Word, rest: Word)
    requires p in m
  {
    var n := m[p].next;
    && Kept(m, m', {p, q} + NonNull(n))
    && p in m' && m'[p] == m[p].(size := size, next := q)
    && q in m' && m'[q] == Header(rest, true, n, p, MAGIC_FREE)
    && (n != 0 ==> n in m && n in m' && m'[n] == m[n].(prev := q))
  }

  lemma SplitLinks(m: View, m': View, bs: seq<Block>, i: nat, size: nat)
    requires Linked(m, bs) && i < |bs| && Splits(H, bs[i], size) && bs[i].size < TWO_64
    requires Separate(bs) && Separate(Split(H, bs, i, size))
    requires InPlace(m, bs, i) && Inserted(m, m', bs[i].addr, bs[i].addr + H + size, size, bs[i].size - size - H)
    ensures Linked(m', Split(H, bs, i, size))
  {
    var r := Split(H, bs, i, size);
    var q := bs[i].addr + H + size;
    assert r[i].addr == bs[i].addr && r[i + 1].addr == q;
    assert forall j :: 0 <= j < i ==> r[j] == bs[j];
    assert forall j :: i + 1 < j < |r| ==> r[j] == bs[j - 1];
    forall j | 0 <= j < |r|
      ensures InPlace(m', r, j)
    {
      if j < i {
        assert InPlace(m, bs, j) && Clear(r[j].addr, r[i + 1].addr) && Clear(bs[j].addr, bs[i].addr);
        assert i + 1 < |bs| ==> Clear(bs[j].addr, bs[i + 1].addr);
      } else if j > i + 1 {
        assert InPlace(m, bs, j - 1);
        assert Clear(r[j].addr, r[i + 1].addr) && Clear(bs[j - 1].addr, bs[i].addr);
        assert j > i + 2 ==> Clear(bs[j - 1].addr, bs[i + 1].addr);
      }
    }
  }

  lemma SplitStep(s: Heap, first: int, m: View, m': View, i: nat, size: nat)
    requires Represents(s, first, m) && i < |s.blocks| && Splits(H, s.blocks[i], size)
    requires s.blocks[i].size < TWO_64
    requires var p := s.blocks[i].addr; p in m && Inserted(m, m', p, p + H + size, size, s.blocks[i].size - size - H)
    ensures Represents(SplitAt(s, i, size), first, m')
  {
    InvSeparates(s);
    InvSplit(s, i, size);
    InvSeparates(SplitAt(s, i, size));
    hide Inv, Separate;
    assert InPlace(m, s.blocks, i);
    SplitLinks(m, m', s.blocks, i, size);
  }

  lemma SplitReady(s: Heap, first: int, m: View, i: nat, size: nat)
    requires Represents(s, first, m) && i < |s.blocks| && Splits(H, s.blocks[i], size)
    ensures var p := s.blocks[i].addr;
      && p in m && Clear(p, p + H + size)
      && (m[p].next != 0 ==> m[p].next in m && Clear(m[p].next, p) && Clear(m[p].next, p + H + size))
  {
    BlockInPlace(s, first, m, i);
    InvSeparates(s);
    InvSplit(s, i, size);
    InvSeparates(SplitAt(s, i, size));
    if i + 1 < |s.blocks| {
      BlockInPlace(s, first, m, i + 1);
      var r := Split(H, s.blocks, i, size);
      assert r[i + 1].addr == s.blocks[i].addr + H + size && r[i + 2] == s.blocks[i + 1];
      assert Clear(r[i + 2].addr, r[i + 1].addr) && Clear(s.blocks[i + 1].addr, s.blocks[i].addr);
    }
  }

  /** coalesce_block's writes: the header at p takes over the space and the successor of the next one. */
  ghost predicate Absorbed(m: View, m': View, p: int)
    requires p in m && m[p].next in m
  {
    var n := m[p].next;
    var f := m[n].next;
    && Kept(m, m', {p} + NonNull(f))
    && p in m' && m'[p] == m[p].(size := Wrap(m[p].size + H + m[n].size), next := f)
    && (f != 0 ==> f in m && f in m' && m'[f] == m[f].(prev := p))
  }

  lemma MergeLinks(m: View, m': View, bs: seq<Block>, i: nat)
    requires Linked(m, bs) && i + 1 < |bs| && Separate(bs)
    requires InPlace(m, bs, i) && InPlace(m, bs, i + 1) && Absorbed(m, m', bs[i].addr)
    requires bs[i].size >= 0 && bs[i + 1].size >= 0 && Union(H, bs[i], bs[i + 1]).size < TWO_64
    ensures Linked(m', Merge(H, bs, i))
  {
    var r := Merge(H, bs, i);
    assert r[i].addr == bs[i].addr;
    assert forall j :: 0 <= j < i ==> r[j] == bs[j];
    assert forall j :: i < j < |r| ==> r[j] == bs[j + 1];
    forall j | 0 <= j < |r|
      ensures InPlace(m', r, j)
    {
      if j < i {
        assert InPlace(m, bs, j) && Clear(bs[j].addr, bs[i].addr);
        assert i + 2 < |bs| ==> Clear(bs[j].addr, bs[i + 2].addr);
      } else if j > i {
        assert InPlace(m, bs, j + 1) && Clear(bs[j + 1].addr, bs[i].addr);
        assert j > i + 1 ==> Clear(bs[j + 1].addr, bs[i + 2].addr);
      }
    }
  }

  lemma MergeStep(s: Heap, first: int, m: View, m': View, i: nat)
    requires Represents(s, first, m) && JoinsNext(H, s.blocks, i)
    requires var p := s.blocks[i].addr; p in m && m[p].next in m && Absorbed(m, m', p)
    ensures Represents(Merged(s, i), first, m')
  {
    InvSeparates(s);
    InvMerge(s, i);
    AddressPositive(s, i);
    AddressPositive(s, i + 1);
    hide Inv, Separate;
    assert InPlace(m, s.blocks, i) && InPlace(m, s.blocks, i + 1);
    MergeLinks(m, m', s.blocks, i);
  }

  lemma MergeReady(s: Heap, first: int, m: View, i: nat)
    requires Represents(s, first, m) && i + 1 < |s.blocks|
    ensures var p := s.blocks[i].addr;
      && p in m && m[p].next in m
      && (m[m[p].next].next != 0 ==> m[m[p].next].next in m && Clear(m[m[p].next].next, p))
      && m[m[p].next].next == AddrOf(s.blocks, i + 2)
  {
    InvSeparates(s);
    BlockInPlace(s, first, m, i);
    BlockInPlace(s, first, m, i + 1);
    if i + 2 < |s.blocks| {
      BlockInPlace(s, first, m, i + 2);
      assert Clear(s.blocks[i + 2].addr, s.blocks[i].addr);
    }
  }

  /** Marking a header frees or takes its block. */
  ghost predicate Marked(m: View, m': View, p: int, free: bool)
    requires p in m
  {
    Kept(m, m', {p}) && p in m' && m'[p] == m[p].(isFree := free, magic := MagicOf(free))
  }

  lemma MarkLinks(m: View, m': View, bs: seq<Block>, i: nat, free: bool)
    requires Linked(m, bs) && i < |bs| && Separate(bs) && InPlace(m, bs, i) && Marked(m, m', bs[i].addr, free)
    ensures Linked(m', SetFree(bs, i, free))
  {
    var r := SetFree(bs, i, free);
    forall j | 0 <= j < |r|
      ensures InPlace(m', r, j)
    {
      assert InPlace(m, bs, j) && (j != i ==> Clear(bs[j].addr, bs[i].addr));
    }
  }

  /** Marking, and moving c bytes from one statistic to the other. */
  lemma MarkStep(s: Heap, first: int, m: View, m': View, i: nat, free: bool, c: int, allocs: int, frees: int)
    requires Represents(s, first, m) && i < |s.blocks| && s.blocks[i].addr in m && Marked(m, m', s.blocks[i].addr, free)
    ensures Represents(s.(blocks := SetFree(s.blocks, i, free), charged := Wrap(s.charged + c), free := Wrap(s.free - c),
                          allocs := allocs, frees := frees), first, m')
  {
    InvSeparates(s);
    InvMark(s, i, free, c, allocs, frees);
    hide Inv, Separate;
    assert InPlace(m, s.blocks, i);
    MarkLinks(m, m', s.blocks, i, free);
  }

  /** Moving bytes between the statistics alone. */
  lemma RefundStep(s: Heap, first: int, m: View, d: int)
    requires Represents(s, first, m)
    ensures Represents(s.(charged := Wrap(s.charged - d), free := Wrap(s.free + d)), first, m)
  {
    CounterStep(s.charged, s.free, s.size + H * |s.blocks| - 2 * H * |s.regions|, -d, d);
  }

  /** expand_heap's writes: a new header at q, linked behind the last one at p. */
  ghost predicate Extended(m: View, m': View, p: int, q: int, size: Word)
    requires p in m
  {
    && Kept(m, m', {p, q}) && p in m' && m'[p] == m[p].(next := q)
    && q in m' && m'[q] == NewHeader(size, true).(prev := p)
  }

  lemma AppendLinks(m: View, m': View, bs: seq<Block>, b: Block)
    requires bs != [] && Linked(m, bs) && Separate(bs + [b]) && b.free && 0 <= b.size < TWO_64
    requires InPlace(m, bs, |bs| - 1) && Extended(m, m', bs[|bs| - 1].addr, b.addr, b.size)
    ensures Linked(m', bs + [b])
  {
    var r := bs + [b];
    assert r[|bs|] == b && forall j :: 0 <= j < |bs| ==> r[j] == bs[j];
    forall j | 0 <= j < |r|
      ensures InPlace(m', r, j)
    {
      assert j < |bs| ==> InPlace(m, bs, j) && Clear(r[j].addr, r[|bs|].addr);
      assert j < |bs| - 1 ==> Clear(r[j].addr, r[|bs| - 1].addr);
      assert 0 <= j - 1 ==> AddrOf(r, j - 1) == AddrOf(bs, j - 1);
    }
  }

  lemma AppendStep(s: Heap, first: int, m: View, m': View, start: int, len: int)
    requires Represents(s, first, m) && Fresh(s, start, len)
    requires var last := s.blocks[|s.blocks| - 1].addr;
      last in m && len - H < TWO_64 && Extended(m, m', last, start, len - H)
    ensures Represents(Appended(s, start, len), first, m')
  {
    InvAppend(s, start, len);
    InvSeparates(Appended(s, start, len));
    assert InPlace(m, s.blocks, |s.blocks| - 1);
    hide Inv, Separate;
    AppendLinks(m, m', s.blocks, Block(start, len - H, true));
  }

  /** The header of a new region is clear of the last block's. */
  lemma RegionApart(s: Heap, first: int, m: View, start: int, len: int)
    requires Represents(s, first, m) && Fresh(s, start, len)
    ensures Clear(start, AddrOf(s.blocks, |s.blocks| - 1))
  {
    InvAppend(s, start, len);
    InvSeparates(Appended(s, start, len));
    var bs := Appended(s, start, len).blocks;
    assert bs[|s.blocks| - 1] == s.blocks[|s.blocks| - 1] && bs[|s.blocks|].addr == start;
    assert Clear(bs[|s.blocks|].addr, bs[|s.blocks| - 1].addr);
  }

  lemma InitialRepresents(start: int, size: Word)
    requires 0 < start && AlignUp(size) > H && start + AlignUp(size) < TWO_64
    ensures Represents(Initial(start, size), start, map[start := NewHeader(AlignUp(size) - H, true)])
  {
    InvInitial(start, size);
  }

  /** What is written into the data of a block, in use or not, leaves the headers of the list alone. */
  lemma DataWrite(s: Heap, first: int, m: View, i: nat, p: int, n: int)
    requires Represents(s, first, m) && i < |s.blocks| && s.blocks[i].Data(H) <= p && p + n <= s.blocks[i].End(H)
    ensures Represents(s, first, Clobbered(m, p, n))
  {
    HeapApart(s);
    hide Inv;
    var m' := Clobbered(m, p, n);
    forall j | 0 <= j < |s.blocks|
      ensures InPlace(m', s.blocks, j)
    {
      assert InPlace(m, s.blocks, j) && (j != i ==> Apart(H, s.blocks[i], s.blocks[j]));
      assert s.blocks[j].addr < s.blocks[j].End(H);
    }
  }

  // ----- walking -----

  /** A walk along the list has reached block i, at p, or its end. */
  ghost predicate Cursor(bs: seq<Block>, i: nat, p: int) {
    i <= |bs| && p == AddrOf(bs, i) && (p != 0 <==> i < |bs|)
  }

  lemma CursorStarts(s: Heap, first: int, m: View)
    requires Represents(s, first, m)
    ensures Cursor(s.blocks, 0, first)
  {
    BlockInPlace(s, first, m, 0);
  }

  lemma CursorReads(s: Heap, first: int, m: View, i: nat, p: int)
    requires Represents(s, first, m) && Cursor(s.blocks, i, p) && p != 0
    ensures p in m && i < |s.blocks| && HeaderOf(m[p], s.blocks, i) && m[p].IsValid()
    ensures Cursor(s.blocks, i + 1, m[p].next)
  {
    BlockInPlace(s, first, m, i);
  }

  /** The sizes in use and free before block i, summed in 64 bits. */
  ghost predicate Counted(bs: seq<Block>, i: nat, used: int, free: int) {
    i <= |bs| && used == Wrap(Sum(bs[..i], UsedSize())) && free == Wrap(Sum(bs[..i], FreeSize()))
  }

  lemma CountedStep(bs: seq<Block>, i: nat, used: int, free: int)
    requires i < |bs| && Counted(bs, i, used, free)
    ensures Counted(bs, i + 1, if bs[i].free then used else Wrap(used + bs[i].size),
                    if bs[i].free then Wrap(free + bs[i].size) else free)
  {
    assert bs[..i + 1] == bs[..i] + [bs[i]];
    SumOfAppend(bs[..i], bs[i], UsedSize());
    SumOfAppend(bs[..i], bs[i], FreeSize());
    WrapSum(Sum(bs[..i], UsedSize()), bs[i].size);
    WrapSum(Sum(bs[..i], FreeSize()), bs[i].size);
  }

  // ----- where the heap grows -----

  /** The free address space, and the frames and pages. */
  datatype Supply = Supply(ranges: seq<R.Region>, vm: Vm)

  /** Whether a request for len bytes is granted, and where: not at null, nor without a frame for every page. */
  function GrantOf(e: Supply, len: int): Grant {
    var i := R.FirstServing(e.ranges, len);
    if i == |e.ranges| || e.ranges[i].start == 0 || len / FRAME_SIZE > |e.vm.frames| then Refused
    else Granted(e.ranges[i].start)
  }

  /** A range at null is lost; one that cannot be mapped is given back, but the frames tried are lost. */
  function Supplied(e: Supply, space: int, len: nat): Supply {
    var i := R.FirstServing(e.ranges, len);
    if i == |e.ranges| then e else
      var start, rest := e.ranges[i].start, e.ranges[i := R.Rest(e.ranges[i], len)];
      if start == 0 then e.(ranges := rest)
      else Supply(if len / FRAME_SIZE <= |e.vm.frames| then rest else R.Freed(rest, start, len),
                  Requested(e.vm, space, start / FRAME_SIZE, len / FRAME_SIZE))
  }

  /** The heap's regions are not free address space, and every page of them is mapped. */
  ghost predicate Owns(rs: seq<Area>, e: Supply, space: int) {
    && (forall a :: InRegions(rs, a) > 0 ==> !R.IsFree(e.ranges, a))
    && (forall a :: InRegions(rs, a) > 0 ==> Slot(space, a / FRAME_SIZE) in e.vm.pages)
  }

  /** Taking a range: what is left free, and what was taken. */
  lemma RangeTaken(s: Heap, e: Supply, space: int, len: nat)
    requires R.Inv(e.ranges) && Owns(s.regions, e, space)
    requires len % FRAME_SIZE == 0 && R.FirstServing(e.ranges, len) < |e.ranges|
    ensures var i := R.FirstServing(e.ranges, len);
      var start, rest := e.ranges[i].start, e.ranges[i := R.Rest(e.ranges[i], len)];
      && R.Inv(rest) && Owns(s.regions, e.(ranges := rest), space)
      && 0 <= start && start % FRAME_SIZE == 0 && start + len <= R.VADDR_SIZE
      && (forall a :: start <= a < start + len ==> InRegions(s.regions, a) == 0 && !R.IsFree(rest, a))
      && (forall a :: R.IsFree(e.ranges, a) <==> R.IsFree(rest, a) || start <= a < start + len)
  {
    R.AllocTakes(e.ranges, len);
    var i := R.FirstServing(e.ranges, len);
    var start, rest := e.ranges[i].start, e.ranges[i := R.Rest(e.ranges[i], len)];
    forall a
      ensures R.IsFree(e.ranges, a) <==> R.IsFree(rest, a) || start <= a < start + len
      ensures start <= a < start + len ==> InRegions(s.regions, a) == 0 && !R.IsFree(rest, a)
    {
      assert R.Count(rest, a) + R.Weight(R.Region(start, len), a) == R.Count(e.ranges, a) <= 1;
    }
  }

  /** Giving a range back whose mapping failed. */
  lemma RangeReturned(s: Heap, e: Supply, space: int, start: int, len: nat)
    requires R.Inv(e.ranges) && Owns(s.regions, e, space) && len / FRAME_SIZE > |e.vm.frames|
    requires 0 <= start && start % FRAME_SIZE == 0 && start + len <= R.VADDR_SIZE && len % FRAME_SIZE == 0
    requires forall a :: start <= a < start + len ==> InRegions(s.regions, a) == 0 && !R.IsFree(e.ranges, a)
    ensures var ranges := R.Freed(e.ranges, start, len);
      var e' := Supply(ranges, Requested(e.vm, space, start / FRAME_SIZE, len / FRAME_SIZE));
      R.Inv(e'.ranges) && Owns(s.regions, e', space)
  {
    R.FreeAdds(e.ranges, start, len);
    var ranges, vm := R.Freed(e.ranges, start, len), Requested(e.vm, space, start / FRAME_SIZE, len / FRAME_SIZE);
    forall a | InRegions(s.regions, a) > 0
      ensures !R.IsFree(ranges, a) && Slot(space, a / FRAME_SIZE) in vm.pages
    {
      assert R.Count(ranges, a) == R.Count(e.ranges, a) + R.Weight(R.Region(start, len), a);
      assert !(start <= a < start + len);
    }
  }

  /** Mapping a range adds its pages. */
  lemma RangeMapped(s: Heap, e: Supply, space: int, start: int, len: nat)
    requires Owns(s.regions, e, space) && len / FRAME_SIZE <= |e.vm.frames|
    requires 0 <= start && start % FRAME_SIZE == 0 && len % FRAME_SIZE == 0
    requires forall a :: start <= a < start + len ==> !R.IsFree(e.ranges, a)
    ensures var vm := Requested(e.vm, space, start / FRAME_SIZE, len / FRAME_SIZE);
      Owns(s.regions + [Area(start, len)], e.(vm := vm), space)
  {
    var page, n := start / FRAME_SIZE, len / FRAME_SIZE;
    MappedExactly(e.vm, space, page, n);
    var vm, r := Requested(e.vm, space, page, n), Area(start, len);
    forall a | InRegions(s.regions + [r], a) > 0
      ensures !R.IsFree(e.ranges, a) && Slot(space, a / FRAME_SIZE) in vm.pages
    {
      RegionsAppend(s.regions, r, a);
      assert r.Has(a) ==> Within(Slot(space, a / FRAME_SIZE), space, page, n);
    }
  }

  /** The constructor's region, once mapped, is owned. */
  lemma InitialOwns(start: int, size: Word, e: Supply, space: int)
    requires 0 < start && start % FRAME_SIZE == 0 && AlignUp(size) / FRAME_SIZE <= |e.vm.frames|
    requires forall a :: start <= a < start + AlignUp(size) ==> !R.IsFree(e.ranges, a)
    ensures var vm := Requested(e.vm, space, start / FRAME_SIZE, AlignUp(size) / FRAME_SIZE);
      Owns([Area(start, AlignUp(size))], e.(vm := vm), space)
  {
    RangeMapped(Heap([], [], 0, 0, 0, 0, 0), e, space, start, AlignUp(size));
  }

  /** A range taken elsewhere than at null is one that can be given back, and none of the heap's. */
  ghost predicate RangeFree(rs: seq<Area>, e: Supply, len: nat) {
    var i := R.FirstServing(e.ranges, len);
    i < |e.ranges| && e.ranges[i].start != 0 ==>
      && Returnable(e.ranges[i := R.Rest(e.ranges[i], len)], e.ranges[i].start, len)
      && Unowned(rs, e.ranges[i].start, len)
  }

  ghost predicate Unowned(rs: seq<Area>, start: int, len: int) {
    forall a :: start <= a < start + len ==> InRegions(rs, a) == 0
  }

  ghost predicate Returnable(rs: seq<R.Region>, start: int, len: nat) {
    && 0 < start && start % FRAME_SIZE == 0 && start + len <= R.VADDR_SIZE
    && forall a :: start <= a < start + len ==> !R.IsFree(rs, a)
  }

  /** A granted region is new, and the heap owns it once it is supplied. A refusal leaves the heap what it owns. */
  lemma SupplyGrants(s: Heap, e: Supply, space: int, len: nat)
    requires R.Inv(e.ranges) && Owns(s.regions, e, space) && len % FRAME_SIZE == 0 && 0 !in e.vm.frames
    ensures 0 !in Supplied(e, space, len).vm.frames
    ensures R.Inv(Supplied(e, space, len).ranges)
    ensures RangeFree(s.regions, e, len)
    ensures var g := GrantOf(e, len);
      if g.Refused? then Owns(s.regions, Supplied(e, space, len), space)
      else (len > 0 ==> Fresh(s, g.start, len)) && Owns(s.regions + [Area(g.start, len)], Supplied(e, space, len), space)
  {
    var i := R.FirstServing(e.ranges, len);
    if i < |e.ranges| {
      RangeTaken(s, e, space, len);
      var start, rest := e.ranges[i].start, e.ranges[i := R.Rest(e.ranges[i], len)];
      if start != 0 {
        RequestedNeverNull(e.vm, space, start / FRAME_SIZE, len / FRAME_SIZE);
        if len / FRAME_SIZE <= |e.vm.frames| {
          RangeMapped(s, e.(ranges := rest), space, start, len);
        } else {
          RangeReturned(s, e.(ranges := rest), space, start, len);
        }
      }
    }
  }

  // ----- what malloc does with its supply -----

  function GrantFor(e: Supply, size: Word): Grant {
    RoundedBelow(size);
    GrantOf(e, AlignUp(AlignUp(size) + H))
  }

  /** The sizes whose rounding leaves room for a header. Those beyond ask for a region whose length wraps to zero. */
  predicate Sound(size: Word) {
    AlignUp(size) <= TWO_64 - 2 * FRAME_SIZE
  }

  /** malloc does not get a region of no length. */
  predicate Safe(s: Heap, e: Supply, size: Word) {
    size == 0 || Sound(size) || GrantFor(e, size).Refused? || FirstFit(s.blocks, AlignUp(size)) < |s.blocks|
  }

  /** calloc zeroes all it asked for: not more than rounding leaves, unless malloc fails. */
  predicate Zeroable(s: Heap, e: Supply, size: Word) {
    Safe(s, e, size) && (size > TWO_64 - FRAME_SIZE ==> Malloc(s, size, GrantFor(e, size)).1 == 0)
  }

  lemma SafeGrows(s: Heap, e: Supply, size: Word)
    requires Safe(s, e, size) && size != 0 && FirstFit(s.blocks, AlignUp(size)) == |s.blocks|
    ensures AlignUp(size) + H < TWO_64
    ensures var len := AlignUp(AlignUp(size) + H); len > H || GrantOf(e, len).Refused?
  {
    RoundedBelow(size);
  }

  lemma SafeTwice(s: Heap, e: Supply, size: Word)
    requires Safe(s, e, size)
    ensures Safe(s, e, AlignUp(size))
  {
    RoundedTwice(size);
  }

  /** Only a malloc that finds no block draws on the supply. */
  function SourceAfter(s: Heap, e: Supply, space: int, size: Word): Supply {
    RoundedBelow(size);
    if size == 0 || FirstFit(s.blocks, AlignUp(size)) < |s.blocks| then e
    else Supplied(e, space, AlignUp(AlignUp(size) + H))
  }

  /** Whether realloc calls malloc. */
  predicate Mallocs(s: Heap, ptr: int, size: Word) {
    ptr == 0 || (size > 0 && Live(s, ptr) && AlignUp(size) > s.blocks[LiveIndex(H, s.blocks, ptr)].size)
  }

  /** The region malloc may be granted is a new one, so its second search succeeds. */
  lemma MallocFinds(s: Heap, first: int, m: View, e: Supply, space: int, size: Word)
    requires Represents(s, first, m) && Safe(s, e, size)
    requires R.Inv(e.ranges) && Owns(s.regions, e, space) && 0 !in e.vm.frames
    ensures var g := GrantFor(e, size);
      && GoodGrant(s, size, g)
      && (g.Granted? && size != 0 && FirstFit(s.blocks, AlignUp(size)) == |s.blocks| ==>
            AlignUp(size) + H < TWO_64 && var t := Grow(s, g.start, AlignUp(AlignUp(size) + H));
            FirstFit(t.blocks, AlignUp(size)) < |t.blocks|)
  {
    hide Owns, R.Inv;
    RoundedBelow(size);
    SupplyGrants(s, e, space, AlignUp(AlignUp(size) + H));
    if GrantFor(e, size).Granted? && size != 0 && FirstFit(s.blocks, AlignUp(size)) == |s.blocks| {
      GrowThenFits(s, GrantFor(e, size).start, AlignUp(size));
    }
  }

  lemma NullNotLive(s: Heap, first: int, m: View)
    requires Represents(s, first, m)
    ensures !Live(s, 0)
  {
    if Live(s, 0) {
      AddressPositive(s, LiveIndex(H, s.blocks, 0));
      assert false;
    }
  }

  /** After another malloc a live block is still there, apart from the new one. */
  lemma LiveStays(s: Heap, first: int, m: View, e: Supply, space: int, ptr: int, size: Word)
    requires Represents(s, first, m) && Safe(s, e, size)
    requires R.Inv(e.ranges) && Owns(s.regions, e, space) && 0 !in e.vm.frames && Live(s, ptr)
    ensures var (t, p) := Malloc(s, size, GrantFor(e, size));
      var b := s.blocks[LiveIndex(H, s.blocks, ptr)];
      && Live(t, ptr) && t.blocks[LiveIndex(H, t.blocks, ptr)] == b
      && (p != 0 ==> Live(t, p) && AlignUp(size) <= t.blocks[LiveIndex(H, t.blocks, p)].size)
      && (p != 0 ==> p + AlignUp(size) <= ptr || ptr + b.size <= p)
  {
    hide Inv, Malloc, GoodGrant, R.Inv, Owns;
    MallocFinds(s, first, m, e, space, size);
    var grant := GrantFor(e, size);
    var t := Malloc(s, size, grant).0;
    MallocAllocates(s, size, grant);
    InvMalloc(s, size, grant);
    HeapApart(t);
    var b := s.blocks[LiveIndex(H, s.blocks, ptr)];
    assert b in Used(s.blocks);
    LiveMeansUsed(H, t.blocks, b);
  }

  /** A block malloc returns holds the bytes asked for, if rounding their number up does not wrap. */
  lemma MallocHolds(s: Heap, first: int, m: View, e: Supply, space: int, size: Word)
    requires Represents(s, first, m) && Zeroable(s, e, size)
    requires R.Inv(e.ranges) && Owns(s.regions, e, space) && 0 !in e.vm.frames
    ensures var (t, p) := Malloc(s, size, GrantFor(e, size));
      p != 0 ==> Live(t, p) && size <= t.blocks[LiveIndex(H, t.blocks, p)].size
  {
    hide Inv, Malloc, GoodGrant, R.Inv, Owns;
    MallocFinds(s, first, m, e, space, size);
    MallocAllocates(s, size, GrantFor(e, size));
  }
}
