/** What the operations of heap.cpp do to the abstract kernel heap, and what follows on every run. */
module KernelHeapSpec {
  import opened Words
  import opened Blocks

  const H: int := 40  // sizeof(heap_block)

  /** Address ranges the heap has been given, the first by its constructor. */
  datatype Area = Area(start: int, len: int) {
    predicate Has(a: int) { start <= a < start + len }
  }

  /** size is heap_size_; charged and free are the byte statistics; all are 64-bit. */
  datatype Heap = Heap(blocks: seq<Block>, regions: seq<Area>, size: int, charged: int, free: int, allocs: int, frees: int)

  function Wrap(x: int): Word {
    x % TWO_64
  }

  function Initial(start: int, size: Word): Heap {
    var len := AlignUp(size);
    Heap([Block(start, len - H, true)], [Area(start, len)], len, 0, Wrap(len - H), 0, 0)
  }

  /** Merging charges the header it removes to the free bytes: the sign the code has. */
  function Merged(s: Heap, i: int): Heap {
    s.(blocks := MergeIfJoins(H, s.blocks, i), free := if JoinsNext(H, s.blocks, i) then Wrap(s.free - H) else s.free)
  }

  function Coalesced(s: Heap, i: nat): Heap
    requires i < |s.blocks|
  {
    Merged(Merged(s, i), i - 1)
  }

  /** The heap with a new region as one free block at the end of the list. */
  function Appended(s: Heap, start: int, len: int): Heap {
    s.(blocks := s.blocks + [Block(start, len - H, true)], regions := s.regions + [Area(start, len)],
       size := Wrap(s.size + len), free := Wrap(s.free + len - H))
  }

  /** expand_heap once it has its region: len bytes at start, anywhere in the address space. */
  function Grow(s: Heap, start: int, len: int): Heap {
    Coalesced(Appended(s, start, len), |s.blocks|)
  }

  function SplitAt(s: Heap, i: nat, size: int): Heap
    requires i < |s.blocks|
  {
    s.(blocks := Split(H, s.blocks, i, size), free := if Splits(H, s.blocks[i], size) then Wrap(s.free + H) else s.free)
  }

  /** The end of malloc, which charges the size asked for. */
  function TakeAt(s: Heap, i: nat, size: int): (r: Heap)
    requires i < |s.blocks|
    ensures r.blocks == Allocate(H, s.blocks, i, size) && r.regions == s.regions
  {
    var t := SplitAt(s, i, size);
    t.(blocks := SetFree(t.blocks, i, false), charged := Wrap(t.charged + size), free := Wrap(t.free - size),
       allocs := Wrap(t.allocs + 1))
  }

  /** The end of free, which refunds the size of the block. */
  function ReleaseAt(s: Heap, i: nat): (r: Heap)
    requires i < |s.blocks|
    ensures r.blocks == Release(H, s.blocks, i)
  {
    var n := s.blocks[i].size;
    Coalesced(s.(blocks := SetFree(s.blocks, i, true), charged := Wrap(s.charged - n), free := Wrap(s.free + n),
                 frees := Wrap(s.frees + 1)), i)
  }

  /** The region a heap gets when it asks to grow, if the space and the frames for it can be found. */
  datatype Grant = Refused | Granted(start: int)

  function Ready(s: Heap, size: Word, grant: Grant): Heap
    requires size + H < TWO_64
  {
    if FirstFit(s.blocks, size) < |s.blocks| || grant.Refused? then s else Grow(s, grant.start, AlignUp(size + H))
  }

  function TakeFirst(s: Heap, size: int): (Heap, int) {
    var i := FirstFit(s.blocks, size);
    if i < |s.blocks| then (TakeAt(s, i, size), s.blocks[i].Data(H)) else (s, 0)
  }

  lemma RoundedBelow(size: Word)
    ensures AlignUp(size) <= TWO_64 - FRAME_SIZE
  {
  }

  /** malloc, for every region that does not wrap around; module KernelHeapLimits has those that do. */
  function Malloc(s: Heap, size: Word, grant: Grant): (Heap, int) {
    RoundedBelow(size);
    if size == 0 then (s, 0) else TakeFirst(Ready(s, AlignUp(size), grant), AlignUp(size))
  }

  predicate Live(s: Heap, ptr: int) {
    LiveIndex(H, s.blocks, ptr) < |s.blocks|
  }

  function Free(s: Heap, ptr: int): Heap {
    if Live(s, ptr) then ReleaseAt(s, LiveIndex(H, s.blocks, ptr)) else s
  }

  function Shrink(s: Heap, i: nat, size: int): Heap
    requires i < |s.blocks|
  {
    var n := s.blocks[i].size;
    if n > size + H + MIN_DATA then
      var t := SplitAt(s, i, size);
      t.(charged := Wrap(t.charged - (n - size)), free := Wrap(t.free + (n - size)))
    else s
  }

  lemma RoundedTwice(size: Word)
    ensures AlignUp(AlignUp(size)) == AlignUp(size)
  {
  }

  function Realloc(s: Heap, ptr: int, size: Word, grant: Grant): (Heap, int) {
    if ptr == 0 then Malloc(s, size, grant)
    else if size == 0 then (Free(s, ptr), 0)
    else if !Live(s, ptr) then (s, 0)
    else
      var i := LiveIndex(H, s.blocks, ptr);
      RoundedTwice(size);
      if AlignUp(size) <= s.blocks[i].size then (Shrink(s, i, AlignUp(size)), ptr)
      else
        var (m, p) := Malloc(s, AlignUp(size), grant);
        if p == 0 then (m, 0) else (Free(m, ptr), p)
  }

  function Product(x: Word, y: Word): nat {
    x * y
  }

  function Calloc(s: Heap, num: Word, size: Word, grant: Grant): (Heap, int) {
    if Product(num, size) < TWO_64 then Malloc(s, Product(num, size), grant) else (s, 0)
  }

  /** calloc's check, on the product as 64 bits hold it. */
  predicate CallocRejects(num: Word, size: Word) {
    num > 0 && Wrap(num * size) / num != size
  }

  // ----- what the blocks cover -----

  function InRegions(rs: seq<Area>, a: int): nat {
    if rs == [] then 0 else (if rs[0].Has(a) then 1 else 0) + InRegions(rs[1..], a)
  }

  function TotalLength(rs: seq<Area>): int {
    if rs == [] then 0 else rs[0].len + TotalLength(rs[1..])
  }

  function Covers(a: int): Block -> int { (b: Block) => if b.addr <= a < b.End(H) then 1 else 0 }

  /** Every block is in the address space, and the blocks cover each address exactly as often as the regions do. */
  ghost predicate Partition(s: Heap) {
    && (forall b :: b in s.blocks ==> b.size >= 0 && 0 < b.addr && b.End(H) < TWO_64)
    && (forall a :: Sum(s.blocks, Covers(a)) == InRegions(s.regions, a) <= 1)
    && (forall r :: r in s.regions ==> r.len > H)
    && Sum(s.blocks, Blocks.Extent(H)) == TotalLength(s.regions)
    && s.size == Wrap(TotalLength(s.regions))
  }

  /** The law the statistics obey, for N blocks and G regions: charged + free = size + H N - 2 H G. */
  ghost predicate CounterLaw(s: Heap) {
    && Wrap(s.charged + s.free) == Wrap(s.size + H * |s.blocks| - 2 * H * |s.regions|)
    && 0 <= s.charged < TWO_64 && 0 <= s.free < TWO_64
  }

  ghost predicate Inv(s: Heap) {
    Partition(s) && CounterLaw(s)
  }

  // ----- the invariant over every operation -----

  lemma {:induction false} SumOfAppend(bs: seq<Block>, b: Block, f: Block -> int)
    ensures Sum(bs + [b], f) == Sum(bs, f) + f(b)
  {
    SumConcat(bs, [b], f);
    SumOne(b, f);
  }

  lemma {:induction false} RegionsAppend(rs: seq<Area>, r: Area, a: int)
    ensures InRegions(rs + [r], a) == InRegions(rs, a) + if r.Has(a) then 1 else 0
    ensures TotalLength(rs + [r]) == TotalLength(rs) + r.len
  {
    if rs == [] {
      assert (rs + [r])[1..] == [];
    } else {
      assert (rs + [r])[1..] == rs[1..] + [r];
      RegionsAppend(rs[1..], r, a);
    }
  }

  lemma PartitionSplit(s: Heap, i: nat, size: nat)
    requires Partition(s) && i < |s.blocks|
    ensures Partition(SplitAt(s, i, size))
  {
    if Splits(H, s.blocks[i], size) {
      var p := Halves(H, s.blocks[i], size);
      var r := SplitAt(s, i, size);
      assert s.blocks[i] in s.blocks;
      forall a
        ensures Sum(r.blocks, Covers(a)) == Sum(s.blocks, Covers(a))
      {
        SumOfSplit(H, s.blocks, i, size, Covers(a));
      }
      SumOfSplit(H, s.blocks, i, size, Blocks.Extent(H));
      assert forall b :: b in r.blocks ==> b in s.blocks || b == p[0] || b == p[1];
    }
  }

  lemma PartitionSetFree(s: Heap, i: nat, free: bool)
    requires Partition(s) && i < |s.blocks|
    ensures Partition(s.(blocks := SetFree(s.blocks, i, free)))
  {
    var b := s.blocks[i].(free := free);
    var r := SetFree(s.blocks, i, free);
    assert s.blocks[i] in s.blocks;
    forall a
      ensures Sum(r, Covers(a)) == Sum(s.blocks, Covers(a))
    {
      SumOfUpdate(s.blocks, i, b, Covers(a));
    }
    SumOfUpdate(s.blocks, i, b, Blocks.Extent(H));
    assert forall x :: x in r ==> x in s.blocks || x == b;
  }

  /** Two blocks are merged only across a common boundary, so they cover what they covered before. */
  lemma PartitionMerge(s: Heap, i: int)
    requires Partition(s)
    ensures Partition(Merged(s, i))
  {
    if JoinsNext(H, s.blocks, i) {
      var u := Union(H, s.blocks[i], s.blocks[i + 1]);
      var r := Merge(H, s.blocks, i);
      assert s.blocks[i] in s.blocks && s.blocks[i + 1] in s.blocks;
      forall a
        ensures Sum(r, Covers(a)) == Sum(s.blocks, Covers(a))
      {
        SumOfMerge(H, s.blocks, i, Covers(a));
      }
      SumOfMerge(H, s.blocks, i, Blocks.Extent(H));
      assert forall b :: b in r ==> b in s.blocks || b == u;
    }
  }

  /** A region to grow by: away from every region the heap has, and inside the address space. */
  ghost predicate Fresh(s: Heap, start: int, len: int) {
    && 0 < start && len > H && start + len < TWO_64
    && forall a :: start <= a < start + len ==> InRegions(s.regions, a) == 0
  }

  lemma PartitionAppend(s: Heap, start: int, len: int)
    requires Partition(s) && Fresh(s, start, len)
    ensures Partition(Appended(s, start, len))
  {
    var b, r := Block(start, len - H, true), Area(start, len);
    var t := Appended(s, start, len);
    forall a
      ensures Sum(t.blocks, Covers(a)) == InRegions(t.regions, a) <= 1
    {
      SumOfAppend(s.blocks, b, Covers(a));
      RegionsAppend(s.regions, r, a);
      assert Sum(s.blocks, Covers(a)) == InRegions(s.regions, a) <= 1;
    }
    SumOfAppend(s.blocks, b, Blocks.Extent(H));
    RegionsAppend(s.regions, r, 0);
    WrapSum(TotalLength(s.regions), len);
    assert forall x :: x in t.blocks ==> x in s.blocks || x == b;
  }

  lemma WrapSmall(x: int)
    requires 0 <= x < TWO_64
    ensures Wrap(x) == x
  {
  }

  lemma WrapRange(x: int)
    ensures 0 <= Wrap(x) < TWO_64
  {
  }

  lemma WrapSum(x: int, y: int)
    ensures Wrap(Wrap(x) + y) == Wrap(x + y)
  {
  }

  /** How the sum of two wrapped counters moves. */
  lemma CounterStep(c: int, f: int, rhs: int, dc: int, df: int)
    requires Wrap(c + f) == Wrap(rhs)
    ensures Wrap(Wrap(c + dc) + Wrap(f + df)) == Wrap(rhs + dc + df)
  {
    WrapSum(c + dc, Wrap(f + df));
    WrapSum(f + df, c + dc);
    WrapSum(c + f, dc + df);
    WrapSum(rhs, dc + df);
  }

  lemma InvSplit(s: Heap, i: nat, size: nat)
    requires Inv(s) && i < |s.blocks|
    ensures Inv(SplitAt(s, i, size))
  {
    hide Partition, Wrap;
    WrapSmall(s.charged);
    WrapRange(s.free + H);
    PartitionSplit(s, i, size);
    CounterStep(s.charged, s.free, s.size + H * |s.blocks| - 2 * H * |s.regions|, 0, H);
  }

  lemma InvMerge(s: Heap, i: int)
    requires Inv(s)
    ensures Inv(Merged(s, i))
  {
    hide Partition, Wrap;
    WrapSmall(s.charged);
    WrapRange(s.free - H);
    PartitionMerge(s, i);
    CounterStep(s.charged, s.free, s.size + H * |s.blocks| - 2 * H * |s.regions|, 0, -H);
  }

  lemma InvCoalesce(s: Heap, i: nat)
    requires Inv(s) && i < |s.blocks|
    ensures Inv(Coalesced(s, i))
  {
    InvMerge(s, i);
    InvMerge(Merged(s, i), i - 1);
  }

  /** Marking a block while moving bytes between the two statistics. */
  lemma InvMark(s: Heap, i: nat, free: bool, c: int, allocs: int, frees: int)
    requires Inv(s) && i < |s.blocks|
    ensures Inv(s.(blocks := SetFree(s.blocks, i, free), charged := Wrap(s.charged + c), free := Wrap(s.free - c),
                   allocs := allocs, frees := frees))
  {
    PartitionSetFree(s, i, free);
    CounterStep(s.charged, s.free, s.size + H * |s.blocks| - 2 * H * |s.regions|, c, -c);
  }

  lemma InvTake(s: Heap, i: nat, size: nat)
    requires Inv(s) && i < |s.blocks|
    ensures Inv(TakeAt(s, i, size))
  {
    hide Inv;
    InvSplit(s, i, size);
    InvMark(SplitAt(s, i, size), i, false, size, Wrap(s.allocs + 1), s.frees);
  }

  lemma InvRelease(s: Heap, i: nat)
    requires Inv(s) && i < |s.blocks|
    ensures Inv(ReleaseAt(s, i))
  {
    hide Inv;
    var n := s.blocks[i].size;
    InvMark(s, i, true, -n, s.allocs, Wrap(s.frees + 1));
    InvCoalesce(s.(blocks := SetFree(s.blocks, i, true), charged := Wrap(s.charged - n), free := Wrap(s.free + n),
                   frees := Wrap(s.frees + 1)), i);
  }

  lemma InvAppend(s: Heap, start: int, len: int)
    requires Inv(s) && Fresh(s, start, len)
    ensures Inv(Appended(s, start, len))
  {
    hide Partition, Fresh;
    PartitionAppend(s, start, len);
    var rhs := s.size + H * |s.blocks| - 2 * H * |s.regions|;
    CounterStep(s.charged, s.free, rhs, 0, len - H);
    WrapSum(s.size + len, H * (|s.blocks| + 1) - 2 * H * (|s.regions| + 1));
  }

  lemma InvGrow(s: Heap, start: int, len: int)
    requires Inv(s) && Fresh(s, start, len)
    ensures Inv(Grow(s, start, len))
  {
    InvAppend(s, start, len);
    InvCoalesce(Appended(s, start, len), |s.blocks|);
  }

  lemma InvInitial(start: int, size: Word)
    requires 0 < start && AlignUp(size) > H && start + AlignUp(size) < TWO_64
    ensures Inv(Initial(start, size))
  {
    var len := AlignUp(size);
    var e := Heap([], [], 0, 0, 0, 0, 0);
    assert Partition(e) && CounterLaw(e);
    InvAppend(e, start, len);
    assert Appended(e, start, len) == Initial(start, size);
  }

  /** A region that malloc is given and uses is one the heap does not have, with room for a header. */
  ghost predicate GoodGrant(s: Heap, size: Word, grant: Grant) {
    RoundedBelow(size);
    grant.Granted? && size != 0 && FirstFit(s.blocks, AlignUp(size)) == |s.blocks| ==>
      Fresh(s, grant.start, AlignUp(AlignUp(size) + H))
  }

  lemma InvMalloc(s: Heap, size: Word, grant: Grant)
    requires Inv(s) && GoodGrant(s, size, grant)
    ensures Inv(Malloc(s, size, grant).0)
  {
    hide Inv;
    if size != 0 {
      var a := AlignUp(size);
      if FirstFit(s.blocks, a) == |s.blocks| && grant.Granted? {
        InvGrow(s, grant.start, AlignUp(a + H));
      }
      var t := Ready(s, a, grant);
      if FirstFit(t.blocks, a) < |t.blocks| {
        InvTake(t, FirstFit(t.blocks, a), a);
      }
    }
  }

  lemma InvFree(s: Heap, ptr: int)
    requires Inv(s)
    ensures Inv(Free(s, ptr))
  {
    if Live(s, ptr) {
      InvRelease(s, LiveIndex(H, s.blocks, ptr));
    }
  }

  lemma InvShrink(s: Heap, i: nat, size: nat)
    requires Inv(s) && i < |s.blocks|
    ensures Inv(Shrink(s, i, size))
  {
    InvSplit(s, i, size);
    var t := SplitAt(s, i, size);
    var d := s.blocks[i].size - size;
    CounterStep(t.charged, t.free, t.size + H * |t.blocks| - 2 * H * |t.regions|, -d, d);
  }

  lemma InvRealloc(s: Heap, ptr: int, size: Word, grant: Grant)
    requires Inv(s) && GoodGrant(s, size, grant)
    ensures Inv(Realloc(s, ptr, size, grant).0)
  {
    hide Inv, Malloc, Free, Shrink;
    RoundedTwice(size);
    InvMalloc(s, size, grant);
    InvMalloc(s, AlignUp(size), grant);
    InvFree(s, ptr);
    InvFree(Malloc(s, AlignUp(size), grant).0, ptr);
    if Live(s, ptr) {
      InvShrink(s, LiveIndex(H, s.blocks, ptr), AlignUp(size));
    }
  }

  // ----- runs -----

  datatype Call =
    | DoMalloc(size: Word, grant: Grant)
    | DoFree(ptr: int)
    | DoRealloc(ptr: int, size: Word, grant: Grant)
    | DoCalloc(num: Word, size: Word, grant: Grant)

  /** A call that is given a region only if it is a new one. */
  ghost predicate Allowed(s: Heap, c: Call) {
    match c
    case DoMalloc(size, grant) => GoodGrant(s, size, grant)
    case DoFree(_) => true
    case DoRealloc(_, size, grant) => GoodGrant(s, size, grant)
    case DoCalloc(num, size, grant) =>
      Product(num, size) < TWO_64 ==> GoodGrant(s, Product(num, size), grant)
  }

  ghost function Step(s: Heap, c: Call): Heap
    requires Allowed(s, c)
  {
    match c
    case DoMalloc(size, grant) => Malloc(s, size, grant).0
    case DoFree(ptr) => Free(s, ptr)
    case DoRealloc(ptr, size, grant) => Realloc(s, ptr, size, grant).0
    case DoCalloc(num, size, grant) => Calloc(s, num, size, grant).0
  }

  ghost predicate AllAllowed(s: Heap, cs: seq<Call>)
    decreases |cs|
  {
    cs != [] ==> Allowed(s, cs[0]) && AllAllowed(Step(s, cs[0]), cs[1..])
  }

  ghost function Run(s: Heap, cs: seq<Call>): Heap
    requires AllAllowed(s, cs)
    decreases |cs|
  {
    if cs == [] then s else Run(Step(s, cs[0]), cs[1..])
  }

  lemma InvStep(s: Heap, c: Call)
    requires Inv(s) && Allowed(s, c)
    ensures Inv(Step(s, c))
  {
    hide Inv;
    match c
    case DoMalloc(size, grant) => InvMalloc(s, size, grant);
    case DoFree(ptr) => InvFree(s, ptr);
    case DoRealloc(ptr, size, grant) => InvRealloc(s, ptr, size, grant);
    case DoCalloc(num, size, grant) =>
      if Product(num, size) < TWO_64 {
        InvMalloc(s, Product(num, size), grant);
      }
  }

  /** Every reachable kernel heap is a partition of its regions and obeys the counter law. */
  lemma {:induction false} RunKeepsInv(s: Heap, cs: seq<Call>)
    requires Inv(s) && AllAllowed(s, cs)
    ensures Inv(Run(s, cs))
    decreases |cs|
  {
    hide Inv;
    if cs != [] {
      InvStep(s, cs[0]);
      RunKeepsInv(Step(s, cs[0]), cs[1..]);
    }
  }
}
