/** A doubly linked list of in-band headers represents a list of blocks; how splitting, merging and appending relink it. */
module UserLinks {
  import opened Words
  import opened Blocks
  import opened Memory
  import opened UserHeapSpec
  import opened PageMapping
  import opened LiveBlocks
  import P = UserHeapProperties
  import Q = UserHeapStatistics
  import U = UserHeader

  /** Headers by address. */
  type View = map<int, U.Header>

  /** The address of block i, null outside the list. */
  function AddrOf(bs: seq<Block>, i: int): int {
    if 0 <= i < |bs| then bs[i].addr else 0
  }

  function HeaderOf(bs: seq<Block>, i: int): U.Header
    requires 0 <= i < |bs|
  {
    U.Header(bs[i].size, U.FlagsOf(bs[i].free), AddrOf(bs, i + 1), AddrOf(bs, i - 1))
  }

  ghost predicate Holds(m: View, p: int, h: U.Header) {
    p in m && m[p] == h
  }

  /** Every block's header is in place, with next and previous linked in list order. */
  ghost predicate Linked(m: View, bs: seq<Block>) {
    forall i :: 0 <= i < |bs| ==> Holds(m, bs[i].addr, HeaderOf(bs, i))
  }

  /** The headers of the blocks before lo and from end on are as they were. */
  ghost predicate SameHeaders(m: View, m': View, bs: seq<Block>, lo: int, end: int) {
    forall i :: 0 <= i < |bs| && !(lo <= i < end) ==> Holds(m', bs[i].addr, HeaderOf(bs, i))
  }

  /** A chain of headers that represents a heap: the list of its blocks, linked from first. */
  ghost predicate Represents(space: int, s: Heap, first: int, m: View) {
    Inv(space, s) && first == AddrOf(s.blocks, 0) && Linked(m, s.blocks)
  }

  lemma BlocksInMemory(space: int, s: Heap, first: int, m: View, i: nat)
    requires Represents(space, s, first, m) && i < |s.blocks|
    ensures U.Usable(m, HEAP_MAX, s.blocks[i].addr) && m[s.blocks[i].addr] == HeaderOf(s.blocks, i)
    ensures AddrOf(s.blocks, i) != 0 && (AddrOf(s.blocks, i + 1) != 0 <==> i + 1 < |s.blocks|)
    ensures AddrOf(s.blocks, i - 1) != 0 <==> i > 0
  {
    TilesOrder(H, s.blocks, HEAP_START, s.brk);
    assert Holds(m, s.blocks[i].addr, HeaderOf(s.blocks, i));
  }

  /** A walk along the list has reached block i, at p, or its end. */
  ghost predicate Cursor(bs: seq<Block>, i: nat, p: int) {
    i <= |bs| && p == AddrOf(bs, i) && (p != 0 <==> i < |bs|)
  }

  lemma CursorStarts(space: int, s: Heap, first: int, m: View)
    requires Represents(space, s, first, m)
    ensures Cursor(s.blocks, 0, first)
  {
    if s.blocks != [] {
      BlocksInMemory(space, s, first, m, 0);
    }
  }

  /** The header under the cursor tells the block, and where the next one is. */
  lemma CursorReads(space: int, s: Heap, first: int, m: View, i: nat, p: int)
    requires Represents(space, s, first, m) && Cursor(s.blocks, i, p) && p != 0
    ensures U.Usable(m, HEAP_MAX, p) && i < |s.blocks|
    ensures m[p].IsValid() && m[p].IsFree() == s.blocks[i].free && m[p].size == s.blocks[i].size
    ensures Cursor(s.blocks, i + 1, m[p].next)
  {
    BlocksInMemory(space, s, first, m, i);
    U.FlagsMeaning(m[p], s.blocks[i].free);
  }

  /** counted is the 32-bit sum of the used sizes before block i. */
  ghost predicate Counted(bs: seq<Block>, i: nat, counted: int) {
    i <= |bs| && counted == Sum(bs[..i], UsedSize()) % TWO_32
  }

  lemma CountedStep(bs: seq<Block>, i: nat, counted: int)
    requires i < |bs| && Counted(bs, i, counted)
    ensures Counted(bs, i + 1, if bs[i].free then counted else (counted + bs[i].size) % TWO_32)
  {
    assert bs[..i + 1] == bs[..i] + [bs[i]];
    SumConcat(bs[..i], [bs[i]], UsedSize());
    SumOne(bs[i], UsedSize());
  }

  lemma CountedAll(space: int, s: Heap, first: int, m: View, i: nat, counted: int)
    requires Represents(space, s, first, m) && i == |s.blocks| && Counted(s.blocks, i, counted)
    ensures Q.Validates(s) <==> counted == s.charged
  {
    assert s.blocks[..i] == s.blocks;
  }

  /** Headers of different blocks do not overlap. */
  lemma HeadersApart(bs: seq<Block>, hi: int, i: nat, j: nat)
    requires Tiles(H, bs, HEAP_START, hi) && i < |bs| && j < |bs| && i != j
    ensures U.Disjoint(bs[i].addr, bs[j].addr)
  {
    TilesOrder(H, bs, HEAP_START, hi);
  }

  /** A header written inside block i lies apart from those of the other blocks. */
  lemma InsideApart(bs: seq<Block>, hi: int, i: nat, q: int, j: nat)
    requires Tiles(H, bs, HEAP_START, hi) && i < |bs| && j < |bs| && i != j
    requires bs[i].addr <= q && q + H <= bs[i].End(H)
    ensures U.Disjoint(q, bs[j].addr)
  {
    TilesOrder(H, bs, HEAP_START, hi);
  }

  lemma NotNull(bs: seq<Block>, hi: int, j: nat)
    requires Tiles(H, bs, HEAP_START, hi) && j < |bs|
    ensures HEAP_START <= bs[j].addr && bs[j].size >= 0 && bs[j].End(H) <= hi
  {
    TilesOrder(H, bs, HEAP_START, hi);
  }

  /** Headers beside the few written ones are those of the other blocks. */
  lemma OthersKept(m: View, m': View, bs: seq<Block>, ps: set<int>, lo: int, end: int)
    requires Linked(m, bs) && U.Kept(m, m', ps)
    requires forall j, p :: 0 <= j < |bs| && !(lo <= j < end) && p in ps ==> U.Disjoint(p, bs[j].addr)
    ensures SameHeaders(m, m', bs, lo, end)
  {
    forall j | 0 <= j < |bs| && !(lo <= j < end)
      ensures Holds(m', bs[j].addr, HeaderOf(bs, j))
    {
      assert U.Beside(bs[j].addr, ps) && Holds(m, bs[j].addr, HeaderOf(bs, j));
    }
  }

  // ----- split -----

  lemma SplitReady(space: int, s: Heap, first: int, m: View, i: nat, size: nat)
    requires Represents(space, s, first, m) && i < |s.blocks| && Splits(H, s.blocks[i], size)
    ensures U.CanInsert(m, HEAP_MAX, s.blocks[i].addr, s.blocks[i].addr + H + size)
  {
    BlocksInMemory(space, s, first, m, i);
    TilesOrder(H, s.blocks, HEAP_START, s.brk);
    if i + 1 < |s.blocks| {
      BlocksInMemory(space, s, first, m, i + 1);
    }
  }

  lemma SplitOthers(m: View, m': View, bs: seq<Block>, hi: int, i: nat, size: nat)
    requires Tiles(H, bs, HEAP_START, hi) && Linked(m, bs) && i < |bs| && Splits(H, bs[i], size)
    requires U.Kept(m, m', {bs[i].addr, bs[i].addr + H + size, AddrOf(bs, i + 1)})
    ensures SameHeaders(m, m', bs, i, i + 2)
  {
    var q, n := bs[i].addr + H + size, AddrOf(bs, i + 1);
    forall j, p | 0 <= j < |bs| && !(i <= j < i + 2) && p in {bs[i].addr, q, n}
      ensures U.Disjoint(p, bs[j].addr)
    {
      NotNull(bs, hi, i);
      NotNull(bs, hi, j);
      HeadersApart(bs, hi, i, j);
      InsideApart(bs, hi, i, q, j);
      if i + 1 < |bs| {
        HeadersApart(bs, hi, i + 1, j);
      }
    }
    OthersKept(m, m', bs, {bs[i].addr, q, n}, i, i + 2);
  }

  lemma SplitRelinks(m: View, m': View, bs: seq<Block>, i: nat, size: int)
    requires i < |bs| && Splits(H, bs[i], size) && SameHeaders(m, m', bs, i, i + 2)
    requires var q := bs[i].addr + H + size;
      && Holds(m', bs[i].addr, HeaderOf(bs, i).(size := size, next := q))
      && Holds(m', q, U.Header(bs[i].size - size - H, U.FlagsOf(true), AddrOf(bs, i + 1), bs[i].addr))
      && (i + 1 < |bs| ==> Holds(m', bs[i + 1].addr, HeaderOf(bs, i + 1).(prev := q)))
    ensures Linked(m', Split(H, bs, i, size))
  {
    var r := Split(H, bs, i, size);
    forall j | 0 <= j < |r|
      ensures Holds(m', r[j].addr, HeaderOf(r, j))
    {
      if j < i {
        assert r[j] == bs[j] && HeaderOf(r, j) == HeaderOf(bs, j);
      } else if j > i + 1 {
        assert r[j] == bs[j - 1];
        assert j > i + 2 ==> HeaderOf(r, j) == HeaderOf(bs, j - 1);
      }
    }
  }

  /** Inserting a header splits the block: the list still represents the heap ... */
  lemma SplitStep(space: int, s: Heap, first: int, m: View, m': View, i: nat, size: nat)
    requires Represents(space, s, first, m) && i < |s.blocks| && Splits(H, s.blocks[i], size) && size % 8 == 0
    requires var p, q := s.blocks[i].addr, s.blocks[i].addr + H + size;
      p in m && U.Inserted(m, m', p, size, q, s.blocks[i].size - size - H)
    ensures Represents(space, SplitAt(s, i, size), first, m')
  {
    var bs := s.blocks;
    BlocksInMemory(space, s, first, m, i);
    if i + 1 < |bs| {
      BlocksInMemory(space, s, first, m, i + 1);
    }
    SplitOthers(m, m', bs, s.brk, i, size);
    SplitRelinks(m, m', bs, i, size);
    InvSplit(space, s, i, size);
  }

  /** ... and no data has changed. */
  lemma SplitKeepsData(space: int, s: Heap, first: int, m: View, d: seq<Byte>, d': seq<Byte>, i: nat, size: nat)
    requires Represents(space, s, first, m) && i < |s.blocks| && Splits(H, s.blocks[i], size)
    requires var p := s.blocks[i].addr; p in m && U.ChangedOnly(d, d', {p, p + H + size, m[p].next})
    ensures KeepsData(d, d', s.blocks, SplitAt(s, i, size).blocks)
  {
    hide Linked, PagesPresent, Aligned, KeepsData, Tiles;
    var bs := s.blocks;
    var r := Split(H, bs, i, size);
    BlocksInMemory(space, s, first, m, i);
    TilesSplit(H, bs, i, size, HEAP_START, s.brk);
    assert StartsBlock(r, r[i + 1].addr) && r[i + 1].addr == bs[i].addr + H + size;
    assert StartsBlock(bs, bs[i].addr) && (i + 1 < |bs| ==> StartsBlock(bs, bs[i + 1].addr));
    HeaderWritesKeepData(d, d', bs, r, s.brk, s.brk, {bs[i].addr, bs[i].addr + H + size, AddrOf(bs, i + 1)});
  }

  // ----- merge -----

  lemma MergeReady(space: int, s: Heap, first: int, m: View, i: nat)
    requires Represents(space, s, first, m) && i + 1 < |s.blocks|
    ensures U.CanAbsorb(m, HEAP_MAX, s.blocks[i].addr)
    ensures m[s.blocks[i].addr] == HeaderOf(s.blocks, i) && m[s.blocks[i + 1].addr] == HeaderOf(s.blocks, i + 1)
  {
    BlocksInMemory(space, s, first, m, i);
    BlocksInMemory(space, s, first, m, i + 1);
    HeadersApart(s.blocks, s.brk, i, i + 1);
    if i + 2 < |s.blocks| {
      BlocksInMemory(space, s, first, m, i + 2);
      HeadersApart(s.blocks, s.brk, i, i + 2);
    }
  }

  lemma MergeOthers(m: View, m': View, bs: seq<Block>, hi: int, i: nat)
    requires Tiles(H, bs, HEAP_START, hi) && Linked(m, bs) && i + 1 < |bs|
    requires U.Kept(m, m', {bs[i].addr, AddrOf(bs, i + 2)})
    ensures SameHeaders(m, m', bs, i, i + 3)
  {
    var f := AddrOf(bs, i + 2);
    forall j, p | 0 <= j < |bs| && !(i <= j < i + 3) && p in {bs[i].addr, f}
      ensures U.Disjoint(p, bs[j].addr)
    {
      NotNull(bs, hi, j);
      HeadersApart(bs, hi, i, j);
      if i + 2 < |bs| {
        HeadersApart(bs, hi, i + 2, j);
      }
    }
    OthersKept(m, m', bs, {bs[i].addr, f}, i, i + 3);
  }

  lemma MergeRelinks(m: View, m': View, bs: seq<Block>, i: nat)
    requires i + 1 < |bs| && SameHeaders(m, m', bs, i, i + 3)
    requires Holds(m', bs[i].addr,
                   HeaderOf(bs, i).(size := Union(H, bs[i], bs[i + 1]).size, next := AddrOf(bs, i + 2)))
    requires i + 2 < |bs| ==> Holds(m', bs[i + 2].addr, HeaderOf(bs, i + 2).(prev := bs[i].addr))
    ensures Linked(m', Merge(H, bs, i))
  {
    var r := Merge(H, bs, i);
    forall j | 0 <= j < |r|
      ensures Holds(m', r[j].addr, HeaderOf(r, j))
    {
      if j < i {
        assert r[j] == bs[j] && HeaderOf(r, j) == HeaderOf(bs, j);
      } else if j > i {
        assert r[j] == bs[j + 1];
        assert j > i + 1 ==> HeaderOf(r, j) == HeaderOf(bs, j + 1);
      }
    }
  }

  /** The 32-bit sum of the sizes does not wrap. */
  lemma UnionFits(space: int, s: Heap, i: nat)
    requires Inv(space, s) && i + 1 < |s.blocks|
    ensures (s.blocks[i].size + H + s.blocks[i + 1].size) % TWO_32 == Union(H, s.blocks[i], s.blocks[i + 1]).size
  {
    TilesOrder(H, s.blocks, HEAP_START, s.brk);
  }

  lemma MergeLinks(space: int, s: Heap, first: int, m: View, m': View, i: nat)
    requires Represents(space, s, first, m) && i + 1 < |s.blocks|
    requires var p := s.blocks[i].addr; p in m && m[p].next in m && U.Absorbed(m, m', p)
    ensures Linked(m', Merge(H, s.blocks, i))
  {
    MergeReady(space, s, first, m, i);
    if i + 2 < |s.blocks| {
      BlocksInMemory(space, s, first, m, i + 2);
    }
    UnionFits(space, s, i);
    MergeOthers(m, m', s.blocks, s.brk, i);
    MergeRelinks(m, m', s.blocks, i);
  }

  /** Unlinking a header merges its block into the one before. */
  lemma MergeStep(space: int, s: Heap, first: int, m: View, m': View, i: nat)
    requires Represents(space, s, first, m) && JoinsNext(H, s.blocks, i)
    requires var p := s.blocks[i].addr; p in m && m[p].next in m && U.Absorbed(m, m', p)
    ensures Represents(space, Merged(s, i), first, m')
  {
    hide Linked, Tiles;
    MergeLinks(space, s, first, m, m', i);
    InvMerge(space, s, i);
  }

  lemma MergeKeepsData(space: int, s: Heap, first: int, m: View, d: seq<Byte>, d': seq<Byte>, i: nat)
    requires Represents(space, s, first, m) && JoinsNext(H, s.blocks, i)
    requires var p := s.blocks[i].addr;
      p in m && m[p].next in m && U.ChangedOnly(d, d', {p, m[m[p].next].next})
    ensures KeepsData(d, d', s.blocks, Merged(s, i).blocks)
  {
    var bs := s.blocks;
    MergeReady(space, s, first, m, i);
    TilesMerge(H, bs, i, HEAP_START, s.brk);
    HeaderWritesKeepData(d, d', bs, MergeIfJoins(H, bs, i), s.brk, s.brk, {bs[i].addr, AddrOf(bs, i + 2)});
  }

  // ----- marking -----

  lemma MarkOthers(m: View, m': View, bs: seq<Block>, hi: int, i: nat)
    requires Tiles(H, bs, HEAP_START, hi) && Linked(m, bs) && i < |bs| && U.Kept(m, m', {bs[i].addr})
    ensures SameHeaders(m, m', bs, i, i + 1)
  {
    forall j, p | 0 <= j < |bs| && !(i <= j < i + 1) && p in {bs[i].addr}
      ensures U.Disjoint(p, bs[j].addr)
    {
      HeadersApart(bs, hi, i, j);
    }
    OthersKept(m, m', bs, {bs[i].addr}, i, i + 1);
  }

  lemma MarkRelinks(m: View, m': View, bs: seq<Block>, i: nat, free: bool)
    requires i < |bs| && SameHeaders(m, m', bs, i, i + 1)
    requires Holds(m', bs[i].addr, HeaderOf(bs, i).(flags := U.FlagsOf(free)))
    ensures Linked(m', SetFree(bs, i, free))
  {
    var r := SetFree(bs, i, free);
    forall j | 0 <= j < |r|
      ensures Holds(m', r[j].addr, HeaderOf(r, j))
    {
      assert j != i ==> HeaderOf(r, j) == HeaderOf(bs, j);
    }
  }

  /** Setting the flags of a header frees or takes its block. */
  lemma MarkStep(space: int, s: Heap, first: int, m: View, m': View, i: nat, free: bool)
    requires Represents(space, s, first, m) && i < |s.blocks|
    requires var p := s.blocks[i].addr; p in m && Holds(m', p, m[p].SetFree(free)) && U.Kept(m, m', {p})
    ensures Represents(space, s.(blocks := SetFree(s.blocks, i, free)), first, m')
  {
    BlocksInMemory(space, s, first, m, i);
    U.FlagsMeaning(m[s.blocks[i].addr], s.blocks[i].free);
    MarkOthers(m, m', s.blocks, s.brk, i);
    MarkRelinks(m, m', s.blocks, i, free);
    InvSetFree(space, s, i, free);
  }

  lemma MarkKeepsData(space: int, s: Heap, first: int, m: View, d: seq<Byte>, d': seq<Byte>, i: nat, free: bool)
    requires Represents(space, s, first, m) && i < |s.blocks| && U.ChangedOnly(d, d', {s.blocks[i].addr})
    ensures KeepsData(d, d', s.blocks, SetFree(s.blocks, i, free))
  {
    TilesSetFree(H, s.blocks, i, free, HEAP_START, s.brk);
    HeaderWritesKeepData(d, d', s.blocks, SetFree(s.blocks, i, free), s.brk, s.brk, {s.blocks[i].addr});
  }

  // ----- growing -----

  /** A request for len bytes at the break prepares the heap to grow, or fails and leaves it representable. */
  lemma RequestStep(space: int, s: Heap, first: int, m: View, len: nat)
    requires Represents(space, s, first, m) && len % FRAME_SIZE == 0
    ensures var vm := Requested(s.vm, space, s.brk / FRAME_SIZE, len / FRAME_SIZE);
      if len / FRAME_SIZE <= |s.vm.frames| then PagesPresent(space, s.(vm := vm, brk := s.brk + len))
      else Represents(space, s.(vm := vm), first, m)
  {
    RequestPresent(space, s, len);
  }

  lemma AppendReady(space: int, s: Heap, first: int, m: View)
    requires Represents(space, s, first, m) && s.brk + H <= HEAP_MAX
    ensures U.CanAppend(m, HEAP_MAX, AddrOf(s.blocks, |s.blocks| - 1), s.brk)
  {
    TilesOrder(H, s.blocks, HEAP_START, s.brk);
    if |s.blocks| > 0 {
      BlocksInMemory(space, s, first, m, |s.blocks| - 1);
    }
  }

  lemma AppendRelinks(m: View, m': View, bs: seq<Block>, b: Block)
    requires b.free && SameHeaders(m, m', bs, |bs| - 1, |bs|)
    requires bs != [] ==> Holds(m', bs[|bs| - 1].addr, HeaderOf(bs, |bs| - 1).(next := b.addr))
    requires Holds(m', b.addr, U.Header(b.size, U.FlagsOf(true), 0, AddrOf(bs, |bs| - 1)))
    ensures Linked(m', bs + [b])
  {
    var r := bs + [b];
    forall j | 0 <= j < |r|
      ensures Holds(m', r[j].addr, HeaderOf(r, j))
    {
      assert j < |bs| - 1 ==> HeaderOf(r, j) == HeaderOf(bs, j);
    }
  }

  lemma AppendOthers(m: View, m': View, bs: seq<Block>, hi: int)
    requires Tiles(H, bs, HEAP_START, hi) && Linked(m, bs) && U.Kept(m, m', {AddrOf(bs, |bs| - 1), hi})
    ensures SameHeaders(m, m', bs, |bs| - 1, |bs|)
  {
    forall j, p | 0 <= j < |bs| && !(|bs| - 1 <= j < |bs|) && p in {AddrOf(bs, |bs| - 1), hi}
      ensures U.Disjoint(p, bs[j].addr)
    {
      NotNull(bs, hi, j);
      HeadersApart(bs, hi, |bs| - 1, j);
    }
    OthersKept(m, m', bs, {AddrOf(bs, |bs| - 1), hi}, |bs| - 1, |bs|);
  }

  lemma AppendStep(space: int, s: Heap, first: int, m: View, m': View, len: nat, vm: Vm)
    requires Represents(space, s, first, m) && len % FRAME_SIZE == 0 && len > H && s.brk + len <= HEAP_MAX
    requires PagesPresent(space, s.(vm := vm, brk := s.brk + len))
    requires U.Appended(m, m', AddrOf(s.blocks, |s.blocks| - 1), s.brk, len - H)
    ensures Represents(space, Appended(s, len, vm), if first == 0 then s.brk else first, m')
  {
    var bs, b := s.blocks, Block(s.brk, len - H, true);
    if |bs| > 0 {
      BlocksInMemory(space, s, first, m, |bs| - 1);
      BlocksInMemory(space, s, first, m, 0);
    }
    AppendOthers(m, m', bs, s.brk);
    AppendRelinks(m, m', bs, b);
    InvAppend(space, s, len, vm);
  }

  lemma AppendKeepsData(space: int, s: Heap, first: int, m: View, d: seq<Byte>, d': seq<Byte>, len: nat, vm: Vm)
    requires Represents(space, s, first, m) && len > H
    requires U.ChangedOnly(d, d', {AddrOf(s.blocks, |s.blocks| - 1), s.brk})
    ensures KeepsData(d, d', s.blocks, Appended(s, len, vm).blocks)
  {
    var bs, b := s.blocks, Block(s.brk, len - H, true);
    hide Linked, PagesPresent, Aligned, KeepsData, Tiles;
    TilesAppend(bs, HEAP_START, s.brk, b);
    assert (bs + [b])[|bs|] == b;
    if bs != [] {
      assert bs[|bs| - 1].addr == AddrOf(bs, |bs| - 1);
    }
    HeaderWritesKeepData(d, d', bs, bs + [b], s.brk, s.brk + len, {AddrOf(bs, |bs| - 1), s.brk});
  }

  // ----- what header writes leave of the data -----

  ghost predicate StartsBlock(bs: seq<Block>, p: int) {
    exists j :: 0 <= j < |bs| && bs[j].addr == p
  }

  /** b and c are the same allocation before and after, and a is an address in the data both have. */
  ghost predicate Common(bs: seq<Block>, bs': seq<Block>, b: Block, c: Block, a: int) {
    && b in bs && c in bs' && !b.free && !c.free && b.addr == c.addr
    && b.Data(H) <= a < b.End(H) && a < c.End(H)
  }

  /** Wherever a block is in use before and after, the data both have in common is unchanged. */
  ghost predicate KeepsData(s: seq<Byte>, s': seq<Byte>, bs: seq<Block>, bs': seq<Block>) {
    && |s| == |s'|
    && forall b, c, a {:trigger Common(bs, bs', b, c, a)} ::
      Common(bs, bs', b, c, a) && 0 <= a < |s| ==> s'[a] == s[a]
  }

  /** Writing only headers of blocks, of the old list or the new, keeps all data. */
  lemma HeaderWritesKeepData(s: seq<Byte>, s': seq<Byte>, bs: seq<Block>, bs': seq<Block>, hi: int, hi': int, ps: set<int>)
    requires Tiles(H, bs, HEAP_START, hi) && Tiles(H, bs', HEAP_START, hi') && |s| == |s'|
    requires forall p :: p in ps ==> p == 0 || StartsBlock(bs, p) || StartsBlock(bs', p)
    requires U.ChangedOnly(s, s', ps)
    ensures KeepsData(s, s', bs, bs')
  {
    forall b, c, a | Common(bs, bs', b, c, a) && 0 <= a < |s|
      ensures s'[a] == s[a]
    {
      forall p | p in ps
        ensures a < p || p + H <= a
      {
        HeadersAvoidData(bs, hi, b, p);
        HeadersAvoidData(bs', hi', c, p);
      }
      assert U.Outside(a, ps);
    }
  }

  lemma HeadersAvoidData(bs: seq<Block>, hi: int, b: Block, p: int)
    requires Tiles(H, bs, HEAP_START, hi) && b in bs
    ensures HEAP_START <= b.addr && (StartsBlock(bs, p) ==> p + H <= b.Data(H) || b.End(H) <= p)
  {
    TilesOrder(H, bs, HEAP_START, hi);
  }

  /** Every used block of bs is used in bs'. */
  ghost predicate KeepsBlocks(bs: seq<Block>, bs': seq<Block>) {
    forall b :: b in bs && !b.free ==> b in bs'
  }

  lemma MergeKeepsBlocks(bs: seq<Block>, i: int)
    ensures KeepsBlocks(bs, MergeIfJoins(H, bs, i))
  {
  }

  lemma KeepsDataChain(s: seq<Byte>, t: seq<Byte>, u: seq<Byte>, bs: seq<Block>, bt: seq<Block>, bu: seq<Block>)
    requires KeepsData(s, t, bs, bt) && KeepsData(t, u, bt, bu) && KeepsBlocks(bs, bt)
    ensures KeepsData(s, u, bs, bu)
  {
    forall b, c, a | Common(bs, bu, b, c, a) && 0 <= a < |s|
      ensures u[a] == s[a]
    {
      assert Common(bs, bt, b, b, a) && Common(bt, bu, b, c, a);
    }
  }

  lemma GrowKeepsBlocks(space: int, s: Heap, min: Word)
    ensures KeepsBlocks(s.blocks, Grow(space, s, min).blocks)
  {
    P.UsedOfGrow(space, s, min);
    UsedKept(s.blocks, Grow(space, s, min).blocks);
  }

  lemma UsedKept(bs: seq<Block>, bs': seq<Block>)
    requires Used(bs) <= Used(bs')
    ensures KeepsBlocks(bs, bs')
  {
    forall b | b in bs && !b.free
      ensures b in bs'
    {
      assert b in Used(bs);
    }
  }

  /** Splitting a free block keeps the used blocks; so does marking one used. */
  lemma TakeKeepsBlocks(space: int, s: Heap, i: nat, size: nat)
    requires Inv(space, s) && i < |s.blocks| && s.blocks[i].free
    ensures KeepsBlocks(s.blocks, SplitAt(s, i, size).blocks)
    ensures KeepsBlocks(s.blocks, TakeAt(s, i, size).blocks)
  {
    P.HeapApart(space, s);
    UsedOfSplit(H, s.blocks, i, size);
    P.UsedOfTake(space, s, i, size);
    UsedKept(s.blocks, SplitAt(s, i, size).blocks);
    UsedKept(s.blocks, TakeAt(s, i, size).blocks);
  }

  // ----- writing data -----

  /** Headers outside the bytes [p, p + n) are as they were. */
  ghost predicate KeptOutside(m: View, m': View, p: int, n: nat) {
    forall q :: q in m && (q + H <= p || p + n <= q) ==> q in m' && m'[q] == m[q]
  }

  /** Bytes outside [p, p + n) are as they were. */
  ghost predicate ChangedWithin(d: seq<Byte>, d': seq<Byte>, p: int, n: nat) {
    |d| == |d'| && forall a :: 0 <= a < |d| && !(p <= a < p + n) ==> d'[a] == d[a]
  }

  lemma DataInMemory(space: int, s: Heap, first: int, m: View, i: nat)
    requires Represents(space, s, first, m) && i < |s.blocks|
    ensures 0 < s.blocks[i].addr && s.blocks[i].End(H) <= HEAP_MAX
  {
    TilesOrder(H, s.blocks, HEAP_START, s.brk);
  }

  /** Writing into the data of a block leaves the headers, so the list still represents the heap. */
  lemma DataStep(space: int, s: Heap, first: int, m: View, m': View, i: nat, n: nat)
    requires Represents(space, s, first, m) && i < |s.blocks| && n <= s.blocks[i].size
    requires KeptOutside(m, m', s.blocks[i].Data(H), n)
    ensures Represents(space, s, first, m')
  {
    forall j | 0 <= j < |s.blocks|
      ensures Holds(m', s.blocks[j].addr, HeaderOf(s.blocks, j))
    {
      TilesOrder(H, s.blocks, HEAP_START, s.brk);
      assert Holds(m, s.blocks[j].addr, HeaderOf(s.blocks, j));
    }
  }

  /** Writing into the data of block i leaves the data of every other block. */
  lemma DataWriteKeepsOthers(space: int, s: Heap, d: seq<Byte>, d': seq<Byte>, i: nat, n: nat, b: Block)
    requires Inv(space, s) && i < |s.blocks| && n <= s.blocks[i].size && b in s.blocks && b != s.blocks[i]
    requires ChangedWithin(d, d', s.blocks[i].Data(H), n)
    ensures forall a :: b.Data(H) <= a < b.End(H) && 0 <= a < |d| ==> d'[a] == d[a]
  {
    TilesOrder(H, s.blocks, HEAP_START, s.brk);
  }

  /** Reading a header tells whether a pointer is to a live allocation, for the headers the list holds. */
  ghost predicate LooksLive(h: U.Header) {
    h.IsValid() && !h.IsFree()
  }

  lemma LiveHeader(space: int, s: Heap, first: int, m: View, ptr: int)
    requires Represents(space, s, first, m) && Live(s, ptr)
    ensures var i := LiveIndex(H, s.blocks, ptr);
      && s.blocks[i].addr == ptr - H && U.Usable(m, HEAP_MAX, ptr - H)
      && m[ptr - H] == HeaderOf(s.blocks, i) && LooksLive(m[ptr - H])
      && HEAP_START + H <= ptr && s.blocks[i].End(H) <= s.brk <= HEAP_MAX && s.blocks[i].size >= 0
  {
    hide Linked, PagesPresent, Aligned, Tiles, LiveIndex;
    var i := LiveIndex(H, s.blocks, ptr);
    BlocksInMemory(space, s, first, m, i);
    U.FlagsMeaning(m[ptr - H], false);
    TilesOrder(H, s.blocks, HEAP_START, s.brk);
  }

  /** The same allocation before and after is the same block, when every used block is kept. */
  lemma CommonIsSame(bs: seq<Block>, bs': seq<Block>, hi: int, b: Block, c: Block, a: int)
    requires Tiles(H, bs', HEAP_START, hi) && KeepsBlocks(bs, bs') && Common(bs, bs', b, c, a)
    ensures b == c
  {
    TilesOrder(H, bs', HEAP_START, hi);
  }

  /** After an allocation, writing into the new block keeps all the data there was. */
  lemma FillNewKeepsData(space: int, s: Heap, r: Heap, size: int, i: nat, d: seq<Byte>, d': seq<Byte>, d'': seq<Byte>, n: nat)
    requires Inv(space, r) && i < |r.blocks| && n <= r.blocks[i].size
    requires P.Allocates(s, r, r.blocks[i].Data(H), size, r.blocks[i])
    requires KeepsData(d, d', s.blocks, r.blocks) && ChangedWithin(d', d'', r.blocks[i].Data(H), n)
    ensures KeepsData(d, d'', s.blocks, r.blocks)
  {
    assert Used(s.blocks) <= Used(r.blocks);
    UsedKept(s.blocks, r.blocks);
    forall b, c, a | Common(s.blocks, r.blocks, b, c, a) && 0 <= a < |d|
      ensures d''[a] == d[a]
    {
      CommonIsSame(s.blocks, r.blocks, r.brk, b, c, a);
      assert b in Used(s.blocks);
      DataWriteKeepsOthers(space, r, d', d'', i, n, c);
    }
  }

  /** The statistic plays no part in what the headers represent. */
  lemma ChargeStep(space: int, s: Heap, first: int, m: View, charged: int)
    requires Represents(space, s, first, m) && 0 <= charged < TWO_32
    ensures Represents(space, s.(charged := charged), first, m)
  {
  }

  lemma TakeKeeps(space: int, s: Heap, first: int, m: View, i: nat, size: nat)
    requires Represents(space, s, first, m) && i < |s.blocks| && s.blocks[i].free
    ensures KeepsBlocks(s.blocks, SplitAt(s, i, size).blocks)
  {
    TakeKeepsBlocks(space, s, i, size);
  }

  lemma GrowFails(space: int, s: Heap, min: Word)
    requires !CanGrow(s, min)
    ensures Grow(space, s, min).blocks == s.blocks
  {
  }

  lemma NullNotLive(space: int, s: Heap, first: int, m: View)
    requires Represents(space, s, first, m)
    ensures !Live(s, 0)
  {
    if Live(s, 0) {
      LiveHeader(space, s, first, m, 0);
    }
  }

  /** Freeing block i in two steps keeps the data of every block used throughout. */
  lemma ReleaseData(d: seq<Byte>, d': seq<Byte>, d'': seq<Byte>, bs: seq<Block>, i: nat, br: seq<Block>)
    requires i < |bs| && br == Release(H, bs, i)
    requires KeepsData(d, d', bs, SetFree(bs, i, true)) && KeepsData(d', d'', SetFree(bs, i, true), br)
    ensures KeepsData(d, d'', bs, br)
  {
    var bt := SetFree(bs, i, true);
    UsedOfCoalesce(H, bt, i);
    forall b, c, a | Common(bs, br, b, c, a) && 0 <= a < |d|
      ensures d''[a] == d[a]
    {
      assert c in Used(br);
      assert c in bt && c in bs;
      assert Common(bs, bt, b, c, a) && Common(bt, br, c, c, a);
    }
  }

  lemma MallocGives(space: int, s: Heap, size: Word, first: int, m: View)
    requires Inv(space, s) && Malloc(space, s, size).1 != 0
    requires Represents(space, Malloc(space, s, size).0, first, m)
    ensures var (r, p) := Malloc(space, s, size);
      && Inv(space, r) && Live(r, p) && size <= r.blocks[LiveIndex(H, r.blocks, p)].size
      && P.Allocates(s, r, p, AlignUp(size), r.blocks[LiveIndex(H, r.blocks, p)])
      && 0 < p && p + size <= HEAP_MAX
  {
    P.MallocAllocates(space, s, size);
    LiveHeader(space, Malloc(space, s, size).0, first, m, Malloc(space, s, size).1);
  }

  /** The n bytes at q of the memory d' are those at p of the memory d. */
  ghost predicate Copied(d: seq<Byte>, d': seq<Byte>, p: int, q: int, n: int) {
    && 0 <= p && p + n <= |d| && 0 <= q && q + n <= |d'|
    && forall a :: q <= a < q + n ==> d'[a] == d[p + (a - q)]
  }

  /** What realloc needs to know between its malloc and its copy. */
  lemma MallocMoves(space: int, s: Heap, size: Word, first: int, m: View, ptr: int)
    requires Inv(space, s) && Malloc(space, s, size).1 != 0 && Live(s, ptr)
    requires Represents(space, Malloc(space, s, size).0, first, m)
    ensures var (r, p) := Malloc(space, s, size);
      var b := s.blocks[LiveIndex(H, s.blocks, ptr)];
      && Live(r, p) && 0 < p && AlignUp(size) <= r.blocks[LiveIndex(H, r.blocks, p)].size
      && Live(r, ptr) && HEAP_START + H <= ptr <= r.brk && ptr + b.size <= HEAP_MAX
      && (p + AlignUp(size) <= ptr || ptr + b.size <= p)
  {
    var (r, p) := Malloc(space, s, size);
    MallocGives(space, s, size, first, m);
    P.MoveReplaces(space, s, ptr, size);
    LiveHeader(space, r, first, m, ptr);
    LiveHeader(space, r, first, m, p);
    assert s.blocks[LiveIndex(H, s.blocks, ptr)] in Used(s.blocks);
  }

  /** realloc's malloc, copy and free: memory d becomes d1, d2 and d3 as block b, of n bytes, moves to block j of t. */
  ghost predicate Moves(space: int, s: Heap, size: Word, ptr: int, b: Block, t: Heap, p: int, j: nat)
  {
    && Inv(space, s) && Inv(space, t) && (t, p) == Malloc(space, s, size) && p != 0
    && Live(s, ptr) && b == s.blocks[LiveIndex(H, s.blocks, ptr)] && ptr == b.Data(H) && 0 <= b.size < AlignUp(size)
    && j < |t.blocks| && t.blocks[j].Data(H) == p && !t.blocks[j].free && b.size <= t.blocks[j].size
    && P.Allocates(s, t, p, AlignUp(size), t.blocks[j])
    && t.blocks[j] in Used(Free(t, ptr).blocks)
    && KeepsBlocks(s.blocks, t.blocks) && b in s.blocks && b in t.blocks && !b.free
  }

  lemma MoveHappens(space: int, s: Heap, size: Word, ptr: int)
    requires Inv(space, s) && Malloc(space, s, size).1 != 0 && Live(s, ptr)
    requires s.blocks[LiveIndex(H, s.blocks, ptr)].size < AlignUp(size)
    ensures var (t, p) := Malloc(space, s, size);
      Moves(space, s, size, ptr, s.blocks[LiveIndex(H, s.blocks, ptr)], t, p, LiveIndex(H, t.blocks, p))
  {
    var (t, p) := Malloc(space, s, size);
    P.MallocAllocates(space, s, size);
    P.MoveReplaces(space, s, ptr, size);
    InvMalloc(space, s, size);
    UsedKept(s.blocks, t.blocks);
    TilesOrder(H, s.blocks, HEAP_START, s.brk);
  }

  /** The data of every other block stays, through the malloc, the copy and the free ... */
  lemma MoveKeeps(space: int, s: Heap, size: Word, ptr: int, b: Block, t: Heap, p: int, j: nat, n: nat,
                  d: seq<Byte>, d1: seq<Byte>, d2: seq<Byte>, d3: seq<Byte>)
    requires Moves(space, s, size, ptr, b, t, p, j) && n == b.size
    requires KeepsData(d, d1, s.blocks, t.blocks) && ChangedWithin(d1, d2, p, n)
    requires KeepsData(d2, d3, t.blocks, Free(t, ptr).blocks)
    ensures KeepsData(d, d3, s.blocks, Free(t, ptr).blocks)
  {
    hide Malloc, Free, Inv, KeepsBlocks, P.Allocates, KeepsData;
    FillNewKeepsData(space, s, t, AlignUp(size), j, d, d1, d2, n);
    KeepsDataChain(d, d2, d3, s.blocks, t.blocks, Free(t, ptr).blocks);
  }

  /** ... and the old data arrives in the new block. */
  lemma MoveCopies(space: int, s: Heap, size: Word, ptr: int, b: Block, t: Heap, p: int, j: nat, n: nat,
                   d: seq<Byte>, d1: seq<Byte>, d2: seq<Byte>, d3: seq<Byte>)
    requires Moves(space, s, size, ptr, b, t, p, j) && n == b.size
    requires KeepsData(d, d1, s.blocks, t.blocks) && Copied(d1, d2, ptr, p, n)
    requires KeepsData(d2, d3, t.blocks, Free(t, ptr).blocks)
    ensures Copied(d, d3, ptr, p, n)
  {
    hide Malloc, Free, Inv, KeepsBlocks, P.Allocates;
    var r := Free(t, ptr);
    forall a | p <= a < p + n
      ensures d3[a] == d[ptr + (a - p)]
    {
      assert Common(s.blocks, t.blocks, b, b, ptr + (a - p));
      assert Common(t.blocks, r.blocks, t.blocks[j], t.blocks[j], a);
    }
  }
}
