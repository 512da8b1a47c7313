/** What callers of the kernel heap may rely on, and when its own validation succeeds. */
module KernelHeapProperties {
  import opened Words
  import opened Blocks
  import opened LiveBlocks
  import opened KernelHeapSpec

  // ----- the blocks do not overlap -----

  lemma {:induction false} SumNonnegative(bs: seq<Block>, a: int)
    ensures Sum(bs, Covers(a)) >= 0
  {
    if bs != [] {
      SumNonnegative(bs[1..], a);
    }
  }

  lemma CoversTwice(bs: seq<Block>, i: nat, j: nat, a: int)
    requires i < j < |bs|
    ensures Sum(bs, Covers(a)) >= Covers(a)(bs[i]) + Covers(a)(bs[j])
  {
    hide Sum, Covers;
    var f := Covers(a);
    assert bs == bs[..i] + [bs[i]] + bs[i + 1..j] + [bs[j]] + bs[j + 1..];
    SumConcat(bs[..i] + [bs[i]] + bs[i + 1..j], [bs[j]] + bs[j + 1..], f);
    assert bs[..i] + [bs[i]] + bs[i + 1..j] + ([bs[j]] + bs[j + 1..]) == bs;
    SumThree(bs[..i], [bs[i]], bs[i + 1..j], f);
    SumConcat([bs[j]], bs[j + 1..], f);
    SumOne(bs[i], f);
    SumOne(bs[j], f);
    SumNonnegative(bs[..i], a);
    SumNonnegative(bs[i + 1..j], a);
    SumNonnegative(bs[j + 1..], a);
  }

  /** Headers and data of different blocks never overlap, whatever the order of the list. */
  lemma HeapApart(s: Heap)
    requires Inv(s)
    ensures AllApart(H, s.blocks)
  {
    forall i, j | 0 <= i < j < |s.blocks|
      ensures Apart(H, s.blocks[i], s.blocks[j])
    {
      var b, c := s.blocks[i], s.blocks[j];
      assert b in s.blocks && c in s.blocks;
      var a := if b.addr < c.addr then c.addr else b.addr;
      CoversTwice(s.blocks, i, j, a);
      assert Sum(s.blocks, Covers(a)) <= 1;
    }
    forall i | 0 <= i < |s.blocks|
      ensures s.blocks[i].addr < s.blocks[i].End(H)
    {
      assert s.blocks[i] in s.blocks;
    }
  }

  // ----- malloc, free and realloc -----

  ghost predicate Allocates(s: Heap, r: Heap, p: int, size: int, b: Block) {
    && b.Data(H) == p && p > 0 && size <= b.size < size + H + MIN_DATA
    && b !in Used(s.blocks) && Used(r.blocks) == Used(s.blocks) + {b}
    && forall c :: c in Used(s.blocks) ==> Apart(H, b, c)
  }

  lemma TakeAllocates(s: Heap, i: nat, size: nat)
    requires Inv(s) && i < |s.blocks| && Fits(s.blocks[i], size)
    ensures var r := TakeAt(s, i, size);
      i < |r.blocks| && Allocates(s, r, s.blocks[i].Data(H), size, r.blocks[i]) && AllApart(H, r.blocks)
  {
    hide Inv;
    InvSplit(s, i, size);
    InvTake(s, i, size);
    HeapApart(s);
    HeapApart(SplitAt(s, i, size));
    HeapApart(TakeAt(s, i, size));
    UsedOfAllocate(H, s.blocks, i, size);
    AddressPositive(s, i);
  }

  lemma AddressPositive(s: Heap, i: nat)
    requires Inv(s) && i < |s.blocks|
    ensures 0 < s.blocks[i].addr && s.blocks[i].size >= 0 && s.blocks[i].End(H) < TWO_64
  {
    assert s.blocks[i] in s.blocks;
  }

  /** After growing for size bytes and a header, the second search always succeeds. */
  lemma GrowThenFits(s: Heap, start: int, size: Word)
    requires Inv(s) && size + H < TWO_64 && Fresh(s, start, AlignUp(size + H))
    ensures var g := Grow(s, start, AlignUp(size + H)); FirstFit(g.blocks, size) < |g.blocks|
  {
    var len := AlignUp(size + H);
    var g := Grow(s, start, len);
    var last := g.blocks[|g.blocks| - 1];
    if s.blocks != [] {
      AddressPositive(s, |s.blocks| - 1);
    }
    assert last.free && last.size >= len - H;
  }

  /** malloc returns null exactly for a zero size, or when no free block fits and no region is granted; otherwise it
      returns new memory of at least the rounded size, apart from every live allocation. */
  lemma MallocAllocates(s: Heap, size: Word, grant: Grant)
    requires Inv(s) && GoodGrant(s, size, grant)
    ensures var (r, p) := Malloc(s, size, grant);
      && (p == 0 <==> size == 0 || (grant.Refused? && forall b :: b in s.blocks ==> !Fits(b, AlignUp(size))))
      && (p == 0 ==> r == s)
      && (p != 0 ==> Live(r, p) && Allocates(s, r, p, AlignUp(size), r.blocks[LiveIndex(H, r.blocks, p)]))
  {
    if size != 0 {
      var a := AlignUp(size);
      var (r, p) := Malloc(s, size, grant);
      ReadyFits(s, a, grant);
      var t := Ready(s, a, grant);
      var j := FirstFit(t.blocks, a);
      if j < |t.blocks| {
        TakeAllocates(t, j, a);
        LiveMeansUsed(H, r.blocks, r.blocks[j]);
      }
      assert FirstFit(s.blocks, a) < |s.blocks| ==> s.blocks[FirstFit(s.blocks, a)] in s.blocks;
    }
  }

  lemma ReadyFits(s: Heap, a: Word, grant: Grant)
    requires Inv(s) && a + H < TWO_64
    requires grant.Granted? && FirstFit(s.blocks, a) == |s.blocks| ==> Fresh(s, grant.start, AlignUp(a + H))
    ensures var t := Ready(s, a, grant);
      && Inv(t) && Used(t.blocks) == Used(s.blocks)
      && (FirstFit(t.blocks, a) == |t.blocks| <==> FirstFit(s.blocks, a) == |s.blocks| && grant.Refused?)
      && (grant.Refused? ==> t == s)
  {
    hide Inv, Fresh, FirstFit;
    if FirstFit(s.blocks, a) == |s.blocks| && grant.Granted? {
      var len := AlignUp(a + H);
      InvGrow(s, grant.start, len);
      GrowThenFits(s, grant.start, a);
      UsedOfExtend(H, s.blocks, grant.start, len);
      assert Grow(s, grant.start, len).blocks == Extend(H, s.blocks, grant.start, len);
    }
  }

  /** The block malloc returns holds the bytes asked for exactly if rounding the size up did not wrap. */
  lemma MallocHonest(s: Heap, size: Word, grant: Grant)
    requires Inv(s) && GoodGrant(s, size, grant) && Malloc(s, size, grant).1 != 0
    ensures var (r, p) := Malloc(s, size, grant);
      Live(r, p) && (r.blocks[LiveIndex(H, r.blocks, p)].size >= size <==> size <= TWO_64 - FRAME_SIZE)
  {
    MallocAllocates(s, size, grant);
  }

  lemma FreeReleases(s: Heap, ptr: int)
    requires Inv(s)
    ensures Live(s, ptr) ==> Used(Free(s, ptr).blocks) == Used(s.blocks) - {s.blocks[LiveIndex(H, s.blocks, ptr)]}
    ensures !Live(s, ptr) ==> Free(s, ptr) == s
  {
    if Live(s, ptr) {
      HeapApart(s);
      UsedOfRelease(H, s.blocks, LiveIndex(H, s.blocks, ptr));
    }
  }

  /** A malloc served from the list, undone by free: the blocks come back exactly unless the block had a free neighbour
      to join, and then the two byte statistics do too if the block was no larger than asked for. */
  lemma ReleaseUndoesTake(s: Heap, i: nat, a: nat)
    requires Inv(s) && i < |s.blocks| && Fits(s.blocks[i], a)
    ensures i < |TakeAt(s, i, a).blocks|
    ensures var f := ReleaseAt(TakeAt(s, i, a), i);
      && (f.blocks == s.blocks <==>
            !JoinsNext(H, s.blocks, i - 1) && (Splits(H, s.blocks[i], a) || !JoinsNext(H, s.blocks, i)))
      && (f.blocks == s.blocks ==>
            (f.charged == s.charged && f.free == s.free <==> Splits(H, s.blocks[i], a) || s.blocks[i].size == a))
  {
    hide Inv;
    RoundTrip(H, s.blocks, i, a);
    AllocatedBlock(H, s.blocks, i, a);
    AddressPositive(s, i);
    if ReleaseAt(TakeAt(s, i, a), i).blocks == s.blocks {
      StatisticsReturn(s, i, a);
      CountersInRange(s);
      var d := TakeAt(s, i, a).blocks[i].size - a;
      SmallShift(s.charged, -d);
      SmallShift(s.free, d);
    }
  }

  /** The same for a whole malloc and free, when the list serves the request. */
  lemma FreeUndoesMalloc(s: Heap, size: Word, grant: Grant)
    requires Inv(s) && size > 0 && FirstFit(s.blocks, AlignUp(size)) < |s.blocks|
    ensures var (r, p) := Malloc(s, size, grant);
      var a, i, f := AlignUp(size), FirstFit(s.blocks, AlignUp(size)), Free(r, p);
      && (f.blocks == s.blocks <==>
            !JoinsNext(H, s.blocks, i - 1) && (Splits(H, s.blocks[i], a) || !JoinsNext(H, s.blocks, i)))
      && (f.blocks == s.blocks ==>
            (f.charged == s.charged && f.free == s.free <==> Splits(H, s.blocks[i], a) || s.blocks[i].size == a))
  {
    hide Inv, Splits, JoinsNext;
    var a, i := AlignUp(size), FirstFit(s.blocks, AlignUp(size));
    ReleaseUndoesTake(s, i, a);
    TakeAllocates(s, i, a);
    var r := TakeAt(s, i, a);
    LiveMeansUsed(H, r.blocks, r.blocks[i]);
    OneBlockPerAddress(H, r.blocks, i);
    assert LiveIndex(H, r.blocks, s.blocks[i].Data(H)) == i;
  }

  lemma CountersInRange(s: Heap)
    requires Inv(s)
    ensures 0 <= s.charged < TWO_64 && 0 <= s.free < TWO_64
  {
  }

  /** When the list comes back, so does the header that splitting counted; what is left is the difference between the
      size refunded and the size charged. */
  lemma StatisticsReturn(s: Heap, i: nat, a: nat)
    requires i < |s.blocks| && i < |TakeAt(s, i, a).blocks| && ReleaseAt(TakeAt(s, i, a), i).blocks == s.blocks
    ensures var f := ReleaseAt(TakeAt(s, i, a), i);
      var d := TakeAt(s, i, a).blocks[i].size - a;
      f.charged == Wrap(s.charged - d) && f.free == Wrap(s.free + d)
  {
    var t := TakeAt(s, i, a);
    var n := t.blocks[i].size;
    var m := SetFree(t.blocks, i, true);
    var c := MergeIfJoins(H, m, i);
    assert MergeIfJoins(H, c, i - 1) == s.blocks;
    WrapSum(s.charged + a, -n);
    if Splits(H, s.blocks[i], a) {
      assert JoinsNext(H, m, i) != JoinsNext(H, c, i - 1);
      WrapSum(s.free + H, 0 - a);
      WrapSum(s.free + H - a, n);
      WrapSum(s.free + H - a + n, -H);
    } else {
      assert !JoinsNext(H, m, i) && !JoinsNext(H, c, i - 1);
      WrapSum(s.free - a, n);
    }
  }

  lemma SmallShift(x: int, d: int)
    requires 0 <= x < TWO_64 && -TWO_64 < d < TWO_64
    ensures Wrap(x + d) == x <==> d == 0
  {
  }

  ghost predicate Replaces(s: Heap, r: Heap, b: Block, c: Block) {
    && Used(r.blocks) == Used(s.blocks) - {b} + {c}
    && forall d :: d in Used(s.blocks) && d != b ==> Apart(H, c, d)
  }

  /** realloc of a live block: null leaves every allocation alone; otherwise the block is replaced by the one returned,
      of at least the rounded size, and of the size asked for if and only if rounding did not wrap. */
  lemma ReallocReplaces(s: Heap, ptr: int, size: Word, grant: Grant)
    requires Inv(s) && GoodGrant(s, size, grant) && Live(s, ptr) && size > 0 && ptr != 0
    ensures var (r, p) := Realloc(s, ptr, size, grant);
      var b := s.blocks[LiveIndex(H, s.blocks, ptr)];
      && (p == 0 ==> r == s)
      && (p != 0 ==> Live(r, p) && Replaces(s, r, b, r.blocks[LiveIndex(H, r.blocks, p)])
                     && r.blocks[LiveIndex(H, r.blocks, p)].size >= AlignUp(size))
      && (p != 0 ==> (r.blocks[LiveIndex(H, r.blocks, p)].size >= size <==> size <= TWO_64 - FRAME_SIZE))
  {
    hide Inv, Malloc, Free, Shrink, Fresh, Replaces, AlignUp;
    var i := LiveIndex(H, s.blocks, ptr);
    RoundedTwice(size);
    RoundingWraps(size);
    AddressPositive(s, i);
    if AlignUp(size) <= s.blocks[i].size {
      ShrinkReplaces(s, i, AlignUp(size));
    } else if Malloc(s, AlignUp(size), grant).1 != 0 {
      MoveReplaces(s, ptr, AlignUp(size), grant);
    } else {
      MallocAllocates(s, AlignUp(size), grant);
    }
  }

  /** Which sizes wrap around when they are rounded. */
  lemma RoundingWraps(size: Word)
    ensures size <= TWO_64 - FRAME_SIZE ==> AlignUp(size) >= size
    ensures size > TWO_64 - FRAME_SIZE ==> AlignUp(size) == 0
  {
  }

  /** The greatest size there is: the old pointer comes back, and the block has nothing left. */
  lemma ReallocWraps(s: Heap, ptr: int, grant: Grant)
    requires Inv(s) && Live(s, ptr) && ptr != 0 && s.blocks[LiveIndex(H, s.blocks, ptr)].size > H + MIN_DATA
    ensures var (r, p) := Realloc(s, ptr, TWO_64 - 1, grant);
      p == ptr && Live(r, ptr) && r.blocks[LiveIndex(H, r.blocks, ptr)].size == 0
  {
    hide Inv, Malloc;
    RoundingWraps(TWO_64 - 1);
    ShrinkReplaces(s, LiveIndex(H, s.blocks, ptr), 0);
  }

  lemma ShrinkReplaces(s: Heap, i: nat, size: nat)
    requires Inv(s) && i < |s.blocks| && !s.blocks[i].free && size <= s.blocks[i].size
    ensures var r := Shrink(s, i, size);
      var p := s.blocks[i].Data(H);
      && Live(r, p) && Replaces(s, r, s.blocks[i], r.blocks[LiveIndex(H, r.blocks, p)])
      && r.blocks[LiveIndex(H, r.blocks, p)].size ==
         if s.blocks[i].size > size + H + MIN_DATA then size else s.blocks[i].size
  {
    hide Inv;
    var r := Shrink(s, i, size);
    HeapApart(s);
    InvShrink(s, i, size);
    HeapApart(r);
    UsedOfSplit(H, s.blocks, i, size);
    OneBlockPerAddress(H, s.blocks, i);
    LiveMeansUsed(H, r.blocks, r.blocks[i]);
    OneBlockPerAddress(H, r.blocks, i);
  }

  lemma MoveReplaces(s: Heap, ptr: int, size: Word, grant: Grant)
    requires Inv(s) && GoodGrant(s, size, grant) && Live(s, ptr) && Malloc(s, size, grant).1 != 0
    ensures var (m, p) := Malloc(s, size, grant);
      var r := Free(m, ptr);
      && Live(r, p) && Replaces(s, r, s.blocks[LiveIndex(H, s.blocks, ptr)], r.blocks[LiveIndex(H, r.blocks, p)])
      && r.blocks[LiveIndex(H, r.blocks, p)].size >= AlignUp(size)
  {
    hide Inv, Malloc, Free, GoodGrant, AlignUp, LiveIndex;
    var (m, p) := Malloc(s, size, grant);
    var b := s.blocks[LiveIndex(H, s.blocks, ptr)];
    MallocAllocates(s, size, grant);
    InvMalloc(s, size, grant);
    HeapApart(m);
    LiveMeansUsed(H, m.blocks, b);
    var c := m.blocks[LiveIndex(H, m.blocks, p)];
    FreeReleases(m, ptr);
    InvFree(m, ptr);
    HeapApart(Free(m, ptr));
    LiveMeansUsed(H, Free(m, ptr).blocks, c);
  }

  /** calloc rejects exactly the products that 64 bits cannot hold. */
  lemma CallocGuard(num: Word, size: Word)
    ensures CallocRejects(num, size) <==> num * size >= TWO_64
  {
    if num > 0 {
      var w := Wrap(num * size);
      if num * size < TWO_64 {
        DivExact(num, size);
      } else {
        DivTooSmall(w, num, size);
      }
    }
  }

  lemma DivTooSmall(w: nat, n: nat, k: nat)
    requires n > 0 && w < n * k
    ensures w / n != k
  {
    assert n * (w / n) <= w;
  }

  lemma DivExact(n: nat, k: nat)
    requires n > 0
    ensures (n * k) / n == k
  {
    var x := n * k;
    var q, r := x / n, x % n;
    assert x == n * q + r;
    assert n * (k - q) == r;
    MultipleIsLarge(n, k - q);
  }

  lemma MultipleIsLarge(n: nat, d: int)
    ensures d != 0 ==> n * d >= n || n * d + n <= 0
  {
    if d > 0 {
      MulAtLeast(n, d);
    } else if d < 0 {
      MulAtLeast(n, -d);
      assert n * -d == -(n * d);
    }
  }

  lemma {:induction false} MulAtLeast(n: nat, d: nat)
    requires d > 0
    ensures n * d >= n
  {
    if d > 1 {
      MulAtLeast(n, d - 1);
      assert n * d == n * (d - 1) + n;
    }
  }

  // ----- validate_heap -----

  /** What validate_heap compares: the sizes in the list, summed in 64 bits, with the two statistics. */
  predicate Validates(s: Heap) {
    Wrap(Sum(s.blocks, UsedSize())) == s.charged && Wrap(Sum(s.blocks, FreeSize())) == s.free
  }

  lemma {:induction false} SizesAddUp(bs: seq<Block>)
    ensures Sum(bs, UsedSize()) + Sum(bs, FreeSize()) + H * |bs| == Sum(bs, Blocks.Extent(H))
  {
    if bs != [] {
      SizesAddUp(bs[1..]);
    }
  }

  lemma {:induction false} ManyBlocks(bs: seq<Block>)
    requires forall b :: b in bs ==> b.size >= 0
    ensures Sum(bs, Blocks.Extent(H)) >= H * |bs|
  {
    if bs != [] {
      ManyBlocks(bs[1..]);
      assert bs[0] in bs;
    }
  }

  lemma {:induction false} ManyRegions(rs: seq<Area>)
    requires forall r :: r in rs ==> r.len > H
    ensures TotalLength(rs) >= H * |rs|
  {
    if rs != [] {
      ManyRegions(rs[1..]);
      assert rs[0] in rs;
    }
  }

  // The regions, being disjoint, are together no longer than the address space.

  /** How many addresses below n the areas have, counted with repetition. */
  function AddressesBelow(rs: seq<Area>, n: nat): int {
    if n == 0 then 0 else AddressesBelow(rs, n - 1) + InRegions(rs, n - 1)
  }

  lemma {:induction false} FirstApart(rs: seq<Area>, n: nat)
    requires rs != [] && rs[0].start >= 0 && rs[0].len >= 0
    ensures AddressesBelow(rs, n) == AddressesBelow(rs[1..], n) +
      if n <= rs[0].start then 0 else if n <= rs[0].start + rs[0].len then n - rs[0].start else rs[0].len
  {
    if n > 0 {
      FirstApart(rs, n - 1);
    }
  }

  lemma {:induction false} LengthsCount(rs: seq<Area>, n: nat)
    requires forall r :: r in rs ==> r.start >= 0 && r.len >= 0 && r.start + r.len <= n
    ensures AddressesBelow(rs, n) == TotalLength(rs)
  {
    if rs == [] {
      NoAddresses(n);
    } else {
      assert rs[0] in rs;
      FirstApart(rs, n);
      LengthsCount(rs[1..], n);
    }
  }

  lemma {:induction false} NoAddresses(n: nat)
    ensures AddressesBelow([], n) == 0
  {
    if n > 0 {
      NoAddresses(n - 1);
    }
  }

  lemma {:induction false} SomeBlockCovers(bs: seq<Block>, a: int)
    requires Sum(bs, Covers(a)) > 0
    ensures exists b :: b in bs && b.addr <= a < b.End(H)
  {
    if !(bs[0].addr <= a < bs[0].End(H)) {
      SomeBlockCovers(bs[1..], a);
    } else {
      assert bs[0] in bs;
    }
  }

  lemma {:induction false} RegionCounts(rs: seq<Area>, r: Area, a: int)
    requires r in rs && r.Has(a)
    ensures InRegions(rs, a) > 0
  {
    if rs[0] != r {
      RegionCounts(rs[1..], r, a);
    }
  }

  lemma RegionInBounds(s: Heap, r: Area, a: int)
    requires Inv(s) && r in s.regions && r.Has(a)
    ensures 0 < a < TWO_64
  {
    RegionCounts(s.regions, r, a);
    assert Sum(s.blocks, Covers(a)) == InRegions(s.regions, a);
    SomeBlockCovers(s.blocks, a);
  }

  lemma TotalFits(s: Heap)
    requires Inv(s)
    ensures TotalLength(s.regions) < TWO_64
  {
    hide Sum, Covers, AddressesBelow;
    forall r | r in s.regions
      ensures r.start >= 1 && r.len >= 0 && r.start + r.len <= TWO_64
    {
      RegionInBounds(s, r, r.start);
      RegionInBounds(s, r, r.start + r.len - 1);
    }
    LengthsCount(s.regions, TWO_64);
    NotAtZero(s.regions);
    AtMostOnceFrom(s.regions, TWO_64);
  }

  /** Address zero is in no region. */
  lemma {:induction false} NotAtZero(rs: seq<Area>)
    requires forall r :: r in rs ==> r.start >= 1
    ensures InRegions(rs, 0) == 0
  {
    if rs != [] {
      assert rs[0] in rs;
      NotAtZero(rs[1..]);
    }
  }

  lemma {:induction false} AtMostOnceFrom(rs: seq<Area>, n: nat)
    requires n > 0 && InRegions(rs, 0) == 0 && forall a :: InRegions(rs, a) <= 1
    ensures AddressesBelow(rs, n) <= n - 1
  {
    if n > 1 {
      AtMostOnceFrom(rs, n - 1);
      assert InRegions(rs, n - 1) <= 1;
    } else {
      assert AddressesBelow(rs, 0) == 0;
    }
  }

  /** 2 H k is a multiple of 2^64 only for multiples of 2^60. */
  lemma OnlyZeroWraps(k: int)
    requires Wrap(2 * H * k) == 0 && -0x1000_0000_0000_0000 < k < 0x1000_0000_0000_0000
    ensures k == 0
  {
    var m := (2 * H * k) / TWO_64;
    assert 80 * k == TWO_64 * m;
    assert 5 * k == 0x1000_0000_0000_0000 * m;
    var n := m / 5;
    assert m == 5 * n + m % 5;
    assert 0x1000_0000_0000_0000 == 5 * 0x333_3333_3333_3333 + 1;
    assert 5 * (k - 0x333_3333_3333_3333 * m) == m;
    assert m % 5 == 0;
    assert k == 0x1000_0000_0000_0000 * n;
  }

  /** In a reachable heap validate_heap succeeds exactly if the bytes charged are those in
      use and there are as many blocks as there are regions. */
  lemma ValidatesExactly(s: Heap)
    requires Inv(s)
    ensures Validates(s) <==> s.charged == Wrap(Sum(s.blocks, UsedSize())) && |s.blocks| == |s.regions|
  {
    hide Covers, InRegions, Sum, TotalLength, Wrap;
    var u, f, n, g := Sum(s.blocks, UsedSize()), Sum(s.blocks, FreeSize()), |s.blocks|, |s.regions|;
    TotalFits(s);
    SizesAddUp(s.blocks);
    ManyBlocks(s.blocks);
    ManyRegions(s.regions);
    WrapSmall(TotalLength(s.regions));
    WrapSmall(0);
    assert s.size == u + f + H * n;
    if s.charged == Wrap(u) {
      WrapSum(u, s.free);
      FreeStatistic(s.free, f, u, 2 * H * (n - g));
      if Validates(s) {
        OnlyZeroWraps(n - g);
      }
    }
  }

  /** The free statistic is right exactly if the error of the counter law wraps to nothing. */
  lemma FreeStatistic(free: int, f: int, u: int, e: int)
    requires 0 <= free < TWO_64 && Wrap(u + free) == Wrap(u + f + e)
    ensures Wrap(f) == free <==> Wrap(e) == 0
  {
    WrapSum(u + free, -u);
    WrapSum(u + f + e, -u);
    assert free == Wrap(f + e);
    WrapSum(f + e, -f);
    WrapSum(f, e);
  }

  /** A new heap validates ... */
  lemma NewHeapValidates(start: int, size: Word)
    requires 0 < start && AlignUp(size) > H && start + AlignUp(size) < TWO_64
    ensures Validates(Initial(start, size))
  {
    var s := Initial(start, size);
    InvInitial(start, size);
    SumOne(s.blocks[0], UsedSize());
    ValidatesExactly(s);
  }

  /** ... but already the first malloc that splits its one block leaves a heap that does not. */
  lemma FirstSplitInvalidates(start: int, size: Word, request: Word, grant: Grant)
    requires 0 < start && AlignUp(size) > H && start + AlignUp(size) < TWO_64
    requires 0 < request && Splits(H, Initial(start, size).blocks[0], AlignUp(request))
    ensures !Validates(Malloc(Initial(start, size), request, grant).0)
  {
    var s, a := Initial(start, size), AlignUp(request);
    InvInitial(start, size);
    assert FirstFit(s.blocks, a) == 0;
    InvTake(s, 0, a);
    ValidatesExactly(TakeAt(s, 0, a));
  }
}
