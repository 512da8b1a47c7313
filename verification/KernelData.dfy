/** The bytes that callers have stored in the blocks of the kernel heap, and the headers written beside them. */
module KernelData {
  import opened Words
  import opened Blocks
  import opened LiveBlocks
  import opened Memory
  import opened KernelHeapSpec
  import opened KernelHeapProperties
  import opened KernelLinks

  /** The bytes of memory whose value is known. */
  type Bytes = map<int, Byte>

  /** n bytes at p are overwritten with something else. */
  function Forget(d: Bytes, p: int, n: int): Bytes {
    map a | a in d && !(p <= a < p + n) :: d[a]
  }

  ghost predicate InUse(bs: seq<Block>, a: int) {
    exists b :: b in bs && !b.free && b.Data(H) <= a < b.End(H)
  }

  /** Only bytes of blocks in use are known. */
  ghost predicate Known(d: Bytes, bs: seq<Block>) {
    forall a :: a in d ==> InUse(bs, a)
  }

  lemma HeaderUnused(s: Heap, i: nat, a: int)
    requires Inv(s) && i < |s.blocks| && InUse(s.blocks, a)
    ensures !(s.blocks[i].addr <= a < s.blocks[i].Data(H))
    ensures s.blocks[i].free ==> !(s.blocks[i].addr <= a < s.blocks[i].End(H))
  {
    HeapApart(s);
    hide Inv;
    var b :| b in s.blocks && !b.free && b.Data(H) <= a < b.End(H);
    var j :| 0 <= j < |s.blocks| && s.blocks[j] == b;
    if j != i {
      assert Apart(H, s.blocks[i], s.blocks[j]);
    }
  }

  /** Writing a header overwrites no known byte. */
  lemma HeaderWrite(s: Heap, d: Bytes, i: nat)
    requires Inv(s) && i < |s.blocks| && Known(d, s.blocks)
    ensures Forget(d, s.blocks[i].addr, H) == d
  {
    hide Inv;
    forall a | a in d
      ensures !(s.blocks[i].addr <= a < s.blocks[i].addr + H)
    {
      HeaderUnused(s, i, a);
    }
  }

  /** Nor does anything written into a free block. */
  lemma FreeWrite(s: Heap, d: Bytes, i: nat, p: int, n: int)
    requires Inv(s) && i < |s.blocks| && s.blocks[i].free && Known(d, s.blocks)
    requires s.blocks[i].addr <= p && p + n <= s.blocks[i].End(H)
    ensures Forget(d, p, n) == d
  {
    hide Inv;
    forall a | a in d
      ensures !(p <= a < p + n)
    {
      HeaderUnused(s, i, a);
    }
  }

  /** Nor the first header of a new region. */
  lemma RegionWrite(s: Heap, d: Bytes, start: int, len: int)
    requires Inv(s) && Fresh(s, start, len) && Known(d, s.blocks)
    ensures Forget(d, start, H) == d
  {
    InvAppend(s, start, len);
    var t := Appended(s, start, len);
    hide Inv, Fresh;
    forall a | a in d
      ensures !(start <= a < start + H)
    {
      var b :| b in s.blocks && !b.free && b.Data(H) <= a < b.End(H);
      assert b in t.blocks && InUse(t.blocks, a);
      HeaderUnused(t, |s.blocks|, a);
    }
  }

  lemma {:induction false} CoversOnce(bs: seq<Block>, b: Block, a: int)
    requires b in bs && b.addr <= a < b.End(H)
    ensures Sum(bs, Covers(a)) > 0
  {
    SumNonnegative(bs[1..], a);
    if bs[0] != b {
      CoversOnce(bs[1..], b, a);
    }
  }

  /** No block has an address outside the regions. */
  lemma BlockInRegions(s: Heap, b: Block, a: int)
    requires Inv(s) && b in s.blocks && b.addr <= a < b.End(H)
    ensures InRegions(s.regions, a) > 0
  {
    CoversOnce(s.blocks, b, a);
    assert Sum(s.blocks, Covers(a)) == InRegions(s.regions, a);
  }

  /** Writing into a range the heap does not own changes neither known bytes nor headers. */
  lemma RangeWrite(s: Heap, first: int, m: View, d: Bytes, start: int, len: int)
    requires Represents(s, first, m) && Known(d, s.blocks) && Unowned(s.regions, start, len)
    ensures Forget(d, start, len) == d && Represents(s, first, Clobbered(m, start, len))
  {
    forall a | a in d
      ensures !(start <= a < start + len)
    {
      var b :| b in s.blocks && !b.free && b.Data(H) <= a < b.End(H);
      BlockInRegions(s, b, a);
    }
    forall j | 0 <= j < |s.blocks|
      ensures InPlace(Clobbered(m, start, len), s.blocks, j)
    {
      var b := s.blocks[j];
      assert InPlace(m, s.blocks, j);
      AddressPositive(s, j);
      BlockInRegions(s, b, if b.addr < start < b.addr + H then start else b.addr);
    }
  }

  /** What has been cleared is not counted on. */
  lemma ClearedForgotten(d: Bytes, d': Bytes, start: int, len: int)
    requires FilledWith(d, d', start, len, 0)
    ensures Forget(d', start, len) == Forget(d, start, len)
  {
  }

  /** What is known stays known while the blocks in use stay. */
  lemma KnownStays(d: Bytes, bs: seq<Block>, bs': seq<Block>)
    requires Known(d, bs) && Used(bs) <= Used(bs')
    ensures Known(d, bs')
  {
    forall a | a in d
      ensures InUse(bs', a)
    {
      var b :| b in bs && !b.free && b.Data(H) <= a < b.End(H);
      assert b in Used(bs);
      assert b in bs';
    }
  }

  /** Splitting a block, whose rest is forgotten. */
  lemma SplitKnown(s: Heap, d: Bytes, i: nat, size: nat)
    requires Inv(s) && i < |s.blocks| && Splits(H, s.blocks[i], size) && Known(d, s.blocks)
    ensures Known(Forget(d, s.blocks[i].Data(H) + size, s.blocks[i].size - size), Split(H, s.blocks, i, size))
  {
    var bs, r := s.blocks, Split(H, s.blocks, i, size);
    var d' := Forget(d, bs[i].Data(H) + size, bs[i].size - size);
    HeapApart(s);
    hide Inv;
    forall a | a in d'
      ensures InUse(r, a)
    {
      var b :| b in bs && !b.free && b.Data(H) <= a < b.End(H);
      if b == bs[i] {
        assert r[i] in r && r[i] == b.(size := size);
      } else {
        var j :| 0 <= j < |bs| && bs[j] == b;
        assert r[if j < i then j else j + 1] == b;
      }
    }
  }

  /** Freeing a block, whose bytes are forgotten. */
  lemma FreeKnown(s: Heap, d: Bytes, i: nat)
    requires Inv(s) && i < |s.blocks| && Known(d, s.blocks)
    ensures Known(Forget(d, s.blocks[i].Data(H), s.blocks[i].size), SetFree(s.blocks, i, true))
  {
    var bs, r := s.blocks, SetFree(s.blocks, i, true);
    var d' := Forget(d, bs[i].Data(H), bs[i].size);
    hide Inv;
    forall a | a in d'
      ensures InUse(r, a)
    {
      var b :| b in bs && !b.free && b.Data(H) <= a < b.End(H);
      var j :| 0 <= j < |bs| && bs[j] == b;
      assert j != i && r[j] == b;
    }
  }

  // ----- the header writes of each operation -----

  /** split_block writes the new header, that of the next block and its own; then the rest of the block is free. */
  lemma SplitWrites(s: Heap, first: int, m: View, d: Bytes, i: nat, size: nat)
    requires Represents(s, first, m) && i < |s.blocks| && Splits(H, s.blocks[i], size) && Known(d, s.blocks)
    ensures var p, next, rest := s.blocks[i].addr, AddrOf(s.blocks, i + 1), s.blocks[i].size - size;
      var q := p + H + size;
      var d1 := Forget(d, q, H);
      var d2 := if next != 0 then Forget(d1, next, H) else d1;
      Forget(Forget(Forget(d2, p, H), p, H), q, rest) == Forget(d, q, rest)
    ensures Known(Forget(d, s.blocks[i].Data(H) + size, s.blocks[i].size - size), Split(H, s.blocks, i, size))
  {
    SplitKnown(s, d, i, size);
    HeaderWrite(s, d, i);
    if i + 1 < |s.blocks| {
      HeaderWrite(s, d, i + 1);
    }
    hide Inv, Known;
    var p, next, rest := s.blocks[i].addr, AddrOf(s.blocks, i + 1), s.blocks[i].size - size;
    assert forall a :: a in d ==> a in Forget(d, p, H);
    assert next != 0 ==> forall a :: a in d ==> a in Forget(d, next, H);
  }

  /** The rest of a free block had no known bytes. */
  lemma FreeSplitWrites(s: Heap, first: int, m: View, d: Bytes, i: nat, size: nat)
    requires Represents(s, first, m) && i < |s.blocks| && Fits(s.blocks[i], size) && Known(d, s.blocks)
    ensures Forget(d, s.blocks[i].Data(H) + size, s.blocks[i].size - size) == d
  {
    FreeWrite(s, d, i, s.blocks[i].Data(H) + size, s.blocks[i].size - size);
  }

  /** coalesce_block writes headers of the list, and the blocks in use stay. */
  lemma MergeWrites(s: Heap, first: int, m: View, d: Bytes, i: nat)
    requires Represents(s, first, m) && JoinsNext(H, s.blocks, i) && Known(d, s.blocks)
    ensures Forget(d, s.blocks[i].addr, H) == d
    ensures AddrOf(s.blocks, i + 2) != 0 ==> Forget(d, AddrOf(s.blocks, i + 2), H) == d
    ensures Known(d, Merged(s, i).blocks)
  {
    HeaderWrite(s, d, i);
    if i + 2 < |s.blocks| {
      HeaderWrite(s, d, i + 2);
    }
    UsedOfMerge(H, s.blocks, i);
    KnownStays(d, s.blocks, Merged(s, i).blocks);
  }

  /** Marking writes the block's own header. */
  lemma MarkWrites(s: Heap, first: int, m: View, d: Bytes, i: nat)
    requires Represents(s, first, m) && i < |s.blocks| && Known(d, s.blocks)
    ensures Forget(d, s.blocks[i].addr, H) == d
    ensures s.blocks[i].free ==> Known(d, SetFree(s.blocks, i, false))
    ensures Known(Forget(d, s.blocks[i].Data(H), s.blocks[i].size), SetFree(s.blocks, i, true))
  {
    HeaderWrite(s, d, i);
    FreeKnown(s, d, i);
    if s.blocks[i].free {
      HeapApart(s);
      UsedOfSetFree(H, s.blocks, i, false);
      KnownStays(d, s.blocks, SetFree(s.blocks, i, false));
    }
  }

  /** Growing writes the new header and that of the last block. */
  lemma AppendWrites(s: Heap, first: int, m: View, d: Bytes, start: int, len: int)
    requires Represents(s, first, m) && Fresh(s, start, len) && Known(d, s.blocks)
    ensures Forget(d, start, H) == d && Forget(d, AddrOf(s.blocks, |s.blocks| - 1), H) == d
    ensures Known(d, Appended(s, start, len).blocks)
  {
    RegionWrite(s, d, start, len);
    HeaderWrite(s, d, |s.blocks| - 1);
    UsedConcat(s.blocks, [Block(start, len - H, true)]);
    KnownStays(d, s.blocks, Appended(s, start, len).blocks);
  }

  // ----- what callers, calloc and realloc write -----

  /** memset of n bytes: afterwards all of them are known. */
  ghost predicate FilledWith(d: Bytes, d': Bytes, p: int, n: int, ch: Byte) {
    && (forall a :: a in d' <==> a in d || p <= a < p + n)
    && (forall a :: a in d' ==> d'[a] == if p <= a < p + n then ch else d[a])
  }

  /** memcpy of n bytes: those at p become what those at q were, as far as these are known. */
  ghost predicate Copied(d: Bytes, d': Bytes, q: int, p: int, n: int) {
    forall a :: Transferred(d, d', q, p, n, a)
  }

  ghost predicate Transferred(d: Bytes, d': Bytes, q: int, p: int, n: int, a: int) {
    var from := if p <= a < p + n then q + (a - p) else a;
    (from in d <==> a in d') && (from in d ==> d'[a] == d[from])
  }

  /** realloc's copy, after which the old block is free. */
  ghost predicate Moved(d: Bytes, d': Bytes, q: int, p: int, n: int) {
    forall a :: MovedByte(d, d', q, p, n, a)
  }

  ghost predicate MovedByte(d: Bytes, d': Bytes, q: int, p: int, n: int, a: int) {
    if q <= a < q + n then a !in d' else Transferred(d, d', q, p, n, a)
  }

  /** What realloc of pointer ptr, with result p, does to what is known. */
  ghost predicate Reallocated(s: Heap, d: Bytes, d': Bytes, ptr: int, size: Word, p: int) {
    if ptr == 0 || !Live(s, ptr) then d' == d else
      var n := s.blocks[LiveIndex(H, s.blocks, ptr)].size;
      if size == 0 then d' == Forget(d, ptr, n)
      else if p == 0 then d' == d
      else if AlignUp(size) > n then Moved(d, d', ptr, p, n)
      else d' == if n > AlignUp(size) + H + MIN_DATA then Forget(d, ptr + AlignUp(size), n - AlignUp(size)) else d
  }

  lemma CopyKnown(d: Bytes, d': Bytes, bs: seq<Block>, b: Block, q: int, n: int)
    requires Known(d, bs) && b in bs && !b.free && n <= b.size && Copied(d, d', q, b.Data(H), n)
    ensures Known(d', bs)
  {
    forall a | a in d' && !(b.Data(H) <= a < b.Data(H) + n)
      ensures a in d
    {
      assert Transferred(d, d', q, b.Data(H), n, a);
    }
    WriteKnown(d, d', bs, b, n);
  }

  lemma CopyThenForget(d: Bytes, d1: Bytes, q: int, p: int, n: int)
    requires Copied(d, d1, q, p, n) && (p + n <= q || q + n <= p)
    ensures Moved(d, Forget(d1, q, n), q, p, n)
  {
    var d' := Forget(d1, q, n);
    forall a
      ensures MovedByte(d, d', q, p, n, a)
    {
      assert Transferred(d, d1, q, p, n, a);
    }
  }

  lemma CopyNothing(d: Bytes, q: int, p: int)
    ensures Copied(d, d, q, p, 0)
  {
  }

  /** One more byte of memcpy. */
  lemma CopyByte(d: Bytes, d1: Bytes, d2: Bytes, q: int, p: int, k: nat, n: nat)
    requires Copied(d, d1, q, p, k) && k < n && (p + n <= q || q + n <= p)
    requires d2 == if q + k in d1 then d1[p + k := d1[q + k]] else Forget(d1, p + k, 1)
    ensures Copied(d, d2, q, p, k + 1)
  {
    assert Transferred(d, d1, q, p, k, q + k);
    var done := k + 1;
    forall a
      ensures Transferred(d, d2, q, p, done, a)
    {
      assert Transferred(d, d1, q, p, k, a);
    }
  }

  /** Writing into a block in use keeps only bytes of blocks in use known. */
  lemma WriteKnown(d: Bytes, d': Bytes, bs: seq<Block>, b: Block, n: int)
    requires Known(d, bs) && b in bs && !b.free && n <= b.size
    requires forall a :: a in d' ==> a in d || b.Data(H) <= a < b.Data(H) + n
    ensures Known(d', bs)
  {
  }
}
