/** What each call on the kernel heap returns, and what growing takes of the address space, the frames and the pages. */
module KernelHeapCalls {
  import opened Words
  import opened Blocks
  import opened LiveBlocks
  import opened PageMapping
  import opened KernelHeapSpec
  import opened KernelHeapProperties
  import opened KernelLinks
  import R = Regions

  /** What malloc cannot give: no bytes, or what no free block holds when no region is granted. */
  ghost predicate Unavailable(s: Heap, size: Word, grant: Grant) {
    size == 0 || (grant.Refused? && forall b :: b in s.blocks ==> !Fits(b, AlignUp(size)))
  }

  /** A result that is null exactly under the given condition, with nothing changed, and otherwise a new block of at
      least the rounded size. */
  ghost predicate Gives(s: Heap, r: Heap, p: int, size: Word, fails: bool) {
    && (p == 0 <==> fails)
    && (p == 0 ==> r == s)
    && (p != 0 ==> Live(r, p) && Allocates(s, r, p, AlignUp(size), r.blocks[LiveIndex(H, r.blocks, p)]))
  }

  /** If free blocks fit, malloc takes the one that comes first in the list. */
  lemma MallocTakesFirst(s: Heap, size: Word, grant: Grant, k: nat)
    requires 0 < size && k < |s.blocks| && Fits(s.blocks[k], AlignUp(size))
    requires forall j :: 0 <= j < k ==> !Fits(s.blocks[j], AlignUp(size))
    ensures Malloc(s, size, grant).1 == s.blocks[k].addr + H
    ensures Malloc(s, size, grant).0.regions == s.regions && Malloc(s, size, grant).0.size == s.size
  {
    assert FirstFit(s.blocks, AlignUp(size)) == k;
  }

  /** Otherwise it grows the heap, if it is granted a region, by the pages for the rounded size and a header. */
  lemma MallocGrows(s: Heap, size: Word, start: int)
    requires 0 < size && forall b :: b in s.blocks ==> !Fits(b, AlignUp(size))
    ensures AlignUp(size) + H < TWO_64
    ensures var r, len := Malloc(s, size, Granted(start)).0, AlignUp(AlignUp(size) + 40);
      r.regions == s.regions + [Area(start, len)] && r.size == Wrap(s.size + len)
  {
    hide Fits, Split, MergeIfJoins, Wrap;
    RoundedBelow(size);
    assert FirstFit(s.blocks, AlignUp(size)) == |s.blocks| by {
      assert forall j :: 0 <= j < |s.blocks| ==> s.blocks[j] in s.blocks;
    }
  }

  // ----- realloc -----

  /** realloc of null is malloc. */
  lemma ReallocOfNull(s: Heap, size: Word, grant: Grant)
    requires Inv(s) && GoodGrant(s, size, grant)
    ensures var (r, p) := Realloc(s, 0, size, grant);
      Gives(s, r, p, size, Unavailable(s, size, grant))
  {
    hide Inv, Allocates, Malloc;
    MallocAllocates(s, size, grant);
  }

  /** realloc to no bytes frees the block. */
  lemma ReallocToZero(s: Heap, ptr: int, grant: Grant)
    requires Inv(s) && Live(s, ptr)
    ensures var (r, p) := Realloc(s, ptr, 0, grant);
      p == 0 && Used(r.blocks) == Used(s.blocks) - {s.blocks[LiveIndex(H, s.blocks, ptr)]} && !Live(r, ptr)
  {
    var i := LiveIndex(H, s.blocks, ptr);
    AddressPositive(s, i);
    FreeReleases(s, ptr);
    HeapApart(s);
    hide Inv;
    var r := Free(s, ptr);
    if Live(r, ptr) {
      var c := r.blocks[LiveIndex(H, r.blocks, ptr)];
      assert c in Used(r.blocks) && c in Used(s.blocks) && c.addr == s.blocks[i].addr;
      OneBlockPerAddress(H, s.blocks, i);
      assert false;
    }
  }

  /** realloc of a pointer that is not live gives null, and changes nothing. */
  lemma ReallocOfOther(s: Heap, ptr: int, size: Word, grant: Grant)
    requires ptr != 0 && !Live(s, ptr)
    ensures Realloc(s, ptr, size, grant) == (s, 0)
  {
  }

  /** realloc returns the old pointer if and only if the block holds the rounded size; when it has to move and malloc
      gives nothing, it gives nothing. */
  lemma ReallocStays(s: Heap, ptr: int, size: Word, grant: Grant)
    requires Inv(s) && GoodGrant(s, size, grant) && Live(s, ptr) && size > 0
    ensures var p, n := Realloc(s, ptr, size, grant).1, s.blocks[LiveIndex(H, s.blocks, ptr)].size;
      && (p == ptr <==> AlignUp(size) <= n)
      && (p == 0 <==> AlignUp(size) > n && Unavailable(s, AlignUp(size), grant))
  {
    hide Inv, Malloc, Free, Shrink, AlignUp, LiveIndex;
    var i := LiveIndex(H, s.blocks, ptr);
    AddressPositive(s, i);
    RoundedTwice(size);
    if AlignUp(size) > s.blocks[i].size {
      MallocAllocates(s, AlignUp(size), grant);
      NewElsewhere(s, AlignUp(size), grant, s.blocks[i]);
    }
  }

  /** The size of the block with its data at ptr, if it is in use. */
  function SizeAt(s: Heap, ptr: int): int {
    if Live(s, ptr) then s.blocks[LiveIndex(H, s.blocks, ptr)].size else -1
  }

  /** What a block of n bytes keeps when size bytes are asked of it: the rest goes if a header and 16 bytes fit in it. */
  function KeptSize(n: int, size: int): int {
    if n - size > 40 + 16 then size else n
  }

  /** A block that stays keeps what is asked of it, and more only if that is too little to be a block. */
  lemma ReallocKeeps(s: Heap, ptr: int, size: Word, grant: Grant)
    requires Inv(s) && Live(s, ptr) && size > 0 && AlignUp(size) <= SizeAt(s, ptr)
    ensures SizeAt(Realloc(s, ptr, size, grant).0, ptr) == KeptSize(SizeAt(s, ptr), AlignUp(size))
  {
    hide Inv, Malloc, Free, Shrink, AlignUp, LiveIndex;
    var i := LiveIndex(H, s.blocks, ptr);
    AddressPositive(s, i);
    ShrinkReplaces(s, i, AlignUp(size));
  }

  /** malloc returns the data of no block in use. */
  lemma NewElsewhere(s: Heap, size: Word, grant: Grant, b: Block)
    requires Inv(s) && GoodGrant(s, size, grant) && b in s.blocks && !b.free
    ensures Malloc(s, size, grant).1 != 0 ==> Malloc(s, size, grant).1 != b.Data(H)
  {
    var (r, p) := Malloc(s, size, grant);
    if p != 0 {
      MallocAllocates(s, size, grant);
      assert b in Used(s.blocks) && Apart(H, r.blocks[LiveIndex(H, r.blocks, p)], b);
    }
  }

  // ----- calloc -----

  /** calloc gives nothing for products 64 bits cannot hold, and otherwise what malloc gives for the true product. */
  lemma CallocGives(s: Heap, num: Word, size: Word, grant: Grant)
    requires Inv(s) && (num * size < TWO_64 ==> GoodGrant(s, Product(num, size), grant))
    ensures var (r, p) := Calloc(s, num, size, grant);
      if num * size >= TWO_64 then p == 0 && r == s
      else Gives(s, r, p, num * size, Unavailable(s, num * size, grant))
  {
    hide Inv, Allocates, Malloc;
    if num * size < TWO_64 {
      MallocAllocates(s, num * size, grant);
    }
  }

  // ----- the constructor -----

  /** A new heap has all of its first region to give, from its start. */
  lemma NewHeapGives(start: int, size: Word, request: Word, grant: Grant)
    requires AlignUp(size) > H && 0 < request && AlignUp(request) <= AlignUp(size) - H
    ensures var (r, p) := Malloc(Initial(start, size), request, grant);
      p == start + H && r.size == AlignUp(size) && r.regions == [Area(start, AlignUp(size))]
  {
    MallocTakesFirst(Initial(start, size), request, grant, 0);
  }

  // ----- growing -----

  /** The first live region of at least len bytes is the one a request is served from. */
  ghost predicate Serving(rs: seq<R.Region>, len: int, k: nat) {
    && k < |rs| && rs[k].size != 0 && rs[k].size >= len
    && forall j :: 0 <= j < k ==> rs[j].size == 0 || rs[j].size < len
  }

  lemma NoneServes(e: Supply, space: int, len: nat)
    requires forall r :: r in e.ranges ==> r.size == 0 || r.size < len
    ensures GrantOf(e, len) == Refused && Supplied(e, space, len) == e
  {
    assert forall j :: 0 <= j < |e.ranges| ==> !R.Serves(e.ranges[j], len);
  }

  /** Of the address space, exactly the range is gone. */
  ghost predicate Taken(rs: seq<R.Region>, rs': seq<R.Region>, start: int, len: int) {
    forall a :: R.IsFree(rs', a) <==> R.IsFree(rs, a) && !(start <= a < start + len)
  }

  /** A range that starts at null is lost, and the request refused. Elsewhere it is granted if and only if there is a
      frame for each of its pages; if not, the address space is as before, the frames are used up, and pages that were
      not mapped are not mapped. */
  lemma SupplyExactly(s: Heap, e: Supply, space: int, len: nat, k: nat)
    requires R.Inv(e.ranges) && Owns(s.regions, e, space) && len % FRAME_SIZE == 0 && Serving(e.ranges, len, k)
    ensures var start, n := e.ranges[k].start, len / FRAME_SIZE;
      var r := Supplied(e, space, len);
      if start == 0 then
        GrantOf(e, len) == Refused && Taken(e.ranges, r.ranges, 0, len) && r.vm == e.vm
      else if n > |e.vm.frames| then
        && GrantOf(e, len) == Refused && Taken(e.ranges, r.ranges, 0, 0) && r.vm.frames == []
        && (Unmapped(e.vm, space, start, len) ==> r.vm.pages == e.vm.pages)
      else
        && GrantOf(e, len) == Granted(start) && Taken(e.ranges, r.ranges, start, len)
        && r.vm == Mapped(e.vm, space, start / FRAME_SIZE, n)
  {
    assert R.FirstServing(e.ranges, len) == k;
    RangeTaken(s, e, space, len);
    var start, rest := e.ranges[k].start, e.ranges[k := R.Rest(e.ranges[k], len)];
    if start != 0 && len / FRAME_SIZE > |e.vm.frames| {
      R.FreeAdds(rest, start, len);
      if Unmapped(e.vm, space, start, len) {
        RequestOfUnmapped(e.vm, space, start / FRAME_SIZE, len / FRAME_SIZE);
      }
      forall a
        ensures R.IsFree(R.Freed(rest, start, len), a) <==> R.IsFree(e.ranges, a)
      {
        assert R.Count(R.Freed(rest, start, len), a) == R.Count(rest, a) + R.Weight(R.Region(start, len), a);
      }
    }
  }

  ghost predicate Unmapped(vm: Vm, space: int, start: int, len: int) {
    forall p :: start / FRAME_SIZE <= p < start / FRAME_SIZE + len / FRAME_SIZE ==> Slot(space, p) !in vm.pages
  }
}
