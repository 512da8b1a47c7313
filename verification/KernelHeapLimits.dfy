/** Sizes within two pages of 2^64: the kernel heap then asks for a region whose length has wrapped around to zero. */
module KernelHeapLimits {
  import opened Words
  import opened Blocks
  import opened KernelHeapSpec
  import opened KernelHeapProperties
  import opened KernelLinks
  import R = Regions

  /** Exactly these sizes, 4096 of them, are rounded to a size that leaves no room for a header. */
  lemma UnsoundSizes(size: Word)
    ensures !Sound(size) <==> TWO_64 - 2 * FRAME_SIZE < size <= TWO_64 - FRAME_SIZE
    ensures !Sound(size) ==> AlignUp(size) == TWO_64 - FRAME_SIZE && AlignUp(AlignUp(size) + H) == 0
    ensures Sound(size) ==> AlignUp(AlignUp(size) + H) > H
  {
  }

  /** coalesce_block's second half on block i + 1, with the 64-bit sum of the sizes. */
  function WrapMerged(s: Heap, i: int): Heap {
    if JoinsNext(H, s.blocks, i) then
      var r := Merged(s, i);
      r.(blocks := r.blocks[i := r.blocks[i].(size := Wrap(r.blocks[i].size))])
    else s
  }

  /** expand_heap with a region of no length: a header, in no page of the heap, whose size has wrapped around. */
  function Overgrown(s: Heap, start: int): Heap {
    WrapMerged(s.(blocks := s.blocks + [Block(start, Wrap(0 - H), true)], free := Wrap(s.free - H)), |s.blocks| - 1)
  }

  /** The end of malloc; the address of the rest may wrap around. */
  function TakeBeyond(s: Heap, size: int): (Heap, int) {
    var i := FirstFit(s.blocks, size);
    if i == |s.blocks| then (s, 0) else
      var t := TakeAt(s, i, size);
      (if i + 1 < |t.blocks| then t.(blocks := t.blocks[i + 1 := t.blocks[i + 1].(addr := Wrap(t.blocks[i + 1].addr))]) else t,
       s.blocks[i].Data(H))
  }

  predicate Overgrows(s: Heap, size: Word, grant: Grant) {
    !Sound(size) && grant.Granted? && FirstFit(s.blocks, AlignUp(size)) == |s.blocks|
  }

  /** malloc for every size. */
  function MallocAny(s: Heap, size: Word, grant: Grant): (Heap, int) {
    if Overgrows(s, size, grant) then TakeBeyond(Overgrown(s, grant.start), AlignUp(size)) else Malloc(s, size, grant)
  }

  /** A region as virt grants it: not at null, on a page boundary, and new if it has any length. */
  ghost predicate FromVirt(s: Heap, size: Word, grant: Grant) {
    grant.Granted? ==>
      && grant.start >= FRAME_SIZE
      && (Sound(size) ==> Fresh(s, grant.start, AlignUp(AlignUp(size) + H)))
  }

  /** The region starts where the last block, which is free, ends. */
  predicate JoinsLast(s: Heap, start: int) {
    s.blocks != [] && s.blocks[|s.blocks| - 1].free && s.blocks[|s.blocks| - 1].End(H) == start
  }

  /** If the header joins the last block it is absorbed, the sizes wrapping back to what they were: malloc fails, and
      two headers are missing from the free bytes. */
  lemma OvergrowthAbsorbed(s: Heap, size: Word, grant: Grant)
    requires Inv(s) && Overgrows(s, size, grant) && JoinsLast(s, grant.start)
    ensures MallocAny(s, size, grant) == (s.(free := Wrap(s.free - 2 * H)), 0)
  {
    var n := |s.blocks|;
    var last := s.blocks[n - 1];
    AddressPositive(s, n - 1);
    var t := s.(blocks := s.blocks + [Block(grant.start, Wrap(0 - H), true)], free := Wrap(s.free - H));
    assert t.blocks[n - 1] == last && t.blocks[n] == Block(grant.start, TWO_64 - H, true);
    assert JoinsNext(H, t.blocks, n - 1);
    assert Merge(H, t.blocks, n - 1) == s.blocks[..n - 1] + [last.(size := last.size + TWO_64)];
    assert Wrap(last.size + TWO_64) == last.size;
    assert s.blocks == s.blocks[..n - 1] + [last];
    assert Overgrown(s, grant.start).blocks == s.blocks;
    WrapSum(s.free - H, 0 - H);
  }

  /** Otherwise malloc returns the data of that header, as a block that reaches beyond the address space. */
  lemma OvergrowthCorrupts(s: Heap, size: Word, grant: Grant)
    requires Inv(s) && Overgrows(s, size, grant) && !JoinsLast(s, grant.start) && grant.start >= FRAME_SIZE
    ensures var (r, p) := MallocAny(s, size, grant);
      p == grant.start + H && Block(grant.start, AlignUp(size), false) in r.blocks
  {
    var n, a := |s.blocks|, AlignUp(size);
    UnsoundSizes(size);
    var b := Block(grant.start, TWO_64 - H, true);
    var g := Overgrown(s, grant.start);
    assert g.blocks == s.blocks + [b];
    assert g.blocks[n] == b && forall j :: 0 <= j < n ==> g.blocks[j] == s.blocks[j];
    assert FirstFit(g.blocks, a) == n;
    assert Splits(H, b, a);
    var r := MallocAny(s, size, grant).0;
    assert r.blocks[n] == Block(grant.start, a, false);
  }

  /** malloc keeps the invariant if and only if it does not get such a region: its size is sound, or a free block
      fits, or virt refuses. */
  lemma MallocKeepsInv(s: Heap, size: Word, grant: Grant)
    requires Inv(s) && FromVirt(s, size, grant)
    ensures Inv(MallocAny(s, size, grant).0) <==>
      Sound(size) || FirstFit(s.blocks, AlignUp(size)) < |s.blocks| || grant.Refused?
  {
    if !Overgrows(s, size, grant) {
      InvMalloc(s, size, grant);
    } else if JoinsLast(s, grant.start) {
      OvergrowthAbsorbed(s, size, grant);
      LawBroken(s);
    } else {
      OvergrowthCorrupts(s, size, grant);
      UnsoundSizes(size);
      var b := Block(grant.start, AlignUp(size), false);
      assert b.End(H) >= TWO_64;
    }
  }

  /** Two headers too few among the free bytes break the counter law. */
  lemma LawBroken(s: Heap)
    requires CounterLaw(s)
    ensures !CounterLaw(s.(free := Wrap(s.free - 2 * H)))
  {
    var x := s.charged + s.free;
    WrapSum(s.free - 2 * H, s.charged);
    assert Wrap(x - 2 * H) != Wrap(x);
  }

  /** The grants of expand_heap are of this kind. */
  lemma GrantsAreFromVirt(s: Heap, e: Supply, space: int, size: Word)
    requires R.Inv(e.ranges) && Owns(s.regions, e, space) && 0 !in e.vm.frames
    ensures FromVirt(s, size, GrantFor(e, size))
  {
    hide Owns, R.Inv;
    RoundedBelow(size);
    SupplyGrants(s, e, space, AlignUp(AlignUp(size) + H));
  }
}
