/** The byte statistics of the kernel heap over whole runs, and when validate_heap succeeds. */
module KernelHeapStatistics {
  import opened Words
  import opened Blocks
  import opened KernelHeapSpec
  import opened KernelHeapProperties

  /** By how much the bytes in use exceed those charged, modulo 2^64. */
  function Drift(s: Heap): Word {
    Wrap(Sum(s.blocks, UsedSize()) - s.charged)
  }

  // ----- the bytes in use -----

  lemma UsedSumOfTake(bs: seq<Block>, i: nat, size: int)
    requires i < |bs| && Fits(bs[i], size)
    ensures Sum(Allocate(H, bs, i, size), UsedSize()) ==
      Sum(bs, UsedSize()) + if Splits(H, bs[i], size) then size else bs[i].size
  {
    var t := Split(H, bs, i, size);
    if Splits(H, bs[i], size) {
      SumOfSplit(H, bs, i, size, UsedSize());
    }
    SumOfUpdate(t, i, t[i].(free := false), UsedSize());
  }

  lemma UsedSumOfMerge(s: Heap, i: int)
    ensures Sum(Merged(s, i).blocks, UsedSize()) == Sum(s.blocks, UsedSize())
  {
    if JoinsNext(H, s.blocks, i) {
      SumOfMerge(H, s.blocks, i, UsedSize());
    }
  }

  lemma UsedSumOfCoalesce(s: Heap, i: nat)
    requires i < |s.blocks|
    ensures Sum(Coalesced(s, i).blocks, UsedSize()) == Sum(s.blocks, UsedSize())
  {
    UsedSumOfMerge(s, i);
    UsedSumOfMerge(Merged(s, i), i - 1);
  }

  // ----- every operation -----

  /** malloc leaves out what the block it found is too large, if it is not split. */
  lemma DriftOfTake(s: Heap, i: nat, size: int)
    requires i < |s.blocks| && Fits(s.blocks[i], size)
    ensures var waste := if Splits(H, s.blocks[i], size) then 0 else s.blocks[i].size - size;
      Drift(TakeAt(s, i, size)) == Wrap(Drift(s) + waste)
  {
    UsedSumOfTake(s.blocks, i, size);
    hide Sum, Wrap;
    var u, w := Sum(s.blocks, UsedSize()), Sum(TakeAt(s, i, size).blocks, UsedSize());
    SubtractWrapped(w, s.charged + size);
    WrapSum(u - s.charged, w - u - size);
  }

  lemma SubtractWrapped(x: int, y: int)
    ensures Wrap(x - Wrap(y)) == Wrap(x - y)
  {
  }

  lemma DriftOfRelease(s: Heap, i: nat)
    requires i < |s.blocks| && !s.blocks[i].free
    ensures Drift(ReleaseAt(s, i)) == Drift(s)
  {
    var n := s.blocks[i].size;
    SumOfUpdate(s.blocks, i, s.blocks[i].(free := true), UsedSize());
    var t := s.(blocks := SetFree(s.blocks, i, true), charged := Wrap(s.charged - n), free := Wrap(s.free + n),
                frees := Wrap(s.frees + 1));
    UsedSumOfCoalesce(t, i);
    SubtractWrapped(Sum(t.blocks, UsedSize()), s.charged - n);
  }

  lemma DriftOfShrink(s: Heap, i: nat, size: int)
    requires i < |s.blocks| && !s.blocks[i].free
    ensures Drift(Shrink(s, i, size)) == Drift(s)
  {
    var n := s.blocks[i].size;
    if n > size + H + MIN_DATA {
      SumOfSplit(H, s.blocks, i, size, UsedSize());
      SubtractWrapped(Sum(Shrink(s, i, size).blocks, UsedSize()), s.charged - (n - size));
    }
  }

  lemma DriftOfGrow(s: Heap, start: int, len: int)
    ensures Drift(Grow(s, start, len)) == Drift(s)
  {
    var t := Appended(s, start, len);
    SumOfAppend(s.blocks, Block(start, len - H, true), UsedSize());
    UsedSumOfCoalesce(t, |s.blocks|);
  }

  // ----- every call -----

  /** What a malloc hands out beyond the size it charges. */
  function MallocWaste(s: Heap, size: Word, grant: Grant): int {
    RoundedBelow(size);
    if size == 0 then 0 else
      var t, a := Ready(s, AlignUp(size), grant), AlignUp(size);
      var i := FirstFit(t.blocks, a);
      if i == |t.blocks| || Splits(H, t.blocks[i], a) then 0 else t.blocks[i].size - a
  }

  lemma DriftOfMalloc(s: Heap, size: Word, grant: Grant)
    ensures Drift(Malloc(s, size, grant).0) == Wrap(Drift(s) + MallocWaste(s, size, grant))
  {
    hide Drift, Grow, TakeAt, Wrap;
    WrapSmall(Drift(s));
    RoundedBelow(size);
    if size != 0 {
      var a := AlignUp(size);
      if grant.Granted? {
        DriftOfGrow(s, grant.start, AlignUp(a + H));
      }
      var t := Ready(s, a, grant);
      if FirstFit(t.blocks, a) < |t.blocks| {
        DriftOfTake(t, FirstFit(t.blocks, a), a);
      }
    }
  }

  lemma DriftOfFree(s: Heap, ptr: int)
    ensures Drift(Free(s, ptr)) == Drift(s)
  {
    if Live(s, ptr) {
      DriftOfRelease(s, LiveIndex(H, s.blocks, ptr));
    }
  }

  /** Only the mallocs among the calls waste anything, those of calloc and of a realloc that moves included. */
  function Waste(s: Heap, c: Call): int {
    match c
    case DoMalloc(size, grant) => MallocWaste(s, size, grant)
    case DoFree(_) => 0
    case DoRealloc(ptr, size, grant) =>
      if ptr == 0 then MallocWaste(s, size, grant)
      else if size > 0 && Live(s, ptr) && AlignUp(size) > s.blocks[LiveIndex(H, s.blocks, ptr)].size
      then MallocWaste(s, AlignUp(size), grant)
      else 0
    case DoCalloc(num, size, grant) =>
      if Product(num, size) < TWO_64 then MallocWaste(s, Product(num, size), grant) else 0
  }

  lemma DriftOfRealloc(s: Heap, ptr: int, size: Word, grant: Grant)
    ensures Drift(Realloc(s, ptr, size, grant).0) == Wrap(Drift(s) + Waste(s, DoRealloc(ptr, size, grant)))
  {
    hide Drift, Malloc, Free, Shrink, MallocWaste, Wrap;
    WrapSmall(Drift(s));
    DriftOfMalloc(s, size, grant);
    DriftOfMalloc(s, AlignUp(size), grant);
    DriftOfFree(s, ptr);
    DriftOfFree(Malloc(s, AlignUp(size), grant).0, ptr);
    if Live(s, ptr) {
      DriftOfShrink(s, LiveIndex(H, s.blocks, ptr), AlignUp(size));
    }
  }

  lemma DriftOfCall(s: Heap, c: Call)
    requires Allowed(s, c)
    ensures Drift(Step(s, c)) == Wrap(Drift(s) + Waste(s, c))
  {
    hide Drift, Malloc, Realloc, Free, MallocWaste, Wrap;
    WrapSmall(Drift(s));
    match c
    case DoMalloc(size, grant) => DriftOfMalloc(s, size, grant);
    case DoFree(ptr) => DriftOfFree(s, ptr);
    case DoRealloc(ptr, size, grant) => DriftOfRealloc(s, ptr, size, grant);
    case DoCalloc(num, size, grant) =>
      if Product(num, size) < TWO_64 {
        DriftOfMalloc(s, Product(num, size), grant);
      }
  }

  // ----- runs -----

  ghost function RunWaste(s: Heap, cs: seq<Call>): int
    requires AllAllowed(s, cs)
    decreases |cs|
  {
    if cs == [] then 0 else Waste(s, cs[0]) + RunWaste(Step(s, cs[0]), cs[1..])
  }

  lemma {:induction false} DriftOfRun(s: Heap, cs: seq<Call>)
    requires AllAllowed(s, cs)
    ensures Drift(Run(s, cs)) == Wrap(Drift(s) + RunWaste(s, cs))
    decreases |cs|
  {
    hide Drift, Step, Waste, Wrap, Allowed;
    WrapSmall(Drift(s));
    if cs != [] {
      DriftOfCall(s, cs[0]);
      DriftOfRun(Step(s, cs[0]), cs[1..]);
      WrapSum(Drift(s) + Waste(s, cs[0]), RunWaste(Step(s, cs[0]), cs[1..]));
    }
  }

  lemma ChargedIsUsed(s: Heap)
    requires Inv(s)
    ensures s.charged == Wrap(Sum(s.blocks, UsedSize())) <==> Drift(s) == 0
  {
    CountersInRange(s);
    WrappedEqual(Sum(s.blocks, UsedSize()), s.charged);
  }

  lemma WrappedEqual(x: int, c: int)
    requires 0 <= c < TWO_64
    ensures c == Wrap(x) <==> Wrap(x - c) == 0
  {
  }

  /** validate_heap succeeds after a run that starts where it succeeds, if and only if what the mallocs handed out
      beyond the sizes they charged is a multiple of 2^64, and there are as many blocks as regions. */
  lemma RunValidates(s: Heap, cs: seq<Call>)
    requires Inv(s) && Validates(s) && AllAllowed(s, cs)
    ensures var r := Run(s, cs);
      Validates(r) <==> Wrap(RunWaste(s, cs)) == 0 && |r.blocks| == |r.regions|
  {
    hide Inv, Drift, Validates, Wrap, RunWaste, AllAllowed, Run, Sum;
    var r := Run(s, cs);
    RunKeepsInv(s, cs);
    ValidatesExactly(s);
    ValidatesExactly(r);
    ChargedIsUsed(s);
    ChargedIsUsed(r);
    DriftOfRun(s, cs);
  }

  // ----- the numbers of allocations and frees -----

  function InUse(): Block -> int { (b: Block) => if b.free then 0 else 1 }

  /** The law of the two call counters: their difference is the number of blocks in use, modulo 2^64. */
  ghost predicate Outstanding(s: Heap) {
    Wrap(s.allocs - s.frees) == Wrap(Sum(s.blocks, InUse()))
  }

  lemma OutstandingMerge(s: Heap, i: int)
    requires Outstanding(s)
    ensures Outstanding(Merged(s, i))
  {
    if JoinsNext(H, s.blocks, i) {
      SumOfMerge(H, s.blocks, i, InUse());
    }
  }

  lemma OutstandingCoalesce(s: Heap, i: nat)
    requires Outstanding(s) && i < |s.blocks|
    ensures Outstanding(Coalesced(s, i))
  {
    OutstandingMerge(s, i);
    OutstandingMerge(Merged(s, i), i - 1);
  }

  lemma OutstandingSplit(s: Heap, i: nat, size: int)
    requires Outstanding(s) && i < |s.blocks|
    ensures Outstanding(SplitAt(s, i, size))
  {
    if Splits(H, s.blocks[i], size) {
      SumOfSplit(H, s.blocks, i, size, InUse());
    }
  }

  lemma OutstandingTake(s: Heap, i: nat, size: int)
    requires Outstanding(s) && i < |s.blocks| && s.blocks[i].free
    ensures Outstanding(TakeAt(s, i, size))
  {
    OutstandingSplit(s, i, size);
    var t := SplitAt(s, i, size);
    SumOfUpdate(t.blocks, i, t.blocks[i].(free := false), InUse());
    CountsMove(t.allocs, t.frees, Sum(t.blocks, InUse()), 1);
    SubtractWrapped(0 - t.frees, 0 - (t.allocs + 1));
  }

  /** Both sides move by the same. */
  lemma CountsMove(allocs: int, frees: int, n: int, d: int)
    requires Wrap(allocs - frees) == Wrap(n)
    ensures Wrap(allocs - frees + d) == Wrap(n + d)
    ensures Wrap(Wrap(allocs + d) - frees) == Wrap(allocs - frees + d)
    ensures Wrap(allocs - Wrap(frees - d)) == Wrap(allocs - frees + d)
  {
    WrapSum(allocs - frees, d);
    WrapSum(n, d);
    WrapSum(allocs + d, 0 - frees);
    SubtractWrapped(allocs, frees - d);
  }

  lemma OutstandingRelease(s: Heap, i: nat)
    requires Outstanding(s) && i < |s.blocks| && !s.blocks[i].free
    ensures Outstanding(ReleaseAt(s, i))
  {
    var n := s.blocks[i].size;
    SumOfUpdate(s.blocks, i, s.blocks[i].(free := true), InUse());
    CountsMove(s.allocs, s.frees, Sum(s.blocks, InUse()), -1);
    OutstandingCoalesce(s.(blocks := SetFree(s.blocks, i, true), charged := Wrap(s.charged - n), free := Wrap(s.free + n),
                           frees := Wrap(s.frees + 1)), i);
  }

  lemma OutstandingGrow(s: Heap, start: int, len: int)
    requires Outstanding(s)
    ensures Outstanding(Grow(s, start, len))
  {
    SumOfAppend(s.blocks, Block(start, len - H, true), InUse());
    OutstandingCoalesce(Appended(s, start, len), |s.blocks|);
  }

  lemma OutstandingMalloc(s: Heap, size: Word, grant: Grant)
    requires Outstanding(s)
    ensures Outstanding(Malloc(s, size, grant).0)
  {
    hide Outstanding, Grow, TakeAt;
    RoundedBelow(size);
    if size != 0 {
      var a := AlignUp(size);
      if grant.Granted? {
        OutstandingGrow(s, grant.start, AlignUp(a + H));
      }
      var t := Ready(s, a, grant);
      if FirstFit(t.blocks, a) < |t.blocks| {
        OutstandingTake(t, FirstFit(t.blocks, a), a);
      }
    }
  }

  lemma OutstandingFree(s: Heap, ptr: int)
    requires Outstanding(s)
    ensures Outstanding(Free(s, ptr))
  {
    if Live(s, ptr) {
      OutstandingRelease(s, LiveIndex(H, s.blocks, ptr));
    }
  }

  lemma OutstandingStep(s: Heap, c: Call)
    requires Outstanding(s) && Allowed(s, c)
    ensures Outstanding(Step(s, c))
  {
    hide Outstanding, Malloc, Free;
    match c
    case DoMalloc(size, grant) => OutstandingMalloc(s, size, grant);
    case DoFree(ptr) => OutstandingFree(s, ptr);
    case DoRealloc(ptr, size, grant) =>
      OutstandingMalloc(s, size, grant);
      OutstandingMalloc(s, AlignUp(size), grant);
      OutstandingFree(s, ptr);
      OutstandingFree(Malloc(s, AlignUp(size), grant).0, ptr);
      if Live(s, ptr) {
        OutstandingSplit(s, LiveIndex(H, s.blocks, ptr), AlignUp(size));
        OutstandingMoved(SplitAt(s, LiveIndex(H, s.blocks, ptr), AlignUp(size)));
      }
    case DoCalloc(num, size, grant) =>
      if Product(num, size) < TWO_64 {
        OutstandingMalloc(s, Product(num, size), grant);
      }
  }

  lemma OutstandingMoved(s: Heap)
    requires Outstanding(s)
    ensures forall c, f :: Outstanding(s.(charged := c, free := f))
  {
  }

  /** In every reachable heap num_allocations_ - num_frees_ is the number of blocks in use. */
  lemma {:induction false} RunOutstanding(s: Heap, cs: seq<Call>)
    requires Outstanding(s) && AllAllowed(s, cs)
    ensures Outstanding(Run(s, cs))
    decreases |cs|
  {
    hide Outstanding, Step, Allowed;
    if cs != [] {
      OutstandingStep(s, cs[0]);
      RunOutstanding(Step(s, cs[0]), cs[1..]);
    }
  }

  lemma NewHeapOutstanding(start: int, size: Word)
    ensures Outstanding(Initial(start, size)) && Initial(start, size).allocs == Initial(start, size).frees == 0
  {
    SumOne(Initial(start, size).blocks[0], InUse());
  }
}
