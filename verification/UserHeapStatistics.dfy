/** The byte statistic of the user heap, and when validate_heap succeeds. */
module UserHeapStatistics {
  import opened Words
  import opened Blocks
  import opened UserHeapSpec
  import opened UserHeapProperties
  import M = PageMapping

  /** By how much the bytes in use exceed the statistic that validate_heap compares them with, modulo 2^32. */
  function Drift(s: Heap): int {
    (Sum(s.blocks, UsedSize()) - s.charged) % TWO_32
  }

  /** What validate_heap compares. */
  predicate Validates(s: Heap) {
    Sum(s.blocks, UsedSize()) % TWO_32 == s.charged
  }

  lemma NoDrift(space: int, s: Heap)
    requires Inv(space, s)
    ensures Validates(s) <==> Drift(s) == 0
  {
  }

  lemma UsedSumOfTake(bs: seq<Block>, i: nat, size: nat)
    requires i < |bs| && Fits(bs[i], size)
    ensures Sum(Allocate(H, bs, i, size), UsedSize()) ==
      Sum(bs, UsedSize()) + if Splits(H, bs[i], size) then size else bs[i].size
  {
    var f := UsedSize();
    var split := Split(H, bs, i, size);
    if Splits(H, bs[i], size) {
      SumOfSplit(H, bs, i, size, f);
    }
    SumOfUpdate(split, i, split[i].(free := false), f);
  }

  /** malloc's statistic falls short by what the block it found was too large for splitting; splitting hides nothing. */
  lemma DriftOfTake(space: int, s: Heap, i: nat, size: nat)
    requires Inv(space, s) && i < |s.blocks| && Fits(s.blocks[i], size)
    ensures var waste := if Splits(H, s.blocks[i], size) then 0 else s.blocks[i].size - size;
      Drift(TakeAt(s, i, size)) == (Drift(s) + waste) % TWO_32
  {
    hide Inv, Sum, Allocate;
    UsedSumOfTake(s.blocks, i, size);
  }

  lemma DriftOfRelease(s: Heap, i: nat)
    requires i < |s.blocks| && !s.blocks[i].free
    ensures Drift(ReleaseAt(s, i)) == Drift(s)
  {
    var f := UsedSize();
    SumOfUpdate(s.blocks, i, s.blocks[i].(free := true), f);
    UsedSumOfCoalesce(SetFree(s.blocks, i, true), i);
  }

  lemma UsedSumOfCoalesce(bs: seq<Block>, i: nat)
    requires i < |bs|
    ensures Sum(Coalesce(H, bs, i), UsedSize()) == Sum(bs, UsedSize())
  {
    UsedSumOfMerge(bs, i);
    UsedSumOfMerge(MergeIfJoins(H, bs, i), i - 1);
  }

  lemma UsedSumOfMerge(bs: seq<Block>, i: int)
    ensures Sum(MergeIfJoins(H, bs, i), UsedSize()) == Sum(bs, UsedSize())
  {
    if JoinsNext(H, bs, i) {
      SumOfMerge(H, bs, i, UsedSize());
    }
  }

  /** A realloc that splits does not refund what it gives up: the statistic then exceeds the bytes in use. */
  lemma DriftOfShrink(s: Heap, i: nat, size: int)
    requires i < |s.blocks| && !s.blocks[i].free && size <= s.blocks[i].size
    ensures Drift(Shrink(s, i, size)) ==
      (Drift(s) - if s.blocks[i].size > size + H + MIN_DATA then s.blocks[i].size - size else 0) % TWO_32
  {
    if Splits(H, s.blocks[i], size) {
      SumOfSplit(H, s.blocks, i, size, UsedSize());
    }
  }

  lemma DriftOfGrow(space: int, s: Heap, min: Word)
    ensures Drift(Grow(space, s, min)) == Drift(s)
  {
    var b := Block(s.brk, AlignUp(min) - H, true);
    SumConcat(s.blocks, [b], UsedSize());
    SumOne(b, UsedSize());
    UsedSumOfCoalesce(s.blocks + [b], |s.blocks|);
  }

  // ----- the statistic over calls and runs -----

  /** What malloc hands out beyond the rounded size, in a block too small to split. */
  function MallocWaste(space: int, s: Heap, size: Word): nat {
    if size == 0 || size > MAX_ALLOC then 0 else
      var t := Ready(space, s, AlignUp(size));
      var i := FirstFit(t.blocks, AlignUp(size));
      if i == |t.blocks| || Splits(H, t.blocks[i], AlignUp(size)) then 0 else t.blocks[i].size - AlignUp(size)
  }

  /** By how much a call moves the bytes in use away from the statistic. */
  function CallDrift(space: int, s: Heap, op: Call): int {
    match op
    case DoMalloc(size) => MallocWaste(space, s, size)
    case DoFree(_) => 0
    case DoCalloc(num, size) => if num * size <= MAX_ALLOC then MallocWaste(space, s, num * size) else 0
    case DoRealloc(ptr, size) =>
      if Shrinks(s, op) then Rounded32(size) - s.blocks[LiveIndex(H, s.blocks, ptr)].size
      else if ptr == 0 || (size > 0 && Live(s, ptr) && Rounded32(size) > s.blocks[LiveIndex(H, s.blocks, ptr)].size)
      then MallocWaste(space, s, size)
      else 0
    case DoOther(_) => 0
  }

  lemma DriftOfMalloc(space: int, s: Heap, size: Word)
    requires Inv(space, s)
    ensures Drift(Malloc(space, s, size).0) == (Drift(s) + MallocWaste(space, s, size)) % TWO_32
  {
    hide Inv, Drift, Grow, TakeAt;
    DriftInRange(s);
    if 0 < size <= MAX_ALLOC {
      var a := AlignUp(size);
      DriftOfGrow(space, s, a + H);
      InvReady(space, s, a);
      var t := Ready(space, s, a);
      if FirstFit(t.blocks, a) < |t.blocks| {
        DriftOfTake(space, t, FirstFit(t.blocks, a), a);
      }
    }
  }

  lemma DriftInRange(s: Heap)
    ensures Drift(s) % TWO_32 == Drift(s)
  {
  }

  lemma DriftOfFree(s: Heap, ptr: int)
    ensures Drift(Free(s, ptr)) == Drift(s)
  {
    if Live(s, ptr) {
      DriftOfRelease(s, LiveIndex(H, s.blocks, ptr));
    }
  }

  lemma DriftOfRealloc(space: int, s: Heap, ptr: int, size: Word)
    requires Inv(space, s)
    ensures Drift(Realloc(space, s, ptr, size).0) == (Drift(s) + CallDrift(space, s, DoRealloc(ptr, size))) % TWO_32
  {
    hide Inv, Drift, Malloc, Free, MallocWaste;
    DriftInRange(s);
    DriftOfMalloc(space, s, size);
    DriftOfFree(s, ptr);
    DriftOfFree(Malloc(space, s, size).0, ptr);
    if Live(s, ptr) && Rounded32(size) <= s.blocks[LiveIndex(H, s.blocks, ptr)].size {
      DriftOfShrink(s, LiveIndex(H, s.blocks, ptr), Rounded32(size));
    }
    FailedMallocWastesNothing(space, s, size);
  }

  lemma FailedMallocWastesNothing(space: int, s: Heap, size: Word)
    requires Inv(space, s)
    ensures Malloc(space, s, size).1 == 0 ==> MallocWaste(space, s, size) == 0
  {
    if 0 < size <= MAX_ALLOC {
      InvReady(space, s, AlignUp(size));
      TakeFirstFails(space, Ready(space, s, AlignUp(size)), AlignUp(size));
    }
  }

  lemma DriftOfCall(space: int, s: Heap, op: Call)
    requires Inv(space, s)
    ensures Drift(Step(space, s, op)) == (Drift(s) + CallDrift(space, s, op)) % TWO_32
  {
    hide Inv, Malloc, Realloc, Free, MallocWaste;
    DriftInRange(s);
    match op
    case DoMalloc(size) => DriftOfMalloc(space, s, size);
    case DoFree(ptr) => DriftOfFree(s, ptr);
    case DoRealloc(ptr, size) => DriftOfRealloc(space, s, ptr, size);
    case DoCalloc(num, size) =>
      CallocGuard(num, size);
      if num * size <= MAX_ALLOC {
        DriftOfMalloc(space, s, num * size);
      }
    case DoOther(vm) => assert Drift(s.(vm := vm)) == Drift(s);
  }

  ghost function RunDrift(space: int, s: Heap, ops: seq<Call>): int
    decreases |ops|
  {
    if ops == [] then 0 else CallDrift(space, s, ops[0]) + RunDrift(space, Step(space, s, ops[0]), ops[1..])
  }

  lemma {:induction false} DriftOfRun(space: int, s: Heap, ops: seq<Call>)
    requires Inv(space, s)
    ensures Drift(Run(space, s, ops)) == (Drift(s) + RunDrift(space, s, ops)) % TWO_32
    decreases |ops|
  {
    hide Inv, Drift, Step, CallDrift;
    DriftInRange(s);
    if ops != [] {
      DriftOfCall(space, s, ops[0]);
      InvStep(space, s, ops[0]);
      DriftOfRun(space, Step(space, s, ops[0]), ops[1..]);
      AddModulo(Drift(s), CallDrift(space, s, ops[0]), RunDrift(space, Step(space, s, ops[0]), ops[1..]));
    }
  }

  lemma AddModulo(x: int, y: int, z: int)
    ensures ((x + y) % TWO_32 + z) % TWO_32 == (x + y + z) % TWO_32
  {
  }

  /** validate_heap succeeds after a run that starts where it succeeds, if and only if what the mallocs of the run
      handed out too much and what its reallocs gave up come to the same modulo 2^32. */
  lemma RunValidates(space: int, s: Heap, ops: seq<Call>)
    requires Inv(space, s) && Validates(s)
    ensures Validates(Run(space, s, ops)) <==> RunDrift(space, s, ops) % TWO_32 == 0
  {
    hide Inv, Drift, Validates;
    NoDrift(space, s);
    DriftOfRun(space, s, ops);
    RunKeepsInv(space, s, ops);
    NoDrift(space, Run(space, s, ops));
  }

  /** One realloc that gives up part of a block makes it fail. */
  lemma ShrinkInvalidates(space: int, s: Heap, ptr: int, size: Word)
    requires Inv(space, s) && Validates(s) && Shrinks(s, DoRealloc(ptr, size))
    ensures !Validates(Realloc(space, s, ptr, size).0)
  {
    hide Drift, Validates, Realloc;
    TilesOrder(H, s.blocks, HEAP_START, s.brk);
    NoDrift(space, s);
    DriftOfRealloc(space, s, ptr, size);
    InvRealloc(space, s, ptr, size);
    NoDrift(space, Realloc(space, s, ptr, size).0);
  }

  /** A new heap validates; after malloc(8192) and realloc of the result to one byte it does not. */
  lemma ValidateFails(space: int, vm: M.Vm)
    requires INITIAL_SIZE / FRAME_SIZE <= |vm.frames|
    ensures var s := Initial(space, vm);
      var t := Malloc(space, s, 8192).0;
      && Validates(s) && Malloc(space, s, 8192).1 == HEAP_START + H
      && !Validates(Realloc(space, t, HEAP_START + H, 1).0)
  {
    var s := Initial(space, vm);
    InvInitial(space, vm);
    SumOne(s.blocks[0], UsedSize());
    assert FirstFit(s.blocks, 8192) == 0 && Splits(H, s.blocks[0], 8192);
    var t := Malloc(space, s, 8192).0;
    InvMalloc(space, s, 8192);
    NoDrift(space, s);
    DriftOfMalloc(space, s, 8192);
    NoDrift(space, t);
    assert t.blocks[0] == Block(HEAP_START, 8192, false);
    assert Rounded32(1) == FRAME_SIZE;
    ShrinkInvalidates(space, t, HEAP_START + H, 1);
  }
}
