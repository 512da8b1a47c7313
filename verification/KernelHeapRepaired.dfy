/** The kernel heap with its statistics kept as they are meant to be: headers counted with the other sign, and malloc
    charging the size of the block. The lists of blocks are those of the code, and validate_heap then always succeeds. */
module KernelHeapRepaired {
  import opened Words
  import opened Blocks
  import S = KernelHeapSpec
  import P = KernelHeapProperties

  type Heap = S.Heap
  const H: int := S.H

  function Merged(s: Heap, i: int): Heap {
    s.(blocks := MergeIfJoins(H, s.blocks, i), free := if JoinsNext(H, s.blocks, i) then S.Wrap(s.free + H) else s.free)
  }

  function Coalesced(s: Heap, i: nat): Heap
    requires i < |s.blocks|
  {
    Merged(Merged(s, i), i - 1)
  }

  function Grow(s: Heap, start: int, len: int): Heap {
    Coalesced(S.Appended(s, start, len), |s.blocks|)
  }

  function SplitAt(s: Heap, i: nat, size: int): Heap
    requires i < |s.blocks|
  {
    s.(blocks := Split(H, s.blocks, i, size), free := if Splits(H, s.blocks[i], size) then S.Wrap(s.free - H) else s.free)
  }

  function TakeAt(s: Heap, i: nat, size: int): (r: Heap)
    requires i < |s.blocks|
    ensures r.blocks == Allocate(H, s.blocks, i, size)
  {
    var t := SplitAt(s, i, size);
    var n := if Splits(H, s.blocks[i], size) then size else s.blocks[i].size;
    t.(blocks := SetFree(t.blocks, i, false), charged := S.Wrap(t.charged + n), free := S.Wrap(t.free - n),
       allocs := S.Wrap(t.allocs + 1))
  }

  function ReleaseAt(s: Heap, i: nat): (r: Heap)
    requires i < |s.blocks|
    ensures r.blocks == Release(H, s.blocks, i)
  {
    var n := s.blocks[i].size;
    Coalesced(s.(blocks := SetFree(s.blocks, i, true), charged := S.Wrap(s.charged - n), free := S.Wrap(s.free + n),
                 frees := S.Wrap(s.frees + 1)), i)
  }

  function Ready(s: Heap, size: Word, grant: S.Grant): Heap
    requires size + H < TWO_64
  {
    if FirstFit(s.blocks, size) < |s.blocks| || grant.Refused? then s else Grow(s, grant.start, AlignUp(size + H))
  }

  function TakeFirst(s: Heap, size: int): (Heap, int) {
    var i := FirstFit(s.blocks, size);
    if i < |s.blocks| then (TakeAt(s, i, size), s.blocks[i].Data(H)) else (s, 0)
  }

  function Malloc(s: Heap, size: Word, grant: S.Grant): (Heap, int) {
    S.RoundedBelow(size);
    if size == 0 then (s, 0) else TakeFirst(Ready(s, AlignUp(size), grant), AlignUp(size))
  }

  function Free(s: Heap, ptr: int): Heap {
    if S.Live(s, ptr) then ReleaseAt(s, LiveIndex(H, s.blocks, ptr)) else s
  }

  function Shrink(s: Heap, i: nat, size: int): Heap
    requires i < |s.blocks|
  {
    var n := s.blocks[i].size;
    if n > size + H + MIN_DATA then
      var t := SplitAt(s, i, size);
      t.(charged := S.Wrap(t.charged - (n - size)), free := S.Wrap(t.free + (n - size)))
    else s
  }

  function Realloc(s: Heap, ptr: int, size: Word, grant: S.Grant): (Heap, int) {
    if ptr == 0 then Malloc(s, size, grant)
    else if size == 0 then (Free(s, ptr), 0)
    else if !S.Live(s, ptr) then (s, 0)
    else
      var i := LiveIndex(H, s.blocks, ptr);
      if AlignUp(size) <= s.blocks[i].size then (Shrink(s, i, AlignUp(size)), ptr)
      else
        var (m, p) := Malloc(s, AlignUp(size), grant);
        if p == 0 then (m, 0) else (Free(m, ptr), p)
  }

  function Step(s: Heap, c: S.Call): Heap {
    match c
    case DoMalloc(size, grant) => Malloc(s, size, grant).0
    case DoFree(ptr) => Free(s, ptr)
    case DoRealloc(ptr, size, grant) => Realloc(s, ptr, size, grant).0
    case DoCalloc(num, size, grant) =>
      if S.Product(num, size) < TWO_64 then Malloc(s, S.Product(num, size), grant).0 else s
  }

  function Run(s: Heap, cs: seq<S.Call>): Heap
    decreases |cs|
  {
    if cs == [] then s else Run(Step(s, cs[0]), cs[1..])
  }

  // ----- the blocks are those of the code -----

  lemma SameMalloc(s: Heap, t: Heap, size: Word, grant: S.Grant)
    requires s.blocks == t.blocks
    ensures Malloc(s, size, grant).0.blocks == S.Malloc(t, size, grant).0.blocks
    ensures Malloc(s, size, grant).1 == S.Malloc(t, size, grant).1
  {
  }

  lemma SameFree(s: Heap, t: Heap, ptr: int)
    requires s.blocks == t.blocks
    ensures Free(s, ptr).blocks == S.Free(t, ptr).blocks
  {
  }

  lemma SameBlocks(s: Heap, t: Heap, c: S.Call)
    requires s.blocks == t.blocks && S.Allowed(t, c)
    ensures Step(s, c).blocks == S.Step(t, c).blocks
  {
    hide Malloc, S.Malloc, Free, S.Free;
    match c
    case DoMalloc(size, grant) => SameMalloc(s, t, size, grant);
    case DoFree(ptr) => SameFree(s, t, ptr);
    case DoRealloc(ptr, size, grant) =>
      SameMalloc(s, t, size, grant);
      SameMalloc(s, t, AlignUp(size), grant);
      SameFree(s, t, ptr);
      SameFree(Malloc(s, AlignUp(size), grant).0, S.Malloc(t, AlignUp(size), grant).0, ptr);
    case DoCalloc(num, size, grant) =>
      if S.Product(num, size) < TWO_64 {
        SameMalloc(s, t, S.Product(num, size), grant);
      }
  }

  // ----- the statistics are always right -----

  /** Both statistics follow the sums over the list. */
  lemma Statistics(s: Heap, r: Heap, u: int, f: int)
    requires P.Validates(s)
    requires Sum(r.blocks, UsedSize()) == Sum(s.blocks, UsedSize()) + u && r.charged == S.Wrap(s.charged + u)
    requires Sum(r.blocks, FreeSize()) == Sum(s.blocks, FreeSize()) + f && r.free == S.Wrap(s.free + f)
    ensures P.Validates(r)
  {
    S.WrapSum(Sum(s.blocks, UsedSize()), u);
    S.WrapSum(Sum(s.blocks, FreeSize()), f);
  }

  lemma MergedValidates(s: Heap, i: int)
    requires P.Validates(s)
    ensures P.Validates(Merged(s, i))
  {
    if JoinsNext(H, s.blocks, i) {
      SumOfMerge(H, s.blocks, i, UsedSize());
      SumOfMerge(H, s.blocks, i, FreeSize());
      S.WrapSmall(s.charged);
      Statistics(s, Merged(s, i), 0, H);
    }
  }

  lemma CoalescedValidates(s: Heap, i: nat)
    requires P.Validates(s) && i < |s.blocks|
    ensures P.Validates(Coalesced(s, i))
  {
    MergedValidates(s, i);
    MergedValidates(Merged(s, i), i - 1);
  }

  lemma GrowValidates(s: Heap, start: int, len: int)
    requires P.Validates(s)
    ensures P.Validates(Grow(s, start, len))
  {
    var b := Block(start, len - H, true);
    S.SumOfAppend(s.blocks, b, UsedSize());
    S.SumOfAppend(s.blocks, b, FreeSize());
    S.WrapSmall(s.charged);
    Statistics(s, S.Appended(s, start, len), 0, len - H);
    CoalescedValidates(S.Appended(s, start, len), |s.blocks|);
  }

  lemma TakeValidates(s: Heap, i: nat, size: int)
    requires P.Validates(s) && i < |s.blocks| && Fits(s.blocks[i], size)
    ensures P.Validates(TakeAt(s, i, size))
  {
    var t := Split(H, s.blocks, i, size);
    if Splits(H, s.blocks[i], size) {
      SumOfSplit(H, s.blocks, i, size, UsedSize());
      SumOfSplit(H, s.blocks, i, size, FreeSize());
    }
    SumOfUpdate(t, i, t[i].(free := false), UsedSize());
    SumOfUpdate(t, i, t[i].(free := false), FreeSize());
    var n := t[i].size;
    S.WrapSum(s.free - H, 0 - n);
    Statistics(s, TakeAt(s, i, size), n, -n - if Splits(H, s.blocks[i], size) then H else 0);
  }

  lemma ReleaseValidates(s: Heap, i: nat)
    requires P.Validates(s) && i < |s.blocks| && !s.blocks[i].free
    ensures P.Validates(ReleaseAt(s, i))
  {
    var n := s.blocks[i].size;
    var t := s.(blocks := SetFree(s.blocks, i, true), charged := S.Wrap(s.charged - n), free := S.Wrap(s.free + n),
                frees := S.Wrap(s.frees + 1));
    SumOfUpdate(s.blocks, i, s.blocks[i].(free := true), UsedSize());
    SumOfUpdate(s.blocks, i, s.blocks[i].(free := true), FreeSize());
    Statistics(s, t, -n, n);
    CoalescedValidates(t, i);
  }

  lemma ShrinkValidates(s: Heap, i: nat, size: int)
    requires P.Validates(s) && i < |s.blocks| && !s.blocks[i].free
    ensures P.Validates(Shrink(s, i, size))
  {
    var n := s.blocks[i].size;
    if n > size + H + MIN_DATA {
      SumOfSplit(H, s.blocks, i, size, UsedSize());
      SumOfSplit(H, s.blocks, i, size, FreeSize());
      S.WrapSum(s.free - H, n - size);
      Statistics(s, Shrink(s, i, size), size - n, n - size - H);
    }
  }

  lemma MallocValidates(s: Heap, size: Word, grant: S.Grant)
    requires P.Validates(s)
    ensures P.Validates(Malloc(s, size, grant).0)
  {
    hide P.Validates, Grow, TakeAt;
    S.RoundedBelow(size);
    if size != 0 {
      var a := AlignUp(size);
      if grant.Granted? {
        GrowValidates(s, grant.start, AlignUp(a + H));
      }
      var t := Ready(s, a, grant);
      if FirstFit(t.blocks, a) < |t.blocks| {
        TakeValidates(t, FirstFit(t.blocks, a), a);
      }
    }
  }

  lemma FreeValidates(s: Heap, ptr: int)
    requires P.Validates(s)
    ensures P.Validates(Free(s, ptr))
  {
    if S.Live(s, ptr) {
      ReleaseValidates(s, LiveIndex(H, s.blocks, ptr));
    }
  }

  lemma StepValidates(s: Heap, c: S.Call)
    requires P.Validates(s)
    ensures P.Validates(Step(s, c))
  {
    hide P.Validates, Malloc, Free, Shrink;
    match c
    case DoMalloc(size, grant) => MallocValidates(s, size, grant);
    case DoFree(ptr) => FreeValidates(s, ptr);
    case DoRealloc(ptr, size, grant) =>
      MallocValidates(s, size, grant);
      MallocValidates(s, AlignUp(size), grant);
      FreeValidates(s, ptr);
      FreeValidates(Malloc(s, AlignUp(size), grant).0, ptr);
      if S.Live(s, ptr) {
        ShrinkValidates(s, LiveIndex(H, s.blocks, ptr), AlignUp(size));
      }
    case DoCalloc(num, size, grant) =>
      if S.Product(num, size) < TWO_64 {
        MallocValidates(s, S.Product(num, size), grant);
      }
  }

  /** Started on the same blocks, the repaired heap has after every run the blocks the code has, and validates. */
  lemma {:induction false} RunValidates(s: Heap, t: Heap, cs: seq<S.Call>)
    requires P.Validates(s) && s.blocks == t.blocks && S.AllAllowed(t, cs)
    ensures P.Validates(Run(s, cs)) && Run(s, cs).blocks == S.Run(t, cs).blocks
    decreases |cs|
  {
    hide P.Validates, Step, S.Step, S.Allowed;
    if cs != [] {
      StepValidates(s, cs[0]);
      SameBlocks(s, t, cs[0]);
      RunValidates(Step(s, cs[0]), S.Step(t, cs[0]), cs[1..]);
    }
  }
}
