/** What virtual.cpp does to its list of free regions, and why that list stands for a set of free addresses. */
module Regions {
  import opened Words

  const VADDR_SIZE: int := 0x40_0000_0000  // 256 GiB

  /** A node of the free list; size zero marks it as deleted. */
  datatype Region = Region(start: int, size: int) {
    function End(): int { start + size }
    predicate Has(a: int) { start <= a < End() }
  }

  function Weight(r: Region, a: int): nat {
    if r.Has(a) then 1 else 0
  }

  /** How many regions of the list hold address a. */
  function Count(rs: seq<Region>, a: int): nat {
    if rs == [] then 0 else Weight(rs[0], a) + Count(rs[1..], a)
  }

  lemma {:induction false} CountConcat(x: seq<Region>, y: seq<Region>, a: int)
    ensures Count(x + y, a) == Count(x, a) + Count(y, a)
  {
    if x == [] {
      assert x + y == y;
    } else {
      assert (x + y)[1..] == x[1..] + y;
      CountConcat(x[1..], y, a);
    }
  }

  lemma CountSplit(rs: seq<Region>, i: nat, a: int)
    requires i < |rs|
    ensures Count(rs, a) == Count(rs[..i], a) + Weight(rs[i], a) + Count(rs[i + 1..], a)
  {
    assert rs == rs[..i] + rs[i..] && rs[i..][1..] == rs[i + 1..];
    CountConcat(rs[..i], rs[i..], a);
  }

  lemma CountUpdate(rs: seq<Region>, i: nat, r: Region, a: int)
    requires i < |rs|
    ensures Count(rs[i := r], a) == Count(rs, a) - Weight(rs[i], a) + Weight(r, a)
  {
    CountSplit(rs, i, a);
    CountSplit(rs[i := r], i, a);
    assert rs[i := r][..i] == rs[..i] && rs[i := r][i + 1..] == rs[i + 1..];
  }

  lemma CountRemove(rs: seq<Region>, i: nat, a: int)
    requires i < |rs|
    ensures Count(rs[..i] + rs[i + 1..], a) == Count(rs, a) - Weight(rs[i], a)
  {
    CountSplit(rs, i, a);
    CountConcat(rs[..i], rs[i + 1..], a);
  }

  lemma {:induction false} CountAtLeast(rs: seq<Region>, i: nat, a: int)
    requires i < |rs|
    ensures Count(rs, a) >= Weight(rs[i], a)
  {
    CountSplit(rs, i, a);
  }

  /** Two different regions that hold a are counted twice. */
  lemma CountTwo(rs: seq<Region>, i: nat, j: nat, a: int)
    requires i < j < |rs|
    ensures Count(rs, a) >= Weight(rs[i], a) + Weight(rs[j], a)
  {
    CountSplit(rs, i, a);
    CountAtLeast(rs[i + 1..], j - i - 1, a);
  }

  // ----- alloc -----

  predicate Serves(r: Region, len: int) {
    r.size != 0 && r.size >= len
  }

  function FirstServing(rs: seq<Region>, len: int): (i: nat)
    ensures i <= |rs| && (i < |rs| ==> Serves(rs[i], len))
    ensures forall j :: 0 <= j < i ==> !Serves(rs[j], len)
  {
    if rs == [] || Serves(rs[0], len) then 0 else 1 + FirstServing(rs[1..], len)
  }

  lemma FirstServingStep(rs: seq<Region>, len: int, i: nat)
    requires i < |rs|
    ensures FirstServing(rs[i..], len) == if Serves(rs[i], len) then 0 else 1 + FirstServing(rs[i + 1..], len)
  {
    assert rs[i..][0] == rs[i] && rs[i..][1..] == rs[i + 1..];
  }

  lemma FirstTouchingStep(rs: seq<Region>, start: int, end: int, i: nat)
    requires i < |rs|
    ensures FirstTouching(rs[i..], start, end) ==
      if Touches(rs[i], start, end) then 0 else 1 + FirstTouching(rs[i + 1..], start, end)
  {
    assert rs[i..][0] == rs[i] && rs[i..][1..] == rs[i + 1..];
  }

  /** What is left of a region when len bytes are taken from its start; the start of a used up region stays. */
  function Rest(r: Region, len: int): Region {
    if r.size == len then r.(size := 0) else Region(r.start + len, r.size - len)
  }

  // ----- free -----

  /** The index of the first region that [start, end) touches, or |rs|. */
  function FirstTouching(rs: seq<Region>, start: int, end: int): (i: nat)
    ensures i <= |rs| && (i < |rs| ==> Touches(rs[i], start, end))
    ensures forall j :: 0 <= j < i ==> !Touches(rs[j], start, end)
  {
    if rs == [] || Touches(rs[0], start, end) then 0 else 1 + FirstTouching(rs[1..], start, end)
  }

  predicate Touches(r: Region, start: int, end: int) {
    r.size != 0 && (end == r.start || r.End() == start)
  }

  /** The index of the first other region that starts at end, or |rs|. */
  function FirstFrom(rs: seq<Region>, i: nat, end: int): (j: nat)
    ensures j <= |rs| && (j < |rs| ==> StartsAt(rs, i, end, j))
    ensures forall k :: 0 <= k < j ==> !StartsAt(rs, i, end, k)
  {
    FirstFromAt(rs, i, end, 0)
  }

  predicate StartsAt(rs: seq<Region>, i: nat, end: int, j: nat)
    requires j < |rs|
  {
    j != i && rs[j].size != 0 && rs[j].start == end
  }

  function FirstFromAt(rs: seq<Region>, i: nat, end: int, k: nat): (j: nat)
    requires k <= |rs|
    ensures k <= j <= |rs| && (j < |rs| ==> StartsAt(rs, i, end, j))
    ensures forall l :: k <= l < j ==> !StartsAt(rs, i, end, l)
    decreases |rs| - k
  {
    if k == |rs| || StartsAt(rs, i, end, k) then k else FirstFromAt(rs, i, end, k + 1)
  }

  /** Grows region i by len at its end, and by the region that then follows it, if there is one. */
  function ExtendUp(rs: seq<Region>, i: nat, len: int): seq<Region>
    requires i < |rs|
  {
    var r := rs[i].(size := rs[i].size + len);
    var j := FirstFrom(rs, i, r.End());
    if j < |rs| then rs[i := r.(size := r.size + rs[j].size)][j := rs[j].(size := 0)] else rs[i := r]
  }

  /** Resizing region i itself does not change which other region starts at end. */
  lemma FirstFromUpdate(rs: seq<Region>, i: nat, r: Region, end: int)
    requires i < |rs|
    ensures FirstFrom(rs[i := r], i, end) == FirstFrom(rs, i, end)
  {
    var j, k := FirstFrom(rs, i, end), FirstFrom(rs[i := r], i, end);
    assert j < |rs| ==> StartsAt(rs[i := r], i, end, j);
    assert k < |rs| ==> StartsAt(rs, i, end, k);
  }

  /** free of the rounded range [start, start + len). */
  function Freed(rs: seq<Region>, start: int, len: int): seq<Region> {
    var i := FirstTouching(rs, start, start + len);
    if i == |rs| then rs + [Region(start, len)]
    else if start + len == rs[i].start then rs[i := Region(start, rs[i].size + len)]
    else ExtendUp(rs, i, len)
  }

  // ----- the list as a set of free addresses -----

  /** No address is in two regions, and the live regions consist of whole pages of the address space. */
  ghost predicate Inv(rs: seq<Region>) {
    && (forall r :: r in rs ==> 0 <= r.start && 0 <= r.size && r.End() <= VADDR_SIZE)
    && (forall r :: r in rs ==> r.start % FRAME_SIZE == 0 && r.size % FRAME_SIZE == 0)
    && (forall a :: Count(rs, a) <= 1)
  }

  lemma InBounds(rs: seq<Region>, i: nat)
    requires Inv(rs) && i < |rs|
    ensures 0 <= rs[i].start && 0 <= rs[i].size && rs[i].End() <= VADDR_SIZE
  {
    assert rs[i] in rs;
  }

  ghost predicate IsFree(rs: seq<Region>, a: int) {
    Count(rs, a) > 0
  }

  lemma LiveRegionsDisjoint(rs: seq<Region>, i: nat, j: nat, a: int)
    requires Inv(rs) && i < j < |rs|
    ensures !(rs[i].Has(a) && rs[j].Has(a))
  {
    CountTwo(rs, i, j, a);
    assert Count(rs, a) <= 1;
  }

  /** alloc takes exactly the addresses of the range it returns, all of which were free. */
  lemma AllocTakes(rs: seq<Region>, len: int)
    requires Inv(rs) && len >= 0 && len % FRAME_SIZE == 0 && FirstServing(rs, len) < |rs|
    ensures var i := FirstServing(rs, len);
      var rs' := rs[i := Rest(rs[i], len)];
      var got := Region(rs[i].start, len);
      && Inv(rs') && got.start % FRAME_SIZE == 0 && 0 <= got.start && got.End() <= VADDR_SIZE
      && forall a :: Count(rs', a) + Weight(got, a) == Count(rs, a)
  {
    var i := FirstServing(rs, len);
    var rs' := rs[i := Rest(rs[i], len)];
    var got := Region(rs[i].start, len);
    assert rs[i] in rs;
    PagesAdd(rs[i].start, len);
    PagesSubtract(rs[i].size, len);
    forall a
      ensures Count(rs', a) + Weight(got, a) == Count(rs, a)
    {
      CountUpdate(rs, i, Rest(rs[i], len), a);
    }
    assert forall r :: r in rs' ==> r in rs || r == Rest(rs[i], len);
    assert forall a :: Count(rs', a) <= Count(rs, a);
  }

  lemma PagesSubtract(a: int, b: int)
    requires a % FRAME_SIZE == 0 && b % FRAME_SIZE == 0
    ensures (a - b) % FRAME_SIZE == 0
  {
    PagesAdd(a - b, b);
  }

  /** Whichever way the freed range is merged, exactly its addresses are added. */
  lemma FreedCount(rs: seq<Region>, start: int, len: int, a: int)
    requires len >= 0 && forall r :: r in rs ==> 0 <= r.size
    ensures Count(Freed(rs, start, len), a) == Count(rs, a) + Weight(Region(start, len), a)
  {
    var i := FirstTouching(rs, start, start + len);
    if i == |rs| {
      CountConcat(rs, [Region(start, len)], a);
      assert [Region(start, len)][1..] == [];
    } else {
      assert rs[i] in rs;
      if start + len == rs[i].start {
        CountUpdate(rs, i, Region(start, rs[i].size + len), a);
      } else {
        ExtendUpCount(rs, i, len, a);
      }
    }
  }

  lemma ExtendUpCount(rs: seq<Region>, i: nat, len: int, a: int)
    requires i < |rs| && len >= 0 && rs[i].size >= 0 && forall r :: r in rs ==> 0 <= r.size
    ensures Count(ExtendUp(rs, i, len), a) == Count(rs, a) + Weight(Region(rs[i].End(), len), a)
  {
    var r := rs[i].(size := rs[i].size + len);
    var j := FirstFrom(rs, i, r.End());
    if j < |rs| {
      var u := r.(size := r.size + rs[j].size);
      assert rs[j] in rs;
      CountUpdate(rs, i, u, a);
      CountUpdate(rs[i := u], j, rs[j].(size := 0), a);
    } else {
      CountUpdate(rs, i, r, a);
    }
  }

  /** free of a range of whole pages none of which is free adds exactly that range. */
  lemma FreeAdds(rs: seq<Region>, start: int, len: int)
    requires Inv(rs) && 0 <= start && 0 <= len && start + len <= VADDR_SIZE
    requires start % FRAME_SIZE == 0 && len % FRAME_SIZE == 0
    requires forall a :: start <= a < start + len ==> !IsFree(rs, a)
    ensures Inv(Freed(rs, start, len))
    ensures forall a :: Count(Freed(rs, start, len), a) == Count(rs, a) + Weight(Region(start, len), a)
  {
    var rs' := Freed(rs, start, len);
    forall a
      ensures Count(rs', a) == Count(rs, a) + Weight(Region(start, len), a) && Count(rs', a) <= 1
    {
      FreedCount(rs, start, len, a);
      assert Count(rs, a) <= 1 && (Region(start, len).Has(a) ==> !IsFree(rs, a));
    }
    FreedShape(rs, start, len);
  }

  ghost predicate WholePages(r: Region) {
    0 <= r.start && 0 <= r.size && r.End() <= VADDR_SIZE && r.start % FRAME_SIZE == 0 && r.size % FRAME_SIZE == 0
  }

  lemma Joined(r: Region, len: int)
    requires WholePages(r) && len >= 0 && len % FRAME_SIZE == 0 && r.End() + len <= VADDR_SIZE
    ensures WholePages(r.(size := r.size + len))
  {
    PagesAdd(r.size, len);
  }

  lemma FreedShape(rs: seq<Region>, start: int, len: int)
    requires Inv(rs) && WholePages(Region(start, len))
    ensures forall r :: r in Freed(rs, start, len) ==> WholePages(r)
  {
    var i := FirstTouching(rs, start, start + len);
    assert forall r :: r in rs ==> WholePages(r);
    if i < |rs| {
      assert rs[i] in rs;
      if start + len == rs[i].start {
        Joined(Region(start, len), rs[i].size);
      } else {
        Joined(rs[i], len);
        var r := rs[i].(size := rs[i].size + len);
        var j := FirstFrom(rs, i, r.End());
        if j < |rs| {
          assert rs[j] in rs;
          Joined(r, rs[j].size);
        }
      }
    }
  }

  // ----- runs -----

  /** What a client does: ask for size bytes, or return the k-th range it holds. */
  datatype Op = Take(size: Word) | Return(k: nat)

  /** The free list, and the ranges handed out. */
  datatype Space = Space(free: seq<Region>, held: seq<Region>)

  function Step(s: Space, op: Op): Space {
    match op
    case Take(size) =>
      var i := FirstServing(s.free, AlignUp(size));
      if i == |s.free| then s
      else Space(s.free[i := Rest(s.free[i], AlignUp(size))], s.held + [Region(s.free[i].start, AlignUp(size))])
    case Return(k) =>
      if k >= |s.held| then s
      else Space(Freed(s.free, s.held[k].start, s.held[k].size), s.held[..k] + s.held[k + 1..])
  }

  function Run(s: Space, ops: seq<Op>): Space
    decreases |ops|
  {
    if ops == [] then s else Run(Step(s, ops[0]), ops[1..])
  }

  /** Every address of the space is either free or in exactly one range handed out. */
  ghost predicate Conserves(s: Space) {
    && Inv(s.free)
    && (forall r :: r in s.held ==> 0 <= r.start && 0 <= r.size && r.End() <= VADDR_SIZE)
    && (forall r :: r in s.held ==> r.start % FRAME_SIZE == 0 && r.size % FRAME_SIZE == 0)
    && (forall a :: Count(s.free, a) + Count(s.held, a) == if 0 <= a < VADDR_SIZE then 1 else 0)
  }

  lemma TakeConserves(s: Space, size: Word)
    requires Conserves(s)
    ensures Conserves(Step(s, Take(size)))
  {
    var i := FirstServing(s.free, AlignUp(size));
    if i < |s.free| {
      AllocTakes(s.free, AlignUp(size));
      var got := Region(s.free[i].start, AlignUp(size));
      var t := Step(s, Take(size));
      forall a
        ensures Count(t.free, a) + Count(t.held, a) == if 0 <= a < VADDR_SIZE then 1 else 0
      {
        CountConcat(s.held, [got], a);
        assert [got][1..] == [];
        assert Count(s.free, a) + Count(s.held, a) == if 0 <= a < VADDR_SIZE then 1 else 0;
      }
      assert forall r :: r in t.held ==> r in s.held || r == got;
    }
  }

  lemma ReturnConserves(s: Space, k: nat)
    requires Conserves(s)
    ensures Conserves(Step(s, Return(k)))
  {
    if k < |s.held| {
      var r := s.held[k];
      assert r in s.held;
      forall a | r.Has(a)
        ensures !IsFree(s.free, a)
      {
        CountAtLeast(s.held, k, a);
        assert Count(s.free, a) + Count(s.held, a) <= 1;
      }
      FreeAdds(s.free, r.start, r.size);
      var t := Step(s, Return(k));
      forall a
        ensures Count(t.free, a) + Count(t.held, a) == if 0 <= a < VADDR_SIZE then 1 else 0
      {
        CountRemove(s.held, k, a);
        assert Count(s.free, a) + Count(s.held, a) == if 0 <= a < VADDR_SIZE then 1 else 0;
      }
      assert forall x :: x in t.held ==> x in s.held;
    }
  }

  /** Over every run of a client that returns only what it got, the free addresses and those handed out partition the
      256 GiB of the space. */
  lemma {:induction false} RunConserves(s: Space, ops: seq<Op>)
    requires Conserves(s)
    ensures Conserves(Run(s, ops))
    decreases |ops|
  {
    if ops != [] {
      match ops[0] {
        case Take(size) => TakeConserves(s, size);
        case Return(k) => ReturnConserves(s, k);
      }
      RunConserves(Step(s, ops[0]), ops[1..]);
    }
  }

  const WHOLE: Region := Region(0, VADDR_SIZE)

  lemma InitialConserves()
    ensures Conserves(Space([WHOLE], [])) && Inv([WHOLE])
  {
    assert [WHOLE][1..] == [];
    assert forall a :: Count([WHOLE], a) == Weight(WHOLE, a);
  }

  // ----- what a caller of alloc sees -----

  /** alloc: the regions afterwards, and the address returned. */
  function Alloc(rs: seq<Region>, size: Word): (seq<Region>, int) {
    var i := FirstServing(rs, AlignUp(size));
    if i == |rs| then (rs, 0) else (rs[i := Rest(rs[i], AlignUp(size))], rs[i].start)
  }

  /** alloc returns null exactly if no region serves, or if the one that does starts at null: its range is then
      taken all the same. */
  lemma AllocNull(rs: seq<Region>, size: Word)
    requires Inv(rs)
    ensures var (rs', addr) := Alloc(rs, size);
      addr == 0 <==> (forall r :: r in rs ==> !Serves(r, AlignUp(size))) || rs[FirstServing(rs, AlignUp(size))].start == 0
  {
    var i := FirstServing(rs, AlignUp(size));
    if i < |rs| {
      assert rs[i] in rs;
    }
  }

  /** Otherwise all bytes asked for were free and no longer are, if and only if rounding their number up did not wrap. */
  lemma AllocCovers(rs: seq<Region>, size: Word)
    requires Inv(rs) && Alloc(rs, size).1 != 0
    ensures var (rs', addr) := Alloc(rs, size);
      (forall a :: addr <= a < addr + size ==> IsFree(rs, a) && !IsFree(rs', a)) <==> size <= TWO_64 - FRAME_SIZE
  {
    var (rs', addr) := Alloc(rs, size);
    var len := AlignUp(size);
    AllocTakes(rs, len);
    forall a
      ensures addr <= a < addr + len ==> IsFree(rs, a) && !IsFree(rs', a)
      ensures a >= VADDR_SIZE ==> !IsFree(rs, a)
    {
      assert Count(rs', a) + Weight(Region(addr, len), a) == Count(rs, a) <= 1;
      OutOfSpace(rs, a);
    }
    if size > TWO_64 - FRAME_SIZE {
      assert !IsFree(rs, addr + size - 1);
    }
  }

  lemma {:induction false} OutOfSpace(rs: seq<Region>, a: int)
    requires forall r :: r in rs ==> r.End() <= VADDR_SIZE
    ensures a >= VADDR_SIZE ==> Count(rs, a) == 0
  {
    if rs != [] {
      assert rs[0] in rs;
      OutOfSpace(rs[1..], a);
    }
  }

  /** The very first alloc of a new space returns null, and its range is lost. */
  lemma FirstAllocIsNull(size: Word)
    requires size <= VADDR_SIZE
    ensures var (rs, addr) := Alloc([WHOLE], size);
      addr == 0 && forall a :: 0 <= a < AlignUp(size) ==> !IsFree(rs, a)
  {
    InitialConserves();
    AllocTakes([WHOLE], AlignUp(size));
    var (rs, addr) := Alloc([WHOLE], size);
    forall a | 0 <= a < AlignUp(size)
      ensures !IsFree(rs, a)
    {
      assert Count(rs, a) + Weight(Region(0, AlignUp(size)), a) == Count([WHOLE], a) <= 1;
    }
  }
}
