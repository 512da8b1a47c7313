/** pagetable.cpp: extending the 8 MiB mapped by the boot code to a linear map of the first gibibyte. */
module KernelMapping {
  import opened Words
  import opened Placement
  import opened PageTree
  import T = Translation
  import M = PageMapping

  const GIB: int := 0x4000_0000

  /** The first n entries of the PDE table of page b + 2: the page tables that follow it, in order. */
  ghost predicate TablesListed(ws: seq<Word>, b: int, n: int) {
    && 0 <= Index(b + 2, 0) && Index(b + 2, n) <= |ws|
    && forall a :: Index(b + 2, 0) <= a < Index(b + 2, n) ==> ws[a] == FRAME_SIZE * (b + 3 + a - Index(b + 2, 0)) + 3
  }

  /** The first n words of these page tables, which lie one behind the other: frame after frame. */
  ghost predicate FramesListed(ws: seq<Word>, b: int, n: int) {
    && 0 <= Index(b + 3, 0) && Index(b + 3, n) <= |ws|
    && forall a :: Index(b + 3, 0) <= a < Index(b + 3, n) ==> ws[a] == FRAME_SIZE * (a - Index(b + 3, 0)) + 7
  }

  /** The top two tables, of pages b and b + 1: each has one entry, for the next. */
  ghost predicate TopTables(ws: seq<Word>, b: int) {
    && 0 <= Index(b, 0) && Index(b + 2, 0) <= |ws|
    && (forall a :: Index(b, 0) <= a < Index(b + 1, 0) ==>
          ws[a] == if a == Index(b, 511) then FRAME_SIZE * (b + 1) + 3 else 0)
    && (forall a :: Index(b + 1, 0) <= a < Index(b + 2, 0) ==>
          ws[a] == if a == Index(b + 1, 510) then FRAME_SIZE * (b + 2) + 3 else 0)
  }

  /** The tables that boot.S leaves: 8 MiB in four page tables. All 515 pages lie in those 8 MiB, where they can be
      written. */
  ghost predicate BootTables(ws: seq<Word>, b: int) {
    && |ws| == GIB_WORDS && b + 515 <= 2048
    && TopTables(ws, b) && TablesListed(ws, b, 4) && FramesListed(ws, b, 4 * 512)
  }

  /** The same for 1 GiB. */
  ghost predicate KernelTables(ws: seq<Word>, b: int) {
    && |ws| == GIB_WORDS && b + 515 <= 2048
    && TopTables(ws, b) && TablesListed(ws, b, 512) && FramesListed(ws, b, 512 * 512)
  }

  /** Tables done, of which the first i are listed and n frames are. */
  ghost predicate Progress(ws: seq<Word>, b: int, i: int, n: int) {
    && |ws| == GIB_WORDS && b + 515 <= 2048
    && TopTables(ws, b) && TablesListed(ws, b, i) && FramesListed(ws, b, n)
  }

  /** Words outside the entries and tables to be added are as they were. */
  ghost predicate Untouched(ws: seq<Word>, ws': seq<Word>, b: int) {
    && |ws'| == |ws|
    && forall a :: 0 <= a < |ws| && !(Index(b + 2, 4) <= a < Index(b + 515, 0)) ==> ws'[a] == ws[a]
  }

  lemma ListTable(ws: seq<Word>, b: int, i: int)
    requires Progress(ws, b, i, 512 * i) && 4 <= i < 512
    ensures 0 <= Index(b + 2, i - 1) && Index(b + 2, i) < |ws|
    ensures ws[Index(b + 2, i - 1)] == FRAME_SIZE * (b + 3 + i - 1) + 3
    ensures Progress(ws[Index(b + 2, i) := FRAME_SIZE * (b + 3 + i) + 3], b, i + 1, 512 * i)
  {
  }

  lemma ListFrame(ws: seq<Word>, b: int, i: int, j: int)
    requires Progress(ws, b, i + 1, 512 * i + j) && 4 <= i < 512 && 0 <= j < 512
    ensures 0 <= Index(b + 3 + i, j) < |ws|
    ensures Progress(ws[Index(b + 3 + i, j) := FRAME_SIZE * (512 * i + j) + 7], b, i + 1, 512 * i + j + 1)
  {
  }

  /** map_kernel_memory, with the physical address of the directory in force. */
  method MapKernelMemory(words: array<Word>, dir: Word)
    requires BootTables(words[..], PageOf(dir))
    modifies words
    ensures KernelTables(words[..], PageOf(dir)) && Untouched(old(words[..]), words[..], PageOf(dir))
  {
    ghost var b := PageOf(dir);
    var pde, paddr := FindTables(words, dir);
    hide TopTables, TablesListed, FramesListed;
    var i := 4;
    while i < 512
      invariant 4 <= i <= 512 && Progress(words[..], b, i, 512 * i)
      invariant paddr == FRAME_SIZE * (512 * i - 1) + 7
      invariant Untouched(old(words[..]), words[..], b)
    {
      ListTable(words[..], b, i);
      ghost var ws := words[..];
      words[Index(pde, i)] := words[Index(pde, i - 1)] + FRAME_SIZE;
      ghost var entry: Word := FRAME_SIZE * (b + 3 + i) + 3;
      assert words[..] == ws[Index(b + 2, i) := entry];
      paddr := FillTable(words, PageOf(words[Index(pde, i)]), b, i, paddr);
      i := i + 1;
    }
  }

  /** The PDE table of the kernel, and the last page table entry in use. */
  method FindTables(words: array<Word>, dir: Word) returns (pde: int, paddr: Word)
    requires BootTables(words[..], PageOf(dir))
    ensures pde == PageOf(dir) + 2 && paddr == FRAME_SIZE * (4 * 512 - 1) + 7
  {
    ghost var b := PageOf(dir);
    var pdpt := PageOf(words[Index(PageOf(dir), 511)]);
    assert pdpt == b + 1;
    pde := PageOf(words[Index(pdpt, 510)]);
    assert pde == b + 2;
    var last := PageOf(words[Index(pde, 3)]);
    assert last == b + 6;
    paddr := words[Index(last, 511)];
  }

  /** The inner loop: fills page table i with the frames that follow. */
  method FillTable(words: array<Word>, pte: int, ghost b: int, ghost i: int, from: Word) returns (paddr: Word)
    requires 4 <= i < 512 && pte == b + 3 + i && from == FRAME_SIZE * (512 * i - 1) + 7
    requires Progress(words[..], b, i + 1, 512 * i)
    modifies words
    ensures Progress(words[..], b, i + 1, 512 * i + 512) && Untouched(old(words[..]), words[..], b)
    ensures paddr == FRAME_SIZE * (512 * i + 511) + 7
  {
    hide TopTables, TablesListed, FramesListed;
    paddr := from;
    var j := 0;
    while j < 512
      invariant 0 <= j <= 512 && Progress(words[..], b, i + 1, 512 * i + j)
      invariant paddr == FRAME_SIZE * (512 * i + j - 1) + 7
      invariant Untouched(old(words[..]), words[..], b)
    {
      ListFrame(words[..], b, i, j);
      ghost var ws := words[..];
      words[Index(pte, j)] := paddr + FRAME_SIZE;
      paddr := words[Index(pte, j)];
      ghost var entry: Word := FRAME_SIZE * (512 * i + j) + 7;
      assert words[..] == ws[Index(b + 3 + i, j) := entry];
      j := j + 1;
    }
  }

  /** An entry below the top two tables. */
  lemma LowerEntries(ws: seq<Word>, b: int, i: int, j: int)
    requires KernelTables(ws, b) && 0 <= i < 512 && 0 <= j < 512
    ensures Entry(ws, b + 2, i) == FRAME_SIZE * (b + 3 + i) + 3
    ensures Entry(ws, b + 3 + i, j) == FRAME_SIZE * (512 * i + j) + 7
  {
    assert Index(b + 2, 0) <= Index(b + 2, i) < Index(b + 2, 512);
    assert Index(b + 3, 0) <= Index(b + 3 + i, j) < Index(b + 3, 512 * 512);
  }

  lemma UpperEntries(ws: seq<Word>, b: int, i: int)
    requires KernelTables(ws, b) && 0 <= i < 512
    ensures Entry(ws, b, i) == if i == 511 then FRAME_SIZE * (b + 1) + 3 else 0
    ensures Entry(ws, b + 1, i) == if i == 510 then FRAME_SIZE * (b + 2) + 3 else 0
  {
    assert Index(b, 0) <= Index(b, i) < Index(b + 1, 0);
    assert Index(b + 1, 0) <= Index(b + 1, i) < Index(b + 2, 0);
  }

  lemma InFirstGib(ws: seq<Word>, b: int)
    requires KernelTables(ws, b)
    ensures 0 <= b && b + 515 <= 2048
  {
  }

  lemma PointsTo(e: Word, n: int)
    requires e == FRAME_SIZE * n + 3 || e == FRAME_SIZE * n + 7
    ensures Present(e) && PageOf(e) == n
  {
    var half := if e == FRAME_SIZE * n + 3 then 1 else 3;
    assert e == 2 * (2048 * n + half) + 1;
  }

  lemma Walk(ws: seq<Word>, b: int, p: seq<int>)
    requires KernelTables(ws, b) && |p| == 4 && IsPath(p)
    ensures Find(ws, b, p) ==
      if p[0] == 511 && p[1] == 510 then Some(FRAME_SIZE * (512 * p[2] + p[3]) + 7) else None
  {
    hide Entry, KernelTables, PageOf, Find, Present;
    UpperEntries(ws, b, p[0]);
    UpperEntries(ws, b, p[1]);
    LowerEntries(ws, b, p[2], p[3]);
    assert 0 <= p[2] < 512 && 0 <= p[3] < 512;
    InFirstGib(ws, b);
    PointsTo(FRAME_SIZE * (b + 1) + 3, b + 1);
    PointsTo(FRAME_SIZE * (b + 2) + 3, b + 2);
    PointsTo(FRAME_SIZE * (b + 3 + p[2]) + 3, b + 3 + p[2]);
    PointsTo(FRAME_SIZE * (512 * p[2] + p[3]) + 7, 512 * p[2] + p[3]);
    FindStep(ws, b, p);
    if p[0] == 511 {
      FindStep(ws, b + 1, p[1..]);
      if p[1] == 510 {
        FindStep(ws, b + 2, p[1..][1..]);
        FindStep(ws, b + 3 + p[2], p[1..][1..][1..]);
      }
    }
  }

  /** One level of the walk. */
  lemma FindStep(ws: seq<Word>, n: int, path: seq<int>)
    requires path != []
    ensures var e := Entry(ws, n, path[0]);
      && (e == 0 ==> Find(ws, n, path) == None)
      && (Present(e) ==> Find(ws, n, path) == if |path| == 1 then Some(e) else Find(ws, PageOf(e), path[1..]))
  {
  }

  lemma LinearIndices(x: Word)
    requires x < GIB
    ensures var p := Indices(KVIRTUAL_ADDRESS + x);
      p[0] == 511 && p[1] == 510 && FRAME_SIZE * (512 * p[2] + p[3]) == AlignDown(x)
  {
    var v := KVIRTUAL_ADDRESS + x;
    assert v / 0x4000_0000 == KVIRTUAL_ADDRESS / 0x4000_0000 && v / 0x80_0000_0000 == KVIRTUAL_ADDRESS / 0x80_0000_0000;
    var q := x / FRAME_SIZE;
    assert v / FRAME_SIZE == KVIRTUAL_ADDRESS / FRAME_SIZE + q;
    assert v / 0x20_0000 == KVIRTUAL_ADDRESS / 0x20_0000 + x / 0x20_0000;
    assert x / 0x20_0000 == q / 512 && q == 512 * (q / 512) + q % 512;
  }

  /** Every physical address x below 1 GiB is mapped at KVIRTUAL_ADDRESS + x, which is what the ADDRESS macro assumes. */
  lemma LinearMap(ws: seq<Word>, b: int, x: Word)
    requires KernelTables(ws, b) && x < GIB
    ensures Lookup(ws, b, KVIRTUAL_ADDRESS + x) == Some(AlignDown(x) + 7)
    ensures FRAME_SIZE * PageOf(AlignDown(x) + 7) + (KVIRTUAL_ADDRESS + x) % FRAME_SIZE == x
  {
    Digits(KVIRTUAL_ADDRESS + x);
    LinearIndices(x);
    Walk(ws, b, Indices(KVIRTUAL_ADDRESS + x));
    assert KVIRTUAL_ADDRESS % FRAME_SIZE == 0;
  }

  /** v lies in the page at which that of x is mapped. */
  predicate InLinearMap(v: Word, x: Word) {
    x < GIB && Indices(v) == Indices(KVIRTUAL_ADDRESS + x)
  }

  /** Nothing else is mapped. */
  lemma OnlyLinear(ws: seq<Word>, b: int, v: Word)
    requires KernelTables(ws, b) && Lookup(ws, b, v) != None
    ensures exists x: Word :: InLinearMap(v, x)
  {
    var p := Indices(v);
    Digits(v);
    Walk(ws, b, p);
    var x := FRAME_SIZE * (512 * p[2] + p[3]);
    LinearIndices(x);
    var q := Indices(KVIRTUAL_ADDRESS + x);
    Digits(KVIRTUAL_ADDRESS + x);
    SameDigits(p[2], p[3], q[2], q[3]);
    assert p == q && InLinearMap(v, x);
  }

  // ----- the kernel's tables as a tree -----

  function RoleIn(b: int, n: int): Role {
    if n == b then Role(b, [])
    else if n == b + 1 then Role(KERNEL, [511])
    else if n == b + 2 then Role(KERNEL, [511, 510])
    else Role(KERNEL, [511, 510, n - b - 3])
  }

  function KernelRoles(b: int): Roles {
    map n | b <= n < b + 515 :: RoleIn(b, n)
  }

  /** So the page tables start as a tree with one directory. */
  lemma KernelTree(ws: seq<Word>, b: int, next: Word)
    requires KernelTables(ws, b) && b >= 0
    requires KVIRTUAL_ADDRESS + FRAME_SIZE * (b + 515) <= next <= KVIRTUAL_ADDRESS + 8 * GIB_WORDS
    ensures Inv(Tables(ws, next), KernelRoles(b))
    ensures forall d :: IsRoot(KernelRoles(b), d) <==> d == b
  {
    var roles := KernelRoles(b);
    forall n, i | n in roles && |roles[n].path| < 3 && 0 <= i < 512 && Present(Entry(ws, n, i))
      ensures PageOf(Entry(ws, n, i)) in roles && roles[PageOf(Entry(ws, n, i))] == Child(roles[n], i)
    {
      UpperEntries(ws, b, i);
      LowerEntries(ws, b, i, 0);
    }
  }

  const FIRST_PAGE: int := (511 * 512 + 510) * 512 * 512

  /** The linear map, page by page. */
  function LinearPages(): map<M.Slot, Word> {
    map s | s in M.Slots(KERNEL, FIRST_PAGE, 0x4_0000) :: LinearEntry(s.page)
  }

  function LinearEntry(page: int): Word {
    if FIRST_PAGE <= page < FIRST_PAGE + 0x4_0000 then FRAME_SIZE * (page - FIRST_PAGE) + 7 else 0
  }

  lemma LinearPagesAt(page: int)
    ensures T.Given(LinearPages(), M.Slot(KERNEL, page)) ==
      if FIRST_PAGE <= page < FIRST_PAGE + 0x4_0000 then Some(FRAME_SIZE * (page - FIRST_PAGE) + 7) else None
  {
  }

  /** The state all runs start from: one directory, whose tables implement the linear map. */
  lemma KernelImplements(ws: seq<Word>, b: int, next: Word)
    requires KernelTables(ws, b) && b >= 0
    requires KVIRTUAL_ADDRESS + FRAME_SIZE * (b + 515) <= next <= KVIRTUAL_ADDRESS + 8 * GIB_WORDS
    ensures var s := T.System(Tables(ws, next), {b});
      T.WellFormed(s, KernelRoles(b)) && T.Implements(s, LinearPages())
  {
    KernelTree(ws, b, next);
    forall v
      ensures Lookup(ws, b, v) == T.Given(LinearPages(), SlotOf(b, v))
    {
      var p := Indices(v);
      Digits(v);
      Walk(ws, b, p);
      LinearPagesAt(((p[0] * 512 + p[1]) * 512 + p[2]) * 512 + p[3]);
    }
  }
}
