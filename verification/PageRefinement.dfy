/** The loops of PageMapping, over a partial map of pages, are the same loops over the four-level tables. */
module PageRefinement {
  import opened Words
  import opened Placement
  import opened PageTree
  import M = PageMapping
  import T = Translation

  /** The pages below index 511 of the top table, which are a directory's own. */
  predicate Low(page: int) {
    0 <= page < 511 * 0x800_0000
  }

  /** The map of pages to frames is that of the tables, less the permission bits. */
  ghost predicate Frames(pages: map<M.Slot, Word>, leaves: map<M.Slot, Word>) {
    forall s: M.Slot :: s.space != KERNEL ==>
      (s in pages <==> s in leaves) && (s in pages ==> pages[s] == AlignDown(leaves[s]))
  }

  lemma LowSlot(d: int, page: int)
    requires Low(page)
    ensures FRAME_SIZE * page < TWO_64 && SlotOf(d, FRAME_SIZE * page) == M.Slot(d, page)
  {
    var v: Word := FRAME_SIZE * page;
    assert v / FRAME_SIZE == page;
    TopIndex(v, page);
  }

  lemma TopIndex(v: Word, page: int)
    requires Low(page) && v == FRAME_SIZE * page
    ensures Indices(v)[0] != 511
  {
    assert v < 511 * 0x80_0000_0000;
  }

  /** Present, writable, and for a process user: aligned frames come back without these bits. */
  lemma LeafHolds(frame: Word, flags: int)
    requires frame % FRAME_SIZE == 0 && flags % 2 == 1
    ensures Present(T.Leaf(frame, flags)) && AlignDown(T.Leaf(frame, flags)) == frame
  {
    assert AlignDown(frame) == frame && flags % 8 % 2 == 1;
  }

  lemma MapRefines(s: T.System, pages: map<M.Slot, Word>, leaves: map<M.Slot, Word>,
                   d: int, page: int, frame: Word, flags: int)
    requires Frames(pages, leaves) && d in s.dirs && Room(s.t, 3)
    requires Low(page) && frame % FRAME_SIZE == 0 && flags % 2 == 1
    ensures FRAME_SIZE * page < TWO_64
    ensures Frames(pages[M.Slot(d, page) := frame], T.MapStep(leaves, s, T.MapPage(d, FRAME_SIZE * page, frame, flags)))
  {
    LowSlot(d, page);
    LeafHolds(frame, flags);
  }

  lemma UnmapRefines(s: T.System, pages: map<M.Slot, Word>, leaves: map<M.Slot, Word>, d: int, page: int)
    requires Frames(pages, leaves) && d in s.dirs && Low(page)
    ensures FRAME_SIZE * page < TWO_64
    ensures Frames(pages - {M.Slot(d, page)}, T.MapStep(leaves, s, T.UnmapPage(d, FRAME_SIZE * page)))
  {
    LowSlot(d, page);
  }

  // ----- room for the tables -----

  lemma EnsuredRoom(t: Tables, n: int, i: int, flags: int, k: nat)
    requires Room(t, k + 1)
    ensures Room(Ensured(t, n, i, flags), k)
  {
    LinkRoom(t, n, i, flags);
  }

  lemma {:induction false} DescendRoom(t: Tables, n: int, path: seq<int>, flags: int, k: nat)
    requires Room(t, k + |path|)
    ensures Room(Descend(t, n, path, flags).0, k)
    decreases |path|
  {
    if path != [] {
      var t' := Ensured(t, n, path[0], flags);
      EnsuredRoom(t, n, path[0], flags, k + |path| - 1);
      DescendRoom(t', PageOf(Entry(t'.words, n, path[0])), path[1..], flags, k);
    }
  }

  /** A map makes at most three tables. */
  lemma MapRoom(t: Tables, d: int, v: Word, p: Word, flags: int, k: nat)
    requires Room(t, k + 3)
    ensures Room(T.Map(t, d, v, p, flags), k)
  {
    DescendRoom(t, d, Indices(v)[..3], flags, k);
  }

  // ----- the loop -----

  /** n pages mapped in the tables, one after the other. */
  function TablesMapped(s: T.System, d: int, page: int, frames: seq<Word>, flags: int, n: nat): T.System
    requires n <= |frames|
  {
    if n == 0 then s else
      T.Step(TablesMapped(s, d, page, frames, flags, n - 1), PageOp(d, page + n - 1, frames[n - 1], flags))
  }

  function PageOp(d: int, page: int, frame: Word, flags: int): T.Op {
    T.MapPage(d, FRAME_SIZE * page % TWO_64, frame, flags)
  }

  lemma {:induction false} RoomLeft(s: T.System, d: int, page: int, frames: seq<Word>, flags: int, n: nat, k: nat)
    requires n <= |frames| && d in s.dirs && Room(s.t, 3 * n + k)
    ensures var r := TablesMapped(s, d, page, frames, flags, n); r.dirs == s.dirs && Room(r.t, k)
  {
    if n > 0 {
      RoomLeft(s, d, page, frames, flags, n - 1, k + 3);
      var r := TablesMapped(s, d, page, frames, flags, n - 1);
      RoomFewer(r.t, 3, k + 3);
      MapRoom(r.t, d, FRAME_SIZE * (page + n - 1) % TWO_64, frames[n - 1], flags, k);
    }
  }

  lemma RoomFewer(t: Tables, j: nat, k: nat)
    requires Room(t, k) && j <= k
    ensures Room(t, j)
  {
  }

  lemma StepRefines(s: T.System, roles: Roles, pages: map<M.Slot, Word>, leaves: map<M.Slot, Word>,
                    d: int, page: int, frame: Word, flags: int)
      returns (roles': Roles, leaves': map<M.Slot, Word>)
    requires T.WellFormed(s, roles) && T.Implements(s, leaves) && Frames(pages, leaves) && d in s.dirs && Room(s.t, 3)
    requires Low(page) && frame % FRAME_SIZE == 0 && flags % 2 == 1
    ensures var s' := T.Step(s, PageOp(d, page, frame, flags));
      T.WellFormed(s', roles') && T.Implements(s', leaves') && Frames(pages[M.Slot(d, page) := frame], leaves')
  {
    hide T.WellFormed, T.Implements, T.Step, T.MapStep, Frames, Room;
    LowSlot(d, page);
    MapRefines(s, pages, leaves, d, page, frame, flags);
    roles' := T.StepImplements(s, roles, leaves, PageOp(d, page, frame, flags));
    leaves' := T.MapStep(leaves, s, PageOp(d, page, frame, flags));
  }

  /** With room for the tables, mapping n pages to the free frames in the abstract map and in the tables comes to the
      same: every walk then gives the frame the map has. */
  lemma {:induction false} LoopRefines(s: T.System, roles: Roles, vm: M.Vm, leaves: map<M.Slot, Word>,
                                       d: int, page: int, flags: int, n: nat)
      returns (roles': Roles, leaves': map<M.Slot, Word>)
    requires T.WellFormed(s, roles) && T.Implements(s, leaves) && Frames(vm.pages, leaves)
    requires d in s.dirs && n <= |vm.frames| && Room(s.t, 3 * n) && flags % 2 == 1
    requires forall i :: 0 <= i < n ==> vm.frames[i] % FRAME_SIZE == 0
    requires n > 0 ==> Low(page) && Low(page + n - 1)
    ensures var s' := TablesMapped(s, d, page, vm.frames, flags, n);
      T.WellFormed(s', roles') && T.Implements(s', leaves') && Frames(M.Mapped(vm, d, page, n).pages, leaves')
  {
    hide T.WellFormed, T.Implements, T.Step, T.MapStep, Frames, Room, PageOp;
    if n == 0 {
      roles', leaves' := roles, leaves;
    } else {
      var before, last, frame := TablesMapped(s, d, page, vm.frames, flags, n - 1), page + n - 1, vm.frames[n - 1];
      RoomFewer(s.t, 3 * (n - 1), 3 * n);
      var roles1, leaves1 := LoopRefines(s, roles, vm, leaves, d, page, flags, n - 1);
      RoomLeft(s, d, page, vm.frames, flags, n - 1, 3);
      M.MappedExactly(vm, d, page, n - 1);
      var m := M.Mapped(vm, d, page, n - 1);
      assert m.frames[0] == frame;
      roles', leaves' := StepRefines(before, roles1, m.pages, leaves1, d, last, frame, flags);
    }
  }
}
