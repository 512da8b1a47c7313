/** The four-level tables implement a partial map from pages to frames, shared by all directories in its kernel half. */
module Translation {
  import opened Words
  import opened Placement
  import opened PageTree
  import M = PageMapping

  // ----- map and unmap -----

  /** get_page, making tables: the last-level table for v. */
  function GetPage(t: Tables, d: int, v: Word, flags: int): (Tables, int) {
    Descend(t, d, Indices(v)[..3], flags)
  }

  /** The frame with the three permission bits. */
  function Leaf(p: Word, flags: int): Word {
    AlignDown(p) + flags % 8
  }

  function Map(t: Tables, d: int, v: Word, p: Word, flags: int): Tables {
    var (t', n) := GetPage(t, d, v, flags);
    t'.(words := Written(t'.words, n, Indices(v)[3], Leaf(p, flags)))
  }

  /** The table the path leads to, if every entry on it is present. */
  function Reached(ws: seq<Word>, n: int, path: seq<int>): Option<int>
    decreases |path|
  {
    if path == [] then Some(n)
    else if Present(Entry(ws, n, path[0])) then Reached(ws, PageOf(Entry(ws, n, path[0])), path[1..])
    else None
  }

  /** unmap clears the low bits of a present entry, the present bit among them. */
  function Unmap(t: Tables, d: int, v: Word): Tables {
    match Reached(t.words, d, Indices(v)[..3])
    case None => t
    case Some(n) =>
      var i := Indices(v)[3];
      if Present(Entry(t.words, n, i)) then t.(words := Written(t.words, n, i, AlignDown(Entry(t.words, n, i)))) else t
  }

  function IfPresent(e: Word): Option<Word> {
    if Present(e) then Some(e) else None
  }

  /** Directories that give an address the same slot give it the same translation. */
  lemma SharedLookup(t: Tables, roles: Roles, d: int, d': int, v: Word, v': Word)
    requires Inv(t, roles) && IsRoot(roles, d) && IsRoot(roles, d') && SlotOf(d, v) == SlotOf(d', v')
    ensures Lookup(t.words, d, v) == Lookup(t.words, d', v')
  {
    SlotsAreRoles(d, v, d', v');
    FollowAll(d, Indices(v));
    FollowAll(d', Indices(v'));
  }

  lemma ThreeLevels(d: int, v: Word)
    ensures Indices(v) == Indices(v)[..3] + [Indices(v)[3]] && IsPath(Indices(v))
    ensures Follow(Role(d, []), Indices(v)) == Child(Follow(Role(d, []), Indices(v)[..3]), Indices(v)[3])
  {
    Digits(v);
    FollowOneMore(Role(d, []), Indices(v)[..3], Indices(v)[3]);
  }

  lemma {:induction false} FollowOneMore(r: Role, path: seq<int>, i: int)
    ensures Follow(r, path + [i]) == Child(Follow(r, path), i)
    decreases |path|
  {
    if path == [] {
      assert Follow(Child(r, i), [i][1..]) == Child(r, i);
    } else {
      assert (path + [i])[1..] == path[1..] + [i];
      FollowOneMore(Child(r, path[0]), path[1..], i);
    }
  }

  /** Every lookup after entry i of the last-level table for v is written. */
  lemma WriteLeaf(t: Tables, roles: Roles, d: int, v: Word, n: int, e: Word)
    requires Inv(t, roles) && IsRoot(roles, d) && n in roles && Leads(t.words, d, Indices(v)[..3], n)
    requires roles[n] == Follow(Role(d, []), Indices(v)[..3])
    ensures var ws := Written(t.words, n, Indices(v)[3], e);
      && Inv(t.(words := ws), roles)
      && Lookup(t.words, d, v) == IfPresent(Entry(t.words, n, Indices(v)[3]))
      && forall d', v' :: IsRoot(roles, d') ==>
        Lookup(ws, d', v') == if SlotOf(d', v') == SlotOf(d, v) then IfPresent(e) else Lookup(t.words, d', v')
  {
    var p, i := Indices(v)[..3], Indices(v)[3];
    ThreeLevels(d, v);
    FollowDepth(Role(d, []), p);
    var ws := Written(t.words, n, i, e);
    LeafKeepsInv(t, roles, n, i, e);
    LeafFound(t, roles, n, i, e, d, p);
    forall d', v' | IsRoot(roles, d')
      ensures Lookup(ws, d', v') == if SlotOf(d', v') == SlotOf(d, v) then IfPresent(e) else Lookup(t.words, d', v')
    {
      if SlotOf(d', v') == SlotOf(d, v) {
        SharedLookup(t.(words := ws), roles, d', d, v', v);
      } else {
        SlotsAreRoles(d', v', d, v);
        Digits(v');
        LeafOthers(t, roles, n, i, e, d', Indices(v'));
      }
    }
  }

  lemma {:induction false} FollowDepth(r: Role, path: seq<int>)
    requires IsPath(path)
    ensures |Follow(r, path).path| == |r.path| + |path|
    decreases |path|
  {
    if path != [] {
      FollowDepth(Child(r, path[0]), path[1..]);
    }
  }

  /** map changes the translation of one page of one space, in every directory that has the space, and no other. */
  lemma MapExact(t: Tables, roles: Roles, d: int, v: Word, p: Word, flags: int) returns (roles': Roles)
    requires Inv(t, roles) && IsRoot(roles, d) && Room(t, 3)
    ensures var t' := Map(t, d, v, p, flags);
      && Inv(t', roles') && Extends(roles, roles')
      && forall d', v' :: IsRoot(roles, d') ==>
        Lookup(t'.words, d', v') ==
        if SlotOf(d', v') == SlotOf(d, v) then IfPresent(Leaf(p, flags)) else Lookup(t.words, d', v')
  {
    ThreeLevels(d, v);
    roles' := DescendStep(t, roles, d, Indices(v)[..3], flags);
    var (t1, n) := GetPage(t, d, v, flags);
    assert roles[d] == Role(d, []);
    WriteLeaf(t1, roles', d, v, n, Leaf(p, flags));
    forall d', v' | IsRoot(roles, d')
      ensures Lookup(t1.words, d', v') == Lookup(t.words, d', v')
    {
      Digits(v');
      assert Complete(roles, d', Indices(v'));
    }
  }

  /** A map below the kernel half of one directory leaves every other directory alone. */
  lemma LowHalfIsPrivate(t: Tables, roles: Roles, d: int, v: Word, p: Word, flags: int, e: int, w: Word)
    requires Inv(t, roles) && IsRoot(roles, d) && IsRoot(roles, e) && d != e && Room(t, 3) && Indices(v)[0] != 511
    ensures Lookup(Map(t, d, v, p, flags).words, e, w) == Lookup(t.words, e, w)
  {
    var _ := MapExact(t, roles, d, v, p, flags);
    assert roles[d].space == d >= 0;
  }

  lemma {:induction false} ReachedLeads(t: Tables, roles: Roles, n: int, path: seq<int>)
    requires Inv(t, roles) && n in roles && IsPath(path) && |roles[n].path| + |path| == 3
    ensures match Reached(t.words, n, path)
      case Some(last) => last in roles && roles[last] == Follow(roles[n], path) && Leads(t.words, n, path, last)
      case None => forall i :: Find(t.words, n, path + [i]) == None
    decreases |path|
  {
    if path != [] {
      assert 0 <= path[0] < 512;
      assert forall i {:trigger path + [i]} :: (path + [i])[1..] == path[1..] + [i];
      if Present(Entry(t.words, n, path[0])) {
        ReachedLeads(t, roles, PageOf(Entry(t.words, n, path[0])), path[1..]);
      }
    }
  }

  lemma AlignedIsAbsent(e: Word)
    ensures !Present(AlignDown(e))
  {
  }

  /** unmap removes the translation of one page of one space, and no other. */
  lemma UnmapExact(t: Tables, roles: Roles, d: int, v: Word)
    requires Inv(t, roles) && IsRoot(roles, d)
    ensures var t' := Unmap(t, d, v);
      && Inv(t', roles)
      && forall d', v' :: IsRoot(roles, d') ==>
        Lookup(t'.words, d', v') == if SlotOf(d', v') == SlotOf(d, v) then None else Lookup(t.words, d', v')
  {
    ThreeLevels(d, v);
    var i := Indices(v)[3];
    assert roles[d] == Role(d, []);
    ReachedLeads(t, roles, d, Indices(v)[..3]);
    match Reached(t.words, d, Indices(v)[..3])
    case None =>
      assert Lookup(t.words, d, v) == None;
      AbsentEverywhere(t, roles, d, v);
    case Some(n) =>
      var e := Entry(t.words, n, i);
      AlignedIsAbsent(e);
      WriteLeaf(t, roles, d, v, n, AlignDown(e));
      if !Present(e) {
        AbsentEverywhere(t, roles, d, v);
      }
  }

  /** The entry that unmap clears keeps its frame, and loses every flag. */
  lemma UnmapKeepsFrame(t: Tables, roles: Roles, d: int, v: Word, n: int)
    requires Inv(t, roles) && IsRoot(roles, d) && Reached(t.words, d, Indices(v)[..3]) == Some(n)
    requires Present(Entry(t.words, n, Indices(v)[3]))
    ensures var e, e' := Entry(t.words, n, Indices(v)[3]), Entry(Unmap(t, d, v).words, n, Indices(v)[3]);
      PageOf(e') == PageOf(e) && e' % FRAME_SIZE == 0
  {
    ThreeLevels(d, v);
    assert roles[d] == Role(d, []);
    ReachedLeads(t, roles, d, Indices(v)[..3]);
    PlacedIndex(t, roles, n, Indices(v)[3]);
    var e := Entry(t.words, n, Indices(v)[3]);
    WrittenEntry(t.words, n, Indices(v)[3], AlignDown(e), n, Indices(v)[3]);
  }

  lemma AbsentEverywhere(t: Tables, roles: Roles, d: int, v: Word)
    requires Inv(t, roles) && IsRoot(roles, d) && Lookup(t.words, d, v) == None
    ensures forall d', v' :: IsRoot(roles, d') && SlotOf(d', v') == SlotOf(d, v) ==> Lookup(t.words, d', v') == None
  {
    forall d', v' | IsRoot(roles, d') && SlotOf(d', v') == SlotOf(d, v)
      ensures Lookup(t.words, d', v') == None
    {
      SharedLookup(t, roles, d', d, v', v);
    }
  }

  // ----- runs -----

  datatype Op =
    | Create(current: int)
    | MapPage(d: int, v: Word, p: Word, flags: int)
    | UnmapPage(d: int, v: Word)

  /** The tables, and the directories made so far. */
  datatype System = System(t: Tables, dirs: set<int>)

  /** Operations name directories that exist, and memory for tables does not run out. */
  predicate Allowed(s: System, op: Op) {
    match op
    case Create(d) => d in s.dirs && Room(s.t, 1)
    case MapPage(d, _, _, _) => d in s.dirs && Room(s.t, 3)
    case UnmapPage(d, _) => d in s.dirs
  }

  function Step(s: System, op: Op): System {
    if !Allowed(s, op) then s else
      match op
      case Create(d) =>
        System(NewDirectory(s.t, d), s.dirs + if Present(Entry(s.t.words, d, 511)) then {NewPage(s.t)} else {})
      case MapPage(d, v, p, flags) => s.(t := Map(s.t, d, v, p, flags))
      case UnmapPage(d, v) => s.(t := Unmap(s.t, d, v))
  }

  function Run(s: System, ops: seq<Op>): System
    decreases |ops|
  {
    if ops == [] then s else Run(Step(s, ops[0]), ops[1..])
  }

  /** The same operation on a partial map from slots to frames with flags. */
  function MapStep(pages: map<M.Slot, Word>, s: System, op: Op): map<M.Slot, Word> {
    if !Allowed(s, op) then pages else
      match op
      case Create(_) => pages
      case MapPage(d, v, p, flags) =>
        if Present(Leaf(p, flags)) then pages[SlotOf(d, v) := Leaf(p, flags)] else pages - {SlotOf(d, v)}
      case UnmapPage(d, v) => pages - {SlotOf(d, v)}
  }

  function MapRun(pages: map<M.Slot, Word>, s: System, ops: seq<Op>): map<M.Slot, Word>
    decreases |ops|
  {
    if ops == [] then pages else MapRun(MapStep(pages, s, ops[0]), Step(s, ops[0]), ops[1..])
  }

  ghost predicate WellFormed(s: System, roles: Roles) {
    Inv(s.t, roles) && forall d :: d in s.dirs <==> IsRoot(roles, d)
  }

  /** Every walk gives what the map says. */
  ghost predicate Implements(s: System, pages: map<M.Slot, Word>) {
    && (forall d, v :: d in s.dirs ==> Lookup(s.t.words, d, v) == Given(pages, SlotOf(d, v)))
    && (forall slot :: slot in pages ==> slot.space == KERNEL || slot.space in s.dirs)
  }

  function Given(pages: map<M.Slot, Word>, slot: M.Slot): Option<Word> {
    if slot in pages then Some(pages[slot]) else None
  }

  lemma CreateImplements(s: System, roles: Roles, pages: map<M.Slot, Word>, d: int) returns (roles': Roles)
    requires WellFormed(s, roles) && Implements(s, pages) && Allowed(s, Create(d))
    ensures WellFormed(Step(s, Create(d)), roles') && Implements(Step(s, Create(d)), pages)
  {
    var t', f := NewDirectory(s.t, d), NewPage(s.t);
    NewDirectoryStep(s.t, roles, d);
    NewPageIsFresh(s.t, roles);
    roles' := if Present(Entry(s.t.words, d, 511)) then roles[f := Role(f, [])] else roles;
    forall e, v | e in s.dirs
      ensures Lookup(t'.words, e, v) == Lookup(s.t.words, e, v)
    {
      Digits(v);
      assert Complete(roles, e, Indices(v));
    }
    if Present(Entry(s.t.words, d, 511)) {
      forall v
        ensures Lookup(t'.words, f, v) == Given(pages, SlotOf(f, v))
      {
        NewDirectoryLookup(s.t, roles, d, v);
        assert Indices(v)[0] == 511 ==> SlotOf(f, v) == SlotOf(d, v);
      }
    }
  }

  lemma StepImplements(s: System, roles: Roles, pages: map<M.Slot, Word>, op: Op) returns (roles': Roles)
    requires WellFormed(s, roles) && Implements(s, pages)
    ensures WellFormed(Step(s, op), roles') && Implements(Step(s, op), MapStep(pages, s, op))
  {
    roles' := roles;
    if Allowed(s, op) {
      match op
      case Create(d) => roles' := CreateImplements(s, roles, pages, d);
      case MapPage(d, v, p, flags) => roles' := MapExact(s.t, roles, d, v, p, flags);
      case UnmapPage(d, v) => UnmapExact(s.t, roles, d, v);
    }
  }

  /** Over every run the four-level walk equals the abstract partial map. */
  lemma {:induction false} RunImplements(s: System, roles: Roles, pages: map<M.Slot, Word>, ops: seq<Op>)
      returns (roles': Roles)
    requires WellFormed(s, roles) && Implements(s, pages)
    ensures WellFormed(Run(s, ops), roles') && Implements(Run(s, ops), MapRun(pages, s, ops))
    decreases |ops|
  {
    if ops == [] {
      roles' := roles;
    } else {
      var roles1 := StepImplements(s, roles, pages, ops[0]);
      roles' := RunImplements(Step(s, ops[0]), roles1, MapStep(pages, s, ops[0]), ops[1..]);
    }
  }

  /** In every reachable state all directories translate the kernel half alike. */
  lemma KernelHalfAgrees(s: System, roles: Roles, pages: map<M.Slot, Word>, ops: seq<Op>, d: int, e: int, v: Word)
    requires WellFormed(s, roles) && Implements(s, pages)
    requires d in Run(s, ops).dirs && e in Run(s, ops).dirs && Indices(v)[0] == 511
    ensures Lookup(Run(s, ops).t.words, d, v) == Lookup(Run(s, ops).t.words, e, v)
  {
    var roles' := RunImplements(s, roles, pages, ops);
    SharedLookup(Run(s, ops).t, roles', d, e, v, v);
  }
}
