/** Who may use a page: the processor allows a write, or a user, only if all four entries of the walk do. */
module AccessRights {
  import opened Words
  import opened Placement
  import opened PageTree
  import T = Translation
  import M = PageMapping
  import F = PageRefinement
  import K = KernelMapping

  const WRITE: int := 2
  const USER: int := 4

  predicate Bit(e: int, bit: int)
    requires bit > 0
  {
    e / bit % 2 == 1
  }

  type Right = b: int | b == WRITE || b == USER witness WRITE

  /** The walk from table n along the path: every entry is present and grants the right. */
  predicate Allows(ws: seq<Word>, n: int, path: seq<int>, right: Right)
    decreases |path|
  {
    path == [] ||
    (var e := Entry(ws, n, path[0]);
     Present(e) && Bit(e, right) && Allows(ws, PageOf(e), path[1..], right))
  }

  predicate Access(ws: seq<Word>, d: int, v: Word, right: Right) {
    Allows(ws, d, Indices(v), right)
  }

  /** No present entry on the path denies the right. */
  predicate Open(ws: seq<Word>, n: int, path: seq<int>, right: Right)
    decreases |path|
  {
    path == [] ||
    (var e := Entry(ws, n, path[0]);
     Present(e) ==> Bit(e, right) && Open(ws, PageOf(e), path[1..], right))
  }

  /** The upper three entries, as far as they are there. */
  predicate UpperOpen(ws: seq<Word>, d: int, v: Word, right: Right) {
    Open(ws, d, Indices(v)[..3], right)
  }

  // ----- a new table -----

  /** The entry for a new table lets everyone write, and users in if the flags do. */
  lemma NewEntry(t: Tables, roles: Roles, n: int, i: int, flags: int)
    requires Placed(t, roles) && Room(t, 1) && n in roles && 0 <= i < 512
    ensures var e := Entry(LinkNew(t, n, i, flags).words, n, i);
      Bit(e, WRITE) && (Bit(e, USER) <==> Bit(flags, USER))
  {
    hide Placed, Room, NewPage, Entry, Written, Allocated, DirFlags, Bit;
    PlacedIndex(t, roles, n, i);
    NewPageIsFresh(t, roles);
    AllocatedSize(t);
    var e: Word := (FRAME_SIZE * NewPage(t) + DirFlags(flags)) % TWO_64;
    WrittenEntry(Allocated(t).words, n, i, e, n, i);
    DirBits(NewPage(t), flags);
  }

  lemma DirBits(page: int, flags: int)
    requires 0 <= page && FRAME_SIZE * page + 7 < TWO_64
    ensures var e := (FRAME_SIZE * page + DirFlags(flags)) % TWO_64; Bit(e, WRITE) && (Bit(e, USER) <==> Bit(flags, USER))
  {
    LowBits(page, DirFlags(flags));
    Literals();
    NoWrap(FRAME_SIZE * page + DirFlags(flags));
  }

  lemma Literals()
    ensures Bit(3, WRITE) && Bit(7, WRITE) && !Bit(3, USER) && Bit(7, USER)
  {
  }

  lemma NoWrap(x: int)
    requires 0 <= x < TWO_64
    ensures x % TWO_64 == x
  {
  }

  /** Multiples of eight do not bear on the low three bits. */
  lemma LowBits(page: int, low: int)
    ensures forall right: Right :: Bit(FRAME_SIZE * page + low, right) <==> Bit(low, right)
  {
    EightMore(512 * page, low);
  }

  lemma EightMore(k: int, low: int)
    ensures Bit(8 * k + low, WRITE) <==> Bit(low, WRITE)
    ensures Bit(8 * k + low, USER) <==> Bit(low, USER)
    ensures (8 * k + low) % 2 == low % 2
  {
    Halve(4 * k, low);
    TwoMore(2 * k, low / 2);
    Quarter(2 * k, low);
    TwoMore(k, low / 4);
  }

  lemma Halve(k: int, x: int)
    ensures (2 * k + x) / 2 == k + x / 2 && (2 * k + x) % 2 == x % 2
  {
  }

  lemma Quarter(k: int, x: int)
    ensures (4 * k + x) / 4 == k + x / 4
  {
  }

  lemma TwoMore(k: int, x: int)
    ensures (2 * k + x) % 2 == x % 2
  {
  }

  /** Whether the tables made for the flags grant a right. */
  predicate Grants(flags: int, right: Right) {
    right == WRITE || Bit(flags, USER)
  }

  lemma {:induction false} LinkKeepsAllows(t: Tables, roles: Roles, n: int, i: int, flags: int,
                                           m: int, path: seq<int>, right: Right)
    requires Inv(t, roles) && CanLink(t, roles, n, i) && Complete(roles, m, path)
    ensures Allows(LinkNew(t, n, i, flags).words, m, path, right) == Allows(t.words, m, path, right)
    decreases |path|
  {
    assert 0 <= path[0] < 512;
    LinkedEntries(t, roles, n, i, flags, m, path[0]);
    if (m, path[0]) == (n, i) {
      var ws := LinkNew(t, n, i, flags).words;
      LinkedEntries(t, roles, n, i, flags, NewPage(t), path[1]);
      assert !Allows(ws, NewPage(t), path[1..], right);
    } else if |path| > 1 && Present(Entry(t.words, m, path[0])) {
      CompleteStep(t.words, roles, m, path);
      LinkKeepsAllows(t, roles, n, i, flags, PageOf(Entry(t.words, m, path[0])), path[1..], right);
    }
  }

  // ----- get_page -----

  /** Making tables grants and denies nothing: what they lead to is absent. */
  lemma {:induction false} DescendKeepsAllows(t: Tables, roles: Roles, n: int, path: seq<int>, flags: int,
                                              m: int, q: seq<int>, right: Right)
    requires Inv(t, roles) && n in roles && IsPath(path) && |roles[n].path| + |path| == 3 && Room(t, |path|)
    requires Complete(roles, m, q)
    ensures Allows(Descend(t, n, path, flags).0.words, m, q, right) == Allows(t.words, m, q, right)
    decreases |path|
  {
    hide Inv, SameTranslations, Grown, Allows, Room;
    RoomOne(t, |path|);
    if path != [] {
      var i := path[0];
      assert 0 <= i < 512;
      var t1 := Ensured(t, n, i, flags);
      var roles1 := EnsureStep(t, roles, n, i, flags);
      if !Present(Entry(t.words, n, i)) {
        LinkKeepsAllows(t, roles, n, i, flags, m, q, right);
      }
      DescendKeepsAllows(t1, roles1, PageOf(Entry(t1.words, n, i)), path[1..], flags, m, q, right);
    }
  }

  lemma RoomOne(t: Tables, k: nat)
    requires Room(t, k)
    ensures k > 0 ==> Room(t, 1)
  {
  }

  /** After get_page the path is open exactly if it was before, and either all of it was there or the new tables grant
      the right. */
  lemma {:induction false} DescendOpens(t: Tables, roles: Roles, n: int, path: seq<int>, flags: int, right: Right)
    requires Inv(t, roles) && n in roles && IsPath(path) && |roles[n].path| + |path| == 3 && Room(t, |path|)
    ensures Open(Descend(t, n, path, flags).0.words, n, path, right) <==>
      Open(t.words, n, path, right) && (T.Reached(t.words, n, path) != None || Grants(flags, right))
    decreases |path|
  {
    hide Inv, SameTranslations, Room;
    RoomOne(t, |path|);
    if path != [] {
      var i := path[0];
      assert 0 <= i < 512;
      var t1 := Ensured(t, n, i, flags);
      var roles1 := EnsureStep(t, roles, n, i, flags);
      var next := PageOf(Entry(t1.words, n, i));
      DescendOpens(t1, roles1, next, path[1..], flags, right);
      var roles2 := DescendStep(t1, roles1, next, path[1..], flags);
      assert Entry(Descend(t, n, path, flags).0.words, n, i) == Entry(t1.words, n, i);
      if !Present(Entry(t.words, n, i)) {
        FreshTable(t, roles, n, i, flags, path[1..], right);
      }
    }
  }

  lemma FreshTable(t: Tables, roles: Roles, n: int, i: int, flags: int, rest: seq<int>, right: Right)
    requires Inv(t, roles) && CanLink(t, roles, n, i) && IsPath(rest)
    ensures var ws := LinkNew(t, n, i, flags).words;
      && (Bit(Entry(ws, n, i), right) <==> Grants(flags, right))
      && Open(ws, PageOf(Entry(ws, n, i)), rest, right)
      && (T.Reached(ws, PageOf(Entry(ws, n, i)), rest) != None <==> rest == [])
  {
    NewEntry(t, roles, n, i, flags);
    LinkedEntries(t, roles, n, i, flags, n, i);
    if rest != [] {
      assert 0 <= rest[0] < 512;
      LinkedEntries(t, roles, n, i, flags, NewPage(t), rest[0]);
    }
  }

  // ----- the leaf -----

  /** At the end of a path that leads to it, the last entry decides together with those above. */
  lemma {:induction false} AllowsSplit(ws: seq<Word>, m: int, path: seq<int>, n: int, i: int, right: Right)
    requires T.Reached(ws, m, path) == Some(n)
    ensures Allows(ws, m, path + [i], right) <==>
      Open(ws, m, path, right) && Present(Entry(ws, n, i)) && Bit(Entry(ws, n, i), right)
    decreases |path|
  {
    if path == [] {
      assert [i][1..] == [];
      assert Allows(ws, PageOf(Entry(ws, n, i)), [], right);
    } else {
      assert (path + [i])[1..] == path[1..] + [i];
      AllowsSplit(ws, PageOf(Entry(ws, m, path[0])), path[1..], n, i, right);
    }
  }

  lemma {:induction false} LeadsReaches(ws: seq<Word>, m: int, path: seq<int>, n: int)
    ensures Leads(ws, m, path, n) <==> T.Reached(ws, m, path) == Some(n)
    decreases |path|
  {
    if path != [] {
      LeadsReaches(ws, PageOf(Entry(ws, m, path[0])), path[1..], n);
    }
  }

  lemma {:induction false} LeafOthersAllow(t: Tables, roles: Roles, n: int, i: int, e: Word,
                                           m: int, path: seq<int>, right: Right)
    requires Inv(t, roles) && n in roles && |roles[n].path| == 3 && 0 <= i < 512
    requires Complete(roles, m, path) && Follow(roles[m], path) != Child(roles[n], i)
    ensures Allows(Written(t.words, n, i, e), m, path, right) == Allows(t.words, m, path, right)
    decreases |path|
  {
    assert 0 <= path[0] < 512;
    PlacedIndex(t, roles, n, i);
    PlacedIndex(t, roles, m, path[0]);
    WrittenEntry(t.words, n, i, e, m, path[0]);
    if |path| == 1 {
      assert Follow(roles[m], path) == Child(roles[m], path[0]);
    } else if Present(Entry(t.words, m, path[0])) {
      CompleteStep(t.words, roles, m, path);
      LeafOthersAllow(t, roles, n, i, e, PageOf(Entry(t.words, m, path[0])), path[1..], right);
    }
  }

  /** A write to a last-level table changes no upper entry. */
  lemma {:induction false} LeafKeepsUpper(t: Tables, roles: Roles, n: int, i: int, e: Word,
                                          m: int, path: seq<int>, right: Right)
    requires Inv(t, roles) && n in roles && |roles[n].path| == 3 && 0 <= i < 512
    requires m in roles && IsPath(path) && |roles[m].path| + |path| == 3
    ensures var ws := Written(t.words, n, i, e);
      && Open(ws, m, path, right) == Open(t.words, m, path, right)
      && T.Reached(ws, m, path) == T.Reached(t.words, m, path)
    decreases |path|
  {
    if path != [] {
      assert 0 <= path[0] < 512;
      PlacedIndex(t, roles, n, i);
      WrittenEntry(t.words, n, i, e, m, path[0]);
      if Present(Entry(t.words, m, path[0])) {
        PresentChild(t, roles, m, path[0]);
        LeafKeepsUpper(t, roles, n, i, e, PageOf(Entry(t.words, m, path[0])), path[1..], right);
      }
    }
  }

  /** Directories that share a page share the rights to it. */
  lemma SharedAccess(t: Tables, roles: Roles, d: int, d': int, v: Word, v': Word, right: Right)
    requires Inv(t, roles) && IsRoot(roles, d) && IsRoot(roles, d') && SlotOf(d, v) == SlotOf(d', v')
    ensures Access(t.words, d, v, right) == Access(t.words, d', v', right)
  {
    SlotsAreRoles(d, v, d', v');
    FollowAll(d, Indices(v));
    FollowAll(d', Indices(v'));
  }

  /** The rights after entry i of the last-level table for v is written. */
  lemma WriteLeafRights(t: Tables, roles: Roles, d: int, v: Word, n: int, e: Word, right: Right)
    requires Inv(t, roles) && IsRoot(roles, d) && n in roles && T.Reached(t.words, d, Indices(v)[..3]) == Some(n)
    requires roles[n] == Follow(Role(d, []), Indices(v)[..3])
    ensures var ws := Written(t.words, n, Indices(v)[3], e);
      forall d', v' :: IsRoot(roles, d') ==>
        Access(ws, d', v', right) ==
        if SlotOf(d', v') == SlotOf(d, v) then Present(e) && Bit(e, right) && UpperOpen(t.words, d, v, right)
        else Access(t.words, d', v', right)
  {
    var p, i := Indices(v)[..3], Indices(v)[3];
    T.ThreeLevels(d, v);
    T.FollowDepth(Role(d, []), p);
    var ws := Written(t.words, n, i, e);
    LeafKeepsInv(t, roles, n, i, e);
    LeafKeepsUpper(t, roles, n, i, e, d, p, right);
    AllowsSplit(ws, d, p, n, i, right);
    PlacedIndex(t, roles, n, i);
    WrittenEntry(t.words, n, i, e, n, i);
    assert roles[d] == Role(d, []);
    forall d', v' | IsRoot(roles, d')
      ensures Access(ws, d', v', right) ==
        if SlotOf(d', v') == SlotOf(d, v) then Present(e) && Bit(e, right) && UpperOpen(t.words, d, v, right)
        else Access(t.words, d', v', right)
    {
      if SlotOf(d', v') == SlotOf(d, v) {
        SharedAccess(t.(words := ws), roles, d', d, v', v, right);
      } else {
        SlotsAreRoles(d', v', d, v);
        Digits(v');
        LeafOthersAllow(t, roles, n, i, e, d', Indices(v'), right);
      }
    }
  }

  // ----- map and unmap -----

  /** After map a page is writable, or open to users, if and only if the flags ask for it and every upper entry that was
      there already grants it. No other page's rights change. */
  lemma MapRights(t: Tables, roles: Roles, d: int, v: Word, p: Word, flags: int, right: Right)
    requires Inv(t, roles) && IsRoot(roles, d) && Room(t, 3)
    ensures var t' := T.Map(t, d, v, p, flags);
      forall d', v' :: IsRoot(roles, d') ==>
        Access(t'.words, d', v', right) ==
        if SlotOf(d', v') == SlotOf(d, v) then flags % 2 == 1 && Bit(flags, right) && UpperOpen(t.words, d, v, right)
        else Access(t.words, d', v', right)
  {
    var path := Indices(v)[..3];
    T.ThreeLevels(d, v);
    assert roles[d] == Role(d, []);
    var roles' := DescendStep(t, roles, d, path, flags);
    var (t1, n) := T.GetPage(t, d, v, flags);
    LeadsReaches(t1.words, d, path, n);
    DescendOpens(t, roles, d, path, flags, right);
    LeafBits(p, flags);
    WriteLeafRights(t1, roles', d, v, n, T.Leaf(p, flags), right);
    forall d', v' | IsRoot(roles, d')
      ensures Access(t1.words, d', v', right) == Access(t.words, d', v', right)
    {
      Digits(v');
      DescendKeepsAllows(t, roles, d, path, flags, d', Indices(v'), right);
    }
  }

  /** The entry map writes: the frame, and the three low bits of the flags. */
  lemma LeafBits(p: Word, flags: int)
    ensures var e := T.Leaf(p, flags);
      && PageOf(e) == PageOf(p) && (Present(e) <==> flags % 2 == 1)
      && (forall right: Right :: Bit(e, right) <==> Bit(flags, right))
      && e % FRAME_SIZE < 8
  {
    var page, low := p / FRAME_SIZE, flags % 8;
    assert T.Leaf(p, flags) == FRAME_SIZE * page + low;
    assert flags == 8 * (flags / 8) + low;
    EightMore(512 * page, low);
    EightMore(flags / 8, low);
    PageBelow(page, low);
  }

  lemma PageBelow(page: int, low: int)
    requires 0 <= low < 8
    ensures (FRAME_SIZE * page + low) / FRAME_SIZE == page && (FRAME_SIZE * page + low) % FRAME_SIZE == low
  {
  }

  /** unmap takes all rights to one page, and no others. */
  lemma UnmapRights(t: Tables, roles: Roles, d: int, v: Word, right: Right)
    requires Inv(t, roles) && IsRoot(roles, d)
    ensures var t' := T.Unmap(t, d, v);
      forall d', v' :: IsRoot(roles, d') ==>
        Access(t'.words, d', v', right) ==
        if SlotOf(d', v') == SlotOf(d, v) then false else Access(t.words, d', v', right)
  {
    var path, i := Indices(v)[..3], Indices(v)[3];
    T.ThreeLevels(d, v);
    assert roles[d] == Role(d, []);
    T.ReachedLeads(t, roles, d, path);
    var t' := T.Unmap(t, d, v);
    match T.Reached(t.words, d, path)
    case None =>
      AccessNeedsLookup(t.words, d, Indices(v), right);
      assert T.Reached(t.words, d, path) == None;
      NoAccess(t, roles, d, v, right);
    case Some(n) =>
      T.AlignedIsAbsent(Entry(t.words, n, i));
      WriteLeafRights(t, roles, d, v, n, AlignDown(Entry(t.words, n, i)), right);
      if !Present(Entry(t.words, n, i)) {
        AllowsSplit(t.words, d, path, n, i, right);
        NoAccess(t, roles, d, v, right);
      }
  }

  lemma NoAccess(t: Tables, roles: Roles, d: int, v: Word, right: Right)
    requires Inv(t, roles) && IsRoot(roles, d) && !Access(t.words, d, v, right)
    ensures forall d', v' :: IsRoot(roles, d') && SlotOf(d', v') == SlotOf(d, v) ==> !Access(t.words, d', v', right)
  {
    forall d', v' | IsRoot(roles, d') && SlotOf(d', v') == SlotOf(d, v)
      ensures !Access(t.words, d', v', right)
    {
      SharedAccess(t, roles, d', d, v', v, right);
    }
  }

  /** A page that may be used is mapped. */
  lemma {:induction false} AccessNeedsLookup(ws: seq<Word>, n: int, path: seq<int>, right: Right)
    requires path != []
    ensures Allows(ws, n, path, right) ==> Find(ws, n, path) != None
    decreases |path|
  {
    if |path| > 1 {
      AccessNeedsLookup(ws, PageOf(Entry(ws, n, path[0])), path[1..], right);
    }
  }

  // ----- a page for the kernel first, then one for users -----

  /** What a kernel page made first closes: the tables it makes shut users out of the same 2 MiB, and a user page mapped
      there later cannot be used. */
  lemma KernelThenUser(t: Tables, roles: Roles, d: int, v: Word, p: Word, w: Word, q: Word)
    requires Inv(t, roles) && IsRoot(roles, d) && Room(t, 6)
    requires Indices(v)[..3] == Indices(w)[..3] && T.Reached(t.words, d, Indices(v)[..3]) == None
    ensures var t' := T.Map(T.Map(t, d, v, p, 3), d, w, q, 7);
      && Lookup(t'.words, d, w) == Some(T.Leaf(q, 7)) && Bit(T.Leaf(q, 7), USER)
      && !Access(t'.words, d, w, USER)
  {
    F.RoomFewer(t, 3, 6);
    var t1 := T.Map(t, d, v, p, 3);
    UpperAfterMap(t, roles, d, v, p, 3, USER);
    var roles1 := T.MapExact(t, roles, d, v, p, 3);
    F.MapRoom(t, d, v, p, 3, 3);
    assert !UpperOpen(t1.words, d, w, USER);
    MapRights(t1, roles1, d, w, q, 7, USER);
    var roles2 := T.MapExact(t1, roles1, d, w, q, 7);
    LeafBits(q, 7);
  }

  lemma UpperAfterMap(t: Tables, roles: Roles, d: int, v: Word, p: Word, flags: int, right: Right)
    requires Inv(t, roles) && IsRoot(roles, d) && Room(t, 3)
    ensures UpperOpen(T.Map(t, d, v, p, flags).words, d, v, right) <==>
      UpperOpen(t.words, d, v, right) && (T.Reached(t.words, d, Indices(v)[..3]) != None || Grants(flags, right))
  {
    var path := Indices(v)[..3];
    T.ThreeLevels(d, v);
    assert roles[d] == Role(d, []);
    var roles' := DescendStep(t, roles, d, path, flags);
    var (t1, n) := T.GetPage(t, d, v, flags);
    T.FollowDepth(Role(d, []), path);
    DescendOpens(t, roles, d, path, flags, right);
    LeafKeepsUpper(t1, roles', n, Indices(v)[3], T.Leaf(p, flags), d, path, right);
  }

  // ----- runs -----

  /** A table of directory d's own, with a path below it that stays out of the kernel half. */
  predicate Own(roles: Roles, m: int, path: seq<int>, d: int) {
    m in roles && roles[m].space == d && (roles[m].path == [] && path != [] ==> path[0] != 511)
  }

  /** A new table keeps a path open if it grants the right, or is not below directory d while the path is. */
  lemma {:induction false} LinkKeepsOpen(t: Tables, roles: Roles, n: int, i: int, flags: int,
                                         m: int, path: seq<int>, right: Right, d: int)
    requires Inv(t, roles) && CanLink(t, roles, n, i) && m in roles && IsPath(path) && |roles[m].path| + |path| == 3
    requires Grants(flags, right) || (Own(roles, m, path, d) && Child(roles[n], i).space != d)
    requires Open(t.words, m, path, right)
    ensures Open(LinkNew(t, n, i, flags).words, m, path, right)
    decreases |path|
  {
    if path != [] {
      assert 0 <= path[0] < 512;
      LinkedEntries(t, roles, n, i, flags, m, path[0]);
      if (m, path[0]) == (n, i) {
        FreshTable(t, roles, n, i, flags, path[1..], right);
      } else if Present(Entry(t.words, m, path[0])) {
        PresentChild(t, roles, m, path[0]);
        LinkKeepsOpen(t, roles, n, i, flags, PageOf(Entry(t.words, m, path[0])), path[1..], right, d);
      }
    }
  }

  lemma {:induction false} DescendKeepsOpen(t: Tables, roles: Roles, n: int, path: seq<int>, flags: int,
                                            m: int, q: seq<int>, right: Right, d: int)
    requires Inv(t, roles) && n in roles && IsPath(path) && |roles[n].path| + |path| == 3 && Room(t, |path|)
    requires m in roles && IsPath(q) && |roles[m].path| + |q| == 3
    requires Grants(flags, right) || (Own(roles, m, q, d) && (path != [] ==> Child(roles[n], path[0]).space != d))
    requires Open(t.words, m, q, right)
    ensures Open(Descend(t, n, path, flags).0.words, m, q, right)
    decreases |path|
  {
    hide Inv, SameTranslations, Grown, Open, Room;
    RoomOne(t, |path|);
    if path != [] {
      var i := path[0];
      assert 0 <= i < 512;
      var t1 := Ensured(t, n, i, flags);
      var roles1 := EnsureStep(t, roles, n, i, flags);
      if !Present(Entry(t.words, n, i)) {
        LinkKeepsOpen(t, roles, n, i, flags, m, q, right, d);
      }
      DescendKeepsOpen(t1, roles1, PageOf(Entry(t1.words, n, i)), path[1..], flags, m, q, right, d);
    }
  }

  /** The addresses directory d is asked about: all of them, or those below the kernel half. */
  predicate Concerned(low: bool, v: Word) {
    low ==> Indices(v)[0] != 511
  }

  /** No upper entry of directory d denies the right. */
  ghost predicate StaysOpen(ws: seq<Word>, d: int, right: Right, low: bool) {
    forall v :: Concerned(low, v) ==> UpperOpen(ws, d, v, right)
  }

  lemma MapKeepsOpen(t: Tables, roles: Roles, d: int, v: Word, p: Word, flags: int, e: int, right: Right, low: bool)
    requires Inv(t, roles) && IsRoot(roles, d) && IsRoot(roles, e) && Room(t, 3)
    requires Grants(flags, right) || (low && (d != e || Indices(v)[0] == 511))
    requires StaysOpen(t.words, e, right, low)
    ensures StaysOpen(T.Map(t, d, v, p, flags).words, e, right, low)
  {
    var path := Indices(v)[..3];
    T.ThreeLevels(d, v);
    assert roles[d] == Role(d, []) && roles[e] == Role(e, []) && d >= 0 && e >= 0;
    var roles' := DescendStep(t, roles, d, path, flags);
    var (t1, n) := T.GetPage(t, d, v, flags);
    T.FollowDepth(Role(d, []), path);
    forall w | Concerned(low, w)
      ensures UpperOpen(T.Map(t, d, v, p, flags).words, e, w, right)
    {
      Digits(w);
      assert UpperOpen(t.words, e, w, right);
      DescendKeepsOpen(t, roles, d, path, flags, e, Indices(w)[..3], right, e);
      LeafKeepsUpper(t1, roles', n, Indices(v)[3], T.Leaf(p, flags), e, Indices(w)[..3], right);
    }
  }

  lemma UnmapKeepsOpen(t: Tables, roles: Roles, d: int, v: Word, e: int, right: Right, low: bool)
    requires Inv(t, roles) && IsRoot(roles, d) && IsRoot(roles, e) && StaysOpen(t.words, e, right, low)
    ensures StaysOpen(T.Unmap(t, d, v).words, e, right, low)
  {
    T.ThreeLevels(d, v);
    assert roles[d] == Role(d, []) && roles[e] == Role(e, []);
    T.ReachedLeads(t, roles, d, Indices(v)[..3]);
    T.FollowDepth(Role(d, []), Indices(v)[..3]);
    forall w | Concerned(low, w)
      ensures UpperOpen(T.Unmap(t, d, v).words, e, w, right)
    {
      Digits(w);
      assert UpperOpen(t.words, e, w, right);
      match T.Reached(t.words, d, Indices(v)[..3])
      case None =>
      case Some(n) =>
        LeafKeepsUpper(t, roles, n, Indices(v)[3], AlignDown(Entry(t.words, n, Indices(v)[3])), e, Indices(w)[..3], right);
    }
  }

  lemma {:induction false} SameEntriesOpen(ws: seq<Word>, ws': seq<Word>, roles: Roles, m: int, path: seq<int>, right: Right)
    requires Tree(ws, roles) && SameEntries(ws, ws', roles) && m in roles && IsPath(path) && |roles[m].path| + |path| == 3
    ensures Open(ws', m, path, right) == Open(ws, m, path, right)
    decreases |path|
  {
    if path != [] {
      assert 0 <= path[0] < 512;
      assert Entry(ws', m, path[0]) == Entry(ws, m, path[0]);
      if Present(Entry(ws, m, path[0])) {
        SameEntriesOpen(ws, ws', roles, PageOf(Entry(ws, m, path[0])), path[1..], right);
      }
    }
  }

  /** A new directory leaves the others open ... */
  lemma CreateKeepsOpen(t: Tables, roles: Roles, d: int, e: int, right: Right, low: bool)
    requires Inv(t, roles) && Room(t, 1) && IsRoot(roles, d) && IsRoot(roles, e) && StaysOpen(t.words, e, right, low)
    ensures StaysOpen(NewDirectory(t, d).words, e, right, low)
  {
    NewDirectoryEntries(t, roles, d);
    forall w | Concerned(low, w)
      ensures UpperOpen(NewDirectory(t, d).words, e, w, right)
    {
      Digits(w);
      assert UpperOpen(t.words, e, w, right);
      SameEntriesOpen(t.words, NewDirectory(t, d).words, roles, e, Indices(w)[..3], right);
    }
  }

  /** ... and is open itself: its kernel half is that of the directory in force, and below it has nothing. */
  lemma CreatedIsOpen(t: Tables, roles: Roles, d: int, right: Right, low: bool)
    requires Inv(t, roles) && Room(t, 1) && IsRoot(roles, d) && Present(Entry(t.words, d, 511))
    requires low || StaysOpen(t.words, d, right, low)
    ensures StaysOpen(NewDirectory(t, d).words, NewPage(t), right, low)
  {
    var ws, f := NewDirectory(t, d).words, NewPage(t);
    NewDirectoryEntries(t, roles, d);
    if !low {
      CreateKeepsOpen(t, roles, d, d, right, low);
    }
    forall w | Concerned(low, w)
      ensures UpperOpen(ws, f, w, right)
    {
      Digits(w);
      CreatedPath(t, roles, d, Indices(w)[..3], right);
      assert !low ==> UpperOpen(ws, d, w, right);
    }
  }

  lemma CreatedPath(t: Tables, roles: Roles, d: int, path: seq<int>, right: Right)
    requires Inv(t, roles) && Room(t, 1) && d in roles && |path| == 3 && IsPath(path) && Present(Entry(t.words, d, 511))
    ensures var ws := NewDirectory(t, d).words;
      Open(ws, NewPage(t), path, right) == (path[0] != 511 || Open(ws, d, path, right))
  {
    NewDirectoryEntries(t, roles, d);
    assert 0 <= path[0] < 512;
  }

  /** A map below the kernel half of directory e is one for users. */
  predicate ForUsers(op: T.Op, e: int) {
    op.MapPage? && op.d == e && Indices(op.v)[0] != 511 ==> Bit(op.flags, USER)
  }

  lemma StepKeepsOpen(s: T.System, roles: Roles, op: T.Op, e: int, right: Right, low: bool)
    requires T.WellFormed(s, roles) && e in s.dirs && StaysOpen(s.t.words, e, right, low)
    requires right == WRITE || (low && ForUsers(op, e))
    ensures StaysOpen(T.Step(s, op).t.words, e, right, low)
  {
    hide Inv, StaysOpen;
    if T.Allowed(s, op) {
      match op
      case Create(d) => CreateKeepsOpen(s.t, roles, d, e, right, low);
      case MapPage(d, v, p, flags) => MapKeepsOpen(s.t, roles, d, v, p, flags, e, right, low);
      case UnmapPage(d, v) => UnmapKeepsOpen(s.t, roles, d, v, e, right, low);
    }
  }

  /** A directory whose low half only user maps touch stays open to users below the kernel half; and every directory stays
      open to writes. */
  lemma {:induction false} RunStaysOpen(s: T.System, roles: Roles, pages: map<M.Slot, Word>, ops: seq<T.Op>,
                                        e: int, right: Right, low: bool)
    requires T.WellFormed(s, roles) && T.Implements(s, pages) && e in s.dirs && StaysOpen(s.t.words, e, right, low)
    requires right == WRITE || (low && forall k :: 0 <= k < |ops| ==> ForUsers(ops[k], e))
    ensures e in T.Run(s, ops).dirs && StaysOpen(T.Run(s, ops).t.words, e, right, low)
    decreases |ops|
  {
    hide T.WellFormed, T.Implements, StaysOpen, ForUsers;
    if ops != [] {
      StepKeepsOpen(s, roles, ops[0], e, right, low);
      var roles' := T.StepImplements(s, roles, pages, ops[0]);
      RunStaysOpen(T.Step(s, ops[0]), roles', T.MapStep(pages, s, ops[0]), ops[1..], e, right, low);
    }
  }

  /** Where the upper entries are open, the entry of the page alone decides. */
  lemma EntryDecides(t: Tables, roles: Roles, d: int, v: Word, right: Right)
    requires Inv(t, roles) && IsRoot(roles, d) && UpperOpen(t.words, d, v, right)
    ensures var e := Lookup(t.words, d, v); Access(t.words, d, v, right) <==> e.Some? && Bit(e.value, right)
  {
    var path, i := Indices(v)[..3], Indices(v)[3];
    T.ThreeLevels(d, v);
    assert roles[d] == Role(d, []);
    T.ReachedLeads(t, roles, d, path);
    match T.Reached(t.words, d, path)
    case None =>
      assert Lookup(t.words, d, v) == None;
      AccessNeedsLookup(t.words, d, Indices(v), right);
    case Some(n) =>
      AllowsSplit(t.words, d, path, n, i, right);
      FindSplit(t.words, d, path, n, i);
  }

  lemma {:induction false} FindSplit(ws: seq<Word>, m: int, path: seq<int>, n: int, i: int)
    requires T.Reached(ws, m, path) == Some(n)
    ensures Find(ws, m, path + [i]) == T.IfPresent(Entry(ws, n, i))
    decreases |path|
  {
    if path != [] {
      assert (path + [i])[1..] == path[1..] + [i];
      FindSplit(ws, PageOf(Entry(ws, m, path[0])), path[1..], n, i);
    }
  }

  /** After a run in which a directory has only had pages for users mapped below the kernel half, users may use exactly
      those pages of it that are mapped with the user bit. */
  lemma UsersReachTheirPages(s: T.System, roles: Roles, pages: map<M.Slot, Word>, ops: seq<T.Op>, e: int, v: Word)
    requires T.WellFormed(s, roles) && T.Implements(s, pages) && e in s.dirs && StaysOpen(s.t.words, e, USER, true)
    requires (forall k :: 0 <= k < |ops| ==> ForUsers(ops[k], e)) && Indices(v)[0] != 511
    ensures var leaf := T.Given(T.MapRun(pages, s, ops), SlotOf(e, v));
      Access(T.Run(s, ops).t.words, e, v, USER) <==> leaf.Some? && Bit(leaf.value, USER)
  {
    RunStaysOpen(s, roles, pages, ops, e, USER, true);
    var roles' := T.RunImplements(s, roles, pages, ops);
    assert Concerned(true, v);
    EntryDecides(T.Run(s, ops).t, roles', e, v, USER);
  }

  /** Pages may be written exactly if they are mapped writable, in every directory and after every run. */
  lemma WritesReachTheirPages(s: T.System, roles: Roles, pages: map<M.Slot, Word>, ops: seq<T.Op>, e: int, v: Word)
    requires T.WellFormed(s, roles) && T.Implements(s, pages) && e in s.dirs && StaysOpen(s.t.words, e, WRITE, false)
    ensures var leaf := T.Given(T.MapRun(pages, s, ops), SlotOf(e, v));
      Access(T.Run(s, ops).t.words, e, v, WRITE) <==> leaf.Some? && Bit(leaf.value, WRITE)
  {
    RunStaysOpen(s, roles, pages, ops, e, WRITE, false);
    var roles' := T.RunImplements(s, roles, pages, ops);
    assert Concerned(false, v);
    EntryDecides(T.Run(s, ops).t, roles', e, v, WRITE);
  }

  /** The tables of the boot code are open to writes. */
  lemma KernelIsWritable(ws: seq<Word>, b: int)
    requires K.KernelTables(ws, b)
    ensures StaysOpen(ws, b, WRITE, false)
  {
    forall v
      ensures UpperOpen(ws, b, v, WRITE)
    {
      Digits(v);
      KernelPathOpen(ws, b, Indices(v)[..3]);
    }
  }

  lemma KernelPathOpen(ws: seq<Word>, b: int, p: seq<int>)
    requires K.KernelTables(ws, b) && |p| == 3 && IsPath(p)
    ensures Open(ws, b, p, WRITE)
  {
    hide K.KernelTables, Entry, PageOf, Open, Bit;
    assert 0 <= p[0] < 512 && 0 <= p[1] < 512 && 0 <= p[2] < 512;
    K.InFirstGib(ws, b);
    K.UpperEntries(ws, b, p[0]);
    K.UpperEntries(ws, b, p[1]);
    K.LowerEntries(ws, b, p[2], 0);
    WritableEntry(b + 1);
    WritableEntry(b + 2);
    WritableEntry(b + 3 + p[2]);
    OpenStep(ws, b, p, WRITE);
    OpenStep(ws, b + 1, p[1..], WRITE);
    OpenStep(ws, b + 2, p[1..][1..], WRITE);
    OpenEnd(ws, b + 3 + p[2], WRITE);
    assert p[1..][1..][1..] == [];
  }

  lemma WritableEntry(page: int)
    requires 0 <= page < 4096
    ensures var e: Word := FRAME_SIZE * page + 3; PageOf(e) == page && Bit(e, WRITE)
  {
    LowBits(page, 3);
    assert Bit(3, WRITE);
  }

  lemma OpenStep(ws: seq<Word>, n: int, path: seq<int>, right: Right)
    requires path != []
    ensures var e := Entry(ws, n, path[0]);
      Open(ws, n, path, right) == (Present(e) ==> Bit(e, right) && Open(ws, PageOf(e), path[1..], right))
  {
  }

  lemma OpenEnd(ws: seq<Word>, n: int, right: Right)
    ensures Open(ws, n, [], right)
  {
  }
}
