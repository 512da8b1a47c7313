/** paging.cpp: page tables written in place in physical memory. */
module PageTables {
  import opened Words
  import opened Placement
  import opened PageTree
  import opened Translation
  import T = Translation

  class Paging {
    const words: array<Word>  // the first gibibyte of physical memory
    const placement: Bump
    ghost var roles: Roles    // the tables in use

    ghost function State(): Tables
      reads words, placement
    {
      Tables(words[..], placement.next)
    }

    ghost predicate Valid()
      reads this, words, placement
    {
      Inv(State(), roles)
    }

    /** Takes over tables that are a tree already, as those of the boot code are. */
    constructor (words: array<Word>, placement: Bump, ghost roles: Roles)
      requires Inv(Tables(words[..], placement.next), roles)
      ensures Valid() && this.words == words && this.placement == placement && this.roles == roles
    {
      this.words, this.placement, this.roles := words, placement, roles;
    }

    /** placement_kalloc and memset: a zeroed page. */
    method NewTable() returns (f: int, paddr: Word)
      requires Valid() && Room(State(), 1)
      modifies words, placement
      ensures State() == Allocated(old(State()))
      ensures f == NewPage(old(State()))
      ensures paddr == FRAME_SIZE * f && paddr + 7 < TWO_64
      ensures f !in roles && 0 <= Index(f, 0) && Index(f, 512) <= words.Length
    {
      NewPageIsFresh(State(), roles);
      ghost var page := NewPage(State());
      var _, p := placement.Kalloc(FRAME_SIZE, true);
      PhysicalAddress(p, page);
      paddr := p;
      f := PageOf(paddr);
      ghost var before := words[..];
      var i := 0;
      while i < 512
        invariant 0 <= i <= 512 && placement.next == After(old(placement.next), Request(FRAME_SIZE, true))
        invariant forall k :: 0 <= k < words.Length ==>
          words[k] == if Index(f, 0) <= k < Index(f, i) then 0 else before[k]
      {
        words[Index(f, i)] := 0;
        i := i + 1;
      }
      ZeroedPage(before, words[..], f);
    }

    /** One level of get_page: a new table unless the entry is present. */
    method EnsureTable(n: int, i: int, flags: int)
      requires Valid() && Room(State(), 1) && n in roles && |roles[n].path| < 3 && 0 <= i < 512
      modifies this, words, placement
      ensures Valid() && State() == Ensured(old(State()), n, i, flags) && Extends(old(roles), roles)
      ensures var e := Entry(State().words, n, i);
        Present(e) && PageOf(e) in roles && roles[PageOf(e)] == Child(roles[n], i)
      ensures forall k: nat :: Room(old(State()), k + 1) ==> Room(State(), k)
    {
      hide Inv, SameTranslations, Grown;
      EntryInMemory(State(), roles, n, i);
      ghost var roles' := EnsureStep(State(), roles, n, i, flags);
      if !Present(words[Index(n, i)]) {
        var _, paddr := NewTable();
        OrFlags(paddr, DirFlags(flags));
        words[Index(n, i)] := BitOr(paddr, DirFlags(flags));
      }
      roles := roles';
    }

    /** The table below entry i of table n, made if need be and if wanted. */
    method NextTable(n: int, i: int, flags: int, make: bool) returns (next: Option<int>)
      requires Valid() && n in roles && |roles[n].path| < 3 && 0 <= i < 512 && (make ==> Room(State(), 1))
      modifies this, words, placement
      ensures Valid() && Extends(old(roles), roles)
      ensures State() == if make then Ensured(old(State()), n, i, flags) else old(State())
      ensures var e := Entry(State().words, n, i); next == if Present(e) then Some(PageOf(e)) else None
      ensures next.Some? ==> next.value in roles && roles[next.value] == Child(roles[n], i)
      ensures make ==> next.Some? && forall k: nat :: Room(old(State()), k + 1) ==> Room(State(), k)
    {
      hide Inv, Ensured, Entry, Room, Child;
      EntryInMemory(State(), roles, n, i);
      if !Present(words[Index(n, i)]) && !make {
        return None;
      }
      if make {
        EnsureTable(n, i, flags);
      } else {
        PresentChild(State(), roles, n, i);
      }
      EntryInMemory(State(), roles, n, i);
      return Some(PageOf(words[Index(n, i)]));
    }

    /** get_page: the last-level table for v. */
    method GetPage(dir: Word, v: Word, flags: int, make: bool) returns (table: Option<int>)
      requires Valid() && IsRoot(roles, PageOf(dir)) && (make ==> Room(State(), 3))
      modifies this, words, placement
      ensures Valid() && Extends(old(roles), roles)
      ensures var (t, n) := T.GetPage(old(State()), PageOf(dir), v, flags);
        make ==> State() == t && table == Some(n)
      ensures !make ==> State() == old(State()) && table == Reached(State().words, PageOf(dir), Indices(v)[..3])
      ensures table.Some? ==> table.value in roles && |roles[table.value].path| == 3
    {
      hide Inv;
      var d, p := PageOf(dir), Indices(v);
      Digits(v);
      FirstThree(v);
      DescendThree(State(), d, p[0], p[1], p[2], flags);
      ReachedThree(State().words, d, p[0], p[1], p[2]);
      table := NextTable(d, p[0], flags, make);
      if table == None {
        return;
      }
      table := NextTable(table.value, p[1], flags, make);
      if table == None {
        return;
      }
      table := NextTable(table.value, p[2], flags, make);
    }

    /** map: 0 for success, which it always has. */
    method Map(dir: Word, v: Word, p: Word, flags: nat) returns (result: int)
      requires Valid() && IsRoot(roles, PageOf(dir)) && Room(State(), 3)
      modifies this, words, placement
      ensures Valid() && Extends(old(roles), roles)
      ensures result == 0 && State() == T.Map(old(State()), PageOf(dir), v, p, flags)
    {
      hide Inv;
      Digits(v);
      var table := GetPage(dir, v, flags, true);
      if table == None {
        return -1;
      }
      var entry := BuildEntry(p, flags);
      var n, i := table.value, Indices(v)[3];
      EntryInMemory(State(), roles, n, i);
      LeafKeepsInv(State(), roles, n, i, entry);
      words[Index(n, i)] := entry;
      return 0;
    }

    method BuildEntry(p: Word, flags: nat) returns (entry: Word)
      ensures entry == Leaf(p, flags)
    {
      hide BitOr, AlignDown;
      LeafFits(p, flags);
      entry := AlignDown(p);
      if flags % 2 == 1 {
        OrPermission(entry, 0, 1);
        entry := BitOr(entry, 1);
      }
      if flags / 2 % 2 == 1 {
        OrPermission(AlignDown(p), flags % 2, 2);
        entry := BitOr(entry, 2);
      }
      if flags / 4 % 2 == 1 {
        OrPermission(AlignDown(p), flags % 4, 4);
        entry := BitOr(entry, 4);
      }
    }

    method Unmap(dir: Word, v: Word)
      requires Valid() && IsRoot(roles, PageOf(dir))
      modifies words
      ensures Valid() && State() == T.Unmap(old(State()), PageOf(dir), v)
    {
      hide Inv;
      var d, p := PageOf(dir), Indices(v);
      Digits(v);
      FirstThree(v);
      ReachedThree(State().words, d, p[0], p[1], p[2]);
      EntryInMemory(State(), roles, d, p[0]);
      if !Present(words[Index(d, p[0])]) {
        return;
      }
      PresentChild(State(), roles, d, p[0]);
      var pdpt := PageOf(words[Index(d, p[0])]);
      EntryInMemory(State(), roles, pdpt, p[1]);
      if !Present(words[Index(pdpt, p[1])]) {
        return;
      }
      PresentChild(State(), roles, pdpt, p[1]);
      var pde := PageOf(words[Index(pdpt, p[1])]);
      EntryInMemory(State(), roles, pde, p[2]);
      if !Present(words[Index(pde, p[2])]) {
        return;
      }
      PresentChild(State(), roles, pde, p[2]);
      var n := PageOf(words[Index(pde, p[2])]);
      EntryInMemory(State(), roles, n, p[3]);
      if !Present(words[Index(n, p[3])]) {
        return;
      }
      LeafKeepsInv(State(), roles, n, p[3], AlignDown(words[Index(n, p[3])]));
      words[Index(n, p[3])] := AlignDown(words[Index(n, p[3])]);
    }

    /** create_page_directory, with the physical address of the directory in force; null if that has no kernel half. */
    method CreatePageDirectory(current: Word) returns (dir: Word)
      requires Valid() && IsRoot(roles, PageOf(current)) && Room(State(), 1)
      modifies this, words, placement
      ensures Valid() && State() == NewDirectory(old(State()), PageOf(current))
      ensures var d := PageOf(current);
        if Present(Entry(old(State()).words, d, 511))
        then PageOf(dir) == NewPage(old(State())) && IsRoot(roles, PageOf(dir)) && PageOf(dir) !in old(roles)
        else dir == 0 && roles == old(roles)
    {
      hide Inv;
      var d := PageOf(current);
      NewDirectoryStep(State(), roles, d);
      EntryInMemory(State(), roles, d, 511);
      NewDirectoryWrites(State(), roles, d);
      var f, paddr := NewTable();
      if !Present(words[Index(d, 511)]) {
        return 0;
      }
      words[Index(f, 511)] := words[Index(d, 511)];
      roles := roles[f := Role(f, [])];
      return paddr;
    }
  }

  lemma ZeroedPage(ws: seq<Word>, ws': seq<Word>, f: int)
    requires |ws'| == |ws|
    requires forall k :: 0 <= k < |ws| ==> ws'[k] == if Index(f, 0) <= k < Index(f, 512) then 0 else ws[k]
    ensures ws' == Cleared(ws, f)
  {
  }

  lemma EntryInMemory(t: Tables, roles: Roles, n: int, i: int)
    requires Inv(t, roles) && n in roles && 0 <= i < 512
    ensures 0 <= Index(n, i) < |t.words| && Entry(t.words, n, i) == t.words[Index(n, i)]
  {
    PlacedIndex(t, roles, n, i);
  }

  lemma LeafFits(p: Word, flags: nat)
    ensures AlignDown(p) % FRAME_SIZE == 0 && AlignDown(p) + 7 < TWO_64
    ensures Leaf(p, flags) == AlignDown(p) + flags % 2 + 2 * (flags / 2 % 2) + 4 * (flags / 4 % 2)
    ensures flags % 4 == flags % 2 + 2 * (flags / 2 % 2)
  {
    ThreeBits(flags);
    AlignedBelow(p);
  }

  lemma AlignedBelow(p: Word)
    ensures AlignDown(p) % FRAME_SIZE == 0 && AlignDown(p) + 7 < TWO_64
  {
    assert p == FRAME_SIZE * (p / FRAME_SIZE) + p % FRAME_SIZE;
  }

  lemma ThreeBits(f: nat)
    ensures f % 4 == f % 2 + 2 * (f / 2 % 2) && f % 8 == f % 2 + 2 * (f / 2 % 2) + 4 * (f / 4 % 2)
  {
    var a := f / 2;
    var b := a / 2;
    assert b == f / 4;
    assert f == 4 * b + (f % 2 + 2 * (a % 2));
    assert f == 8 * (b / 2) + (f % 2 + 2 * (a % 2) + 4 * (b % 2));
  }

  lemma PhysicalAddress(p: Word, page: int)
    requires page >= 0 && FRAME_SIZE * page + KVIRTUAL_ADDRESS < TWO_64
    requires (p + KVIRTUAL_ADDRESS) % TWO_64 == FRAME_SIZE * page + KVIRTUAL_ADDRESS
    ensures p == FRAME_SIZE * page
  {
  }

  /** get_page's recursion, unrolled. */
  lemma DescendThree(t: Tables, d: int, a: int, b: int, c: int, flags: int)
    ensures var t1 := Ensured(t, d, a, flags);
      var n1 := PageOf(Entry(t1.words, d, a));
      var t2 := Ensured(t1, n1, b, flags);
      var n2 := PageOf(Entry(t2.words, n1, b));
      var t3 := Ensured(t2, n2, c, flags);
      Descend(t, d, [a, b, c], flags) == (t3, PageOf(Entry(t3.words, n2, c)))
  {
    hide Ensured, Entry;
    assert [a, b, c][1..] == [b, c] && [b, c][1..] == [c] && [c][1..] == [];
    var t1 := Ensured(t, d, a, flags);
    var n1 := PageOf(Entry(t1.words, d, a));
    var t2 := Ensured(t1, n1, b, flags);
    var n2 := PageOf(Entry(t2.words, n1, b));
    assert Descend(t, d, [a, b, c], flags) == Descend(t1, n1, [b, c], flags);
    assert Descend(t1, n1, [b, c], flags) == Descend(t2, n2, [c], flags);
  }

  lemma ReachedThree(ws: seq<Word>, d: int, a: int, b: int, c: int)
    ensures Reached(ws, d, [a, b, c]) ==
      if !Present(Entry(ws, d, a)) then None else
        var n1 := PageOf(Entry(ws, d, a));
        if !Present(Entry(ws, n1, b)) then None else
          var n2 := PageOf(Entry(ws, n1, b));
          if !Present(Entry(ws, n2, c)) then None else Some(PageOf(Entry(ws, n2, c)))
  {
    hide Entry;
    assert [a, b, c][1..] == [b, c] && [b, c][1..] == [c] && [c][1..] == [];
    if Present(Entry(ws, d, a)) {
      var n1 := PageOf(Entry(ws, d, a));
      assert Reached(ws, d, [a, b, c]) == Reached(ws, n1, [b, c]);
      if Present(Entry(ws, n1, b)) {
        assert Reached(ws, n1, [b, c]) == Reached(ws, PageOf(Entry(ws, n1, b)), [c]);
      }
    }
  }

  lemma FirstThree(v: Word)
    ensures var p := Indices(v); p[..3] == [p[0], p[1], p[2]]
  {
  }

  lemma NewDirectoryWrites(t: Tables, roles: Roles, d: int)
    requires Inv(t, roles) && Room(t, 1) && d in roles
    ensures Entry(Allocated(t).words, d, 511) == Entry(t.words, d, 511)
    ensures 0 <= Index(NewPage(t), 511) < |t.words|
    ensures Index(d, 511) < |t.words|
  {
    ClearedEntries(t, roles, d, 511);
    NewPageIsFresh(t, roles);
    PlacedIndex(t, roles, d, 511);
  }
}
