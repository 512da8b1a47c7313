/** Four-level page tables as a tree in physical memory, and what writing one entry does to the translations. */
module PageTree {
  import opened Words
  import opened Placement
  import M = PageMapping

  const GIB_WORDS: int := 0x800_0000  // the memory below 1 GiB, in 8-byte words
  const KERNEL: int := -1             // the space all directories share: index 511 of the top table

  /** Memory, and the bump allocator's pointer. */
  datatype Tables = Tables(words: seq<Word>, next: Word)

  predicate Present(e: Word) {
    e % 2 == 1
  }

  /** The number of the page an entry points to: its address without the low twelve bits. */
  function PageOf(e: Word): int {
    e / FRAME_SIZE
  }

  function Index(n: int, i: int): int {
    512 * n + i
  }

  function Entry(ws: seq<Word>, n: int, i: int): Word {
    if 0 <= Index(n, i) < |ws| then ws[Index(n, i)] else 0
  }

  /** The nine-bit fields of an address that index the four levels. */
  function Indices(v: Word): seq<int> {
    [v / 0x80_0000_0000 % 512, v / 0x4000_0000 % 512, v / 0x20_0000 % 512, v / FRAME_SIZE % 512]
  }

  predicate IsPath(path: seq<int>) {
    forall k :: 0 <= k < |path| ==> 0 <= path[k] < 512
  }

  /** The processor's walk from table n: the last entry, if every one on the way is present. */
  function Find(ws: seq<Word>, n: int, path: seq<int>): Option<Word>
    decreases |path|
  {
    if path == [] then None else
      var e := Entry(ws, n, path[0]);
      if !Present(e) then None
      else if |path| == 1 then Some(e)
      else Find(ws, PageOf(e), path[1..])
  }

  /** The frame and flags that directory d gives to address v. */
  function Lookup(ws: seq<Word>, d: int, v: Word): Option<Word> {
    Find(ws, d, Indices(v))
  }

  // ----- the fields determine the page -----

  /** Directory and page; the pages below index 511 belong to the shared kernel space. */
  function SlotOf(d: int, v: Word): M.Slot {
    M.Slot(if Indices(v)[0] == 511 then KERNEL else d, v / FRAME_SIZE % 0x10_0000_0000)
  }

  /** A quotient by 512 n is reached by way of the quotient by n. */
  lemma Shifts(v: Word)
    ensures var a := v / FRAME_SIZE; var b := a / 512; var c := b / 512;
      v / 0x20_0000 == b && v / 0x4000_0000 == c && v / 0x80_0000_0000 == c / 512
  {
  }

  /** The fields are the base-512 digits of the page. */
  lemma Digits(v: Word)
    ensures IsPath(Indices(v))
    ensures var p := Indices(v); v / FRAME_SIZE % 0x10_0000_0000 == ((p[0] * 512 + p[1]) * 512 + p[2]) * 512 + p[3]
  {
    Shifts(v);
    var a := v / FRAME_SIZE;
    var b := a / 512;
    var c := b / 512;
    var d := c / 512;
    var low := ((d % 512 * 512 + c % 512) * 512 + b % 512) * 512 + a % 512;
    assert a == 0x10_0000_0000 * (d / 512) + low;
    assert 0 <= low < 0x10_0000_0000;
    Remainder(a, d / 512, low);
  }

  lemma Remainder(a: int, q: int, low: int)
    requires a == 0x10_0000_0000 * q + low && 0 <= low < 0x10_0000_0000
    ensures a % 0x10_0000_0000 == low
  {
  }

  lemma SameDigits(a: int, x: int, b: int, y: int)
    requires a * 512 + x == b * 512 + y && 0 <= x < 512 && 0 <= y < 512
    ensures a == b && x == y
  {
  }

  /** Two addresses are indexed alike exactly if they lie in the same page, the 16 unused high bits aside. */
  lemma IndicesInjective(v: Word, w: Word)
    ensures Indices(v) == Indices(w) <==> v / FRAME_SIZE % 0x10_0000_0000 == w / FRAME_SIZE % 0x10_0000_0000
  {
    Digits(v);
    Digits(w);
    var p, q := Indices(v), Indices(w);
    if v / FRAME_SIZE % 0x10_0000_0000 == w / FRAME_SIZE % 0x10_0000_0000 {
      SameDigits((p[0] * 512 + p[1]) * 512 + p[2], p[3], (q[0] * 512 + q[1]) * 512 + q[2], q[3]);
      SameDigits(p[0] * 512 + p[1], p[2], q[0] * 512 + q[1], q[2]);
      SameDigits(p[0], p[1], q[0], q[1]);
    }
  }

  // ----- roles: the place of each table in the tree -----

  /** The table that path leads to in the tree of a directory, or of the shared space. */
  datatype Role = Role(space: int, path: seq<int>)

  type Roles = map<int, Role>

  function Child(r: Role, i: int): Role {
    if r.path == [] && i == 511 then Role(KERNEL, [511]) else Role(r.space, r.path + [i])
  }

  function Follow(r: Role, path: seq<int>): Role
    decreases |path|
  {
    if path == [] then r else Follow(Child(r, path[0]), path[1..])
  }

  predicate IsRoot(roles: Roles, d: int) {
    d in roles && roles[d].path == []
  }

  /** Every present entry above the last level points to a table whose role is to be there:
      so no table is reachable in two ways, except through the entry all directories share. */
  ghost predicate Tree(ws: seq<Word>, roles: Roles) {
    forall n, i :: n in roles && |roles[n].path| < 3 && 0 <= i < 512 && Present(Entry(ws, n, i)) ==>
      PageOf(Entry(ws, n, i)) in roles && roles[PageOf(Entry(ws, n, i))] == Child(roles[n], i)
  }

  /** All tables lie in memory below the bump allocator's pointer. */
  ghost predicate Placed(t: Tables, roles: Roles) {
    && |t.words| == GIB_WORDS && KVIRTUAL_ADDRESS <= t.next <= KVIRTUAL_ADDRESS + 8 * GIB_WORDS
    && forall n :: n in roles ==>
      && 0 <= n && KVIRTUAL_ADDRESS + FRAME_SIZE * (n + 1) <= t.next
      && |roles[n].path| <= 3 && (roles[n].path == [] ==> roles[n].space == n)
  }

  /** All directories have the same kernel half; while there is none, there is one directory. */
  ghost predicate Shared(ws: seq<Word>, roles: Roles) {
    forall d, e :: IsRoot(roles, d) && IsRoot(roles, e) && d != e ==>
      Present(Entry(ws, d, 511)) && Entry(ws, d, 511) == Entry(ws, e, 511)
  }

  ghost predicate Inv(t: Tables, roles: Roles) {
    Placed(t, roles) && Tree(t.words, roles) && Shared(t.words, roles)
  }

  /** A walk along all of the path that remains below a table. */
  predicate Complete(roles: Roles, n: int, path: seq<int>) {
    n in roles && IsPath(path) && |roles[n].path| + |path| == 4
  }

  ghost predicate SameTranslations(ws: seq<Word>, ws': seq<Word>, roles: Roles) {
    forall n, path :: Complete(roles, n, path) ==> Find(ws', n, path) == Find(ws, n, path)
  }

  /** Present entries stay. */
  ghost predicate Grown(ws: seq<Word>, ws': seq<Word>, roles: Roles) {
    forall n, i :: n in roles && 0 <= i < 512 && Present(Entry(ws, n, i)) ==> Entry(ws', n, i) == Entry(ws, n, i)
  }

  lemma CompleteStep(ws: seq<Word>, roles: Roles, n: int, path: seq<int>)
    requires Tree(ws, roles) && Complete(roles, n, path) && |path| > 1 && Present(Entry(ws, n, path[0]))
    ensures Complete(roles, PageOf(Entry(ws, n, path[0])), path[1..])
    ensures roles[PageOf(Entry(ws, n, path[0]))] == Child(roles[n], path[0])
  {
    assert 0 <= path[0] < 512;
  }

  /** More tables below the directories there are. */
  ghost predicate Extends(roles: Roles, roles': Roles) {
    && (forall n :: n in roles ==> n in roles' && roles'[n] == roles[n])
    && (forall n :: IsRoot(roles', n) ==> IsRoot(roles, n))
  }

  // ----- a new table -----

  /** Room for k more tables. */
  predicate Room(t: Tables, k: nat) {
    t.next <= KVIRTUAL_ADDRESS + 8 * GIB_WORDS && AlignUp(t.next) + FRAME_SIZE * k <= KVIRTUAL_ADDRESS + 8 * GIB_WORDS
  }

  /** The page the bump allocator hands out next. */
  function NewPage(t: Tables): int {
    (AlignUp(t.next) - KVIRTUAL_ADDRESS) % TWO_64 / FRAME_SIZE
  }

  function Written(ws: seq<Word>, n: int, i: int, e: Word): seq<Word> {
    if 0 <= Index(n, i) < |ws| then ws[Index(n, i) := e] else ws
  }

  function Cleared(ws: seq<Word>, f: int): (r: seq<Word>)
    ensures |r| == |ws| && forall k :: 0 <= k < |ws| ==> r[k] == if k / 512 == f then 0 else ws[k]
  {
    seq(|ws|, k requires 0 <= k < |ws| => if k / 512 == f then 0 else ws[k])
  }

  function Allocated(t: Tables): Tables {
    Tables(Cleared(t.words, NewPage(t)), After(t.next, Request(FRAME_SIZE, true)))
  }

  /** Present and writable; for a user page also accessible to users. */
  function DirFlags(flags: int): int {
    if flags / 4 % 2 == 1 then 7 else 3
  }

  /** One level of get_page where the entry is absent. */
  function LinkNew(t: Tables, n: int, i: int, flags: int): Tables {
    Allocated(t).(words := Written(Allocated(t).words, n, i, (FRAME_SIZE * NewPage(t) + DirFlags(flags)) % TWO_64))
  }

  lemma NewPageIsFresh(t: Tables, roles: Roles)
    requires Placed(t, roles) && Room(t, 1)
    ensures 0 <= NewPage(t) && Index(NewPage(t), 512) <= |t.words| && NewPage(t) !in roles
    ensures FRAME_SIZE * NewPage(t) == AlignUp(t.next) - KVIRTUAL_ADDRESS
    ensures FRAME_SIZE * NewPage(t) + 7 < TWO_64
  {
    assert KVIRTUAL_ADDRESS % FRAME_SIZE == 0;
  }

  lemma PlacedIndex(t: Tables, roles: Roles, n: int, i: int)
    requires Placed(t, roles) && n in roles && 0 <= i < 512
    ensures 0 <= Index(n, i) < |t.words| && Index(n, i) / 512 == n
  {
  }

  lemma ClearedEntries(t: Tables, roles: Roles, m: int, j: int)
    requires Placed(t, roles) && Room(t, 1) && 0 <= j < 512
    ensures m in roles ==> Entry(Allocated(t).words, m, j) == Entry(t.words, m, j)
    ensures m == NewPage(t) ==> Entry(Allocated(t).words, m, j) == 0
  {
    NewPageIsFresh(t, roles);
    if m in roles {
      PlacedIndex(t, roles, m, j);
    }
  }

  lemma LinkedEntries(t: Tables, roles: Roles, n: int, i: int, flags: int, m: int, j: int)
    requires Placed(t, roles) && Room(t, 1) && n in roles && 0 <= i < 512 && 0 <= j < 512
    ensures var ws := LinkNew(t, n, i, flags).words;
      && (m in roles && (m, j) != (n, i) ==> Entry(ws, m, j) == Entry(t.words, m, j))
      && (m == NewPage(t) ==> Entry(ws, m, j) == 0)
      && Present(Entry(ws, n, i)) && PageOf(Entry(ws, n, i)) == NewPage(t)
  {
    hide Placed, Room, NewPage, Entry, Written, Allocated, Present, PageOf, DirFlags;
    ClearedEntries(t, roles, m, j);
    NewPageIsFresh(t, roles);
    PlacedIndex(t, roles, n, i);
    DirEntry(NewPage(t), flags);
    var e := (FRAME_SIZE * NewPage(t) + DirFlags(flags)) % TWO_64;
    AllocatedSize(t);
    WrittenEntry(Allocated(t).words, n, i, e, m, j);
    WrittenEntry(Allocated(t).words, n, i, e, n, i);
  }

  lemma AllocatedSize(t: Tables)
    ensures |Allocated(t).words| == |t.words|
  {
  }

  lemma WrittenEntry(ws: seq<Word>, n: int, i: int, e: Word, m: int, j: int)
    requires 0 <= i < 512 && 0 <= j < 512 && 0 <= Index(n, i) < |ws|
    ensures Entry(Written(ws, n, i, e), m, j) == if (m, j) == (n, i) then e else Entry(ws, m, j)
  {
    hide Index;
    IndexInjective(n, i, m, j);
  }

  lemma IndexInjective(n: int, i: int, m: int, j: int)
    requires 0 <= i < 512 && 0 <= j < 512
    ensures Index(n, i) == Index(m, j) ==> n == m && i == j
  {
    if n < m {
      assert 512 * n + 512 <= 512 * m;
    } else if m < n {
      assert 512 * m + 512 <= 512 * n;
    }
  }

  lemma DirEntry(page: int, flags: int)
    requires 0 <= page && FRAME_SIZE * page + 7 < TWO_64
    ensures var e := (FRAME_SIZE * page + DirFlags(flags)) % TWO_64; Present(e) && PageOf(e) == page
  {
    assert FRAME_SIZE * page + DirFlags(flags) == 2 * (2048 * page + DirFlags(flags) / 2) + 1;
  }

  predicate CanLink(t: Tables, roles: Roles, n: int, i: int) {
    Room(t, 1) && n in roles && |roles[n].path| < 3 && 0 <= i < 512 && !Present(Entry(t.words, n, i))
  }

  lemma {:induction false} LinkKeepsFind(t: Tables, roles: Roles, n: int, i: int, flags: int, m: int, path: seq<int>)
    requires Inv(t, roles) && CanLink(t, roles, n, i) && Complete(roles, m, path)
    ensures Find(LinkNew(t, n, i, flags).words, m, path) == Find(t.words, m, path)
    decreases |path|
  {
    assert 0 <= path[0] < 512;
    LinkedEntries(t, roles, n, i, flags, m, path[0]);
    if (m, path[0]) == (n, i) {
      var ws := LinkNew(t, n, i, flags).words;
      LinkedEntries(t, roles, n, i, flags, NewPage(t), path[1]);
      assert Find(ws, NewPage(t), path[1..]) == None;
    } else if |path| > 1 && Present(Entry(t.words, m, path[0])) {
      CompleteStep(t.words, roles, m, path);
      LinkKeepsFind(t, roles, n, i, flags, PageOf(Entry(t.words, m, path[0])), path[1..]);
    }
  }

  /** What LinkNew leaves and makes, in all entries. */
  ghost predicate Links(ws: seq<Word>, ws': seq<Word>, roles: Roles, n: int, i: int, f: int) {
    && (forall m, j :: m in roles && 0 <= j < 512 && (m, j) != (n, i) ==> Entry(ws', m, j) == Entry(ws, m, j))
    && (forall j :: 0 <= j < 512 ==> Entry(ws', f, j) == 0)
    && Present(Entry(ws', n, i)) && PageOf(Entry(ws', n, i)) == f
  }

  lemma LinkLinks(t: Tables, roles: Roles, n: int, i: int, flags: int)
    requires Placed(t, roles) && CanLink(t, roles, n, i)
    ensures NewPage(t) !in roles && Links(t.words, LinkNew(t, n, i, flags).words, roles, n, i, NewPage(t))
  {
    hide Placed, LinkNew, Room, NewPage;
    NewPageIsFresh(t, roles);
    var ws := LinkNew(t, n, i, flags).words;
    forall m, j | 0 <= j < 512
      ensures (m in roles && (m, j) != (n, i) ==> Entry(ws, m, j) == Entry(t.words, m, j))
              && (m == NewPage(t) ==> Entry(ws, m, j) == 0)
    {
      LinkedEntries(t, roles, n, i, flags, m, j);
    }
    LinkedEntries(t, roles, n, i, flags, n, i);
  }

  lemma LinkTree(ws: seq<Word>, ws': seq<Word>, roles: Roles, n: int, i: int, f: int)
    requires Tree(ws, roles) && Links(ws, ws', roles, n, i, f) && n in roles && f !in roles
    ensures Tree(ws', roles[f := Child(roles[n], i)])
  {
    hide Entry, Child;
    var roles' := roles[f := Child(roles[n], i)];
    forall m, j | m in roles' && |roles'[m].path| < 3 && 0 <= j < 512 && Present(Entry(ws', m, j))
      ensures PageOf(Entry(ws', m, j)) in roles' && roles'[PageOf(Entry(ws', m, j))] == Child(roles'[m], j)
    {
      if m != f && (m, j) != (n, i) {
        assert Entry(ws', m, j) == Entry(ws, m, j);
      }
    }
  }

  lemma LinkShared(ws: seq<Word>, ws': seq<Word>, roles: Roles, n: int, i: int, f: int)
    requires Shared(ws, roles) && Links(ws, ws', roles, n, i, f) && n in roles && f !in roles
    requires !Present(Entry(ws, n, i))
    ensures Shared(ws', roles[f := Child(roles[n], i)])
  {
    hide Entry;
    var roles' := roles[f := Child(roles[n], i)];
    assert forall d :: IsRoot(roles', d) ==> IsRoot(roles, d);
    forall d, e | IsRoot(roles', d) && IsRoot(roles', e) && d != e
      ensures Present(Entry(ws', d, 511)) && Entry(ws', d, 511) == Entry(ws', e, 511)
    {
      assert Present(Entry(ws, d, 511)) && Present(Entry(ws, e, 511));
    }
  }

  lemma LinkPlaced(t: Tables, roles: Roles, n: int, i: int, flags: int)
    requires Placed(t, roles) && CanLink(t, roles, n, i)
    ensures Placed(LinkNew(t, n, i, flags), roles[NewPage(t) := Child(roles[n], i)])
  {
    NewPageIsFresh(t, roles);
  }

  /** Linking in a fresh zeroed table keeps the tree a tree, and every translation. */
  lemma LinkStep(t: Tables, roles: Roles, n: int, i: int, flags: int)
    requires Inv(t, roles) && CanLink(t, roles, n, i)
    ensures var t', roles' := LinkNew(t, n, i, flags), roles[NewPage(t) := Child(roles[n], i)];
      && NewPage(t) !in roles && Inv(t', roles') && Extends(roles, roles')
      && SameTranslations(t.words, t'.words, roles) && Grown(t.words, t'.words, roles)
      && Present(Entry(t'.words, n, i)) && PageOf(Entry(t'.words, n, i)) == NewPage(t)
  {
    hide Entry, Placed, LinkNew, Tree, Shared, NewPage, Room;
    var t' := LinkNew(t, n, i, flags);
    LinkLinks(t, roles, n, i, flags);
    LinkPlaced(t, roles, n, i, flags);
    LinkTree(t.words, t'.words, roles, n, i, NewPage(t));
    LinkShared(t.words, t'.words, roles, n, i, NewPage(t));
    forall m, path | Complete(roles, m, path)
      ensures Find(t'.words, m, path) == Find(t.words, m, path)
    {
      LinkKeepsFind(t, roles, n, i, flags, m, path);
    }
  }

  /** One level of get_page. */
  function Ensured(t: Tables, n: int, i: int, flags: int): Tables {
    if Present(Entry(t.words, n, i)) then t else LinkNew(t, n, i, flags)
  }

  /** get_page: goes down along the path, making the tables that are absent; and the table it comes to. */
  function Descend(t: Tables, n: int, path: seq<int>, flags: int): (Tables, int)
    decreases |path|
  {
    if path == [] then (t, n) else
      var t' := Ensured(t, n, path[0], flags);
      Descend(t', PageOf(Entry(t'.words, n, path[0])), path[1..], flags)
  }

  /** The path leads from table n to table last through present entries. */
  predicate Leads(ws: seq<Word>, n: int, path: seq<int>, last: int)
    decreases |path|
  {
    if path == [] then n == last
    else Present(Entry(ws, n, path[0])) && Leads(ws, PageOf(Entry(ws, n, path[0])), path[1..], last)
  }

  lemma EnsureStep(t: Tables, roles: Roles, n: int, i: int, flags: int) returns (roles': Roles)
    requires Inv(t, roles) && n in roles && |roles[n].path| < 3 && 0 <= i < 512 && Room(t, 1)
    ensures var t' := Ensured(t, n, i, flags);
      && Inv(t', roles') && Extends(roles, roles')
      && SameTranslations(t.words, t'.words, roles) && Grown(t.words, t'.words, roles)
      && Present(Entry(t'.words, n, i)) && PageOf(Entry(t'.words, n, i)) in roles'
      && roles'[PageOf(Entry(t'.words, n, i))] == Child(roles[n], i)
      && (forall k: nat :: Room(t, k + 1) ==> Room(t', k))
  {
    hide Entry, Placed, Tree, Shared, SameTranslations, Grown;
    LinkRoom(t, n, i, flags);
    if Present(Entry(t.words, n, i)) {
      roles' := roles;
      PresentChild(t, roles, n, i);
      Unchanged(t.words, roles);
    } else {
      LinkStep(t, roles, n, i, flags);
      roles' := roles[NewPage(t) := Child(roles[n], i)];
    }
  }

  lemma LinkRoom(t: Tables, n: int, i: int, flags: int)
    requires Room(t, 1)
    ensures forall k: nat :: Room(t, k + 1) ==> Room(LinkNew(t, n, i, flags), k) && Room(t, k)
  {
  }

  lemma PresentChild(t: Tables, roles: Roles, n: int, i: int)
    requires Inv(t, roles) && n in roles && |roles[n].path| < 3 && 0 <= i < 512 && Present(Entry(t.words, n, i))
    ensures PageOf(Entry(t.words, n, i)) in roles && roles[PageOf(Entry(t.words, n, i))] == Child(roles[n], i)
  {
  }

  lemma {:induction false} DescendStep(t: Tables, roles: Roles, n: int, path: seq<int>, flags: int)
      returns (roles': Roles)
    requires Inv(t, roles) && n in roles && IsPath(path) && |roles[n].path| + |path| == 3 && Room(t, |path|)
    ensures var (t', last) := Descend(t, n, path, flags);
      && Inv(t', roles') && Extends(roles, roles')
      && SameTranslations(t.words, t'.words, roles) && Grown(t.words, t'.words, roles)
      && last in roles' && roles'[last] == Follow(roles[n], path) && Leads(t'.words, n, path, last)
    decreases |path|
  {
    hide Inv, SameTranslations, Grown;
    if path == [] {
      roles' := roles;
      Unchanged(t.words, roles);
    } else {
      var i := path[0];
      assert 0 <= i < 512;
      var t1 := Ensured(t, n, i, flags);
      var roles1 := EnsureStep(t, roles, n, i, flags);
      var next := PageOf(Entry(t1.words, n, i));
      roles' := DescendStep(t1, roles1, next, path[1..], flags);
      Chained(t.words, t1.words, Descend(t, n, path, flags).0.words, roles, roles1, n, i);
    }
  }

  lemma Unchanged(ws: seq<Word>, roles: Roles)
    ensures SameTranslations(ws, ws, roles) && Grown(ws, ws, roles)
  {
  }

  lemma Chained(ws: seq<Word>, ws1: seq<Word>, ws2: seq<Word>, roles: Roles, roles1: Roles, n: int, i: int)
    requires Extends(roles, roles1)
    requires SameTranslations(ws, ws1, roles) && Grown(ws, ws1, roles)
    requires SameTranslations(ws1, ws2, roles1) && Grown(ws1, ws2, roles1)
    requires n in roles && 0 <= i < 512 && Present(Entry(ws1, n, i))
    ensures SameTranslations(ws, ws2, roles) && Grown(ws, ws2, roles) && Entry(ws2, n, i) == Entry(ws1, n, i)
  {
    forall m, path | Complete(roles, m, path)
      ensures Find(ws2, m, path) == Find(ws, m, path)
    {
      assert Complete(roles1, m, path);
      assert Find(ws1, m, path) == Find(ws, m, path);
    }
  }

  // ----- a new directory -----

  /** create_page_directory: a table empty but for the kernel half, which is that of directory d. Without a kernel half
      it fails, its page lost. */
  function NewDirectory(t: Tables, d: int): Tables {
    if Present(Entry(t.words, d, 511))
    then Allocated(t).(words := Written(Allocated(t).words, NewPage(t), 511, Entry(t.words, d, 511)))
    else Allocated(t)
  }

  ghost predicate SameEntries(ws: seq<Word>, ws': seq<Word>, roles: Roles) {
    forall m, j :: m in roles && 0 <= j < 512 ==> Entry(ws', m, j) == Entry(ws, m, j)
  }

  lemma {:induction false} SameEntriesFind(ws: seq<Word>, ws': seq<Word>, roles: Roles, m: int, path: seq<int>)
    requires Tree(ws, roles) && SameEntries(ws, ws', roles) && Complete(roles, m, path)
    ensures Find(ws', m, path) == Find(ws, m, path)
    decreases |path|
  {
    if path != [] {
      assert 0 <= path[0] < 512;
      assert Entry(ws', m, path[0]) == Entry(ws, m, path[0]);
      if |path| > 1 && Present(Entry(ws, m, path[0])) {
        CompleteStep(ws, roles, m, path);
        SameEntriesFind(ws, ws', roles, PageOf(Entry(ws, m, path[0])), path[1..]);
      }
    }
  }

  /** A table or a directory takes one page from the bump allocator, even a directory that is not made. */
  lemma TakesOnePage(t: Tables, n: int, i: int, flags: int)
    requires Room(t, 1)
    ensures LinkNew(t, n, i, flags).next == NewDirectory(t, n).next == AlignUp(t.next) + FRAME_SIZE
  {
  }

  lemma NewDirectoryEntries(t: Tables, roles: Roles, d: int)
    requires Placed(t, roles) && Room(t, 1) && d in roles
    ensures var ws, f := NewDirectory(t, d).words, NewPage(t);
      && f !in roles && SameEntries(t.words, ws, roles)
      && (forall j :: 0 <= j < 511 ==> Entry(ws, f, j) == 0)
      && (Present(Entry(t.words, d, 511)) ==> Entry(ws, f, 511) == Entry(t.words, d, 511))
  {
    var ws, f := NewDirectory(t, d).words, NewPage(t);
    NewPageIsFresh(t, roles);
    forall m, j | 0 <= j < 512
      ensures m in roles ==> Entry(ws, m, j) == Entry(t.words, m, j)
      ensures m == f && j < 511 ==> Entry(ws, m, j) == 0
    {
      ClearedEntries(t, roles, m, j);
      if m in roles {
        PlacedIndex(t, roles, m, j);
      }
    }
  }

  /** A new directory changes no translation; its own are those of the kernel half. */
  lemma NewDirectoryStep(t: Tables, roles: Roles, d: int)
    requires Inv(t, roles) && Room(t, 1) && IsRoot(roles, d)
    ensures var t', f := NewDirectory(t, d), NewPage(t);
      && f !in roles && SameTranslations(t.words, t'.words, roles)
      && if Present(Entry(t.words, d, 511)) then Inv(t', roles[f := Role(f, [])]) else Inv(t', roles)
  {
    var t', f := NewDirectory(t, d), NewPage(t);
    NewDirectoryEntries(t, roles, d);
    NewPageIsFresh(t, roles);
    forall m, path | Complete(roles, m, path)
      ensures Find(t'.words, m, path) == Find(t.words, m, path)
    {
      SameEntriesFind(t.words, t'.words, roles, m, path);
    }
    assert forall j :: 0 <= j < 512 && Present(Entry(t'.words, f, j)) ==> j == 511;
  }

  lemma NewDirectoryLookup(t: Tables, roles: Roles, d: int, v: Word)
    requires Inv(t, roles) && Room(t, 1) && IsRoot(roles, d) && Present(Entry(t.words, d, 511))
    ensures Lookup(NewDirectory(t, d).words, NewPage(t), v) ==
      if Indices(v)[0] == 511 then Lookup(t.words, d, v) else None
  {
    var ws, f, p := NewDirectory(t, d).words, NewPage(t), Indices(v);
    NewDirectoryEntries(t, roles, d);
    Digits(v);
    if p[0] == 511 {
      SameEntriesFind(t.words, ws, roles, d, p);
      assert Entry(ws, d, 511) == Entry(t.words, d, 511);
    }
  }

  // ----- a leaf -----

  /** Writing entry i of a last-level table: other translations stay. */
  lemma {:induction false} LeafOthers(t: Tables, roles: Roles, n: int, i: int, e: Word, m: int, path: seq<int>)
    requires Inv(t, roles) && n in roles && |roles[n].path| == 3 && 0 <= i < 512
    requires Complete(roles, m, path) && Follow(roles[m], path) != Child(roles[n], i)
    ensures Find(Written(t.words, n, i, e), m, path) == Find(t.words, m, path)
    decreases |path|
  {
    assert 0 <= path[0] < 512;
    PlacedIndex(t, roles, n, i);
    PlacedIndex(t, roles, m, path[0]);
    if |path| == 1 {
      assert Follow(roles[m], path) == Child(roles[m], path[0]);
    } else if Present(Entry(t.words, m, path[0])) {
      CompleteStep(t.words, roles, m, path);
      LeafOthers(t, roles, n, i, e, PageOf(Entry(t.words, m, path[0])), path[1..]);
    }
  }

  /** The translation that comes to the entry is what was written. */
  lemma {:induction false} LeafFound(t: Tables, roles: Roles, n: int, i: int, e: Word, m: int, path: seq<int>)
    requires Inv(t, roles) && n in roles && |roles[n].path| == 3 && 0 <= i < 512
    requires m in roles && IsPath(path) && |roles[m].path| + |path| == 3 && Leads(t.words, m, path, n)
    ensures Find(t.words, m, path + [i]) == if Present(Entry(t.words, n, i)) then Some(Entry(t.words, n, i)) else None
    ensures Find(Written(t.words, n, i, e), m, path + [i]) == if Present(e) then Some(e) else None
    decreases |path|
  {
    PlacedIndex(t, roles, n, i);
    if path != [] {
      assert 0 <= path[0] < 512;
      PlacedIndex(t, roles, m, path[0]);
      assert (path + [i])[1..] == path[1..] + [i];
      LeafFound(t, roles, n, i, e, PageOf(Entry(t.words, m, path[0])), path[1..]);
    }
  }

  lemma LeafKeepsInv(t: Tables, roles: Roles, n: int, i: int, e: Word)
    requires Inv(t, roles) && n in roles && |roles[n].path| == 3 && 0 <= i < 512
    ensures Inv(t.(words := Written(t.words, n, i, e)), roles)
  {
    PlacedIndex(t, roles, n, i);
    forall m, j | m in roles && 0 <= j < 512 && (m, j) != (n, i)
      ensures Entry(Written(t.words, n, i, e), m, j) == Entry(t.words, m, j)
    {
      PlacedIndex(t, roles, m, j);
    }
  }

  /** The place of a page in the tree tells directory and page, as the slot does. */
  lemma SlotsAreRoles(d: int, v: Word, d': int, v': Word)
    requires d >= 0 && d' >= 0
    ensures SlotOf(d, v) == SlotOf(d', v') <==> Follow(Role(d, []), Indices(v)) == Follow(Role(d', []), Indices(v'))
  {
    FollowAll(d, Indices(v));
    FollowAll(d', Indices(v'));
    IndicesInjective(v, v');
  }

  lemma FollowAll(d: int, p: seq<int>)
    requires |p| == 4
    ensures Follow(Role(d, []), p) == Role(if p[0] == 511 then KERNEL else d, p)
  {
    var r1 := Child(Role(d, []), p[0]);
    var r2 := Child(r1, p[1]);
    var r3 := Child(r2, p[2]);
    var r4 := Child(r3, p[3]);
    assert p[1..][1..] == p[2..] && p[2..][1..] == p[3..] && p[3..][1..] == [];
    assert Follow(r3, p[3..]) == Follow(r4, []);
    assert Follow(r2, p[2..]) == Follow(r3, p[3..]);
    assert Follow(r1, p[1..]) == Follow(r2, p[2..]);
    assert r4.path == [p[0], p[1], p[2], p[3]] == p;
  }
}
