/** The in-band block header of user_allocator.hpp as it lies in memory. */
module UserHeader {
  import opened Words
  import opened Memory

  const H: int := 24
  const FLAG_FREE: int := 1
  const MAGIC_UNIT: int := 0x100_0000
  const MAGIC_FREE: int := 0xAA00_0000
  const MAGIC_USED: int := 0x5500_0000

  datatype Header = Header(size: int, flags: int, next: int, prev: int) {
    ghost predicate InRange() {
      0 <= size < TWO_32 && 0 <= flags < TWO_32 && 0 <= next < TWO_64 && 0 <= prev < TWO_64
    }

    predicate IsFree() { flags % 2 == 1 }

    function Magic(): int { flags - flags % MAGIC_UNIT }

    predicate IsValid() { Magic() == MAGIC_FREE || Magic() == MAGIC_USED }

    /** set_free: clears the flag and the magic byte, then sets both again. */
    function SetFree(free: bool): Header {
      var kept := flags % MAGIC_UNIT - flags % 2;
      this.(flags := kept + if free then FLAG_FREE + MAGIC_FREE else MAGIC_USED)
    }
  }

  /** The flags the constructor writes. */
  function FlagsOf(free: bool): int {
    if free then FLAG_FREE + MAGIC_FREE else MAGIC_USED
  }

  lemma FlagsMeaning(h: Header, free: bool)
    requires h.flags == FlagsOf(free)
    ensures h.IsFree() == free && h.IsValid() && forall f :: h.SetFree(f) == h.(flags := FlagsOf(f))
  {
  }

  function Encode(h: Header): (s: seq<Byte>)
    requires h.InRange()
    ensures |s| == H
  {
    LittleEndian(h.size, 4) + LittleEndian(h.flags, 4) + LittleEndian(h.next, 8) + LittleEndian(h.prev, 8)
  }

  function Decode(s: seq<Byte>): Header
    requires |s| == H
  {
    Header(Number(s[..4]), Number(s[4..8]), Number(s[8..16]), Number(s[16..]))
  }

  lemma DecodeEncode(h: Header)
    requires h.InRange()
    ensures Decode(Encode(h)) == h
  {
    assert Pow256(4) == TWO_32 && Pow256(8) == TWO_64;
    var a, b, c, d := LittleEndian(h.size, 4), LittleEndian(h.flags, 4), LittleEndian(h.next, 8), LittleEndian(h.prev, 8);
    NumberOfLittleEndian(h.size, 4);
    NumberOfLittleEndian(h.flags, 4);
    NumberOfLittleEndian(h.next, 8);
    NumberOfLittleEndian(h.prev, 8);
    var s := Encode(h);
    assert s[..4] == a && s[4..8] == b && s[8..16] == c && s[16..] == d;
  }

  /** The fields of user_block lie in memory as declared: two of four bytes, and two pointers of eight. */
  lemma Layout(h: Header)
    requires h.InRange()
    ensures var s := Encode(h);
      && Number(s[0..4]) == h.size && Number(s[4..8]) == h.flags
      && Number(s[8..16]) == h.next && Number(s[16..24]) == h.prev
  {
    DecodeEncode(h);
    assert Encode(h)[..4] == Encode(h)[0..4] && Encode(h)[16..] == Encode(h)[16..24];
  }

  function HeaderAt(s: seq<Byte>, p: int): Header
    requires 0 <= p && p + H <= |s|
  {
    Decode(s[p..p + H])
  }

  predicate Disjoint(p: int, q: int) {
    p + H <= q || q + H <= p
  }

  /** A header the view m shows at p can be read back from the bytes s. */
  ghost predicate Reads(s: seq<Byte>, m: map<int, Header>, p: int) {
    p in m ==> 0 <= p && p + H <= |s| && HeaderAt(s, p) == m[p]
  }

  /** q is apart from the headers at all of ps. */
  ghost predicate Beside(q: int, ps: set<int>) {
    forall p :: p in ps ==> Disjoint(p, q)
  }

  /** Headers beside those written at ps are as they were. */
  ghost predicate Kept(m: map<int, Header>, m': map<int, Header>, ps: set<int>) {
    forall q :: q in m && Beside(q, ps) ==> q in m' && m'[q] == m[q]
  }

  ghost predicate Outside(a: int, ps: set<int>) {
    forall p :: p in ps ==> a < p || p + H <= a
  }

  /** Bytes outside the headers written at ps are as they were. */
  ghost predicate ChangedOnly(s: seq<Byte>, s': seq<Byte>, ps: set<int>) {
    |s| == |s'| && forall a :: 0 <= a < |s| && Outside(a, ps) ==> s'[a] == s[a]
  }

  ghost predicate Usable(m: map<int, Header>, len: int, p: int) {
    p in m && m[p].InRange() && 0 < p && p + H <= len && p < TWO_64
  }

  /** The header at p can be shortened and a new header inserted behind it at q. */
  ghost predicate CanInsert(m: map<int, Header>, len: int, p: int, q: int) {
    && Usable(m, len, p) && 0 < q && q + H <= len && q < TWO_64 && Disjoint(p, q)
    && (m[p].next != 0 ==> Usable(m, len, m[p].next) && Disjoint(p, m[p].next) && Disjoint(q, m[p].next))
  }

  ghost predicate Inserted(m: map<int, Header>, m': map<int, Header>, p: int, size: int, q: int, remaining: int)
    requires p in m
  {
    var n := m[p].next;
    && p in m' && m'[p] == m[p].(size := size, next := q)
    && q in m' && m'[q] == Header(remaining, FlagsOf(true), n, p)
    && (n != 0 ==> n in m && n in m' && m'[n] == m[n].(prev := q))
    && Kept(m, m', {p, q, n})
  }

  /** The header at p has a successor that can be unlinked. */
  ghost predicate CanAbsorb(m: map<int, Header>, len: int, p: int) {
    && Usable(m, len, p) && Usable(m, len, m[p].next) && Disjoint(p, m[p].next)
    && var f := m[m[p].next].next;
    f != 0 ==> Usable(m, len, f) && Disjoint(p, f)
  }

  ghost predicate Absorbed(m: map<int, Header>, m': map<int, Header>, p: int)
    requires p in m && m[p].next in m
  {
    var n := m[m[p].next];
    && p in m' && m'[p] == m[p].(size := (m[p].size + H + n.size) % TWO_32, next := n.next)
    && (n.next != 0 ==> n.next in m && n.next in m' && m'[n.next] == m[n.next].(prev := p))
    && Kept(m, m', {p, n.next})
  }

  /** A header can be written at q and linked behind the one at last, if that is not null. */
  ghost predicate CanAppend(m: map<int, Header>, len: int, last: int, q: int) {
    && 0 < q && q + H <= len && q < TWO_64
    && (last != 0 ==> Usable(m, len, last) && Disjoint(last, q))
  }

  ghost predicate Appended(m: map<int, Header>, m': map<int, Header>, last: int, q: int, size: int) {
    && q in m' && m'[q] == Header(size, FlagsOf(true), 0, last)
    && (last != 0 ==> last in m && last in m' && m'[last] == m[last].(next := q))
    && Kept(m, m', {last, q})
  }

  /** A user address space as bytes, with a view of the headers stored in it. */
  class Ram {
    const cells: array<Byte>
    ghost var headers: map<int, Header>

    /** The view is true: each header it shows can be read back from the bytes. */
    ghost predicate Coherent()
      reads this, cells
    {
      forall p {:trigger Reads(cells[..], headers, p)} :: Reads(cells[..], headers, p)
    }

    predicate InMemory(p: int) {
      0 <= p && p + H <= cells.Length
    }

    constructor (size: nat)
      ensures fresh(cells) && cells.Length == size && Coherent()
    {
      cells := new Byte[size];
      headers := map[];
    }

    /** Stores a header. Those beside it stay readable, and every byte outside it stays as it was. */
    method Put(p: int, h: Header)
      requires Coherent() && InMemory(p) && h.InRange()
      modifies this, cells
      ensures Coherent()
      ensures p in headers && headers[p] == h
      ensures forall q :: q in old(headers) && Disjoint(p, q) ==> q in headers && headers[q] == old(headers)[q]
      ensures ChangedOnly(old(cells[..]), cells[..], {p})
    {
      var bytes := Encode(h);
      for k := 0 to H
        invariant headers == old(headers)
        invariant forall a :: 0 <= a < cells.Length ==> cells[a] == if p <= a < p + k then bytes[a - p] else old(cells[a])
      {
        cells[p + k] := bytes[k];
      }
      headers := (map q | q in headers && Disjoint(p, q) :: headers[q])[p := h];
      assert cells[..][p..p + H] == bytes;
      DecodeEncode(h);
      forall q
        ensures Reads(cells[..], headers, q)
      {
        if q in headers && q != p {
          assert old(Reads(cells[..], headers, q));
          assert cells[..][q..q + H] == old(cells[..])[q..q + H];
        }
      }
    }

    /** Reads the header at p, or whatever the bytes there make of one. */
    method Get(p: int) returns (h: Header)
      requires Coherent() && InMemory(p)
      ensures p in headers ==> h == headers[p]
      ensures h == HeaderAt(cells[..], p)
    {
      h := Decode(cells[p..p + H]);
      assert Reads(cells[..], headers, p);
      assert cells[p..p + H] == cells[..][p..p + H];
    }

    /** Links a new free header at q between the header at p, which gets a new size, and its successor. */
    method InsertAfter(p: int, size: int, q: int, remaining: int)
      requires Coherent() && CanInsert(headers, cells.Length, p, q) && 0 <= size < TWO_32 && 0 <= remaining < TWO_32
      modifies this, cells
      ensures Coherent() && Inserted(old(headers), headers, p, size, q, remaining)
      ensures ChangedOnly(old(cells[..]), cells[..], {p, q, old(headers)[p].next})
    {
      var h := Get(p);
      Put(q, Header(remaining, FlagsOf(true), h.next, p));
      if h.next != 0 {
        var n := Get(h.next);
        Put(h.next, n.(prev := q));
      }
      Put(p, h.(next := q, size := size));
    }

    /** Unlinks the successor of the header at p, adding its size and header to p. */
    method AbsorbNext(p: int)
      requires Coherent() && CanAbsorb(headers, cells.Length, p)
      modifies this, cells
      ensures Coherent() && Absorbed(old(headers), headers, p)
      ensures ChangedOnly(old(cells[..]), cells[..], {p, old(headers)[old(headers)[p].next].next})
    {
      var h := Get(p);
      var n := Get(h.next);
      Put(p, h.(size := (h.size + H + n.size) % TWO_32, next := n.next));
      if n.next != 0 {
        var f := Get(n.next);
        Put(n.next, f.(prev := p));
      }
    }

    /** Links a new free header at q behind the header at last, if there is one. */
    method Append(last: int, q: int, size: int)
      requires Coherent() && CanAppend(headers, cells.Length, last, q) && 0 <= size < TWO_32
      modifies this, cells
      ensures Coherent() && Appended(old(headers), headers, last, q, size)
      ensures ChangedOnly(old(cells[..]), cells[..], {last, q})
    {
      Put(q, Header(size, FlagsOf(true), 0, 0));
      if last != 0 {
        var l := Get(last);
        Put(last, l.(next := q));
        Put(q, Header(size, FlagsOf(true), 0, last));
      }
    }

    /** set_free on the header at p. */
    method Mark(p: int, free: bool)
      requires Coherent() && InMemory(p) && p in headers && headers[p].InRange()
      modifies this, cells
      ensures Coherent()
      ensures p in headers && headers[p] == old(headers)[p].SetFree(free)
      ensures Kept(old(headers), headers, {p}) && ChangedOnly(old(cells[..]), cells[..], {p})
    {
      var h := Get(p);
      assert h.SetFree(free).InRange();
      Put(p, h.SetFree(free));
    }

    /** memset: headers outside the range stay readable. */
    method Fill(p: int, ch: Byte, count: nat)
      requires Coherent() && 0 <= p && p + count <= cells.Length
      modifies this, cells
      ensures Coherent()
      ensures forall q :: q in old(headers) && (q + H <= p || p + count <= q) ==>
        q in headers && headers[q] == old(headers)[q]
      ensures forall a :: 0 <= a < cells.Length ==> cells[a] == if p <= a < p + count then ch else old(cells[a])
    {
      Memset(cells, p, ch, count);
      assert forall a :: 0 <= a < cells.Length ==> cells[a] == cells[..][a];
      DropOverwritten(old(cells[..]), p, count);
    }

    /** memcpy between ranges that do not overlap. */
    method Copy(dest: int, src: int, count: nat)
      requires Coherent() && 0 <= dest && dest + count <= cells.Length && 0 <= src && src + count <= cells.Length
      requires dest + count <= src || src + count <= dest
      modifies this, cells
      ensures Coherent()
      ensures forall q :: q in old(headers) && (q + H <= dest || dest + count <= q) ==>
        q in headers && headers[q] == old(headers)[q]
      ensures forall a :: 0 <= a < cells.Length ==>
        cells[a] == if dest <= a < dest + count then old(cells[src + (a - dest)]) else old(cells[a])
    {
      Memcpy(cells, dest, src, count);
      assert forall a :: 0 <= a < cells.Length ==> cells[a] == cells[..][a];
      DropOverwritten(old(cells[..]), dest, count);
    }

    /** After bytes [p, p + count) were overwritten, the view forgets the headers that lay in them. */
    ghost method DropOverwritten(before: seq<Byte>, p: int, count: nat)
      requires |before| == cells.Length
      requires forall q {:trigger Reads(before, headers, q)} :: Reads(before, headers, q)
      requires forall a :: 0 <= a < cells.Length && !(p <= a < p + count) ==> cells[a] == before[a]
      modifies this
      ensures Coherent()
      ensures forall q :: q in old(headers) && (q + H <= p || p + count <= q) ==>
        q in headers && headers[q] == old(headers)[q]
    {
      headers := map q | q in headers && (q + H <= p || p + count <= q) :: headers[q];
      forall q
        ensures Reads(cells[..], headers, q)
      {
        if q in headers {
          assert Reads(before, old(headers), q);
          assert cells[..][q..q + H] == before[q..q + H];
        }
      }
    }
  }
}
