/** A byte memory, the block operations of string.hpp on it, and little-endian numbers stored in it. */
module Memory {
  type Byte = x: int | 0 <= x < 256

  /** s with bytes bs stored from index p on. */
  function Stored(s: seq<Byte>, p: int, bs: seq<Byte>): (r: seq<Byte>)
    requires 0 <= p && p + |bs| <= |s|
    ensures |r| == |s|
  {
    s[..p] + bs + s[p + |bs|..]
  }

  function Filled(n: nat, ch: Byte): seq<Byte> {
    seq(n, _ => ch)
  }

  lemma StoredPointwise(s: seq<Byte>, s': seq<Byte>, p: int, bs: seq<Byte>)
    requires 0 <= p && p + |bs| <= |s| && |s'| == |s|
    requires forall k :: 0 <= k < |s| ==> s'[k] == if p <= k < p + |bs| then bs[k - p] else s[k]
    ensures s' == Stored(s, p, bs)
  {
  }

  method Memset(ram: array<Byte>, p: int, ch: Byte, count: nat)
    requires 0 <= p && p + count <= ram.Length
    modifies ram
    ensures ram[..] == Stored(old(ram[..]), p, Filled(count, ch))
  {
    var d, left := p, count;
    while left > 0
      invariant 0 <= left <= count && d == p + count - left
      invariant forall k :: 0 <= k < ram.Length ==> ram[k] == if p <= k < d then ch else old(ram[k])
    {
      ram[d] := ch;
      d, left := d + 1, left - 1;
    }
    StoredPointwise(old(ram[..]), ram[..], p, Filled(count, ch));
  }

  /** Where the k-th byte of an upward copy comes from: a destination that starts gap bytes into the source is filled
      with the first gap bytes over and over. */
  function Origin(gap: int, k: nat): (o: nat)
    ensures o <= k && (gap <= 0 || k < gap ==> o == k) && (gap > 0 ==> o < gap)
    decreases k
  {
    if gap <= 0 || k < gap then k else Origin(gap, k - gap)
  }

  /** memcpy copies upwards, for any two ranges: it is exact unless the destination starts inside the source. */
  method Memcpy(ram: array<Byte>, dest: int, src: int, count: nat)
    requires 0 <= dest && dest + count <= ram.Length && 0 <= src && src + count <= ram.Length
    modifies ram
    ensures forall a :: 0 <= a < ram.Length ==>
      ram[a] == if dest <= a < dest + count then old(ram[src + Origin(dest - src, a - dest)]) else old(ram[a])
    ensures dest <= src || src + count <= dest ==>
      ram[..] == Stored(old(ram[..]), dest, old(ram[src..src + count]))
  {
    CopyUp(ram, dest, src, count);
  }

  /** The upward loop of memcpy and memmove. */
  method CopyUp(ram: array<Byte>, dest: int, src: int, count: nat)
    requires 0 <= dest && dest + count <= ram.Length && 0 <= src && src + count <= ram.Length
    modifies ram
    ensures forall a :: 0 <= a < ram.Length ==>
      ram[a] == if dest <= a < dest + count then old(ram[src + Origin(dest - src, a - dest)]) else old(ram[a])
    ensures dest <= src || src + count <= dest ==>
      ram[..] == Stored(old(ram[..]), dest, old(ram[src..src + count]))
  {
    var d, s, left := dest, src, count;
    while left > 0
      invariant 0 <= left <= count && d == dest + count - left && s == src + count - left
      invariant forall k :: 0 <= k < ram.Length ==>
        ram[k] == if dest <= k < d then old(ram[src + Origin(dest - src, k - dest)]) else old(ram[k])
    {
      ram[d] := ram[s];
      d, s, left := d + 1, s + 1, left - 1;
    }
    if dest <= src || src + count <= dest {
      StoredPointwise(old(ram[..]), ram[..], dest, old(ram[src..src + count]));
    }
  }

  /** memmove copies exactly, however the two ranges overlap. */
  method Memmove(ram: array<Byte>, dest: int, src: int, count: nat)
    requires 0 <= dest && dest + count <= ram.Length && 0 <= src && src + count <= ram.Length
    modifies ram
    ensures ram[..] == Stored(old(ram[..]), dest, old(ram[src..src + count]))
  {
    if dest < src {
      CopyUp(ram, dest, src, count);
    } else {
      var d, s, left := dest + count, src + count, count;
      while left > 0
        invariant 0 <= left <= count && d == dest + left && s == src + left
        invariant forall k :: 0 <= k < ram.Length ==>
          ram[k] == if d <= k < dest + count then old(ram[src + (k - dest)]) else old(ram[k])
      {
        d, s, left := d - 1, s - 1, left - 1;
        ram[d] := ram[s];
      }
      StoredPointwise(old(ram[..]), ram[..], dest, old(ram[src..src + count]));
    }
  }

  // ----- little-endian numbers -----

  function Pow256(n: nat): (r: nat)
    ensures r > 0
  {
    if n == 0 then 1 else 256 * Pow256(n - 1)
  }

  function LittleEndian(v: nat, n: nat): (s: seq<Byte>)
    ensures |s| == n
  {
    if n == 0 then [] else [v % 256] + LittleEndian(v / 256, n - 1)
  }

  function Number(s: seq<Byte>): nat {
    if s == [] then 0 else s[0] + 256 * Number(s[1..])
  }

  lemma {:induction false} NumberOfLittleEndian(v: nat, n: nat)
    requires v < Pow256(n)
    ensures Number(LittleEndian(v, n)) == v
  {
    if n > 0 {
      NumberOfLittleEndian(v / 256, n - 1);
      assert LittleEndian(v, n)[1..] == LittleEndian(v / 256, n - 1);
    }
  }
}
