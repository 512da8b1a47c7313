/** The list surgery both heaps share (user_allocator.cpp and heap.cpp): first fit, split and coalesce over a list of
    blocks whose headers, of h bytes, lie in front of their data. */
module Blocks {
  /** A header at addr followed by size bytes of data. */
  datatype Block = Block(addr: int, size: int, free: bool) {
    function Data(h: int): int { addr + h }
    function End(h: int): int { addr + h + size }
  }

  /** The smallest data area worth splitting off. */
  const MIN_DATA: int := 16

  predicate Fits(b: Block, size: int) {
    b.free && b.size >= size
  }

  /** find_free_block: the index of the first block that fits, or |bs|. */
  function FirstFit(bs: seq<Block>, size: int): (i: nat)
    ensures i <= |bs| && (i < |bs| ==> Fits(bs[i], size))
    ensures forall j :: 0 <= j < i ==> !Fits(bs[j], size)
  {
    if bs == [] || Fits(bs[0], size) then 0 else 1 + FirstFit(bs[1..], size)
  }

  /** One step of the search from block i. */
  lemma FirstFitStep(bs: seq<Block>, size: int, i: nat)
    requires i < |bs|
    ensures FirstFit(bs[i..], size) == if Fits(bs[i], size) then 0 else 1 + FirstFit(bs[i + 1..], size)
  {
    assert bs[i..][0] == bs[i] && bs[i..][1..] == bs[i + 1..];
  }

  predicate Splits(h: int, b: Block, size: int) {
    b.size >= size + h + MIN_DATA
  }

  /** split_block. */
  function Split(h: int, bs: seq<Block>, i: nat, size: int): seq<Block>
    requires i < |bs|
  {
    if Splits(h, bs[i], size) then bs[..i] + Halves(h, bs[i], size) + bs[i + 1..] else bs
  }

  function Halves(h: int, b: Block, size: int): seq<Block> {
    [b.(size := size), Block(b.addr + h + size, b.size - size - h, true)]
  }

  /** Both blocks are free and the second starts where the first ends. */
  predicate Joins(h: int, a: Block, b: Block) {
    a.free && b.free && a.End(h) == b.addr
  }

  predicate JoinsNext(h: int, bs: seq<Block>, i: int) {
    0 <= i && i + 1 < |bs| && Joins(h, bs[i], bs[i + 1])
  }

  function Union(h: int, a: Block, b: Block): Block {
    a.(size := a.size + h + b.size)
  }

  function Merge(h: int, bs: seq<Block>, i: nat): seq<Block>
    requires i + 1 < |bs|
  {
    bs[..i] + [Union(h, bs[i], bs[i + 1])] + bs[i + 2..]
  }

  function MergeIfJoins(h: int, bs: seq<Block>, i: int): (r: seq<Block>)
    ensures JoinsNext(h, bs, i) ==> |r| == |bs| - 1
    ensures !JoinsNext(h, bs, i) ==> r == bs
  {
    if JoinsNext(h, bs, i) then Merge(h, bs, i) else bs
  }

  /** coalesce_block for a free block: with its successor, then with its predecessor. */
  function Coalesce(h: int, bs: seq<Block>, i: nat): seq<Block>
    requires i < |bs|
  {
    MergeIfJoins(h, MergeIfJoins(h, bs, i), i - 1)
  }

  function SetFree(bs: seq<Block>, i: nat, free: bool): seq<Block>
    requires i < |bs|
  {
    bs[i := bs[i].(free := free)]
  }

  /** What malloc does to the list once it has found block i. */
  function Allocate(h: int, bs: seq<Block>, i: nat, size: int): seq<Block>
    requires i < |bs|
  {
    SetFree(Split(h, bs, i, size), i, false)
  }

  lemma AllocatedBlock(h: int, bs: seq<Block>, i: nat, size: int)
    requires i < |bs|
    ensures i < |Allocate(h, bs, i, size)|
    ensures Allocate(h, bs, i, size)[i] ==
      Block(bs[i].addr, if Splits(h, bs[i], size) then size else bs[i].size, false)
  {
  }

  /** What free does to the list. */
  function Release(h: int, bs: seq<Block>, i: nat): seq<Block>
    requires i < |bs|
  {
    Coalesce(h, SetFree(bs, i, true), i)
  }

  /** What growing the heap does to the list. */
  function Extend(h: int, bs: seq<Block>, addr: int, len: int): seq<Block> {
    Coalesce(h, bs + [Block(addr, len - h, true)], |bs|)
  }

  /** The index of the used block whose data starts at ptr, or |bs|. */
  function LiveIndex(h: int, bs: seq<Block>, ptr: int): (i: nat)
    ensures i <= |bs| && (i < |bs| ==> !bs[i].free && bs[i].Data(h) == ptr)
    ensures forall j :: 0 <= j < i ==> bs[j].free || bs[j].Data(h) != ptr
  {
    if bs == [] || (!bs[0].free && bs[0].Data(h) == ptr) then 0 else 1 + LiveIndex(h, bs[1..], ptr)
  }

  // ----- splitting and merging undo each other -----

  /** What is split off has at least 16 bytes of data; a block that would leave fewer is handed out whole. */
  lemma SplitRest(h: int, bs: seq<Block>, i: nat, size: int)
    requires i < |bs|
    ensures bs[i].size - size - h >= 16 ==>
      Split(h, bs, i, size) == bs[..i] + [Block(bs[i].addr, size, bs[i].free),
                                          Block(bs[i].addr + h + size, bs[i].size - size - h, true)] + bs[i + 1..]
    ensures bs[i].size - size - h < 16 ==> Split(h, bs, i, size) == bs
  {
  }

  lemma MergeUndoesSplit(h: int, bs: seq<Block>, i: nat, size: int)
    requires i < |bs| && bs[i].free && Splits(h, bs[i], size)
    ensures JoinsNext(h, Split(h, bs, i, size), i) && Merge(h, Split(h, bs, i, size), i) == bs
  {
    assert bs == bs[..i] + [bs[i]] + bs[i + 1..];
  }

  /** The round trip: freeing what malloc just took from block i restores the list exactly, if and only if block i
      did not already join its predecessor nor, when it was handed out whole, its successor. */
  lemma RoundTrip(h: int, bs: seq<Block>, i: nat, size: int)
    requires i < |bs| && Fits(bs[i], size) && h > 0
    ensures Release(h, Allocate(h, bs, i, size), i) == bs <==>
      !JoinsNext(h, bs, i - 1) && (Splits(h, bs[i], size) || !JoinsNext(h, bs, i))
  {
    var s := Split(h, bs, i, size);
    assert SetFree(Allocate(h, bs, i, size), i, true) == s;
    if Splits(h, bs[i], size) {
      MergeUndoesSplit(h, bs, i, size);
    }
  }

  // ----- sums over a list -----

  function Sum(bs: seq<Block>, f: Block -> int): int {
    if bs == [] then 0 else f(bs[0]) + Sum(bs[1..], f)
  }

  function Extent(h: int): Block -> int { (b: Block) => h + b.size }
  function UsedSize(): Block -> int { (b: Block) => if b.free then 0 else b.size }
  function FreeSize(): Block -> int { (b: Block) => if b.free then b.size else 0 }

  lemma {:induction false} SumConcat(a: seq<Block>, b: seq<Block>, f: Block -> int)
    ensures Sum(a + b, f) == Sum(a, f) + Sum(b, f)
  {
    if a == [] {
      assert a + b == b;
    } else {
      assert (a + b)[1..] == a[1..] + b;
      SumConcat(a[1..], b, f);
    }
  }

  lemma SumThree(pre: seq<Block>, mid: seq<Block>, post: seq<Block>, f: Block -> int)
    ensures Sum(pre + mid + post, f) == Sum(pre, f) + Sum(mid, f) + Sum(post, f)
  {
    SumConcat(pre + mid, post, f);
    SumConcat(pre, mid, f);
  }

  lemma SumCut(bs: seq<Block>, i: nat, n: nat, f: Block -> int)
    requires i + n <= |bs|
    ensures Sum(bs, f) == Sum(bs[..i], f) + Sum(bs[i..i + n], f) + Sum(bs[i + n..], f)
  {
    assert bs == bs[..i] + bs[i..i + n] + bs[i + n..];
    SumThree(bs[..i], bs[i..i + n], bs[i + n..], f);
  }

  lemma SumOne(b: Block, f: Block -> int)
    ensures Sum([b], f) == f(b)
  {
    assert [b][1..] == [];
  }

  lemma SumTwo(a: Block, b: Block, f: Block -> int)
    ensures Sum([a, b], f) == f(a) + f(b)
  {
    assert [a, b][1..] == [b];
    SumOne(b, f);
  }

  lemma SumOfSplit(h: int, bs: seq<Block>, i: nat, size: int, f: Block -> int)
    requires i < |bs| && Splits(h, bs[i], size)
    ensures var p := Halves(h, bs[i], size);
      Sum(Split(h, bs, i, size), f) == Sum(bs, f) - f(bs[i]) + f(p[0]) + f(p[1])
  {
    var p := Halves(h, bs[i], size);
    SumCut(bs, i, 1, f);
    assert bs[i..i + 1] == [bs[i]];
    SumThree(bs[..i], p, bs[i + 1..], f);
    SumOne(bs[i], f);
    SumTwo(p[0], p[1], f);
  }

  lemma SumOfMerge(h: int, bs: seq<Block>, i: nat, f: Block -> int)
    requires i + 1 < |bs|
    ensures Sum(Merge(h, bs, i), f) == Sum(bs, f) - f(bs[i]) - f(bs[i + 1]) + f(Union(h, bs[i], bs[i + 1]))
  {
    var b := Union(h, bs[i], bs[i + 1]);
    SumCut(bs, i, 2, f);
    assert bs[i..i + 2] == [bs[i], bs[i + 1]];
    SumThree(bs[..i], [b], bs[i + 2..], f);
    SumOne(b, f);
    SumTwo(bs[i], bs[i + 1], f);
  }

  lemma SumOfUpdate(bs: seq<Block>, i: nat, b: Block, f: Block -> int)
    requires i < |bs|
    ensures Sum(bs[i := b], f) == Sum(bs, f) - f(bs[i]) + f(b)
  {
    SumCut(bs, i, 1, f);
    assert bs[i..i + 1] == [bs[i]];
    assert bs[i := b] == bs[..i] + [b] + bs[i + 1..];
    SumThree(bs[..i], [b], bs[i + 1..], f);
    SumOne(bs[i], f);
    SumOne(b, f);
  }

  // ----- space: a list that tiles an interval, and a list that partitions a set of addresses -----

  /** The blocks follow one another without gap or overlap from lo to hi. */
  predicate Tiles(h: int, bs: seq<Block>, lo: int, hi: int) {
    if bs == [] then lo == hi
    else bs[0].addr == lo && bs[0].size >= 0 && Tiles(h, bs[1..], bs[0].End(h), hi)
  }

  function EndOf(h: int, bs: seq<Block>, lo: int): int {
    if bs == [] then lo else bs[|bs| - 1].End(h)
  }

  lemma {:induction false} TilesConcat(h: int, a: seq<Block>, b: seq<Block>, lo: int, hi: int)
    ensures Tiles(h, a + b, lo, hi) <==> Tiles(h, a, lo, EndOf(h, a, lo)) && Tiles(h, b, EndOf(h, a, lo), hi)
  {
    if a == [] {
      assert a + b == b;
    } else {
      assert (a + b)[1..] == a[1..] + b;
      TilesConcat(h, a[1..], b, a[0].End(h), hi);
    }
  }

  /** A tiling stays one when its middle is replaced by a tiling of the same interval. */
  lemma TilesReplace(h: int, pre: seq<Block>, mid: seq<Block>, mid': seq<Block>, post: seq<Block>, lo: int, hi: int)
    requires mid != [] && mid' != [] && Tiles(h, pre + mid + post, lo, hi)
    requires mid'[0].addr == mid[0].addr && EndOf(h, mid', 0) == EndOf(h, mid, 0)
    requires Tiles(h, mid', mid[0].addr, EndOf(h, mid, 0))
    ensures Tiles(h, pre + mid' + post, lo, hi)
  {
    TilesConcat(h, pre + mid, post, lo, hi);
    TilesConcat(h, pre, mid, lo, EndOf(h, mid, 0));
    TilesConcat(h, pre, mid', lo, EndOf(h, mid, 0));
    TilesConcat(h, pre + mid', post, lo, hi);
  }

  lemma {:induction false} TilesOrder(h: int, bs: seq<Block>, lo: int, hi: int)
    requires Tiles(h, bs, lo, hi) && h >= 0
    ensures lo <= hi
    ensures forall i :: 0 <= i < |bs| ==> lo <= bs[i].addr && bs[i].size >= 0 && bs[i].End(h) <= hi
    ensures forall i, j :: 0 <= i < j < |bs| ==> bs[i].End(h) <= bs[j].addr
    ensures forall i, j {:trigger bs[i], bs[j]} :: 0 <= i < |bs| && j == i + 1 && j < |bs| ==> bs[i].End(h) == bs[j].addr
  {
    if bs != [] {
      TilesOrder(h, bs[1..], bs[0].End(h), hi);
      assert forall i :: 0 < i < |bs| ==> bs[i] == bs[1..][i - 1];
    }
  }

  lemma TilesSplit(h: int, bs: seq<Block>, i: nat, size: nat, lo: int, hi: int)
    requires i < |bs| && Tiles(h, bs, lo, hi) && h >= 0
    ensures Tiles(h, Split(h, bs, i, size), lo, hi)
  {
    if Splits(h, bs[i], size) {
      var p := Halves(h, bs[i], size);
      assert bs == bs[..i] + [bs[i]] + bs[i + 1..];
      assert p[1..] == [p[1]];
      TilesReplace(h, bs[..i], [bs[i]], p, bs[i + 1..], lo, hi);
    }
  }

  lemma TilesSetFree(h: int, bs: seq<Block>, i: nat, free: bool, lo: int, hi: int)
    requires i < |bs| && Tiles(h, bs, lo, hi) && h >= 0
    ensures Tiles(h, SetFree(bs, i, free), lo, hi)
  {
    TilesOrder(h, bs, lo, hi);
    assert bs == bs[..i] + [bs[i]] + bs[i + 1..];
    TilesReplace(h, bs[..i], [bs[i]], [bs[i].(free := free)], bs[i + 1..], lo, hi);
    assert SetFree(bs, i, free) == bs[..i] + [bs[i].(free := free)] + bs[i + 1..];
  }

  lemma TilesMerge(h: int, bs: seq<Block>, i: int, lo: int, hi: int)
    requires Tiles(h, bs, lo, hi) && h >= 0
    ensures Tiles(h, MergeIfJoins(h, bs, i), lo, hi)
  {
    if JoinsNext(h, bs, i) {
      var b := Union(h, bs[i], bs[i + 1]);
      TilesOrder(h, bs, lo, hi);
      assert bs == bs[..i] + [bs[i], bs[i + 1]] + bs[i + 2..];
      TilesReplace(h, bs[..i], [bs[i], bs[i + 1]], [b], bs[i + 2..], lo, hi);
    }
  }

  // ----- fragmentation: pairs of free blocks that could have been merged -----

  function Pair(h: int, a: Block, b: Block): nat {
    if Joins(h, a, b) then 1 else 0
  }

  function FreePairs(h: int, bs: seq<Block>): nat {
    if |bs| < 2 then 0 else Pair(h, bs[0], bs[1]) + FreePairs(h, bs[1..])
  }

  function Seam(h: int, a: seq<Block>, b: seq<Block>): nat {
    if a == [] || b == [] then 0 else Pair(h, a[|a| - 1], b[0])
  }

  lemma {:induction false} PairsConcat(h: int, a: seq<Block>, b: seq<Block>)
    ensures FreePairs(h, a + b) == FreePairs(h, a) + FreePairs(h, b) + Seam(h, a, b)
  {
    if a == [] {
      assert a + b == b;
    } else if |a| == 1 {
      assert b != [] ==> (a + b)[1..] == b;
    } else {
      assert (a + b)[1..] == a[1..] + b;
      PairsConcat(h, a[1..], b);
    }
  }

  /** The pairs of a list cut in three. */
  lemma PairsCut(h: int, pre: seq<Block>, mid: seq<Block>, post: seq<Block>)
    requires mid != []
    ensures FreePairs(h, pre + mid + post) ==
      FreePairs(h, pre) + Seam(h, pre, mid) + FreePairs(h, mid) + Seam(h, mid, post) + FreePairs(h, post)
  {
    PairsConcat(h, pre + mid, post);
    PairsConcat(h, pre, mid);
  }

  lemma PairsOfMerge(h: int, bs: seq<Block>, i: int)
    requires JoinsNext(h, bs, i)
    ensures FreePairs(h, Merge(h, bs, i)) == FreePairs(h, bs) - 1
  {
    var pre, post := bs[..i], bs[i + 2..];
    var m := Union(h, bs[i], bs[i + 1]);
    assert bs == pre + [bs[i], bs[i + 1]] + post;
    PairsCut(h, pre, [bs[i], bs[i + 1]], post);
    PairsCut(h, pre, [m], post);
    assert [bs[i], bs[i + 1]][1..] == [bs[i + 1]];
  }

  lemma PairsOfUpdate(h: int, bs: seq<Block>, i: nat, b: Block)
    requires i < |bs|
    ensures var pre, post := bs[..i], bs[i + 1..];
      FreePairs(h, bs[i := b]) == FreePairs(h, bs)
        - Seam(h, pre, [bs[i]]) - Seam(h, [bs[i]], post) + Seam(h, pre, [b]) + Seam(h, [b], post)
  {
    var pre, post := bs[..i], bs[i + 1..];
    assert bs == pre + [bs[i]] + post && bs[i := b] == pre + [b] + post;
    PairsCut(h, pre, [bs[i]], post);
    PairsCut(h, pre, [b], post);
  }

  /** Splitting adds one pair if the remainder joins the successor and the block itself was in use. */
  lemma PairsOfSplit(h: int, bs: seq<Block>, i: nat, size: int)
    requires i < |bs| && !bs[i].free
    ensures FreePairs(h, Split(h, bs, i, size)) == FreePairs(h, bs) +
      if Splits(h, bs[i], size) && i + 1 < |bs| && bs[i + 1].free && bs[i].End(h) == bs[i + 1].addr then 1 else 0
  {
    if Splits(h, bs[i], size) {
      var pre, post := bs[..i], bs[i + 1..];
      var p := Halves(h, bs[i], size);
      assert bs == pre + [bs[i]] + post;
      PairsCut(h, pre, [bs[i]], post);
      PairsCut(h, pre, p, post);
      assert p[1..] == [p[1]];
    }
  }

  /** malloc never adds a pair. */
  lemma PairsOfAllocate(h: int, bs: seq<Block>, i: nat, size: int)
    requires i < |bs| && bs[i].free
    ensures FreePairs(h, Allocate(h, bs, i, size)) <= FreePairs(h, bs)
  {
    var used := SetFree(bs, i, false);
    PairsOfUpdate(h, bs, i, used[i]);
    PairsOfSplit(h, used, i, size);
    assert Allocate(h, bs, i, size) == Split(h, used, i, size);
  }

  /** free leaves the number of pairs unchanged: every pair it creates it merges. */
  lemma PairsOfRelease(h: int, bs: seq<Block>, i: nat)
    requires i < |bs| && !bs[i].free
    ensures FreePairs(h, Release(h, bs, i)) == FreePairs(h, bs)
  {
    var b := SetFree(bs, i, true);
    PairsOfUpdate(h, bs, i, b[i]);
    PairsOfCoalesce(h, b, i);
  }

  /** coalesce_block removes every pair its block is part of. */
  lemma PairsOfCoalesce(h: int, bs: seq<Block>, i: nat)
    requires i < |bs|
    ensures FreePairs(h, Coalesce(h, bs, i)) ==
      FreePairs(h, bs) - (if JoinsNext(h, bs, i) then 1 else 0) - (if JoinsNext(h, bs, i - 1) then 1 else 0)
  {
    var c := MergeIfJoins(h, bs, i);
    if JoinsNext(h, bs, i) {
      PairsOfMerge(h, bs, i);
    }
    assert JoinsNext(h, c, i - 1) == JoinsNext(h, bs, i - 1);
    if JoinsNext(h, c, i - 1) {
      PairsOfMerge(h, c, i - 1);
    }
  }

  /** Growing the heap adds no pair. */
  lemma PairsOfExtend(h: int, bs: seq<Block>, addr: int, len: int)
    ensures FreePairs(h, Extend(h, bs, addr, len)) == FreePairs(h, bs)
  {
    var b := Block(addr, len - h, true);
    PairsConcat(h, bs, [b]);
    PairsOfCoalesce(h, bs + [b], |bs|);
  }
}
