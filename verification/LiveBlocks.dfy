/** The set of live allocations of a heap, and how each list operation changes it. */
module LiveBlocks {
  import opened Blocks

  function Used(bs: seq<Block>): set<Block> {
    set b | b in bs && !b.free
  }

  /** Headers and data of the two blocks do not overlap. */
  predicate Apart(h: int, b: Block, c: Block) {
    b.End(h) <= c.addr || c.End(h) <= b.addr
  }

  ghost predicate AllApart(h: int, bs: seq<Block>) {
    && (forall i :: 0 <= i < |bs| ==> bs[i].addr < bs[i].End(h))
    && (forall i, j :: 0 <= i < |bs| && 0 <= j < |bs| && i != j ==> Apart(h, bs[i], bs[j]))
  }

  lemma TilesApart(h: int, bs: seq<Block>, lo: int, hi: int)
    requires Tiles(h, bs, lo, hi) && h > 0
    ensures AllApart(h, bs)
  {
    TilesOrder(h, bs, lo, hi);
  }

  lemma UsedConcat(a: seq<Block>, b: seq<Block>)
    ensures Used(a + b) == Used(a) + Used(b)
  {
  }

  lemma UsedCut(bs: seq<Block>, i: nat, n: nat)
    requires i + n <= |bs|
    ensures Used(bs) == Used(bs[..i]) + Used(bs[i..i + n]) + Used(bs[i + n..])
  {
    assert bs == bs[..i] + bs[i..i + n] + bs[i + n..];
    UsedReplaced(bs[..i], bs[i..i + n], bs[i + n..]);
  }

  lemma UsedReplaced(pre: seq<Block>, mid: seq<Block>, post: seq<Block>)
    ensures Used(pre + mid + post) == Used(pre) + Used(mid) + Used(post)
  {
    UsedConcat(pre + mid, post);
    UsedConcat(pre, mid);
  }

  /** Blocks that are apart start at different addresses. */
  lemma OneBlockPerAddress(h: int, bs: seq<Block>, i: nat)
    requires AllApart(h, bs) && i < |bs|
    ensures Used(bs) - {bs[i]} == Used(bs[..i]) + Used(bs[i + 1..])
    ensures forall j :: 0 <= j < |bs| && bs[j].addr == bs[i].addr ==> j == i
    ensures forall b :: b in Used(bs) && b != bs[i] ==> Apart(h, b, bs[i])
  {
    UsedCut(bs, i, 1);
    assert bs[i..i + 1] == [bs[i]];
    forall j | 0 <= j < |bs| && j != i
      ensures bs[j].addr != bs[i].addr
    {
      assert Apart(h, bs[j], bs[i]);
    }
    assert bs[i] !in bs[..i] && bs[i] !in bs[i + 1..];
  }

  lemma UsedOfSetFree(h: int, bs: seq<Block>, i: nat, free: bool)
    requires AllApart(h, bs) && i < |bs|
    ensures Used(SetFree(bs, i, free)) == Used(bs) - {bs[i]} + if free then {} else {bs[i].(free := false)}
  {
    var b := bs[i].(free := free);
    OneBlockPerAddress(h, bs, i);
    UsedReplaced(bs[..i], [b], bs[i + 1..]);
    assert SetFree(bs, i, free) == bs[..i] + [b] + bs[i + 1..];
  }

  /** Splitting shortens a used block in place, and leaves the used blocks alone when the block is free. */
  lemma UsedOfSplit(h: int, bs: seq<Block>, i: nat, size: int)
    requires AllApart(h, bs) && i < |bs|
    ensures var b := bs[i].(size := if Splits(h, bs[i], size) then size else bs[i].size);
      && Split(h, bs, i, size)[i] == b
      && Used(Split(h, bs, i, size)) == Used(bs) - {bs[i]} + if bs[i].free then {} else {b}
  {
    OneBlockPerAddress(h, bs, i);
    if Splits(h, bs[i], size) {
      UsedReplaced(bs[..i], Halves(h, bs[i], size), bs[i + 1..]);
    }
  }

  lemma UsedOfMerge(h: int, bs: seq<Block>, i: int)
    ensures Used(MergeIfJoins(h, bs, i)) == Used(bs)
  {
    if JoinsNext(h, bs, i) {
      UsedCut(bs, i, 2);
      assert bs[i..i + 2] == [bs[i], bs[i + 1]];
      UsedReplaced(bs[..i], [Union(h, bs[i], bs[i + 1])], bs[i + 2..]);
    }
  }

  lemma UsedOfCoalesce(h: int, bs: seq<Block>, i: nat)
    requires i < |bs|
    ensures Used(Coalesce(h, bs, i)) == Used(bs)
  {
    UsedOfMerge(h, bs, i);
    UsedOfMerge(h, MergeIfJoins(h, bs, i), i - 1);
  }

  lemma UsedOfExtend(h: int, bs: seq<Block>, addr: int, len: int)
    ensures Used(Extend(h, bs, addr, len)) == Used(bs)
  {
    var b := Block(addr, len - h, true);
    UsedOfCoalesce(h, bs + [b], |bs|);
    UsedConcat(bs, [b]);
  }

  /** Freeing a block ends the life of exactly that block. */
  lemma UsedOfRelease(h: int, bs: seq<Block>, i: nat)
    requires AllApart(h, bs) && i < |bs|
    ensures Used(Release(h, bs, i)) == Used(bs) - {bs[i]}
  {
    UsedOfSetFree(h, bs, i, true);
    UsedOfCoalesce(h, SetFree(bs, i, true), i);
  }

  /** A free block i, cut to size if that leaves enough to split off, becomes a used block apart from the others. */
  lemma UsedOfAllocate(h: int, bs: seq<Block>, i: nat, size: nat)
    requires AllApart(h, bs) && i < |bs| && bs[i].free
    requires AllApart(h, Split(h, bs, i, size)) && AllApart(h, Allocate(h, bs, i, size))
    ensures var b := Block(bs[i].addr, if Splits(h, bs[i], size) then size else bs[i].size, false);
      && i < |Allocate(h, bs, i, size)| && Allocate(h, bs, i, size)[i] == b
      && Used(Allocate(h, bs, i, size)) == Used(bs) + {b} && b !in Used(bs)
      && (forall c :: c in Used(bs) ==> Apart(h, b, c))
  {
    var t, r := Split(h, bs, i, size), Allocate(h, bs, i, size);
    UsedOfSplit(h, bs, i, size);
    UsedOfSetFree(h, t, i, false);
    OneBlockPerAddress(h, bs, i);
    OneBlockPerAddress(h, r, i);
    assert bs[i] !in Used(bs);
    assert forall c :: c in Used(bs) ==> exists j :: 0 <= j < |bs| && bs[j] == c;
  }

  lemma LiveMeansUsed(h: int, bs: seq<Block>, b: Block)
    requires AllApart(h, bs) && b in Used(bs)
    ensures LiveIndex(h, bs, b.Data(h)) < |bs| && bs[LiveIndex(h, bs, b.Data(h))] == b
  {
    var k :| 0 <= k < |bs| && bs[k] == b;
    OneBlockPerAddress(h, bs, k);
  }
}
