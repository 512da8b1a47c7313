/** The bump allocator of allocators.cpp, source of page tables, list nodes and frame records. */
module Placement {
  import opened Words

  const KVIRTUAL_ADDRESS: int := 0xffff_ffff_8000_0000

  /** One request to the bump allocator. */
  datatype Request = Request(size: Word, align: bool)

  /** Where the next allocation starts. */
  function Base(next: Word, align: bool): Word {
    if align then AlignUp(next) else next
  }

  function After(next: Word, r: Request): Word {
    (Base(next, r.align) + r.size) % TWO_64
  }

  class Bump {
    var next: Word

    constructor (end: Word)
      ensures next == end
    {
      next := end;
    }

    /** placement_kalloc: returns the virtual and the physical address of the new space. */
    method Kalloc(size: Word, align: bool) returns (vaddr: Word, paddr: Word)
      modifies this
      ensures vaddr == Base(old(next), align)
      ensures next == After(old(next), Request(size, align))
      ensures (paddr + KVIRTUAL_ADDRESS) % TWO_64 == vaddr
    {
      if align {
        next := AlignUp(next);
      }
      vaddr := next;
      paddr := (next - KVIRTUAL_ADDRESS) % TWO_64;
      next := (next + size) % TWO_64;
    }
  }

  /** The starts of the spaces handed out for a run of requests. */
  function Starts(next: Word, rs: seq<Request>): (starts: seq<Word>)
    ensures |starts| == |rs|
    decreases |rs|
  {
    if rs == [] then [] else [Base(next, rs[0].align)] + Starts(After(next, rs[0]), rs[1..])
  }

  /** No pointer computed by the run reaches the top of the address space. */
  predicate NoWrap(next: Word, rs: seq<Request>)
    decreases |rs|
  {
    rs != [] ==>
      && next <= TWO_64 - FRAME_SIZE
      && Base(next, rs[0].align) + rs[0].size < TWO_64
      && NoWrap(After(next, rs[0]), rs[1..])
  }

  /** Every space handed out in a run lies above the old pointer and above every earlier space,
      and the aligned ones start on a page boundary. */
  lemma {:induction false} RunIsFresh(next: Word, rs: seq<Request>)
    requires NoWrap(next, rs)
    ensures var starts := Starts(next, rs);
      && (forall i :: 0 <= i < |rs| ==> next <= starts[i] && starts[i] + rs[i].size < TWO_64)
      && (forall i :: 0 <= i < |rs| && rs[i].align ==> starts[i] % FRAME_SIZE == 0)
      && (forall i, j :: 0 <= i < j < |rs| ==> starts[i] + rs[i].size <= starts[j])
    decreases |rs|
  {
    if rs != [] {
      RunIsFresh(After(next, rs[0]), rs[1..]);
      var starts, rest := Starts(next, rs), Starts(After(next, rs[0]), rs[1..]);
      assert forall i :: 0 < i < |rs| ==> starts[i] == rest[i - 1] && rs[i] == rs[1..][i - 1];
    }
  }
}
