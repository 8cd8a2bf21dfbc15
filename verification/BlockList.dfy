/**
 The linked list of read-ahead blocks on the heap (installer/mappedfile_mt.c): the regions that the
 step system of ThreadedReader takes as single steps on a sequence, here with their pointers.
 */
module BlockList {
  import opened Bytes

  /** A block is filled before it is linked and never written again. */
  class MemBlock {
    const mem: seq<byte>
    var next: MemBlock?

    constructor (bytes: seq<byte>)
      ensures mem == bytes && next == null
    {
      mem, next := bytes, null;
    }
  }

  /** The node behind node i of a chain. */
  ghost function After(nodes: seq<MemBlock>, i: nat): MemBlock? {
    if i + 1 < |nodes| then nodes[i + 1] else null
  }

  class BlockList {
    var blockCount: int
    var memFirst: MemBlock?
    var memLast: MemBlock?
    ghost var nodes: seq<MemBlock>

    /** memFirst starts a null-terminated chain of blockCount nodes; memLast is its end, null iff it is empty. */
    ghost predicate Valid()
      reads this, nodes
    {
      && blockCount == |nodes|
      && memFirst == (if nodes == [] then null else nodes[0])
      && memLast == (if nodes == [] then null else nodes[|nodes| - 1])
      && (forall i :: 0 <= i < |nodes| ==> nodes[i].next == After(nodes, i))
      && (forall i, j :: 0 <= i < j < |nodes| ==> nodes[i] != nodes[j])
    }

    ghost function Contents(): seq<seq<byte>>
      reads this
    {
      seq(|nodes|, i requires 0 <= i < |nodes| reads this => nodes[i].mem)
    }

    constructor ()
      ensures Valid() && Contents() == []
    {
      blockCount, memFirst, memLast, nodes := 0, null, null, [];
    }

    /** The locked region at the end of mappedFile_readAhead1Block. */
    method Append(block: MemBlock)
      requires Valid() && block.next == null && block !in nodes
      modifies this, nodes
      ensures Valid() && nodes == old(nodes) + [block]
      ensures Contents() == old(Contents()) + [block.mem]
    {
      blockCount := blockCount + 1;
      if memFirst == null {
        memFirst := block;
      }
      if memLast != null {
        memLast.next := block;
      }
      memLast := block;
      nodes := nodes + [block];
    }

    /** mappedFile_disposeBlock. Its callers hold a block, so the list is not empty. */
    method DisposeFirst() returns (ghost freed: MemBlock)
      requires Valid() && Contents() != []
      modifies this
      ensures Valid() && old(nodes) == [freed] + nodes
      ensures Contents() == old(Contents())[1..]
    {
      freed := nodes[0];
      assert |Contents()| == |nodes|;
      assert freed.next == After(nodes, 0);
      memFirst := memFirst.next;
      blockCount := blockCount - 1;
      if blockCount == 0 {
        memLast := null;
      }
      nodes := nodes[1..];
      forall i | 0 <= i < |nodes|
        ensures nodes[i].next == After(nodes, i)
      {
        assert nodes[i].next == After(old(nodes), i + 1);
      }
    }

    /** mappedFile_getCurrentBlock: the oldest block, or null when there is none. */
    method GetCurrent() returns (block: MemBlock?)
      requires Valid()
      ensures block == null <==> Contents() == []
      ensures block != null ==> block.mem == Contents()[0]
    {
      block := memFirst;
    }
  }
}
