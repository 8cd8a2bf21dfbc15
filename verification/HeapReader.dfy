/** The threaded reader with its list of blocks on the heap: every run of the step system, with real pointers. */
module HeapReader {
  import opened Bytes
  import opened ReaderSpec
  import opened ThreadedReader
  import opened ReaderSafety
  import opened BlockList

  /** The event frees the oldest block. */
  predicate Frees(s: State, e: Event) {
    e.Consumer? && s.list != [] && (s.c.Dispose? || s.c.Drain?)
  }

  predicate Links(s: State, e: Event) {
    e.Producer? && s.p.Append?
  }

  /** What a step does to the list of a reachable state. */
  function ListAfter(s: State, e: Event): seq<seq<byte>> {
    if Links(s, e) then s.list + [s.p.block]
    else if Frees(s, e) then s.list[1..]
    else s.list
  }

  lemma PutKeepsList(cfg: Config, s: State, i: nat, cur: seq<byte>, before: seq<seq<byte>>, written: int)
    requires cfg.Valid()
    ensures PutStep(cfg, s, i, cur, before, written).list == s.list
  {
    hide Chunk, Slice;
  }

  lemma ListStep(cfg: Config, s: State, e: Event)
    requires Inv(cfg, s)
    ensures Next(cfg, s, e).list == ListAfter(s, e)
  {
    hide Transfer, CallResult, Settled, RoundInv, LogInv, ListInv, ProducerInv, CallInv, ErrorInv, PutStep, Branch;
    if e.Consumer? && s.c.Put? {
      PutKeepsList(cfg, s, s.c.i, s.c.cur, s.c.before, e.written);
    }
  }

  lemma BlockCountIsLength(cfg: Config, s: State)
    requires Inv(cfg, s)
    ensures s.blockCount == |s.list|
  {
    hide Transfer, CallResult, Settled, RoundInv, LogInv, ProducerInv, CallInv, ErrorInv, PositionInv;
  }

  /** The step that fetches a block takes the oldest one, or returns when there is none. */
  lemma FetchStep(cfg: Config, s: State, e: Event)
    requires cfg.Valid() && e.Consumer? && s.c.Get?
    ensures Next(cfg, s, e).c == if s.list == [] then Idle else Put(0, s.list[0], s.outs)
  {
  }

  class Heap {
    var blocks: BlockList

    /** The chain on the heap is the list of the state. */
    ghost predicate Holds(s: State)
      reads this, blocks, blocks.nodes
    {
      blocks.Valid() && blocks.Contents() == s.list && blocks.blockCount == s.blockCount
    }

    constructor ()
      ensures fresh(blocks) && blocks.nodes == [] && Holds(InitialState())
    {
      blocks := new BlockList();
    }

    /** One event, with the pointer operations of its step. */
    method Step(cfg: Config, s: State, e: Event) returns (next: State)
      requires Inv(cfg, s) && Holds(s)
      modifies blocks, blocks.nodes
      ensures next == Next(cfg, s, e) && blocks == old(blocks) && Holds(next)
      ensures fresh(set n | n in blocks.nodes && n !in old(blocks.nodes))
      ensures e.Consumer? && s.c.Get? ==>
        next.c == if blocks.memFirst == null then Idle else Put(0, blocks.memFirst.mem, s.outs)
    {
      hide Inv, Next;
      ListStep(cfg, s, e);
      InvNext(cfg, s, e);
      BlockCountIsLength(cfg, Next(cfg, s, e));
      next := Next(cfg, s, e);
      if Links(s, e) {
        var block := new MemBlock(s.p.block);
        blocks.Append(block);
      } else if Frees(s, e) {
        var freed := blocks.DisposeFirst();
      } else if e.Consumer? && s.c.Get? {
        FetchStep(cfg, s, e);
        var block := blocks.GetCurrent();
      }
      assert |blocks.Contents()| == |blocks.nodes|;
    }
  }

  /**
   In every reachable state the heap holds the listed blocks as a chain from memFirst to memLast, whose length is
   blockCount; memLast is its last node, and null if and only if there is none.
   */
  method RunOnHeap(cfg: Config, schedule: seq<Event>) returns (s: State, heap: Heap)
    requires cfg.Valid()
    ensures s == Run(cfg, schedule) && heap.Holds(s)
    ensures heap.blocks.memLast == null <==> s.list == []
    ensures s.list != [] ==> heap.blocks.memLast.mem == s.list[|s.list| - 1] && heap.blocks.memLast.next == null
  {
    hide Inv, Next;
    s := InitialState();
    heap := new Heap();
    InvInit(cfg);
    assert schedule[0..] == schedule;
    var i := 0;
    while i < |schedule|
      invariant i <= |schedule| && Inv(cfg, s) && Exec(cfg, s, schedule[i..]) == Run(cfg, schedule)
      invariant fresh(heap) && fresh(heap.blocks) && fresh(heap.blocks.nodes) && heap.Holds(s)
    {
      InvNext(cfg, s, schedule[i]);
      assert schedule[i..][1..] == schedule[i + 1..];
      s := heap.Step(cfg, s, schedule[i]);
      i := i + 1;
    }
    LastNode(heap.blocks);
  }

  lemma LastNode(blocks: BlockList)
    requires blocks.Valid()
    ensures |blocks.Contents()| == |blocks.nodes|
    ensures blocks.nodes != [] ==>
      && blocks.memLast != null && blocks.memLast.next == null
      && blocks.memLast.mem == blocks.Contents()[|blocks.nodes| - 1]
  {
  }
}
