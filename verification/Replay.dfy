/** What the replays of malloclab/mdriver.c over malloclab/mm.c have in common. */
module Replay {
  import opened Layout
  import opened MemLib
  import opened Pointers
  import opened Mm
  import opened Checker
  import opened TraceLayout

  /** A trace in memory: its operations and the two arrays indexed by id. */
  class Trace {
    const ops: seq<TraceOp>
    const numIds: nat
    const blocks: array<int>
    const blockSizes: array<int>

    predicate Valid() {
      blocks.Length == numIds == blockSizes.Length && blocks != blockSizes
    }

    constructor (ops: seq<TraceOp>, numIds: nat)
      ensures Valid() && fresh(blocks) && fresh(blockSizes)
      ensures this.ops == ops && this.numIds == numIds
    {
      this.ops, this.numIds := ops, numIds;
      blocks := new int[numIds];
      blockSizes := new int[numIds];
    }
  }

  ghost predicate KnowsBlocks(blocks: array<int>, ext: map<nat, Extent>)
    reads blocks
  {
    forall id :: id in ext ==> id < blocks.Length && blocks[id] == ext[id].addr
  }

  ghost predicate KnowsSizes(blockSizes: array<int>, ext: map<nat, Extent>)
    reads blockSizes
  {
    forall id :: id in ext ==> id < blockSizes.Length && blockSizes[id] == ext[id].size
  }

  /** What all three replays keep: the heap is laid out as the operations done so far say,
      and `blocks` has the addresses. */
  ghost predicate Replayed(trace: Trace, mm: Mm, done: seq<TraceOp>)
    reads mm, mm.mem, mm.mem.bytes, trace.blocks
  {
    trace.Valid() && mm.Valid() && mm.sizes == Served(done)
    && KnowsBlocks(trace.blocks, Extents(mm.mem.startBrk, done))
  }

  ghost predicate ReplayedWithSizes(trace: Trace, mm: Mm, done: seq<TraceOp>)
    reads mm, mm.mem, mm.mem.bytes, trace.blocks, trace.blockSizes
  {
    Replayed(trace, mm, done) && KnowsSizes(trace.blockSizes, Extents(mm.mem.startBrk, done))
  }

  /** A call of mm_malloc in a replay that has done `done` so far: how it ends is settled. */
  ghost predicate JustServed(mm: Mm, p: int, size: nat, done: seq<TraceOp>)
    reads mm, mm.mem, mm.mem.bytes
  {
    mm.Valid() && mm.sizes == Served(done) + [size] && p == mm.Addr(|Served(done)|)
    && p == mm.mem.startBrk + Total(Served(done)) + SIZE_T_SIZE
    && p % ALIGNMENT == 0
    && mm.mem.brk == mm.mem.startBrk + Total(Served(done)) + Align(size + SIZE_T_SIZE)
  }

  method ServeMalloc(mm: Mm, size: nat, ghost done: seq<TraceOp>) returns (p: int)
    requires mm.Valid() && mm.sizes == Served(done) && size <= INT_MAX
    modifies mm, mm.mem`brk, mm.mem.bytes
    ensures mm.Valid() && (p != NULL <==> Room(Served(done), size))
    ensures p == NULL ==> mm.mem.brk == old(mm.mem.brk)
    ensures p != NULL ==> JustServed(mm, p, size, done) && mm.Data()[..|Served(done)|] == old(mm.Data())
  {
    hide HeadersHold, Splice, Total, Offset, Payload, Payloads, Served;
    ghost var data := mm.Data();
    p := mm.Malloc(size);
    assert p != NULL ==> mm.Data()[..|data|] == data;
  }

  method ServeRealloc(trace: Trace, mm: Mm, id: nat, size: nat, ghost done: seq<TraceOp>) returns (p: int)
    requires Replayed(trace, mm, done) && size <= INT_MAX && id in Named(done)
    modifies mm, mm.mem`brk, mm.mem.bytes
    ensures mm.Valid() && (p != NULL <==> Room(Served(done), size))
    ensures p == NULL ==> mm.mem.brk == old(mm.mem.brk)
    ensures p != NULL ==> JustServed(mm, p, size, done) && mm.Data()[..|Served(done)|] == old(mm.Data())
    ensures p != NULL ==> NewestAgrees(mm.Data(), old(mm.Data()), Owner(done), id)
  {
    hide HeadersHold, Splice, Total, Offset, Payload, Payloads, Served, Owner, Named, Extents, Agree;
    KnownBlock(mm.mem.startBrk, done, id);
    ghost var data, i := mm.Data(), Owner(done)[id];
    p := mm.Realloc(trace.blocks[id], size, i);
    assert p != NULL ==> mm.Data()[..|data|] == data;
  }

  /** Remembers a block's address and size. */
  method Remember(trace: Trace, id: nat, p: int, size: nat, ghost ext: map<nat, Extent>)
    requires trace.Valid() && id < trace.numIds
    requires KnowsBlocks(trace.blocks, ext) && KnowsSizes(trace.blockSizes, ext)
    modifies trace.blocks, trace.blockSizes
    ensures KnowsBlocks(trace.blocks, ext[id := Extent(p, size)])
    ensures KnowsSizes(trace.blockSizes, ext[id := Extent(p, size)])
  {
    trace.blocks[id] := p;
    trace.blockSizes[id] := size;
  }

  /** Remembers the newest block as the one of the operation's id. */
  method Record(trace: Trace, mm: Mm, p: int, op: TraceOp, ghost done: seq<TraceOp>)
    requires trace.Valid() && mm.Valid() && !op.Free? && op.index < trace.numIds
    requires mm.sizes == Served(done) + [op.size] && p == mm.Addr(|Served(done)|)
    requires KnowsBlocks(trace.blocks, Extents(mm.mem.startBrk, done))
    requires KnowsSizes(trace.blockSizes, Extents(mm.mem.startBrk, done))
    modifies trace.blocks, trace.blockSizes
    ensures ReplayedWithSizes(trace, mm, done + [op])
  {
    hide HeadersHold, Total, Offset, Served, Owner, Named, Extents, KnowsBlocks, KnowsSizes;
    TraceStep(mm.mem.startBrk, done, op);
    ExtentsStep(mm.mem.startBrk, done, op);
    NextAddr(mm.mem.startBrk, Served(done), op.size);
    Remember(trace, op.index, p, op.size, Extents(mm.mem.startBrk, done));
  }

  method Recall(trace: Trace, id: nat, ghost ext: map<nat, Extent>) returns (p: int, size: int)
    requires trace.Valid() && id in ext
    requires KnowsBlocks(trace.blocks, ext) && KnowsSizes(trace.blockSizes, ext)
    ensures id < trace.numIds && p == ext[id].addr && size == ext[id].size
  {
    return trace.blocks[id], trace.blockSizes[id];
  }

  method StartReplay(trace: Trace, mm: Mm)
    requires trace.Valid() && mm.mem.Valid()
    modifies mm, mm.mem`brk
    ensures Replayed(trace, mm, [])
    ensures Total(Served([])) <= MAX_HEAP && Addresses(mm.mem.startBrk, []) == []
  {
    hide HeadersHold, Extents, Served, Owner, Addresses, Total;
    NothingLaid(mm.mem.startBrk);
    var r := mm.Reset();
  }
}
