/** The speed replay of malloclab/mdriver.c over malloclab/mm.c. */
module ReplaySpeed {
  import opened Layout
  import opened MemLib
  import opened Pointers
  import opened Mm
  import opened Checker
  import opened TraceLayout
  import opened Replay

  method SpeedOp(trace: Trace, mm: Mm, op: TraceOp, ghost done: seq<TraceOp>) returns (exit: bool, p: int)
    requires Replayed(trace, mm, done) && OpFits(done, op, trace.numIds)
    modifies mm, mm.mem`brk, mm.mem.bytes, trace.blocks
    ensures exit <==> !op.Free? && !Room(Served(done), op.size)
    ensures !exit ==> Replayed(trace, mm, done + [op])
    ensures !exit ==> p == if op.Free? then NULL else mm.mem.startBrk + Total(Served(done)) + SIZE_T_SIZE
    ensures mm.mem.Valid()
  {
    hide HeadersHold, Total, Offset, Served, Owner, Named, Extents, Room, Payloads, NewestAgrees, AddrOf;
    TraceStep(mm.mem.startBrk, done, op);
    ExtentsStep(mm.mem.startBrk, done, op);
    p := NULL;
    match op {
      case Alloc(id, size) =>
        p := ServeMalloc(mm, size, done);
        if p == NULL {
          return true, p;
        }
        trace.blocks[id] := p;
      case Realloc(id, newsize) =>
        p := ServeRealloc(trace, mm, id, newsize, done);
        if p == NULL {
          return true, p;
        }
        trace.blocks[id] := p;
      case Free(id) =>
        mm.Free(trace.blocks[id]);
    }
    exit := false;
  }

  /** eval_mm_speed over mm.c: it runs through exactly when the blocks fit the heap. */
  method EvalMmSpeed(trace: Trace, mm: Mm) returns (exit: bool, ghost ptrs: seq<int>)
    requires trace.Valid() && mm.mem.Valid() && WellFormed(trace.ops, trace.numIds)
    modifies mm, mm.mem`brk, mm.mem.bytes, trace.blocks
    ensures exit <==> MAX_HEAP < Total(Served(trace.ops))
    ensures !exit ==>
              mm.mem.HeapSize() == Total(Served(trace.ops)) && ptrs == Addresses(mm.mem.startBrk, trace.ops)
    ensures mm.mem.Valid()
  {
    hide HeadersHold, KnowsBlocks, Total, Served, Extents, Room, Addresses, OpFits;
    ghost var base, ops := mm.mem.startBrk, trace.ops;
    StartReplay(trace, mm);
    ptrs := [];
    assert ops[..0] == [];
    var i := 0;
    while i < |trace.ops|
      invariant 0 <= i <= |ops| == |trace.ops|
      invariant Replayed(trace, mm, ops[..i])
      invariant Total(Served(ops[..i])) <= MAX_HEAP && ptrs == Addresses(base, ops[..i])
    {
      ghost var done, op := ops[..i], ops[i];
      assert ops[..i + 1] == done + [op];
      assert OpFits(done, op, trace.numIds);
      RoomStep(done, op);
      TraceStep(base, done, op);
      var p;
      exit, p := SpeedOp(trace, mm, trace.ops[i], done);
      if exit {
        RoomIsClosed(ops, i + 1);
        return exit, ptrs;
      }
      ptrs := ptrs + [p];
      i := i + 1;
    }
    assert ops[..i] == ops;
    exit := false;
  }
}
