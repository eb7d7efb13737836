/** The utilisation replay of malloclab/mdriver.c over malloclab/mm.c. */
module ReplayUtil {
  import opened Arithmetic
  import opened Layout
  import opened MemLib
  import opened Pointers
  import opened Mm
  import opened Checker
  import opened TraceLayout
  import opened RunningTotal
  import opened Replay

  /** The result, the exit of app_error, or a running total that no int holds: from there on
      C leaves the behaviour undefined. */
  datatype Utilization = Exit | Overflow | Ratio(maxTotal: int, heapSize: int) {
    /** What eval_mm_util returns; on an empty heap C divides zero by zero. */
    function Value(): (v: real)
      requires Ratio? && heapSize != 0
      ensures v * heapSize as real == maxTotal as real
    {
      maxTotal as real / heapSize as real
    }
  }

  /** How one operation ends. */
  datatype Progress = Continues | Exits | Overflows

  /** What the utilisation replay knows between operations. */
  ghost predicate Metered(trace: Trace, mm: Mm, done: seq<TraceOp>, total: int32, maxTotal: int32)
    reads mm, mm.mem, mm.mem.bytes, trace.blocks, trace.blockSizes
  {
    ReplayedWithSizes(trace, mm, done) && total as int == Meter(done) && maxTotal as int == MaxMeter(done)
  }

  /** One operation: with room it keeps both totals, unless the new total is no int. */
  method UtilOp(trace: Trace, mm: Mm, op: TraceOp, total: int32, maxTotal: int32, ghost done: seq<TraceOp>)
    returns (end: Progress, p: int, total': int32, maxTotal': int32)
    requires Metered(trace, mm, done, total, maxTotal) && OpFits(done, op, trace.numIds)
    requires !op.Alloc? ==> Extents(mm.mem.startBrk, done)[op.index].size <= INT_MAX
    modifies mm, mm.mem`brk, mm.mem.bytes, trace.blocks, trace.blockSizes
    ensures end.Exits? <==> !op.Free? && !Room(Served(done), op.size)
    ensures end.Overflows? <==> (op.Free? || Room(Served(done), op.size)) && Meter(done + [op]) < INT_MIN
    ensures end.Continues? ==> Metered(trace, mm, done + [op], total', maxTotal')
    ensures end.Continues? ==> p == if op.Free? then NULL else mm.mem.startBrk + Total(Served(done)) + SIZE_T_SIZE
    ensures mm.mem.Valid()
  {
    hide HeadersHold, Total, Offset, Served, Owner, Named, Extents, KnowsBlocks, KnowsSizes, Meter, MaxMeter,
      Room, Payloads, NewestAgrees, AddrOf;
    ghost var base := mm.mem.startBrk;
    p, total', maxTotal' := NULL, total, maxTotal;
    match op {
      case Alloc(id, size) =>
        p := ServeMalloc(mm, size, done);
        if p == NULL {
          return Exits, p, total, maxTotal;
        }
        MeterStep(base, done, op);
        Record(trace, mm, p, op, done);
        total' := total + size as int32;
        maxTotal' := if total' > maxTotal then total' else maxTotal;
      case Realloc(id, newsize) =>
        var oldp, oldsize := Recall(trace, id, Extents(base, done));
        p := ServeRealloc(trace, mm, id, newsize, done);
        if p == NULL {
          return Exits, p, total, maxTotal;
        }
        MeterStep(base, done, op);
        Record(trace, mm, p, op, done);
        if total as int + (newsize - oldsize) < INT_MIN {
          return Overflows, p, total, maxTotal;
        }
        total' := total + (newsize as int32 - oldsize as int32);
        maxTotal' := if total' > maxTotal then total' else maxTotal;
      case Free(id) =>
        var q, size := Recall(trace, id, Extents(base, done));
        mm.Free(q);
        MeterStep(base, done, op);
        if total as int - size < INT_MIN {
          return Overflows, p, total, maxTotal;
        }
        TraceStep(base, done, op);
        ExtentsStep(base, done, op);
        total' := total - size as int32;
    }
    end := Continues;
  }

  /** eval_mm_util over mm.c: the running total overflows on exactly the traces on which it does
      over unbounded integers; otherwise it exits exactly when the blocks do not fit the heap;
      otherwise it sets the greatest running total against the heap taken, which is no less. On a
      disciplined trace that is the greatest number of bytes in use. */
  method EvalMmUtil(trace: Trace, mm: Mm) returns (r: Utilization, ghost ptrs: seq<int>)
    requires trace.Valid() && mm.mem.Valid() && WellFormed(trace.ops, trace.numIds)
    modifies mm, mm.mem`brk, mm.mem.bytes, trace.blocks, trace.blockSizes
    ensures r.Overflow? <==> !MeterFits(trace.ops)
    ensures Disciplined(trace.ops) || NumFrees(trace.ops) <= 40 ==> !r.Overflow?
    ensures r.Exit? <==> MeterFits(trace.ops) && MAX_HEAP < Total(Served(trace.ops))
    ensures r.Ratio? ==>
              r.maxTotal == MaxMeter(trace.ops) && r.heapSize == Total(Served(trace.ops)) == mm.mem.HeapSize()
              && 0 <= r.maxTotal <= r.heapSize
              && ptrs == Addresses(mm.mem.startBrk, trace.ops)
    ensures r.Ratio? && Disciplined(trace.ops) ==> r.maxTotal == MaxLive(trace.ops)
    ensures mm.mem.Valid()
  {
    hide ReplayedWithSizes, Total, Served, Extents, Meter, MaxMeter, Room, OpFits, Addresses, WellFormed, Disciplined,
      MaxLive, FitsUpTo, NumFrees;
    ghost var base, ops := mm.mem.startBrk, trace.ops;
    WhenMeterFits(ops, trace.numIds);
    NothingMetered(ops);
    StartMetered(trace, mm);
    ptrs := [];
    assert ops[..0] == [];
    var total: int32, maxTotal: int32 := 0, 0;
    var i := 0;
    while i < |trace.ops|
      invariant 0 <= i <= |ops| == |trace.ops|
      invariant Metered(trace, mm, ops[..i], total, maxTotal) && base % ALIGNMENT == 0
      invariant Total(Served(ops[..i])) <= MAX_HEAP && ptrs == Addresses(base, ops[..i])
      invariant FitsUpTo(ops, i)
    {
      ghost var done, op := ops[..i], ops[i];
      assert ops[..i + 1] == done + [op];
      FitsAt(ops, trace.numIds, i);
      RoomStep(done, op);
      TraceStep(base, done, op);
      FitsStep(ops, i);
      WellFormedPrefix(ops, trace.numIds, i);
      ExtentsAreInts(base, done, trace.numIds);
      OldIdIsNamed(done, op, trace.numIds);
      var end, p;
      end, p, total, maxTotal := UtilOp(trace, mm, trace.ops[i], total, maxTotal, done);
      if end.Exits? {
        FitsFrom(ops, i);
        RoomIsClosed(ops, i + 1);
        return Exit, ptrs;
      }
      if end.Overflows? {
        return Overflow, ptrs;
      }
      ptrs := ptrs + [p];
      i := i + 1;
    }
    assert ops[..i] == ops;
    MeterFitsHeap(ops);
    MeteredMeans(trace, mm, ops);
    if Disciplined(ops) {
      MeterIsLiveBytes(ops);
    }
    return Ratio(maxTotal as int, mm.mem.HeapSize()), ptrs;
  }

  method StartMetered(trace: Trace, mm: Mm)
    requires trace.Valid() && mm.mem.Valid()
    modifies mm, mm.mem`brk
    ensures Metered(trace, mm, [], 0, 0) && mm.mem.startBrk % ALIGNMENT == 0
    ensures Total(Served([])) <= MAX_HEAP && Addresses(mm.mem.startBrk, []) == []
  {
    hide HeadersHold, Extents, Served, Owner, Addresses, Total, Meter, MaxMeter;
    NothingLaid(mm.mem.startBrk);
    NothingMetered([]);
    var r := mm.Reset();
  }

  lemma MeteredMeans(trace: Trace, mm: Mm, done: seq<TraceOp>)
    requires ReplayedWithSizes(trace, mm, done)
    ensures mm.mem.Valid() && mm.mem.HeapSize() == Total(Served(done))
  {
  }
}
