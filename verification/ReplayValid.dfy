/** The validity replay of malloclab/mdriver.c over malloclab/mm.c. */
module ReplayValid {
  import opened Layout
  import opened MemLib
  import opened Pointers
  import opened Mm
  import opened Ranges
  import opened Checker
  import opened TraceLayout
  import opened MmVerdict
  import opened Replay

  /** What the validity replay keeps besides: the records are disjoint and below brk, and every block of
      an id is filled with the id's low byte. */
  ghost predicate Checked(trace: Trace, mm: Mm, ranges: RangeList, done: seq<TraceOp>)
    reads mm, mm.mem, mm.mem.bytes, trace.blocks, trace.blockSizes, ranges, ranges.repr
  {
    ReplayedWithSizes(trace, mm, done)
    && ranges.Valid() && Stacked(ranges.View(), mm.mem.brk)
    && Filled(mm.Data(), Owner(done))
  }

  /** Fills the newest payload with its id's low byte. */
  method FillNewest(mm: Mm, p: int, id: nat, size: nat, ghost k: nat, ghost owner: map<nat, nat>)
    requires mm.Valid() && |mm.sizes| == k + 1 && mm.sizes[k] == size && p == mm.Addr(k)
    requires Filled(mm.Data()[..k], owner)
    modifies mm.mem.bytes
    ensures mm.Valid() && Filled(mm.Data(), owner[id := k])
  {
    hide HeadersHold, Splice, Total, Offset, Payload, Filled, Uniform;
    ghost var data := mm.Data();
    FillIsUniform(data[k], id);
    mm.Fill(p, 0, (id % 256) as byte, size, k);
    FilledMore(data[..k], owner, id, mm.Data()[k]);
    assert mm.Data() == data[..k] + [mm.Data()[k]];
  }

  /** The end of ALLOC and REALLOC alike: fill the new payload and remember it. */
  method Settle(trace: Trace, mm: Mm, p: int, op: TraceOp, ghost done: seq<TraceOp>)
    requires trace.Valid() && mm.Valid() && !op.Free? && op.index < trace.numIds
    requires mm.sizes == Served(done) + [op.size] && p == mm.Addr(|Served(done)|)
    requires KnowsBlocks(trace.blocks, Extents(mm.mem.startBrk, done))
    requires KnowsSizes(trace.blockSizes, Extents(mm.mem.startBrk, done))
    requires Filled(mm.Data()[..|Served(done)|], Owner(done))
    modifies mm.mem.bytes, trace.blocks, trace.blockSizes
    ensures ReplayedWithSizes(trace, mm, done + [op])
    ensures Filled(mm.Data(), Owner(done + [op]))
  {
    hide HeadersHold, Splice, Total, Offset, Payload, Payloads, Served, Owner, Named, Extents, Filled,
      KnowsBlocks, KnowsSizes;
    TraceStep(mm.mem.startBrk, done, op);
    FillNewest(mm, p, op.index, op.size, |Served(done)|, Owner(done));
    Record(trace, mm, p, op, done);
  }

  /** ALLOC of eval_mm_valid. */
  method ValidAlloc(trace: Trace, mm: Mm, ranges: RangeList, id: nat, size: nat, ghost done: seq<TraceOp>)
    returns (ok: bool, ghost a: Answer)
    requires Checked(trace, mm, ranges, done) && OpFits(done, Alloc(id, size), trace.numIds)
    modifies mm, mm.mem`brk, mm.mem.bytes, ranges, trace.blocks, trace.blockSizes
    ensures ok <==> Room(Served(done), size)
    ensures ok ==> Checked(trace, mm, ranges, done + [Alloc(id, size)])
    ensures MmAnswer(mm.mem.startBrk, done, Alloc(id, size), a)
    ensures Step(DriverOf(old(ranges.View()), mm.mem.startBrk, done), Alloc(id, size), a) ==
            if ok then Accepted(DriverOf(ranges.View(), mm.mem.startBrk, done + [Alloc(id, size)])) else Rejected
    ensures fresh(ranges.repr - old(ranges.repr)) && mm.mem.Valid() && ranges.Valid()
  {
    hide HeadersHold, Splice, Total, Offset, Payload, Payloads, Served, Owner, Named, Extents, Filled, Uniform,
      Stacked, Accepts, RangesOf, RangeList.Valid, KnowsBlocks, KnowsSizes, Step, DriverOf;
    var op := TraceOp.Alloc(id, size);
    ghost var base, brk, rs := mm.mem.startBrk, mm.mem.brk, ranges.View();
    var p := ServeMalloc(mm, size, done);
    a := Answer(p, base, mm.mem.brk - 1, []);
    AllocVerdict(rs, base, done, id, size, a);
    if p == NULL {
      return false, a;
    }
    FreshIsAccepted(rs, brk, p, size, base, mm.mem.brk);
    var added := ranges.AddRange(p, size, mm.mem.HeapLo(), mm.mem.HeapHi());
    if !added {
      return false, a;
    }
    Settle(trace, mm, p, op, done);
    return true, a;
  }

  /** The data check: does each of the first `n` bytes, read as a char, equal the low byte? */
  method CheckBytes(mm: Mm, p: int, n: nat, id: nat, ghost k: nat) returns (ok: bool)
    requires mm.Valid() && k < |mm.sizes| && p == mm.Addr(k) && n <= mm.sizes[k]
    ensures ok <==> Preserved(mm.Data()[k], n, id)
  {
    hide HeadersHold, Payload, Offset, Total;
    ghost var data := mm.Data()[k];
    var j := 0;
    while j < n
      invariant 0 <= j <= n && Preserved(data, j, id)
    {
      ByteOfPayload(mm.mem.bytes[..], mm.sizes, k, j);
      if SignedChar(mm.mem.bytes[p - mm.mem.startBrk + j]) != id % 256 {
        return false;
      }
      j := j + 1;
    }
    return true;
  }

  /** Takes the old record off the list and adds the new one, which lies at the end of the heap. */
  method Rerange(mem: Mem, ranges: RangeList, oldp: int, newp: int, size: nat, ghost brk: int) returns (added: bool)
    requires mem.Valid() && ranges.Valid() && Stacked(ranges.View(), brk)
    requires mem.startBrk <= brk && newp == brk + SIZE_T_SIZE && newp % ALIGNMENT == 0
    requires 0 < size && newp + size <= mem.brk
    modifies ranges, ranges.repr
    ensures added && ranges.Valid() && Stacked(ranges.View(), mem.brk)
    ensures ranges.View() == [Range(newp, newp + size - 1)] + Remove(old(ranges.View()), oldp)
    ensures Accepts(Remove(old(ranges.View()), oldp), newp, size, mem.startBrk, mem.brk - 1)
    ensures fresh(ranges.repr - old(ranges.repr))
  {
    hide Stacked, Accepts, RangesOf, RangeList.Valid;
    RemoveIsStacked(ranges.View(), oldp, brk);
    FreshIsAccepted(Remove(ranges.View(), oldp), brk, newp, size, mem.startBrk, mem.brk);
    ranges.RemoveRange(oldp);
    added := ranges.AddRange(newp, size, mem.HeapLo(), mem.HeapHi());
  }

  /** A realloc of a filled block finds the id's low byte as far as old and new payload go. */
  lemma OverlapIsFilled(base: int, done: seq<TraceOp>, data: seq<seq<byte>>, was: seq<seq<byte>>, id: nat, size: nat)
    requires id in Named(done)
    requires NewestAgrees(data, was, Owner(done), id) && Filled(was, Owner(done))
    requires |was| == |Served(done)| && forall i :: 0 <= i < |was| ==> |was[i]| == Served(done)[i]
    requires |data[|was|]| == size
    ensures LowBytes(data[|was|], Overlap(base, done, id, size), id)
  {
    hide Served, Owner, Named, Extents;
    KnownBlock(base, done, id);
    var b, old' := data[|was|], was[Owner(done)[id]];
    forall j | 0 <= j < Overlap(base, done, id, size) ensures b[j] as int == id % 256 {
      assert b[j] == old'[j];
    }
  }

  /** REALLOC of eval_mm_valid: besides the room, it takes an id whose low byte is below 128. */
  method ValidRealloc(trace: Trace, mm: Mm, ranges: RangeList, id: nat, size: nat, ghost done: seq<TraceOp>)
    returns (ok: bool, ghost a: Answer)
    requires Checked(trace, mm, ranges, done) && OpFits(done, Realloc(id, size), trace.numIds)
    requires 0 < Extents(mm.mem.startBrk, done)[id].size
    modifies mm, mm.mem`brk, mm.mem.bytes, ranges, ranges.repr, trace.blocks, trace.blockSizes
    ensures ok <==> Room(Served(done), size) && id % 256 < 128
    ensures ok ==> Checked(trace, mm, ranges, done + [Realloc(id, size)])
    ensures MmAnswer(mm.mem.startBrk, done, Realloc(id, size), a)
    ensures Step(DriverOf(old(ranges.View()), mm.mem.startBrk, done), Realloc(id, size), a) ==
            if ok then Accepted(DriverOf(ranges.View(), mm.mem.startBrk, done + [Realloc(id, size)])) else Rejected
    ensures fresh(ranges.repr - old(ranges.repr)) && mm.mem.Valid() && ranges.Valid()
  {
    hide HeadersHold, Splice, Total, Offset, Payload, Payloads, Served, Owner, Named, Extents, Filled, Uniform,
      Stacked, Accepts, RangesOf, RangeList.Valid, Preserved, KnowsBlocks, KnowsSizes, Step, DriverOf, Remove,
      NewestAgrees, Room, Align, AddrOf;
    var op := TraceOp.Realloc(id, size);
    ghost var base, brk, rs, data := mm.mem.startBrk, mm.mem.brk, ranges.View(), mm.Data();
    ghost var k := |Served(done)|;
    var oldp, oldsize := Recall(trace, id, Extents(base, done));
    var newp := ServeRealloc(trace, mm, id, size, done);
    a := Answer(newp, base, mm.mem.brk - 1, if newp == NULL then [] else mm.Data()[k]);
    ReallocVerdict(rs, base, done, id, size, a);
    if newp == NULL {
      return false, a;
    }
    OverlapIsFilled(base, done, mm.Data(), data, id, size);
    var added := Rerange(mm.mem, ranges, oldp, newp, size, brk);
    if !added {
      return false, a;
    }
    if size < oldsize {
      oldsize := size;
    }
    PreservedIfSmall(mm.Data()[k], oldsize, id);
    var same := CheckBytes(mm, newp, oldsize, id, k);
    if !same {
      return false, a;
    }
    Settle(trace, mm, newp, op, done);
    return true, a;
  }

  /** One operation of eval_mm_valid. */
  method ValidOp(trace: Trace, mm: Mm, ranges: RangeList, op: TraceOp, ghost done: seq<TraceOp>)
    returns (ok: bool, ghost a: Answer)
    requires Checked(trace, mm, ranges, done) && OpFits(done, op, trace.numIds)
    requires forall id :: id in Extents(mm.mem.startBrk, done) ==> 0 < Extents(mm.mem.startBrk, done)[id].size
    modifies mm, mm.mem`brk, mm.mem.bytes, ranges, ranges.repr, trace.blocks, trace.blockSizes
    ensures ok <==> (!op.Free? ==> Room(Served(done), op.size)) && (op.Realloc? ==> op.index % 256 < 128)
    ensures ok ==> Checked(trace, mm, ranges, done + [op])
    ensures MmAnswer(mm.mem.startBrk, done, op, a)
    ensures Step(DriverOf(old(ranges.View()), mm.mem.startBrk, done), op, a) ==
            if ok then Accepted(DriverOf(ranges.View(), mm.mem.startBrk, done + [op])) else Rejected
    ensures fresh(ranges.repr - old(ranges.repr)) && mm.mem.Valid() && ranges.Valid()
  {
    hide HeadersHold, Total, Served, Owner, Named, Extents, Filled, Stacked, RangesOf, RangeList.Valid,
      KnowsBlocks, KnowsSizes, Remove, Room, Payloads, Align;
    match op {
      case Alloc(id, size) =>
        ok, a := ValidAlloc(trace, mm, ranges, id, size, done);
      case Realloc(id, size) =>
        ok, a := ValidRealloc(trace, mm, ranges, id, size, done);
      case Free(id) =>
        a := Answer(NULL, mm.mem.startBrk, mm.mem.brk - 1, []);
        TraceStep(mm.mem.startBrk, done, op);
        ExtentsStep(mm.mem.startBrk, done, op);
        var p, _ := Recall(trace, id, Extents(mm.mem.startBrk, done));
        RemoveIsStacked(ranges.View(), p, mm.mem.brk);
        ranges.RemoveRange(p);
        mm.Free(p);
        ok := true;
    }
  }

  /** eval_mm_valid over mm.c: 1 on exactly the traces that `Passes`. What it decides is what
      the checker decides on mm.c's answers. */
  method EvalMmValid(trace: Trace, mm: Mm, ranges: RangeList) returns (valid: bool, ghost answers: seq<Answer>)
    requires trace.Valid() && WellFormed(trace.ops, trace.numIds)
    requires mm.mem.Valid() && ranges.Valid()
    modifies mm, mm.mem`brk, mm.mem.bytes, ranges, ranges.repr, trace.blocks, trace.blockSizes
    ensures valid <==> Passes(trace.ops)
    ensures |answers| <= |trace.ops| && (valid ==> |answers| == |trace.ops|)
    ensures Run(trace.ops[..|answers|], answers) ==
            if valid then Accepted(DriverOf(ranges.View(), mm.mem.startBrk, trace.ops)) else Rejected
    ensures MmAnswers(mm.mem.startBrk, trace.ops, answers)
    ensures valid ==> Checked(trace, mm, ranges, trace.ops)
    ensures valid ==> Carries(answers, Addresses(mm.mem.startBrk, trace.ops))
    ensures valid ==> mm.mem.HeapSize() == Total(Served(trace.ops))
    ensures mm.mem.Valid() && ranges.Valid() && fresh(ranges.repr - old(ranges.repr))
  {
    hide Checked, Total, Served, Extents, RangeList.Valid, RangesOf, Room, Passes, Step, OpFits, Addresses, DriverOf,
      MmAnswer, WellFormed, Run, Carries, MmAnswers;
    ghost var base, ops := mm.mem.startBrk, trace.ops;
    Start(trace, mm, ranges);
    answers := [];
    assert ops[..0] == [];
    var i := 0;
    while i < |trace.ops|
      invariant 0 <= i <= |ops| == |trace.ops|
      invariant Checked(trace, mm, ranges, ops[..i]) && Passes(ops[..i])
      invariant |answers| == i && Run(ops[..i], answers) == Accepted(DriverOf(ranges.View(), base, ops[..i]))
      invariant Carries(answers, Addresses(base, ops[..i]))
      invariant MmAnswers(base, ops, answers)
      invariant fresh(ranges.repr - old(ranges.repr)) && base % ALIGNMENT == 0
    {
      ghost var done, op := ops[..i], ops[i];
      FitsAt(ops, trace.numIds, i);
      PassesStep(ops, i);
      TraceStep(base, done, op);
      WellFormedPrefix(ops, trace.numIds, i);
      ExtentsAreInts(base, done, trace.numIds);
      ghost var d := DriverOf(ranges.View(), base, done);
      var ok; ghost var a;
      ok, a := ValidOp(trace, mm, ranges, trace.ops[i], done);
      RunStep(done, answers, op, a);
      CarriesStep(answers, Addresses(base, done), a);
      MmAnswersStep(base, ops, answers, a);
      MmAnswerPtr(base, done, op, a);
      answers := answers + [a];
      if !ok {
        if Passes(ops) {
          PassesIsClosed(ops, i + 1);
        }
        return false, answers;
      }
      i := i + 1;
    }
    assert ops[..i] == ops;
    CheckedMeans(trace, mm, ranges, ops);
    return true, answers;
  }

  /** Reset the heap, empty the range list. */
  method Start(trace: Trace, mm: Mm, ranges: RangeList)
    requires trace.Valid() && mm.mem.Valid() && ranges.Valid()
    modifies mm, mm.mem`brk, ranges
    ensures Checked(trace, mm, ranges, []) && ranges.View() == [] && ranges.repr == old(ranges.repr)
    ensures mm.mem.startBrk % ALIGNMENT == 0 && Passes([]) && Carries([], [])
    ensures MmAnswers(mm.mem.startBrk, trace.ops, [])
    ensures Run([], []) == Accepted(DriverOf([], mm.mem.startBrk, [])) && Addresses(mm.mem.startBrk, []) == []
  {
    hide HeadersHold, RangeList.Valid, Extents, Served, Owner, Passes, Run, DriverOf, Addresses;
    NothingLaid(mm.mem.startBrk);
    NothingDone(mm.mem.startBrk);
    var r := mm.Reset();
    ranges.ClearRanges();
  }

  lemma CheckedMeans(trace: Trace, mm: Mm, ranges: RangeList, done: seq<TraceOp>)
    requires Checked(trace, mm, ranges, done)
    ensures mm.mem.Valid() && ranges.Valid() && mm.mem.HeapSize() == Total(Served(done))
    ensures Stacked(ranges.View(), mm.mem.brk)
  {
  }
}
