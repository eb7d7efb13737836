/** What eval_mm_valid decides about whatever answers as malloclab/mm.c does. */
module MmVerdict {
  import opened Layout
  import opened MemLib
  import opened Pointers
  import opened Mm
  import opened Ranges
  import opened Checker
  import opened TraceLayout

  ghost function DriverOf(rs: seq<Range>, base: int, done: seq<TraceOp>): Driver {
    Driver(rs, Extents(base, done))
  }

  // ------------------------------------------------------------ mm.c's answers

  ghost predicate LowBytes(data: seq<byte>, n: int, id: nat) {
    n <= |data| && forall j :: 0 <= j < n ==> data[j] as int == id % 256
  }

  /** How mm.c, after the operations `before`, answers `op`: with room, the pointer laid out for
      the block, the heap up to the block's end and, for a realloc, the low bytes of the id where
      the old payload was copied; without, NULL and the heap as it was. */
  ghost predicate MmAnswer(base: int, before: seq<TraceOp>, op: TraceOp, a: Answer) {
    a.heapLo == base
    && if op.Free? || !Room(Served(before), op.size)
       then a.ptr == NULL && a.heapHi == base + Total(Served(before)) - 1
       else a.ptr == base + Total(Served(before)) + SIZE_T_SIZE
            && a.heapHi == base + Total(Served(before)) + Align(op.size + SIZE_T_SIZE) - 1
            && (op.Realloc? ==>
                  op.index in Named(before) && LowBytes(a.data, Overlap(base, before, op.index, op.size), op.index))
  }

  ghost predicate MmAnswers(base: int, ops: seq<TraceOp>, answers: seq<Answer>) {
    |answers| <= |ops| && forall k :: 0 <= k < |answers| ==> MmAnswer(base, ops[..k], ops[k], answers[k])
  }

  /** The checker's verdicts, on the state a replay over mm.c is in. */
  lemma AllocVerdict(rs: seq<Range>, base: int, done: seq<TraceOp>, id: nat, size: nat, a: Answer)
    requires base % ALIGNMENT == 0
    requires a.ptr == NULL || a.ptr == base + Total(Served(done)) + SIZE_T_SIZE
    ensures Step(DriverOf(rs, base, done), Alloc(id, size), a) ==
            if a.ptr != NULL && Accepts(rs, a.ptr, size, a.heapLo, a.heapHi)
            then Accepted(DriverOf([Range(a.ptr, a.ptr + size - 1)] + rs, base, done + [Alloc(id, size)]))
            else Rejected
  {
    hide Extents, Total, Served, Accepts;
    ExtentsStep(base, done, Alloc(id, size));
  }

  lemma ReallocVerdict(rs: seq<Range>, base: int, done: seq<TraceOp>, id: nat, size: nat, a: Answer)
    requires base % ALIGNMENT == 0 && id in Named(done)
    requires a.ptr == NULL || a.ptr == base + Total(Served(done)) + SIZE_T_SIZE
    ensures var rest := Remove(rs, Extents(base, done)[id].addr);
            Step(DriverOf(rs, base, done), Realloc(id, size), a) ==
            if a.ptr != NULL && Accepts(rest, a.ptr, size, a.heapLo, a.heapHi)
               && Preserved(a.data, Overlap(base, done, id, size), id)
            then Accepted(DriverOf([Range(a.ptr, a.ptr + size - 1)] + rest, base, done + [Realloc(id, size)]))
            else Rejected
  {
    hide Extents, Total, Served, Named, Accepts, Preserved, Remove;
    ExtentsStep(base, done, Realloc(id, size));
  }

  lemma StepDecides(rs: seq<Range>, base: int, before: seq<TraceOp>, op: TraceOp, a: Answer, numIds: nat)
    requires 0 < base && base % ALIGNMENT == 0
    requires OpFits(before, op, numIds) && MmAnswer(base, before, op, a)
    requires Stacked(rs, base + Total(Served(before)))
    requires op.index in Named(before) ==> 0 < Extents(base, before)[op.index].size
    ensures var v := Step(DriverOf(rs, base, before), op, a);
            (v.Accepted? <==> (op.Free? || Room(Served(before), op.size)) && (op.Realloc? ==> op.index % 256 < 128))
            && (v.Accepted? ==>
                  v.driver == DriverOf(v.driver.ranges, base, before + [op])
                  && Stacked(v.driver.ranges, base + Total(Served(before + [op]))))
  {
    hide Extents, Total, Served, Named, Accepts, Preserved, Remove, Stacked, Room, Overlap, Align;
    var brk := base + Total(Served(before));
    TraceStep(base, before, op);
    if !op.Alloc? {
      RemoveIsStacked(rs, Extents(base, before)[op.index].addr, brk);
    }
    if op.Free? {
      ExtentsStep(base, before, op);
    } else {
      AnswerDecides(rs, base, before, op, a);
      TotalOfMore(Served(before), op.size);
      if Room(Served(before), op.size) {
        var rest := if op.Alloc? then rs else Remove(rs, Extents(base, before)[op.index].addr);
        AlignedSum(base, before);
        FreshIsAccepted(rest, brk, a.ptr, op.size, base, brk + Align(op.size + SIZE_T_SIZE));
        if op.Realloc? {
          OverlapIsPositive(base, before, op.index, op.size);
          PreservedIfSmall(a.data, Overlap(base, before, op.index, op.size), op.index);
        }
      }
    }
  }

  lemma AnswerDecides(rs: seq<Range>, base: int, before: seq<TraceOp>, op: TraceOp, a: Answer)
    requires base % ALIGNMENT == 0 && !op.Free? && MmAnswer(base, before, op, a)
    requires op.Realloc? ==> op.index in Named(before)
    ensures var rest := if op.Alloc? then rs else Remove(rs, Extents(base, before)[op.index].addr);
            Step(DriverOf(rs, base, before), op, a) ==
            if a.ptr != NULL && Accepts(rest, a.ptr, op.size, a.heapLo, a.heapHi)
               && (op.Realloc? ==> Preserved(a.data, Overlap(base, before, op.index, op.size), op.index))
            then Accepted(DriverOf([Range(a.ptr, a.ptr + op.size - 1)] + rest, base, before + [op]))
            else Rejected
  {
    hide Extents, Total, Served, Named, Accepts, Preserved, Remove, Room, Step, DriverOf, Overlap, Align;
    if op.Alloc? {
      AllocVerdict(rs, base, before, op.index, op.size, a);
    } else {
      ReallocVerdict(rs, base, before, op.index, op.size, a);
    }
  }

  lemma MmAnswersLast(base: int, ops: seq<TraceOp>, answers: seq<Answer>)
    requires |answers| == |ops| && ops != [] && MmAnswers(base, ops, answers)
    ensures var n := |ops| - 1;
            MmAnswers(base, ops[..n], answers[..n]) && MmAnswer(base, ops[..n], ops[n], answers[n])
  {
    hide MmAnswer;
    var n := |ops| - 1;
    assert forall k :: 0 <= k < n ==> ops[..n][..k] == ops[..k];
  }

  /** Whatever answers as mm.c does is accepted on exactly the traces that `Passes`. */
  lemma {:induction false} MmAnswersDecide(base: int, ops: seq<TraceOp>, answers: seq<Answer>, numIds: nat)
    requires 0 < base && base % ALIGNMENT == 0 && WellFormed(ops, numIds)
    requires |answers| == |ops| && MmAnswers(base, ops, answers)
    ensures Run(ops, answers).Accepted? <==> Passes(ops)
    ensures Run(ops, answers).Accepted? ==>
              var d := Run(ops, answers).driver;
              d == DriverOf(d.ranges, base, ops) && Stacked(d.ranges, base + Total(Served(ops)))
  {
    hide Passes, Step, MmAnswers, MmAnswer, WellFormed, OpFits, Extents, Stacked, DriverOf, Room, Served, Total, Align;
    NothingLaid(base);
    NothingDone(base);
    if ops == [] {
      assert answers == [];
    } else {
      var n := |ops| - 1;
      assert ops[..n + 1] == ops;
      MmAnswersLast(base, ops, answers);
      WellFormedPrefix(ops, numIds, n);
      FitsAt(ops, numIds, n);
      PassesStep(ops, n);
      MmAnswersDecide(base, ops[..n], answers[..n], numIds);
      ExtentsAreInts(base, ops[..n], numIds);
      if Run(ops[..n], answers[..n]).Accepted? {
        StepDecides(Run(ops[..n], answers[..n]).driver.ranges, base, ops[..n], ops[n], answers[n], numIds);
      }
    }
  }

  /** A block of an id whose low byte is 128, reallocated once. */
  ghost function ReallocOf128(): seq<TraceOp> {
    [Alloc(128, 1), Realloc(128, 1)]
  }

  lemma ReallocOf128Prefixes()
    ensures ReallocOf128()[..0] == [] && ReallocOf128()[..1] == [Alloc(128, 1)]
    ensures Named([Alloc(128, 1)]) == {128} && LiveIds([]) == [] && LiveIds([Alloc(128, 1)]) == [Live(128, 1)]
  {
    assert [Alloc(128, 1)][..0] == [];
  }

  lemma ReallocOf128IsFair()
    ensures WellFormed(ReallocOf128(), 129) && Disciplined(ReallocOf128())
  {
    ReallocOf128Prefixes();
    hide Named, LiveIds;
    assert LiveIds([Alloc(128, 1)])[0].id == 128;
  }

  /** A trace that is fair, fits the heap and leaves all data intact, and is rejected: the low
      byte of its id is not a signed char. */
  lemma SignedCharRejects()
    ensures WellFormed(ReallocOf128(), 129) && Disciplined(ReallocOf128())
    ensures Total(Served(ReallocOf128())) <= MAX_HEAP && !Passes(ReallocOf128())
  {
    hide WellFormed, Disciplined, Served, Total;
    ReallocOf128IsFair();
    NothingLaid(0);
    TraceStep(0, [], Alloc(128, 1));
    TraceStep(0, [Alloc(128, 1)], Realloc(128, 1));
    TotalOfMore([], 1);
    TotalOfMore([1], 1);
    assert [] + [Alloc(128, 1)] == [Alloc(128, 1)] && [Alloc(128, 1)] + [Realloc(128, 1)] == ReallocOf128();
    assert [] + [1] == [1];
    assert ReallocOf128()[1].Realloc? && ReallocOf128()[1].index % 256 == 128;
  }

  /** Does `answers` carry the pointers that `ptrs` lists? */
  ghost predicate Carries(answers: seq<Answer>, ptrs: seq<int>) {
    |answers| == |ptrs| && forall k :: 0 <= k < |ptrs| ==> answers[k].ptr == ptrs[k]
  }

  lemma MmAnswersStep(base: int, ops: seq<TraceOp>, answers: seq<Answer>, a: Answer)
    requires MmAnswers(base, ops, answers) && |answers| < |ops|
    requires MmAnswer(base, ops[..|answers|], ops[|answers|], a)
    ensures MmAnswers(base, ops, answers + [a])
  {
  }

  lemma MmAnswerPtr(base: int, before: seq<TraceOp>, op: TraceOp, a: Answer)
    requires MmAnswer(base, before, op, a)
    ensures op.Free? || Room(Served(before), op.size) ==>
              a.ptr == if op.Free? then NULL else base + Total(Served(before)) + SIZE_T_SIZE
  {
  }

  lemma CarriesStep(answers: seq<Answer>, ptrs: seq<int>, a: Answer)
    requires Carries(answers, ptrs)
    ensures Carries(answers + [a], ptrs + [a.ptr])
  {
  }

  lemma RunStep(done: seq<TraceOp>, answers: seq<Answer>, op: TraceOp, a: Answer)
    requires |done| == |answers|
    ensures Run(done + [op], answers + [a]) ==
            match Run(done, answers) case Rejected => Rejected case Accepted(d) => Step(d, op, a)
  {
  }

  lemma NothingDone(base: int)
    ensures Run([], []) == Accepted(DriverOf([], base, [])) && DriverOf([], base, []).ranges == []
    ensures (forall ops :: MmAnswers(base, ops, [])) && Carries([], [])
  {
    NothingLaid(base);
  }
}
