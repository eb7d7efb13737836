/** The main loop of malloclab/mdriver.c over the traces: all three replays. */
module Evaluate {
  import opened Layout
  import opened MemLib
  import opened Mm
  import opened Ranges
  import opened Checker
  import opened TraceLayout
  import opened RunningTotal
  import opened MmVerdict
  import opened Replay
  import opened ReplayValid
  import opened ReplayUtil
  import opened ReplaySpeed

  lemma UtilizationIsAtMostOne(u: Utilization)
    requires u.Ratio? && 0 <= u.maxTotal <= u.heapSize && u.heapSize != 0
    ensures 0.0 <= u.Value() <= 1.0
  {
  }

  /** The driver on one trace. Where the validity replay accepts, the utilisation replay fails
      only by overflow of its running total; where that does not happen, the speed replay cannot
      exit, all three get the same pointer from every operation and end with the same heap size. */
  method EvaluateTrace(trace: Trace, mm: Mm, ranges: RangeList)
    returns (valid: bool, util: Utilization, exit: bool,
             ghost answers: seq<Answer>, ghost utilPtrs: seq<int>, ghost speedPtrs: seq<int>)
    requires trace.Valid() && mm.mem.Valid() && ranges.Valid() && WellFormed(trace.ops, trace.numIds)
    modifies mm, mm.mem`brk, mm.mem.bytes, ranges, ranges.repr, trace.blocks, trace.blockSizes
    ensures valid <==> Passes(trace.ops)
    ensures valid ==> !util.Exit? && (util.Overflow? <==> !MeterFits(trace.ops))
    ensures valid && (Disciplined(trace.ops) || NumFrees(trace.ops) <= 40) ==> util.Ratio?
    ensures util.Ratio? ==> valid && !exit
    ensures util.Ratio? ==> Carries(answers, utilPtrs) && utilPtrs == speedPtrs
    ensures util.Ratio? ==> Stacked(ranges.View(), mm.mem.brk)
    ensures util.Ratio? ==> util.maxTotal == MaxMeter(trace.ops)
    ensures util.Ratio? && Disciplined(trace.ops) ==>
              Mirrors(LiveIds(trace.ops), DriverOf(ranges.View(), mm.mem.startBrk, trace.ops))
              && util.maxTotal == MaxLive(trace.ops)
    ensures util.Ratio? ==> util.heapSize == mm.mem.HeapSize() == Total(Served(trace.ops))
    ensures util.Ratio? && util.heapSize != 0 ==>
              0.0 <= util.Value() <= 1.0
              && util.Value() * Total(Served(trace.ops)) as real == MaxMeter(trace.ops) as real
    ensures util.Ratio? && util.heapSize != 0 && Disciplined(trace.ops) ==>
              util.Value() * Total(Served(trace.ops)) as real == MaxLive(trace.ops) as real
    ensures mm.mem.Valid() && ranges.Valid() && fresh(ranges.repr - old(ranges.repr))
  {
    hide Checked, Total, Served, Addresses, DriverOf, RangeList.Valid, MaxLive, MaxMeter, MeterFits, NumFrees,
      WellFormed, Disciplined, Carries, MmAnswers, Mirrors, LiveIds, Stacked, Run, RangesOf;
    valid, answers := EvalMmValid(trace, mm, ranges);
    util, exit, utilPtrs, speedPtrs := Exit, true, [], [];
    if valid {
      PassesFits(trace.ops);
      assert trace.ops[..|answers|] == trace.ops;
      if Disciplined(trace.ops) {
        RangesAreLiveExtents(trace.ops, answers);
      }
      CheckedMeans(trace, mm, ranges, trace.ops);
      util, utilPtrs := EvalMmUtil(trace, mm);
      if util.Ratio? {
        if util.heapSize != 0 {
          UtilizationIsAtMostOne(util);
        }
        exit, speedPtrs := EvalMmSpeed(trace, mm);
      }
    }
  }

  /** A trace file: its operations and its number of ids. */
  datatype Job = Job(ops: seq<TraceOp>, numIds: nat)

  ghost predicate Overflowing(job: Job) {
    Passes(job.ops) && !MeterFits(job.ops)
  }

  /** The driver's loop over all traces, on one heap and one range list that are reused: every
      verdict depends on its own trace only. It stops at the first trace that passes and then
      overflows the running total; there is none where every trace is disciplined or has at most
      40 frees. */
  method EvaluateAll(base: int, jobs: seq<Job>) returns (valids: seq<bool>, overflow: bool)
    requires 0 < base && base % ALIGNMENT == 0
    requires forall i :: 0 <= i < |jobs| ==> WellFormed(jobs[i].ops, jobs[i].numIds)
    ensures |valids| <= |jobs| && forall i :: 0 <= i < |valids| ==> (valids[i] <==> Passes(jobs[i].ops))
    ensures overflow <==> exists i :: 0 <= i < |jobs| && Overflowing(jobs[i])
    ensures if overflow
            then 0 < |valids| && Overflowing(jobs[|valids| - 1])
                 && forall i :: 0 <= i < |valids| - 1 ==> !Overflowing(jobs[i])
            else |valids| == |jobs|
    ensures (forall i :: 0 <= i < |jobs| ==> Disciplined(jobs[i].ops) || NumFrees(jobs[i].ops) <= 40) ==> !overflow
  {
    hide RangeList.Valid, WellFormed, MeterFits, Disciplined, Passes, Total, Served, MaxLive, MaxMeter, Carries,
      NumFrees;
    var mem := new Mem.MemInit(base);
    var mm := new Mm(mem);
    var ranges := new RangeList();
    valids := [];
    for i := 0 to |jobs|
      invariant mm.mem == mem && mem.Valid() && ranges.Valid()
      invariant fresh(mm) && fresh(mem) && fresh(mem.bytes) && fresh(ranges) && fresh(ranges.repr)
      invariant |valids| == i
      invariant forall k :: 0 <= k < i ==> (valids[k] <==> Passes(jobs[k].ops)) && !Overflowing(jobs[k])
    {
      var trace := new Trace(jobs[i].ops, jobs[i].numIds);
      var valid, util, exit;
      ghost var answers, utilPtrs, speedPtrs;
      valid, util, exit, answers, utilPtrs, speedPtrs := EvaluateTrace(trace, mm, ranges);
      valids := valids + [valid];
      if valid && util.Overflow? {
        WhenMeterFits(jobs[i].ops, jobs[i].numIds);
        return valids, true;
      }
    }
    overflow := false;
  }
}
