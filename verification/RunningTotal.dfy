/** The running total of eval_mm_util, in malloclab/mdriver.c, against the bytes in use and the
    range of an int. */
module RunningTotal {
  import opened Layout
  import opened MemLib
  import opened Mm
  import opened Checker
  import opened TraceLayout

  const INT_MIN := -INT_MAX - 1

  // ------------------------------------------------------------ live bytes

  ghost function Bytes(live: seq<Live>): nat {
    if live == [] then 0 else live[0].size + Bytes(live[1..])
  }

  /** The greatest number of bytes in use at the end of any prefix of a trace. */
  ghost function MaxLive(ops: seq<TraceOp>): nat {
    if ops == [] then 0
    else
      var before, now := MaxLive(ops[..|ops| - 1]), Bytes(LiveIds(ops));
      if now > before then now else before
  }

  lemma {:induction false} MaxLiveBounds(ops: seq<TraceOp>, k: nat)
    requires k <= |ops|
    ensures Bytes(LiveIds(ops[..k])) <= MaxLive(ops)
  {
    if k == |ops| {
      assert ops[..k] == ops;
    } else {
      MaxLiveBounds(ops[..|ops| - 1], k);
      assert ops[..|ops| - 1][..k] == ops[..k];
    }
  }

  lemma {:induction false} MaxLiveIsReached(ops: seq<TraceOp>) returns (k: nat)
    ensures k <= |ops| && Bytes(LiveIds(ops[..k])) == MaxLive(ops)
  {
    k := |ops|;
    assert ops[..k] == ops;
    if ops != [] && Bytes(LiveIds(ops)) != MaxLive(ops) {
      k := MaxLiveIsReached(ops[..|ops| - 1]);
      assert ops[..|ops| - 1][..k] == ops[..k];
    }
  }

  lemma {:induction false} BytesWithout(live: seq<Live>, k: nat)
    requires k < |live| && forall j :: 0 <= j < k ==> live[j].id != live[k].id
    ensures Bytes(Without(live, live[k].id)) == Bytes(live) - live[k].size
  {
    if k > 0 {
      BytesWithout(live[1..], k - 1);
    }
  }

  /** `block_sizes` has the sizes of the live ids, each live once. */
  ghost predicate SizesKnown(live: seq<Live>, blocks: map<nat, Extent>) {
    (forall k :: 0 <= k < |live| ==> live[k].id in blocks && blocks[live[k].id].size == live[k].size)
    && (forall j, k :: 0 <= j < k < |live| ==> live[j].id != live[k].id)
  }

  lemma SizesKnownStep(live: seq<Live>, blocks: map<nat, Extent>, op: TraceOp, addr: int)
    requires SizesKnown(live, blocks)
    requires if op.Alloc? then !IsLive(live, op.index) else IsLive(live, op.index)
    ensures !op.Alloc? ==> op.index in blocks
    ensures SizesKnown(LiveStep(live, op), if op.Free? then blocks else blocks[op.index := Extent(addr, op.size)])
    ensures Bytes(LiveStep(live, op)) ==
            Bytes(live) - (if op.Alloc? then 0 else blocks[op.index].size) + (if op.Free? then 0 else op.size)
    ensures !op.Alloc? ==> blocks[op.index].size <= Bytes(live)
  {
    if op.Alloc? {
      LivePlaced(live, blocks, op.index, op.size, addr);
    } else {
      var k :| 0 <= k < |live| && live[k].id == op.index;
      WithoutAt(live, k);
      BytesWithout(live, k);
      LiveDropped(live, blocks, k);
      if op.Realloc? {
        LivePlaced(live[..k] + live[k + 1..], blocks, op.index, op.size, addr);
      }
    }
  }

  lemma LiveDropped(live: seq<Live>, blocks: map<nat, Extent>, k: nat)
    requires SizesKnown(live, blocks) && k < |live|
    ensures SizesKnown(live[..k] + live[k + 1..], blocks) && !IsLive(live[..k] + live[k + 1..], live[k].id)
  {
  }

  lemma LivePlaced(live: seq<Live>, blocks: map<nat, Extent>, id: nat, size: nat, addr: int)
    requires SizesKnown(live, blocks) && !IsLive(live, id)
    ensures SizesKnown([Live(id, size)] + live, blocks[id := Extent(addr, size)])
    ensures Bytes([Live(id, size)] + live) == size + Bytes(live)
  {
  }

  // ------------------------------------------------------------ the running total

  /** `block_sizes` after a trace. */
  ghost function Recorded(ops: seq<TraceOp>): map<nat, nat> {
    if ops == [] then map[]
    else
      var before, op := Recorded(ops[..|ops| - 1]), ops[|ops| - 1];
      if op.Free? then before else before[op.index := op.size]
  }

  /** What eval_mm_util adds to its total for an operation, by the sizes it has recorded. */
  ghost function Gain(sizes: map<nat, nat>, op: TraceOp): int {
    (if op.Free? then 0 else op.size)
    - (if !op.Alloc? && op.index in sizes then sizes[op.index] else 0)
  }

  /** The running total after a trace, over unbounded integers. */
  ghost function Meter(ops: seq<TraceOp>): int {
    if ops == [] then 0
    else Meter(ops[..|ops| - 1]) + Gain(Recorded(ops[..|ops| - 1]), ops[|ops| - 1])
  }

  /** The greatest running total of any prefix. */
  ghost function MaxMeter(ops: seq<TraceOp>): nat {
    if ops == [] then 0
    else
      var before, now := MaxMeter(ops[..|ops| - 1]), Meter(ops);
      if now > before then now else before
  }

  /** The total is an int, if the blocks have fitted the heap so far. */
  ghost predicate FitsNow(ops: seq<TraceOp>) {
    Total(Served(ops)) <= MAX_HEAP ==> INT_MIN <= Meter(ops)
  }

  ghost predicate FitsUpTo(ops: seq<TraceOp>, i: nat)
    requires i <= |ops|
  {
    forall k :: 0 <= k <= i ==> FitsNow(ops[..k])
  }

  /** The total never falls out of a 32-bit int as long as the blocks fit the heap. */
  ghost predicate MeterFits(ops: seq<TraceOp>) {
    FitsUpTo(ops, |ops|)
  }

  lemma FitsStep(ops: seq<TraceOp>, i: nat)
    requires i < |ops|
    ensures FitsUpTo(ops, i + 1) <==> FitsUpTo(ops, i) && FitsNow(ops[..i + 1])
    ensures MeterFits(ops) ==> FitsUpTo(ops, i + 1)
  {
    hide FitsNow;
  }

  /** A trace whose blocks do not fit the heap is cut off there. */
  lemma FitsFrom(ops: seq<TraceOp>, i: nat)
    requires i < |ops| && FitsUpTo(ops, i) && MAX_HEAP < Total(Served(ops[..i + 1]))
    ensures MeterFits(ops)
  {
    hide Total, Served, Meter;
    forall k | i < k <= |ops| ensures FitsNow(ops[..k]) {
      RoomIsClosed(ops[..k], i + 1);
      assert ops[..k][..i + 1] == ops[..i + 1];
    }
  }

  lemma MeterUnfolds(done: seq<TraceOp>, op: TraceOp)
    ensures Meter(done + [op]) == Meter(done) + Gain(Recorded(done), op)
    ensures Recorded(done + [op]) == if op.Free? then Recorded(done) else Recorded(done)[op.index := op.size]
    ensures MaxMeter(done + [op]) == if Meter(done + [op]) > MaxMeter(done) then Meter(done + [op]) else MaxMeter(done)
    ensures Meter(done) <= MaxMeter(done)
  {
    assert (done + [op])[..|done|] == done;
  }

  lemma {:induction false} RecordedAreExtents(base: int, ops: seq<TraceOp>)
    requires base % ALIGNMENT == 0
    ensures Recorded(ops).Keys == Extents(base, ops).Keys
    ensures forall id :: id in Extents(base, ops) ==> Recorded(ops)[id] == Extents(base, ops)[id].size
  {
    if ops != [] {
      var n := |ops| - 1;
      assert ops[..n] + [ops[n]] == ops;
      RecordedAreExtents(base, ops[..n]);
      ExtentsStep(base, ops[..n], ops[n]);
    }
  }

  /** The total and its maximum never exceed the heap taken, whatever the trace. */
  lemma {:induction false} MeterFitsHeap(ops: seq<TraceOp>)
    ensures Meter(ops) <= MaxMeter(ops) <= Total(Served(ops))
  {
    hide Align;
    if ops != [] {
      var n := |ops| - 1;
      MeterFitsHeap(ops[..n]);
      if !ops[n].Free? {
        TotalOfMore(Served(ops[..n]), ops[n].size);
      }
    }
  }

  /** On a disciplined trace the total is the bytes in use, so it never goes below zero. */
  lemma {:induction false} MeterIsLiveBytes(ops: seq<TraceOp>)
    requires Disciplined(ops)
    ensures Meter(ops) == Bytes(LiveIds(ops)) && MaxMeter(ops) == MaxLive(ops)
    ensures SizesKnown(LiveIds(ops), Extents(0, ops))
  {
    hide Disciplined, SizesKnown, Bytes, LiveIds, LiveStep, IsLive, Extents, Recorded;
    if ops == [] {
      NothingLive();
    } else {
      var n := |ops| - 1;
      assert ops[..n] + [ops[n]] == ops;
      LastIsDisciplined(ops);
      MeterIsLiveBytes(ops[..n]);
      TraceStep(0, ops[..n], ops[n]);
      ExtentsStep(0, ops[..n], ops[n]);
      RecordedAreExtents(0, ops[..n]);
      SizesKnownStep(LiveIds(ops[..n]), Extents(0, ops[..n]), ops[n], Total(Served(ops[..n])) + SIZE_T_SIZE);
    }
  }

  lemma NothingLive()
    ensures Bytes(LiveIds([])) == 0 && SizesKnown(LiveIds([]), Extents(0, []))
  {
  }

  lemma {:induction false} DisciplinedMeterFits(ops: seq<TraceOp>)
    requires Disciplined(ops)
    ensures MeterFits(ops)
  {
    hide Disciplined, Total, Served, Meter;
    forall k | 0 <= k <= |ops| ensures 0 <= Meter(ops[..k]) {
      DisciplinedPrefix(ops, k);
      MeterIsLiveBytes(ops[..k]);
    }
  }

  lemma DisciplinedPrefix(ops: seq<TraceOp>, k: nat)
    requires Disciplined(ops) && k <= |ops|
    ensures Disciplined(ops[..k])
  {
    assert forall i :: 0 <= i < k ==> ops[..k][..i] == ops[..i];
  }

  /** What one operation does to the running totals of eval_mm_util. */
  lemma MeterStep(base: int, done: seq<TraceOp>, op: TraceOp)
    requires base % ALIGNMENT == 0 && (!op.Alloc? ==> op.index in Named(done))
    requires op.Free? || Room(Served(done), op.size)
    ensures Meter(done + [op]) == Meter(done)
              - (if op.Alloc? then 0 else Extents(base, done)[op.index].size) + (if op.Free? then 0 else op.size)
    ensures MaxMeter(done + [op]) == if Meter(done + [op]) > MaxMeter(done) then Meter(done + [op]) else MaxMeter(done)
    ensures op.Free? ==> MaxMeter(done + [op]) == MaxMeter(done)
    ensures !op.Free? ==> Meter(done + [op]) <= MAX_HEAP
  {
    hide Extents, Meter, MaxMeter, Recorded, Total, Served, Named;
    MeterUnfolds(done, op);
    RecordedAreExtents(base, done);
    TraceStep(base, done, op);
    if !op.Free? {
      MeterFitsHeap(done + [op]);
      TotalOfMore(Served(done), op.size);
    }
  }

  lemma NothingMetered(ops: seq<TraceOp>)
    ensures Meter([]) == 0 && MaxMeter([]) == 0 && FitsUpTo(ops, 0)
  {
  }

  lemma {:induction false} MaxMeterBounds(ops: seq<TraceOp>, k: nat)
    requires k <= |ops|
    ensures Meter(ops[..k]) <= MaxMeter(ops)
  {
    hide Meter;
    if k == |ops| {
      assert ops[..k] == ops;
      NothingMetered(ops);
    } else {
      MaxMeterBounds(ops[..|ops| - 1], k);
      assert ops[..|ops| - 1][..k] == ops[..k];
    }
  }

  lemma {:induction false} MaxMeterIsReached(ops: seq<TraceOp>) returns (k: nat)
    ensures k <= |ops| && Meter(ops[..k]) == MaxMeter(ops)
  {
    hide Meter;
    k := |ops|;
    assert ops[..k] == ops;
    NothingMetered(ops);
    if ops != [] && Meter(ops) != MaxMeter(ops) {
      k := MaxMeterIsReached(ops[..|ops| - 1]);
      assert ops[..|ops| - 1][..k] == ops[..k];
    }
  }

  // ------------------------------------------------------------ how many frees it takes

  ghost function NumFrees(ops: seq<TraceOp>): nat {
    if ops == [] then 0
    else NumFrees(ops[..|ops| - 1]) + if ops[|ops| - 1].Free? then 1 else 0
  }

  ghost function SizeOf(sizes: map<nat, nat>, id: nat): nat {
    if id in sizes then sizes[id] else 0
  }

  /** The recorded sizes of the ids below `n`, added up. */
  ghost function Sum(sizes: map<nat, nat>, n: nat): nat {
    if n == 0 then 0 else Sum(sizes, n - 1) + SizeOf(sizes, n - 1)
  }

  lemma {:induction false} SumOfMore(sizes: map<nat, nat>, id: nat, size: nat, n: nat)
    ensures Sum(sizes[id := size], n) == Sum(sizes, n) + if id < n then size - SizeOf(sizes, id) else 0
  {
    if n > 0 {
      SumOfMore(sizes, id, size, n - 1);
    }
  }

  lemma {:induction false} SizesFitHeap(ops: seq<TraceOp>)
    ensures forall id :: id in Recorded(ops) ==> Recorded(ops)[id] <= Total(Served(ops))
  {
    hide Align;
    if ops != [] {
      var n := |ops| - 1;
      SizesFitHeap(ops[..n]);
      if !ops[n].Free? {
        TotalOfMore(Served(ops[..n]), ops[n].size);
      }
    }
  }

  /** Only frees can take the total below the recorded sizes, each by the heap taken at most. */
  lemma {:induction false} FreesLowerTheMeter(ops: seq<TraceOp>, numIds: nat)
    requires WellFormed(ops, numIds)
    ensures Sum(Recorded(ops), numIds) <= Meter(ops) + NumFrees(ops) * Total(Served(ops))
  {
    hide Sum, WellFormed, Total, Named, Served, Meter, Recorded, Gain;
    if ops == [] {
      SumOfNothing(numIds);
    } else {
      var n := |ops| - 1;
      assert ops == ops[..n] + [ops[n]];
      WellFormedPrefix(ops, numIds, n);
      FitsAt(ops, numIds, n);
      FreesLowerTheMeter(ops[..n], numIds);
      GainAndSum(ops[..n], ops[n], numIds);
      ProductGrowsBy(NumFrees(ops[..n]), Total(Served(ops[..n])), Total(Served(ops)));
    }
  }

  lemma GainAndSum(before: seq<TraceOp>, op: TraceOp, numIds: nat)
    requires op.index < numIds
    ensures var ops := before + [op];
            Total(Served(before)) <= Total(Served(ops))
            && Sum(Recorded(ops), numIds) - Sum(Recorded(before), numIds) <=
               Meter(ops) - Meter(before) + if op.Free? then Total(Served(ops)) else 0
  {
    hide Sum, Total, Served, Meter, Recorded, Align;
    MeterUnfolds(before, op);
    TraceStep(0, before, op);
    if op.Free? {
      SizesFitHeap(before);
    } else {
      SumOfMore(Recorded(before), op.index, op.size, numIds);
      TotalOfMore(Served(before), op.size);
    }
  }

  lemma SumOfNothing(n: nat)
    ensures Sum(Recorded([]), n) == 0 == Meter([]) && NumFrees([]) == 0
  {
  }

  lemma ProductGrowsBy(f: nat, a: nat, b: nat)
    requires a <= b
    ensures f * a <= f * b
  {
  }

  lemma {:induction false} FreesInPrefix(ops: seq<TraceOp>, k: nat)
    requires k <= |ops|
    ensures NumFrees(ops[..k]) <= NumFrees(ops)
  {
    if k == |ops| {
      assert ops[..k] == ops;
    } else {
      FreesInPrefix(ops[..|ops| - 1], k);
      assert ops[..|ops| - 1][..k] == ops[..k];
    }
  }

  /** With at most 40 frees, whichever ids they name, the total stays in the range of an int. */
  lemma FewFreesFit(ops: seq<TraceOp>, numIds: nat)
    requires WellFormed(ops, numIds) && NumFrees(ops) <= 40
    ensures MeterFits(ops)
  {
    hide WellFormed, NumFrees, Total, Served, Meter, Recorded, Sum;
    forall k | 0 <= k <= |ops| ensures FitsNow(ops[..k]) {
      WellFormedPrefix(ops, numIds, k);
      FreesLowerTheMeter(ops[..k], numIds);
      FreesInPrefix(ops, k);
      if Total(Served(ops[..k])) <= MAX_HEAP {
        ProductGrowsBy(Total(Served(ops[..k])), NumFrees(ops[..k]), 40);
      }
    }
  }

  lemma WhenMeterFits(ops: seq<TraceOp>, numIds: nat)
    requires WellFormed(ops, numIds)
    ensures Disciplined(ops) || NumFrees(ops) <= 40 ==> MeterFits(ops)
  {
    hide WellFormed, Disciplined, NumFrees, MeterFits;
    if NumFrees(ops) <= 40 {
      FewFreesFit(ops, numIds);
    } else if Disciplined(ops) {
      DisciplinedMeterFits(ops);
    }
  }

  /** One block of 52428000 bytes, freed `n` times. */
  ghost function FreedOver(n: nat): seq<TraceOp> {
    if n == 0 then [Alloc(0, 52428000)] else FreedOver(n - 1) + [Free(0)]
  }

  lemma {:induction false} FreedOverMeans(n: nat)
    ensures var ops := FreedOver(n);
            WellFormed(ops, 1) && Named(ops) == {0} && Passes(ops) && NumFrees(ops) == n
            && Served(ops) == [52428000] && Recorded(ops) == map[0 := 52428000]
            && Meter(ops) == 52428000 - 52428000 * n
  {
    hide WellFormed, Named, Passes, NumFrees, Served, Recorded, Meter;
    if n == 0 {
      OneBlock();
    } else {
      FreedOverMeans(n - 1);
      OneMoreFree(FreedOver(n - 1));
    }
  }

  lemma WellFormedMore(ops: seq<TraceOp>, op: TraceOp, numIds: nat)
    requires WellFormed(ops, numIds) && OpFits(ops, op, numIds)
    ensures WellFormed(ops + [op], numIds)
  {
    hide OpFits;
    assert forall k :: 0 <= k <= |ops| ==> (ops + [op])[..k] == ops[..k];
  }

  lemma OneBlock()
    ensures var ops := [Alloc(0, 52428000)];
            WellFormed(ops, 1) && Named(ops) == {0} && Passes(ops) && NumFrees(ops) == 0
            && Served(ops) == [52428000] && Recorded(ops) == map[0 := 52428000] && Meter(ops) == 52428000
  {
    hide WellFormed, Meter, Recorded, Total, Served, Named, NumFrees;
    var op := TraceOp.Alloc(0, 52428000);
    assert [] + [op] == [op] && [op][..0] == [] && [] + [52428000] == [52428000];
    NothingLaid(0);
    NothingFreed();
    WellFormedMore([], op, 1);
    MeterUnfolds([], op);
    TraceStep(0, [], op);
    TotalOfMore([], 52428000);
  }

  lemma NothingFreed()
    ensures Meter([]) == 0 && Recorded([]) == map[] && Named([]) == {}
    ensures WellFormed([], 1) && NumFrees([Alloc(0, 52428000)]) == 0
  {
    assert [Alloc(0, 52428000)][..0] == [];
  }

  lemma OneMoreFree(ops: seq<TraceOp>)
    requires WellFormed(ops, 1) && Named(ops) == {0} && Passes(ops) && 0 in Recorded(ops)
    ensures var ops' := ops + [Free(0)];
            WellFormed(ops', 1) && Named(ops') == {0} && Passes(ops') && NumFrees(ops') == NumFrees(ops) + 1
            && Served(ops') == Served(ops) && Recorded(ops') == Recorded(ops)
            && Meter(ops') == Meter(ops) - Recorded(ops)[0]
  {
    hide WellFormed;
    WellFormedMore(ops, Free(0), 1);
    MeterUnfolds(ops, Free(0));
    TraceStep(0, ops, Free(0));
    assert (ops + [Free(0)])[..|ops|] == ops;
  }

  /** A trace that the validity replay passes and whose total leaves the range of an int. */
  lemma DoubleFreesOverflow()
    ensures WellFormed(FreedOver(42), 1) && Passes(FreedOver(42)) && !MeterFits(FreedOver(42))
  {
    hide FreedOver, WellFormed, Meter;
    FreedOverMeans(42);
    assert FreedOver(42)[..|FreedOver(42)|] == FreedOver(42);
    assert !FitsNow(FreedOver(42));
  }

  /** With 41 frees a trace can get there too: a realloc takes the size off once more. */
  ghost function FreedAndMoved(): seq<TraceOp> {
    FreedOver(41) + [Realloc(0, 1)]
  }

  lemma FortyOneFreesOverflow()
    ensures var ops := FreedAndMoved();
            WellFormed(ops, 1) && Passes(ops) && NumFrees(ops) == 41 && !MeterFits(ops)
  {
    hide FreedOver, WellFormed, Passes, Meter, Recorded, Total, Served, Named;
    var before, op := FreedOver(41), TraceOp.Realloc(0, 1);
    var ops := FreedAndMoved();
    assert ops[..|before|] == before && ops[..|ops|] == ops;
    FreedOverMeans(41);
    WellFormedMore(before, op, 1);
    MeterUnfolds(before, op);
    TraceStep(0, before, op);
    TotalOfTwo();
    PassesStep(ops, |before|);
    assert !FitsNow(ops);
  }

  lemma TotalOfTwo()
    ensures Room([52428000], 1) && Total([52428000] + [1]) <= MAX_HEAP
  {
    TotalOfMore([], 52428000);
    TotalOfMore([52428000], 1);
    assert [] + [52428000] == [52428000];
  }

  /** Every trace that passes with at most `n` frees keeps its total in the range of an int if
      and only if `n` is at most 40. */
  lemma FreesDecide(n: nat)
    ensures (forall ops, numIds :: WellFormed(ops, numIds) && Passes(ops) && NumFrees(ops) <= n ==> MeterFits(ops))
            <==> n <= 40
  {
    hide WellFormed, Passes, NumFrees, MeterFits, FreedAndMoved;
    forall ops, numIds | WellFormed(ops, numIds) && NumFrees(ops) <= 40 ensures MeterFits(ops) {
      FewFreesFit(ops, numIds);
    }
    FortyOneFreesOverflow();
  }
}
