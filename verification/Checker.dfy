/** What eval_mm_valid of malloclab/mdriver.c decides about a trace, for an arbitrary
    allocator: the allocator is whatever sequence of answers it gave. */
module Checker {
  import opened Layout
  import opened Pointers
  import opened Ranges

  datatype TraceOp =
    | Alloc(index: nat, size: nat)
    | Realloc(index: nat, size: nat)
    | Free(index: nat)

  // ------------------------------------------------------------ traces

  /** The ids allocated in a trace. */
  ghost function Named(ops: seq<TraceOp>): set<nat> {
    if ops == [] then {}
    else
      var before, op := ops[..|ops| - 1], ops[|ops| - 1];
      if op.Free? then Named(before) else Named(before) + {op.index}
  }

  lemma {:induction false} NamedMeans(ops: seq<TraceOp>, id: nat)
    ensures id in Named(ops) <==> exists k :: 0 <= k < |ops| && !ops[k].Free? && ops[k].index == id
  {
    if ops != [] {
      var n := |ops| - 1;
      NamedMeans(ops[..n], id);
      if k :| 0 <= k < n && !ops[..n][k].Free? && ops[..n][k].index == id {
        assert ops[k] == ops[..n][k];
      }
    }
  }

  /** Sizes are positive ints and only ids allocated before are reallocated or freed. */
  ghost predicate OpFits(before: seq<TraceOp>, op: TraceOp, numIds: nat) {
    op.index < numIds
    && (!op.Free? ==> 0 < op.size <= INT_MAX)
    && (!op.Alloc? ==> op.index in Named(before))
  }

  ghost predicate WellFormed(ops: seq<TraceOp>, numIds: nat) {
    forall k :: 0 <= k < |ops| ==> OpFits(ops[..k], ops[k], numIds)
  }

  lemma WellFormedPrefix(ops: seq<TraceOp>, numIds: nat, i: nat)
    requires WellFormed(ops, numIds) && i <= |ops|
    ensures WellFormed(ops[..i], numIds)
  {
    forall k | 0 <= k < i ensures OpFits(ops[..i][..k], ops[..i][k], numIds) {
      assert ops[..i][..k] == ops[..k];
    }
  }

  lemma FitsAt(ops: seq<TraceOp>, numIds: nat, i: nat)
    requires WellFormed(ops, numIds) && i < |ops|
    ensures OpFits(ops[..i], ops[i], numIds)
  {
  }

  lemma OldIdIsNamed(done: seq<TraceOp>, op: TraceOp, numIds: nat)
    requires OpFits(done, op, numIds)
    ensures !op.Alloc? ==> op.index in Named(done)
  {
  }

  /** An id in use and the size of its block. */
  datatype Live = Live(id: nat, size: nat)

  ghost function Without(live: seq<Live>, id: nat): seq<Live> {
    if live == [] then []
    else if live[0].id == id then live[1..]
    else [live[0]] + Without(live[1..], id)
  }

  ghost function LiveStep(live: seq<Live>, op: TraceOp): seq<Live> {
    match op
    case Alloc(id, size) => [Live(id, size)] + live
    case Realloc(id, size) => [Live(id, size)] + Without(live, id)
    case Free(id) => Without(live, id)
  }

  /** The ids in use after a trace, most recently placed first. */
  ghost function LiveIds(ops: seq<TraceOp>): seq<Live> {
    if ops == [] then [] else LiveStep(LiveIds(ops[..|ops| - 1]), ops[|ops| - 1])
  }

  ghost predicate IsLive(live: seq<Live>, id: nat) {
    exists k :: 0 <= k < |live| && live[k].id == id
  }

  /** Only dead ids are allocated, only live ones reallocated or freed. */
  ghost predicate Disciplined(ops: seq<TraceOp>) {
    forall k :: 0 <= k < |ops| ==>
      (if ops[k].Alloc? then !IsLive(LiveIds(ops[..k]), ops[k].index) else IsLive(LiveIds(ops[..k]), ops[k].index))
      && (!ops[k].Free? ==> 0 < ops[k].size)
  }

  // ------------------------------------------------------------ the checker

  /** What an allocator answers to a request: the pointer, the extent of its heap after the
      call, and, from the pointer on, the bytes that the checker then finds there. */
  datatype Answer = Answer(ptr: int, heapLo: int, heapHi: int, data: seq<byte>)

  datatype Extent = Extent(addr: int, size: nat)

  /** The checker's records: the range list and, by id, `blocks` and `block_sizes`. */
  datatype Driver = Driver(ranges: seq<Range>, blocks: map<nat, Extent>)

  datatype Verdict = Rejected | Accepted(driver: Driver)

  /** A byte of memory read through a plain (signed) char. */
  function SignedChar(b: byte): int {
    if b < 128 then b as int else b as int - 256
  }

  /** The `n` bytes found at the new place compare equal with the low byte of the id. */
  predicate Preserved(data: seq<byte>, n: nat, index: nat) {
    n <= |data| && forall j :: 0 <= j < n ==> SignedChar(data[j]) == index % 256
  }

  /** On bytes: ids of low byte below 128 need that very byte throughout, the others always fail. */
  lemma PreservedMeans(data: seq<byte>, n: nat, index: nat)
    ensures index % 256 < 128 ==>
              (Preserved(data, n, index) <==>
               n <= |data| && forall j :: 0 <= j < n ==> data[j] as int == index % 256)
    ensures 128 <= index % 256 ==> (Preserved(data, n, index) <==> n == 0)
  {
    if 0 < n <= |data| && 128 <= index % 256 {
      assert SignedChar(data[0]) < 128;
    }
  }

  /** The record of an id; memory not yet written is left at null. */
  ghost function Known(d: Driver, id: nat): Extent {
    if id in d.blocks then d.blocks[id] else Extent(NULL, 0)
  }

  ghost function Place(ranges: seq<Range>, d: Driver, id: nat, size: nat, a: Answer): Verdict {
    if a.ptr == NULL || !Accepts(ranges, a.ptr, size, a.heapLo, a.heapHi) then Rejected
    else Accepted(Driver([Range(a.ptr, a.ptr + size - 1)] + ranges, d.blocks[id := Extent(a.ptr, size)]))
  }

  ghost function Step(d: Driver, op: TraceOp, a: Answer): Verdict {
    match op
    case Alloc(id, size) => Place(d.ranges, d, id, size, a)
    case Realloc(id, size) =>
      var was := Known(d, id);
      var placed := Place(Remove(d.ranges, was.addr), d, id, size, a);
      if placed.Accepted? && Preserved(a.data, if size < was.size then size else was.size, id)
      then placed else Rejected
    case Free(id) => Accepted(d.(ranges := Remove(d.ranges, Known(d, id).addr)))
  }

  /** The checker's verdict on a trace and the answers it got. */
  ghost function Run(ops: seq<TraceOp>, answers: seq<Answer>): Verdict
    requires |ops| == |answers|
  {
    if ops == [] then Accepted(Driver([], map[]))
    else
      match Run(ops[..|ops| - 1], answers[..|ops| - 1])
      case Rejected => Rejected
      case Accepted(d) => Step(d, ops[|ops| - 1], answers[|ops| - 1])
  }

  /** A trace is accepted only if all its prefixes are. */
  lemma {:induction false} PrefixIsAccepted(ops: seq<TraceOp>, answers: seq<Answer>, k: nat)
    requires |ops| == |answers| && k <= |ops| && Run(ops, answers).Accepted?
    ensures Run(ops[..k], answers[..k]).Accepted?
  {
    if k < |ops| {
      var n := |ops| - 1;
      PrefixIsAccepted(ops[..n], answers[..n], k);
      assert ops[..n][..k] == ops[..k] && answers[..n][..k] == answers[..k];
    } else {
      assert ops[..k] == ops && answers[..k] == answers;
    }
  }

  // ------------------------------------------------------------ true of every allocator

  ghost predicate Sizes(ops: seq<TraceOp>) {
    forall k :: 0 <= k < |ops| && !ops[k].Free? ==> 0 < ops[k].size
  }

  lemma StepKeepsLaminar(d: Driver, op: TraceOp, a: Answer)
    requires Laminar(d.ranges) && (!op.Free? ==> 0 < op.size) && Step(d, op, a).Accepted?
    ensures Laminar(Step(d, op, a).driver.ranges)
  {
    hide Laminar, NoHit, Preserved, Remove;
    var rest := if op.Alloc? then d.ranges else Remove(d.ranges, Known(d, op.index).addr);
    RemoveDropsOne(d.ranges, Known(d, op.index).addr);
    if !op.Free? {
      AddKeepsLaminar(Range(a.ptr, a.ptr + op.size - 1), rest);
    }
  }

  /** The range list of a trace accepted so far is laminar, so its starts are distinct. */
  lemma {:induction false} AcceptedIsLaminar(ops: seq<TraceOp>, answers: seq<Answer>)
    requires |ops| == |answers| && Sizes(ops) && Run(ops, answers).Accepted?
    ensures Laminar(Run(ops, answers).driver.ranges)
  {
    hide Step;
    if ops != [] {
      var n := |ops| - 1;
      AcceptedIsLaminar(ops[..n], answers[..n]);
      StepKeepsLaminar(Run(ops[..n], answers[..n]).driver, ops[n], answers[n]);
    }
  }

  /** For every allocator, the records of an accepted trace are pairwise disjoint if and only if
      none encloses an older one. */
  lemma AcceptedIsDisjoint(ops: seq<TraceOp>, answers: seq<Answer>)
    requires |ops| == |answers| && Sizes(ops) && Run(ops, answers).Accepted?
    ensures var rs := Run(ops, answers).driver.ranges;
            (forall i, j :: 0 <= i < j < |rs| ==> Disjoint(rs[i], rs[j]))
            <==> forall i, j :: 0 <= i < j < |rs| ==> !Encloses(rs[i], rs[j])
  {
    AcceptedIsLaminar(ops, answers);
    var rs := Run(ops, answers).driver.ranges;
    forall i, j | 0 <= i < j < |rs| ensures Disjoint(rs[i], rs[j]) <==> !Encloses(rs[i], rs[j]) {
      HitIsOverlap(rs[i], rs[j]);
    }
  }

  /** `r` is the extent of a live id's block, as the checker's arrays have it. */
  ghost predicate IsExtent(l: Live, r: Range, blocks: map<nat, Extent>) {
    l.id in blocks && blocks[l.id].size == l.size
    && r == Range(blocks[l.id].addr, blocks[l.id].addr + l.size - 1)
  }

  /** The range list holds exactly the extents of the live ids, in their order. */
  ghost predicate Mirrors(live: seq<Live>, d: Driver) {
    |d.ranges| == |live|
    && (forall k :: 0 <= k < |live| ==> IsExtent(live[k], d.ranges[k], d.blocks))
    && (forall j, k :: 0 <= j < k < |live| ==> live[j].id != live[k].id)
  }

  lemma {:induction false} WithoutAt(live: seq<Live>, k: nat)
    requires k < |live| && forall j :: 0 <= j < k ==> live[j].id != live[k].id
    ensures Without(live, live[k].id) == live[..k] + live[k + 1..]
  {
    if k > 0 {
      WithoutAt(live[1..], k - 1);
      assert live[1..][..k - 1] == live[1..k] && live[1..][k..] == live[k + 1..];
      assert live[..k] == [live[0]] + live[1..k];
    }
  }

  /** Removing a live id's record from the list is removing the id. */
  lemma RemoveMirrors(live: seq<Live>, d: Driver, id: nat)
    requires Mirrors(live, d) && Laminar(d.ranges) && IsLive(live, id)
    ensures id in d.blocks
    ensures Mirrors(Without(live, id), d.(ranges := Remove(d.ranges, d.blocks[id].addr)))
    ensures !IsLive(Without(live, id), id)
  {
    var k :| 0 <= k < |live| && live[k].id == id;
    var rs := d.ranges;
    assert IsExtent(live[k], rs[k], d.blocks);
    WithoutAt(live, k);
    forall j | 0 <= j < k ensures rs[j].lo != rs[k].lo {
      LaminarStartsDiffer(rs, j, k);
    }
    RemoveFirst(rs, rs[k].lo, k);
    hide Laminar, Without, Remove;
    DropMirrors(live, d, k);
  }

  lemma DropMirrors(live: seq<Live>, d: Driver, k: nat)
    requires Mirrors(live, d) && k < |live|
    ensures var live' := live[..k] + live[k + 1..];
            Mirrors(live', d.(ranges := d.ranges[..k] + d.ranges[k + 1..]))
            && !IsLive(live', live[k].id)
  {
  }

  /** Adding a record for an id that is not live. */
  lemma PlaceMirrors(live: seq<Live>, d: Driver, id: nat, size: nat, ptr: int)
    requires Mirrors(live, d) && !IsLive(live, id)
    ensures Mirrors([Live(id, size)] + live,
                    Driver([Range(ptr, ptr + size - 1)] + d.ranges, d.blocks[id := Extent(ptr, size)]))
  {
  }

  lemma StepMirrors(live: seq<Live>, d: Driver, op: TraceOp, a: Answer)
    requires Mirrors(live, d) && Laminar(d.ranges)
    requires if op.Alloc? then !IsLive(live, op.index) else IsLive(live, op.index)
    requires Step(d, op, a).Accepted?
    ensures Mirrors(LiveStep(live, op), Step(d, op, a).driver)
  {
    hide Mirrors, Laminar, Accepts, Preserved, IsLive, Without, Remove;
    if op.Alloc? {
      PlaceMirrors(live, d, op.index, op.size, a.ptr);
    } else {
      RemoveMirrors(live, d, op.index);
      if op.Realloc? {
        var rest := d.(ranges := Remove(d.ranges, d.blocks[op.index].addr));
        PlaceMirrors(Without(live, op.index), rest, op.index, op.size, a.ptr);
      }
    }
  }

  lemma LastIsDisciplined(ops: seq<TraceOp>)
    requires Disciplined(ops) && ops != []
    ensures var n := |ops| - 1;
            Disciplined(ops[..n])
            && (if ops[n].Alloc? then !IsLive(LiveIds(ops[..n]), ops[n].index)
                else IsLive(LiveIds(ops[..n]), ops[n].index))
            && (!ops[n].Free? ==> 0 < ops[n].size)
  {
    var n := |ops| - 1;
    assert forall k :: 0 <= k < n ==> ops[..n][..k] == ops[..k];
  }

  /** On a disciplined trace the range list holds exactly the extents of the live ids, most
      recently placed first: for every allocator, after every accepted prefix. */
  lemma {:induction false} RangesAreLiveExtents(ops: seq<TraceOp>, answers: seq<Answer>)
    requires |ops| == |answers| && Disciplined(ops) && Run(ops, answers).Accepted?
    ensures Mirrors(LiveIds(ops), Run(ops, answers).driver)
  {
    hide Step, Laminar, IsLive, LiveStep;
    if ops != [] {
      var n := |ops| - 1;
      LastIsDisciplined(ops);
      RangesAreLiveExtents(ops[..n], answers[..n]);
      AcceptedIsLaminar(ops[..n], answers[..n]);
      StepMirrors(LiveIds(ops[..n]), Run(ops[..n], answers[..n]).driver, ops[n], answers[n]);
    }
  }

  // ------------------------------------------------------------ what acceptance means

  /** By id, where the allocator last placed it, read off its answers alone. */
  ghost function PlacedAt(ops: seq<TraceOp>, answers: seq<Answer>): map<nat, Extent>
    requires |ops| == |answers|
  {
    if ops == [] then map[]
    else
      var n := |ops| - 1;
      var before := PlacedAt(ops[..n], answers[..n]);
      if ops[n].Free? then before else before[ops[n].index := Extent(answers[n].ptr, ops[n].size)]
  }

  /** A new range may be disjoint from a live block or go beyond it at both ends. */
  ghost predicate ClearOf(n: Range, l: Live, at: map<nat, Extent>) {
    l.id in at
    && var r := Range(at[l.id].addr, at[l.id].addr + l.size - 1); Disjoint(n, r) || Encloses(n, r)
  }

  ghost predicate AllClear(n: Range, live: seq<Live>, at: map<nat, Extent>) {
    forall k :: 0 <= k < |live| ==> ClearOf(n, live[k], at)
  }

  /** What the checker asks of an answer, without its records: aligned, inside the heap, clear of
      the live blocks other than the one moved, and the moved bytes read back as the low byte. */
  ghost predicate AnswerOk(live: seq<Live>, at: map<nat, Extent>, op: TraceOp, a: Answer) {
    op.Free? ||
    (a.ptr != NULL && a.ptr % ALIGNMENT == 0
     && a.heapLo <= a.ptr <= a.heapHi && a.heapLo <= a.ptr + op.size - 1 <= a.heapHi
     && AllClear(Range(a.ptr, a.ptr + op.size - 1), if op.Realloc? then Without(live, op.index) else live, at)
     && (op.Realloc? ==>
           op.index in at
           && Preserved(a.data, if op.size < at[op.index].size then op.size else at[op.index].size, op.index)))
  }

  ghost predicate AllOk(ops: seq<TraceOp>, answers: seq<Answer>)
    requires |ops| == |answers|
  {
    forall k :: 0 <= k < |ops| ==>
      AnswerOk(LiveIds(ops[..k]), PlacedAt(ops[..k], answers[..k]), ops[k], answers[k])
  }

  lemma NoHitIsClear(n: Range, live: seq<Live>, d: Driver)
    requires Mirrors(live, d) && n.lo <= n.hi && Laminar(d.ranges)
    ensures NoHit(n, d.ranges) <==> AllClear(n, live, d.blocks)
  {
    forall k | 0 <= k < |live| ensures !Hit(n, d.ranges[k]) <==> ClearOf(n, live[k], d.blocks) {
      assert IsExtent(live[k], d.ranges[k], d.blocks);
      HitIsOverlap(n, d.ranges[k]);
    }
  }

  lemma StepAccepts(live: seq<Live>, d: Driver, op: TraceOp, a: Answer)
    requires Mirrors(live, d) && Laminar(d.ranges) && (!op.Free? ==> 0 < op.size)
    requires if op.Alloc? then !IsLive(live, op.index) else IsLive(live, op.index)
    ensures Step(d, op, a).Accepted? <==> AnswerOk(live, d.blocks, op, a)
    ensures Step(d, op, a).Accepted? ==>
              Step(d, op, a).driver.blocks ==
              if op.Free? then d.blocks else d.blocks[op.index := Extent(a.ptr, op.size)]
  {
    hide Mirrors, Laminar, NoHit, AllClear, Preserved, IsLive, Without, Remove;
    var n := Range(a.ptr, a.ptr + (if op.Free? then 1 else op.size) - 1);
    if op.Alloc? {
      NoHitIsClear(n, live, d);
    } else {
      RemoveMirrors(live, d, op.index);
      RemoveDropsOne(d.ranges, d.blocks[op.index].addr);
      var rest := d.(ranges := Remove(d.ranges, d.blocks[op.index].addr));
      NoHitIsClear(n, Without(live, op.index), rest);
    }
  }

  /** Any allocator, any disciplined trace: the checker accepts exactly the answers that are all
      right, and then its arrays hold where the allocator placed each id. */
  lemma {:induction false} AcceptedIffAllOk(ops: seq<TraceOp>, answers: seq<Answer>)
    requires |ops| == |answers| && Disciplined(ops)
    ensures Run(ops, answers).Accepted? <==> AllOk(ops, answers)
    ensures Run(ops, answers).Accepted? ==> Run(ops, answers).driver.blocks == PlacedAt(ops, answers)
  {
    if ops == [] {
    } else {
      hide Disciplined, Step, AnswerOk, Laminar, Mirrors, AllOk, LiveIds;
      var n := |ops| - 1;
      AllOkStep(ops, answers);
      LastIsDisciplined(ops);
      AcceptedIffAllOk(ops[..n], answers[..n]);
      if Run(ops[..n], answers[..n]).Accepted? {
        RangesAreLiveExtents(ops[..n], answers[..n]);
        AcceptedIsLaminar(ops[..n], answers[..n]);
        StepAccepts(LiveIds(ops[..n]), Run(ops[..n], answers[..n]).driver, ops[n], answers[n]);
      }
    }
  }

  lemma AllOkStep(ops: seq<TraceOp>, answers: seq<Answer>)
    requires |ops| == |answers| && ops != []
    ensures var n := |ops| - 1;
            AllOk(ops, answers) <==>
            AllOk(ops[..n], answers[..n])
            && AnswerOk(LiveIds(ops[..n]), PlacedAt(ops[..n], answers[..n]), ops[n], answers[n])
  {
    hide AnswerOk, LiveIds, PlacedAt;
    var n := |ops| - 1;
    forall k | 0 <= k < n ensures ops[..n][..k] == ops[..k] && answers[..n][..k] == answers[..k] {
    }
  }

  /** An allocator that puts its second block around its first is accepted. */
  lemma OverlapIsAccepted()
    ensures var ops, answers := [Alloc(0, 16), Alloc(1, 64)], [Answer(32, 16, 1039, []), Answer(16, 16, 1039, [])];
            Disciplined(ops)
            && Run(ops, answers).Accepted?
            && LiveIds(ops) == [Live(1, 64), Live(0, 16)]
            && Run(ops, answers).driver.ranges == [Range(16, 79), Range(32, 47)]
            && !Disjoint(Range(16, 79), Range(32, 47))
  {
    var ops, answers := [Alloc(0, 16), Alloc(1, 64)], [Answer(32, 16, 1039, []), Answer(16, 16, 1039, [])];
    assert ops[..1] == [Alloc(0, 16)] && ops[..1][..0] == [] && ops[..0] == [];
    assert answers[..1] == [Answer(32, 16, 1039, [])] && answers[..1][..0] == [];
    assert LiveIds(ops[..1]) == [Live(0, 16)];
    assert Run(ops[..1], answers[..1]).Accepted?;
  }
}
